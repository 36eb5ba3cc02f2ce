/**
 Growable `kmalloc` buffers as the filesystem uses them (src/kernel/fs.c:236-270, 535-564), and who owns them.

 `heap` maps every live `kmalloc` pointer to its bytes.  The supply lists the results of coming `kmalloc` calls (0, an
 exhausted list or a pointer that is still live stands for failure) and keeps a ledger of every pointer handed out,
 every byte stored and every `kfree`, so that a second free or a stray store shows.
 */
module Buffers {

  const FS_MAX_FILE_SIZE: nat := 0x1_0000
  const GARBAGE: char := '\U{100}'  // no byte at all: what nobody has stored yet

  type Heap = map<nat, seq<char>>

  /** A pointer (0 for NULL) with the bytes in use and the bytes allocated. */
  datatype Buf = Buf(ptr: nat, len: nat, cap: nat)

  const EMPTY: Buf := Buf(0, 0, 0)

  datatype HeapCall = Allocated(ptr: nat, size: nat) | Freed(ptr: nat) | Stored(ptr: nat, off: nat, value: char)

  /** The allocator as the filesystem sees it: what coming `kmalloc` calls return, and all calls and stores so far. */
  datatype Supply = Supply(coming: seq<nat>, ledger: seq<HeapCall>)

  datatype Result = Result(ok: bool, heap: Heap, buf: Buf, supply: Supply)

  // ---------- capacities ----------

  /** 256 doubled up to eight times. */
  predicate IsCap(c: nat)
  {
    c == 256 || c == 512 || c == 1024 || c == 2048 || c == 4096 || c == 8192 || c == 16384 || c == 32768 || c == 65536
  }

  function Doubled(c: nat, need: nat): nat
    requires c > 0
    decreases need - c
  {
    if c >= need then c else Doubled(2 * c, need)
  }

  function NewCap(cap: nat, need: nat): nat
  {
    var c := Doubled(if cap == 0 then 256 else cap, need);
    if c > FS_MAX_FILE_SIZE then FS_MAX_FILE_SIZE else c
  }

  lemma {:induction false} DoublingStops(c: nat, need: nat)
    requires IsCap(c) && need <= FS_MAX_FILE_SIZE
    ensures IsCap(Doubled(c, need)) && need <= Doubled(c, need)
    ensures c < need ==> Doubled(c, need) < 2 * need
    decreases need - c
  {
    if c < need {
      assert IsCap(2 * c);
      DoublingStops(2 * c, need);
    }
  }

  /** A capacity is always 256 times a power of two up to 65536: the clamp never cuts below what is needed. */
  lemma NewCapIsEnough(cap: nat, need: nat)
    requires (cap == 0 || IsCap(cap)) && need <= FS_MAX_FILE_SIZE
    ensures IsCap(NewCap(cap, need)) && NewCap(cap, need) >= need
    ensures NewCap(cap, need) == Doubled(if cap == 0 then 256 else cap, need)
  {
    DoublingStops(if cap == 0 then 256 else cap, need);
  }

  // ---------- buffer operations ----------

  function NextPointer(heap: Heap, supply: Supply): nat
  {
    if supply.coming == [] || supply.coming[0] in heap then 0 else supply.coming[0]
  }

  /** The supply after a `kmalloc` of `size` bytes that returned `p`. */
  function Allocate(supply: Supply, p: nat, size: nat): Supply
  {
    Supply(if supply.coming == [] then [] else supply.coming[1..],
           if p == 0 then supply.ledger else supply.ledger + [Allocated(p, size)])
  }

  /** The supply after `if (p) kfree(p)`. */
  function Free(supply: Supply, p: nat): Supply
  {
    if p == 0 then supply else supply.(ledger := supply.ledger + [Freed(p)])
  }

  /** The supply after `data` is stored byte by byte from offset `off` of buffer `p` on. */
  function Store(supply: Supply, p: nat, off: nat, data: seq<char>): Supply
  {
    supply.(ledger := supply.ledger + Stores(p, off, data))
  }

  function Stores(p: nat, off: nat, data: seq<char>): seq<HeapCall>
  {
    if data == [] then []
    else
      var n := |data| - 1;
      Stores(p, off, data[..n]) + [Stored(p, off + n, data[n])]
  }

  function Fill(n: nat): (s: seq<char>)
    ensures |s| == n
  {
    seq(n, _ => GARBAGE)
  }

  ghost predicate BufOk(heap: Heap, b: Buf)
  {
    && b.len <= b.cap
    && (b.ptr == 0 <==> b.cap == 0)
    && (b.ptr != 0 ==> b.ptr in heap && |heap[b.ptr]| == b.cap && IsCap(b.cap))
  }

  /** The bytes a buffer holds. */
  function Content(heap: Heap, b: Buf): seq<char>
  {
    if b.ptr in heap && b.len <= |heap[b.ptr]| then heap[b.ptr][..b.len] else []
  }

  /** Bytes `data` stored at offset `off` of a buffer's memory. */
  function StoreAt(heap: Heap, ptr: nat, off: nat, data: seq<char>): Heap
  {
    if data == [] || ptr !in heap || off + |data| > |heap[ptr]| then heap
    else heap[ptr := heap[ptr][..off] + data + heap[ptr][off + |data|..]]
  }

  /** A pointer that may be passed to `kfree`, after the test for NULL. */
  predicate Live(heap: Heap, b: Buf) { b.ptr == 0 || b.ptr in heap }

  /** After an operation on `b`: its buffer is live, it stayed or moved to a fresh pointer, and no other has died. */
  ghost predicate Spares(heap: Heap, b: Buf, heap': Heap, b': Buf)
  {
    && Live(heap', b')
    && (b'.ptr == b.ptr || b'.ptr !in heap)
    && forall p :: p in heap && p != b.ptr ==> p in heap'
  }

  /** Room for `need` bytes, the first `keep` of them kept: a larger buffer replaces a smaller one, which is freed. */
  function Reserve(heap: Heap, b: Buf, keep: nat, need: nat, supply: Supply): (r: Result)
    requires Live(heap, b)
    ensures Spares(heap, b, r.heap, r.buf)
  {
    if need <= b.cap then Result(true, heap, b, supply)
    else
      var cap, p := NewCap(b.cap, need), NextPointer(heap, supply);
      if p == 0 then Result(false, heap, b, Allocate(supply, 0, cap))
      else
        var kept := if b.ptr in heap && keep <= |heap[b.ptr]| then heap[b.ptr][..keep] else [];
        var bytes := if |kept| <= cap then kept + Fill(cap - |kept|) else kept;
        Result(true, Release(heap, b)[p := bytes], Buf(p, b.len, cap),
               Free(Store(Allocate(supply, p, cap), p, 0, kept), b.ptr))
  }

  /** `fs_set_file_data`: `data` goes behind the first `keep` bytes. */
  function Put(heap: Heap, b: Buf, keep: nat, data: seq<char>, supply: Supply): (r: Result)
    requires Live(heap, b)
    ensures Spares(heap, b, r.heap, r.buf)
  {
    if keep + |data| > FS_MAX_FILE_SIZE then Result(false, heap, b, supply)
    else
      var r := Reserve(heap, b, keep, keep + |data|, supply);
      if !r.ok then r
      else
        Result(true, StoreAt(r.heap, r.buf.ptr, keep, data), r.buf.(len := keep + |data|),
               Store(r.supply, r.buf.ptr, keep, data))
  }

  /** `edit_buf_append`, and `fs_set_file_data` in append mode. */
  function Append(heap: Heap, b: Buf, data: seq<char>, supply: Supply): Result
    requires Live(heap, b)
  {
    Put(heap, b, b.len, data, supply)
  }

  /** `fs_set_file_data` in overwrite mode. */
  function Overwrite(heap: Heap, b: Buf, data: seq<char>, supply: Supply): Result
    requires Live(heap, b)
  {
    Put(heap, b, 0, data, supply)
  }

  /** `kfree` of the buffer, if there is one. */
  function Release(heap: Heap, b: Buf): Heap
    requires Live(heap, b)
  {
    heap - {b.ptr}
  }

  // ---------- what an operation on one buffer may do ----------

  /** Only this buffer's memory changes; it may move to a fresh pointer, and then its old one is freed. */
  ghost predicate Local(heap: Heap, b: Buf, heap': Heap, b': Buf)
  {
    && BufOk(heap', b')
    && (b'.ptr == b.ptr || b'.ptr == 0 || b'.ptr !in heap)
    && (forall p :: p != b.ptr && p != b'.ptr ==> (p in heap' <==> p in heap) && (p in heap ==> heap'[p] == heap[p]))
    && (b.ptr != b'.ptr ==> b.ptr !in heap')
  }

  /** A successful reservation: room for `need`, the first `keep` bytes as before, nothing else touched. */
  ghost predicate Reserved(heap: Heap, b: Buf, keep: nat, need: nat, r: Result)
  {
    && 0 !in r.heap && r.buf.cap >= need && (r.buf.ptr == 0 <==> r.buf.cap == 0)
    && (r.buf.ptr == b.ptr || r.buf.ptr !in heap)
    && (r.buf.ptr != 0 ==> r.buf.ptr in r.heap && |r.heap[r.buf.ptr]| == r.buf.cap && IsCap(r.buf.cap))
    && (r.buf.ptr != 0 && b.ptr in heap && keep <= |heap[b.ptr]| && keep <= r.buf.cap ==>
          r.heap[r.buf.ptr][..keep] == heap[b.ptr][..keep])
    && (forall p :: p != b.ptr && p != r.buf.ptr ==>
          (p in r.heap <==> p in heap) && (p in heap ==> r.heap[p] == heap[p]))
    && (b.ptr != r.buf.ptr ==> b.ptr !in r.heap)
  }

  lemma ReserveKeeps(heap: Heap, b: Buf, keep: nat, need: nat, supply: Supply)
    requires BufOk(heap, b) && 0 !in heap && keep <= b.len && keep <= need <= FS_MAX_FILE_SIZE
    ensures var r := Reserve(heap, b, keep, need, supply);
      if r.ok then Reserved(heap, b, keep, need, r) else r.heap == heap && r.buf == b
  {
    if need > b.cap { NewCapIsEnough(b.cap, need); }
  }

  lemma StoreAtReads(heap: Heap, ptr: nat, off: nat, data: seq<char>)
    requires ptr in heap && off + |data| <= |heap[ptr]|
    ensures var h := StoreAt(heap, ptr, off, data);
      && h.Keys == heap.Keys && |h[ptr]| == |heap[ptr]| && h[ptr][..off + |data|] == heap[ptr][..off] + data
      && forall p :: p in heap && p != ptr ==> h[p] == heap[p]
  {
    assert data == [] ==> heap[ptr][..off] + data == heap[ptr][..off];
  }

  /** Storing `data` after the first `keep` bytes of a buffer with room for it. */
  lemma StoreCompletes(heap: Heap, b: Buf, keep: nat, data: seq<char>, r: Result, h: Heap, b': Buf)
    requires BufOk(heap, b) && 0 !in heap && keep <= b.len && Reserved(heap, b, keep, keep + |data|, r)
    requires h == StoreAt(r.heap, r.buf.ptr, keep, data) && b' == r.buf.(len := keep + |data|)
    ensures 0 !in h && Local(heap, b, h, b') && Content(h, b') == Content(heap, b)[..keep] + data
  {
    if r.buf.ptr != 0 {
      StoreAtReads(r.heap, r.buf.ptr, keep, data);
      assert keep > 0 ==> Content(heap, b)[..keep] == heap[b.ptr][..keep];
    }
  }

  /** A success leaves the first `keep` bytes followed by the data; a failure changes nothing. */
  lemma PutPuts(heap: Heap, b: Buf, keep: nat, data: seq<char>, supply: Supply, r: Result)
    requires BufOk(heap, b) && 0 !in heap && keep <= b.len && r == Put(heap, b, keep, data, supply)
    ensures 0 !in r.heap && (!r.ok ==> r.heap == heap && r.buf == b)
    ensures r.ok ==> Local(heap, b, r.heap, r.buf) && Content(r.heap, r.buf) == Content(heap, b)[..keep] + data
  {
    if keep + |data| <= FS_MAX_FILE_SIZE {
      ReserveKeeps(heap, b, keep, keep + |data|, supply);
      var t := Reserve(heap, b, keep, keep + |data|, supply);
      if t.ok { StoreCompletes(heap, b, keep, data, t, r.heap, r.buf); }
    }
  }

  /** A successful append makes the contents old ++ data; a failed one changes nothing. */
  lemma AppendAppends(heap: Heap, b: Buf, data: seq<char>, supply: Supply)
    requires BufOk(heap, b) && 0 !in heap
    ensures var r := Append(heap, b, data, supply);
      && 0 !in r.heap
      && (!r.ok ==> r.heap == heap && r.buf == b)
      && (r.ok ==> Local(heap, b, r.heap, r.buf) && Content(r.heap, r.buf) == Content(heap, b) + data)
  {
    PutPuts(heap, b, b.len, data, supply, Append(heap, b, data, supply));
    assert Content(heap, b)[..b.len] == Content(heap, b);
  }

  /** A successful write makes the contents equal the data; a failed one changes nothing. */
  lemma OverwriteWrites(heap: Heap, b: Buf, data: seq<char>, supply: Supply)
    requires BufOk(heap, b) && 0 !in heap
    ensures var r := Overwrite(heap, b, data, supply);
      && 0 !in r.heap
      && (!r.ok ==> r.heap == heap && r.buf == b)
      && (r.ok ==> Local(heap, b, r.heap, r.buf) && Content(r.heap, r.buf) == data)
  {
    PutPuts(heap, b, 0, data, supply, Overwrite(heap, b, data, supply));
    assert Content(heap, b)[..0] + data == data;
  }

  lemma ReleaseFrees(heap: Heap, b: Buf)
    requires BufOk(heap, b) && 0 !in heap
    ensures Local(heap, b, Release(heap, b), EMPTY) && 0 !in Release(heap, b)
  {}

  lemma ReleaseNothing(heap: Heap)
    requires 0 !in heap
    ensures Release(heap, EMPTY) == heap
  {}

  // ---------- the ledger ----------

  /** What is handed out is not live, what is freed is, and what is stored lies inside a live buffer. */
  predicate Legal(heap: Heap, c: HeapCall)
  {
    match c
    case Allocated(p, size) => p != 0 && p !in heap && size <= FS_MAX_FILE_SIZE
    case Freed(p) => p != 0 && p in heap
    case Stored(p, off, _) => p in heap && off < |heap[p]|
  }

  function Effect(heap: Heap, c: HeapCall): Heap
  {
    match c
    case Allocated(p, size) => heap[p := Fill(size)]
    case Freed(p) => heap - {p}
    case Stored(p, off, value) => StoreAt(heap, p, off, [value])
  }

  /** The live buffers and their bytes after all the calls and stores of a ledger. */
  function Replay(ledger: seq<HeapCall>): Heap
  {
    if ledger == [] then map[]
    else Effect(Replay(ledger[..|ledger| - 1]), ledger[|ledger| - 1])
  }

  /** Every entry was legal when it was made. */
  ghost predicate InOrder(ledger: seq<HeapCall>)
  {
    forall n :: 0 <= n < |ledger| ==> LegalAt(ledger, n)
  }

  ghost predicate LegalAt(ledger: seq<HeapCall>, n: nat)
    requires n < |ledger|
  {
    Legal(Replay(ledger[..n]), ledger[n])
  }

  /** The ledger is in order, and accounts for the live buffers and every byte in them. */
  ghost predicate Accounts(heap: Heap, supply: Supply)
  {
    InOrder(supply.ledger) && heap == Replay(supply.ledger)
  }

  lemma Enter(heap: Heap, ledger: seq<HeapCall>, c: HeapCall)
    requires InOrder(ledger) && heap == Replay(ledger) && Legal(heap, c)
    ensures InOrder(ledger + [c]) && Effect(heap, c) == Replay(ledger + [c])
  {
    var ledger' := ledger + [c];
    assert ledger'[..|ledger|] == ledger;
    forall n | 0 <= n < |ledger'| ensures LegalAt(ledger', n) {
      if n < |ledger| { assert LegalAt(ledger, n) && ledger'[..n] == ledger[..n]; }
    }
  }

  lemma AllocationAccounts(heap: Heap, supply: Supply, p: nat, size: nat)
    requires Accounts(heap, supply) && p != 0 && p !in heap && size <= FS_MAX_FILE_SIZE
    ensures Accounts(heap[p := Fill(size)], Allocate(supply, p, size))
  {
    Enter(heap, supply.ledger, Allocated(p, size));
  }

  lemma FreeAccounts(heap: Heap, supply: Supply, b: Buf)
    requires Accounts(heap, supply) && Live(heap, b) && 0 !in heap
    ensures Accounts(Release(heap, b), Free(supply, b.ptr))
  {
    if b.ptr == 0 {
      assert Release(heap, b) == heap;
    } else {
      Enter(heap, supply.ledger, Freed(b.ptr));
    }
  }

  lemma {:induction false} StoreAccounts(heap: Heap, supply: Supply, p: nat, off: nat, data: seq<char>)
    requires Accounts(heap, supply) && (data != [] ==> p in heap && off + |data| <= |heap[p]|)
    ensures Accounts(StoreAt(heap, p, off, data), Store(supply, p, off, data))
    decreases |data|
  {
    if data == [] {
      assert supply.ledger + [] == supply.ledger;
    } else {
      var n := |data| - 1;
      StoreAccounts(heap, supply, p, off, data[..n]);
      var front := StoreAt(heap, p, off, data[..n]);
      LastStore(heap, p, off, data, front);
      StoresGrow(supply, p, off, data);
      OneMoreByte(front, Store(supply, p, off, data[..n]), p, off + n, data[n]);
    }
  }

  lemma OneMoreByte(heap: Heap, supply: Supply, p: nat, off: nat, value: char)
    requires Accounts(heap, supply) && p in heap && off < |heap[p]|
    ensures Accounts(StoreAt(heap, p, off, [value]), supply.(ledger := supply.ledger + [Stored(p, off, value)]))
  {
    Enter(heap, supply.ledger, Stored(p, off, value));
  }

  lemma StoresGrow(supply: Supply, p: nat, off: nat, data: seq<char>)
    requires data != []
    ensures var n := |data| - 1;
      var front := Store(supply, p, off, data[..n]);
      Store(supply, p, off, data) == front.(ledger := front.ledger + [Stored(p, off + n, data[n])])
  {}

  lemma LastStore(heap: Heap, p: nat, off: nat, data: seq<char>, front: Heap)
    requires data != [] && p in heap && off + |data| <= |heap[p]| && front == StoreAt(heap, p, off, data[..|data| - 1])
    ensures var n := |data| - 1;
      p in front && |front[p]| == |heap[p]| && StoreAt(heap, p, off, data) == StoreAt(front, p, off + n, [data[n]])
  {
    var n := |data| - 1;
    var whole := StoreAt(front, p, off + n, [data[n]]);
    assert whole[p] == heap[p][..off] + data + heap[p][off + |data|..];
  }

  /** Growing with a pointer to be had: the kept bytes and filler at the new pointer, the old one gone. */
  lemma ReserveMoves(heap: Heap, b: Buf, keep: nat, need: nat, supply: Supply, p: nat, cap: nat, kept: seq<char>,
                     r: Result)
    requires BufOk(heap, b) && 0 !in heap && r == Reserve(heap, b, keep, need, supply) && need > b.cap
    requires keep <= b.len && keep <= need <= FS_MAX_FILE_SIZE && cap == NewCap(b.cap, need)
    requires p == NextPointer(heap, supply) != 0 && kept == if b.ptr in heap then heap[b.ptr][..keep] else []
    ensures |kept| <= cap <= FS_MAX_FILE_SIZE && r.ok && r.heap == Release(heap, b)[p := kept + Fill(cap - |kept|)]
    ensures r.supply == Free(Store(Allocate(supply, p, cap), p, 0, kept), b.ptr)
  {
    NewCapIsEnough(b.cap, need);
  }

  lemma ReserveAccounts(heap: Heap, b: Buf, keep: nat, need: nat, supply: Supply, r: Result)
    requires Accounts(heap, supply) && BufOk(heap, b) && 0 !in heap && r == Reserve(heap, b, keep, need, supply)
    requires keep <= b.len && keep <= need <= FS_MAX_FILE_SIZE
    ensures Accounts(r.heap, r.supply)
  {
    var p := NextPointer(heap, supply);
    if need > b.cap && p != 0 {
      var cap, kept := NewCap(b.cap, need), if b.ptr in heap then heap[b.ptr][..keep] else [];
      ReserveMoves(heap, b, keep, need, supply, p, cap, kept, r);
      MoveAccounts(heap, b, supply, p, cap, kept);
    }
  }

  /** A buffer moves to a fresh pointer: one allocation, the bytes that are kept, and one free of the old pointer if
      there is one. */
  lemma MoveAccounts(heap: Heap, b: Buf, supply: Supply, p: nat, cap: nat, kept: seq<char>)
    requires Accounts(heap, supply) && Live(heap, b) && 0 !in heap && p != 0 && p !in heap
    requires |kept| <= cap <= FS_MAX_FILE_SIZE
    ensures Accounts(Release(heap, b)[p := kept + Fill(cap - |kept|)],
                     Free(Store(Allocate(supply, p, cap), p, 0, kept), b.ptr))
  {
    var heap1, supply1 := heap[p := Fill(cap)], Allocate(supply, p, cap);
    AllocationAccounts(heap, supply, p, cap);
    CopyOver(heap1, p, cap, kept);
    StoreAccounts(heap1, supply1, p, 0, kept);
    MovedFree(heap, b, p, kept + Fill(cap - |kept|), StoreAt(heap1, p, 0, kept), Store(supply1, p, 0, kept));
  }

  lemma MovedFree(heap: Heap, b: Buf, p: nat, bytes: seq<char>, heap': Heap, supply': Supply)
    requires Live(heap, b) && 0 !in heap && p != 0 && p !in heap
    requires heap' == heap[p := bytes] && Accounts(heap', supply')
    ensures Accounts(Release(heap, b)[p := bytes], Free(supply', b.ptr))
  {
    FreeAccounts(heap', supply', b);
    assert Release(heap', b) == Release(heap, b)[p := bytes];
  }

  lemma CopyOver(heap: Heap, p: nat, cap: nat, kept: seq<char>)
    requires p in heap && heap[p] == Fill(cap) && |kept| <= cap
    ensures StoreAt(heap, p, 0, kept) == heap[p := kept + Fill(cap - |kept|)]
  {
    assert Fill(cap)[..0] + kept + Fill(cap)[|kept|..] == kept + Fill(cap - |kept|);
    assert kept == [] ==> kept + Fill(cap - |kept|) == Fill(cap);
  }

  lemma PutAccounts(heap: Heap, b: Buf, keep: nat, data: seq<char>, supply: Supply, r: Result)
    requires Accounts(heap, supply) && BufOk(heap, b) && 0 !in heap && keep <= b.len
    requires r == Put(heap, b, keep, data, supply)
    ensures Accounts(r.heap, r.supply)
  {
    if keep + |data| <= FS_MAX_FILE_SIZE {
      var t := Reserve(heap, b, keep, keep + |data|, supply);
      ReserveKeeps(heap, b, keep, keep + |data|, supply);
      ReserveAccounts(heap, b, keep, keep + |data|, supply, t);
      if t.ok { StoreAccounts(t.heap, t.supply, t.buf.ptr, keep, data); }
    }
  }

  // ---------- counting allocations and frees ----------

  /** Allocations of `p` minus frees of `p`. */
  function Balance(ledger: seq<HeapCall>, p: nat): int
  {
    if ledger == [] then 0
    else
      var last := ledger[|ledger| - 1];
      Balance(ledger[..|ledger| - 1], p) + (if last.ptr != p || last.Stored? then 0 else if last.Freed? then -1 else 1)
  }

  /** At any moment a pointer's account is 1 if it is live and 0 otherwise: no buffer is freed twice, and none is handed
      out while live. */
  lemma {:induction false} AccountIsZeroOrOne(ledger: seq<HeapCall>, n: nat, p: nat)
    requires InOrder(ledger) && n <= |ledger|
    ensures Balance(ledger[..n], p) == if p in Replay(ledger[..n]) then 1 else 0
  {
    if n > 0 {
      assert ledger[..n][..n - 1] == ledger[..n - 1];
      assert LegalAt(ledger, n - 1);
      AccountIsZeroOrOne(ledger, n - 1, p);
    }
  }

  // ---------- ownership ----------

  /** Every live pointer has exactly one owner among the slots, and every slot's buffer is live. */
  ghost predicate Owned(heap: Heap, slots: seq<Buf>)
  {
    && 0 !in heap
    && (forall o :: 0 <= o < |slots| ==> BufOk(heap, slots[o]))
    && (forall o, q :: 0 <= o < q < |slots| && slots[o].ptr != 0 ==> slots[o].ptr != slots[q].ptr)
    && (forall p :: p in heap ==> HasOwner(slots, p))
  }

  ghost predicate HasOwner(slots: seq<Buf>, p: nat) { exists o :: 0 <= o < |slots| && slots[o].ptr == p }

  /** An operation on one slot keeps ownership exact and leaves every other slot's contents alone. */
  lemma SlotUpdated(heap: Heap, slots: seq<Buf>, o: nat, heap': Heap, b': Buf)
    requires Owned(heap, slots) && o < |slots| && Local(heap, slots[o], heap', b') && 0 !in heap'
    ensures Owned(heap', slots[o := b'])
    ensures forall q :: 0 <= q < |slots| && q != o ==> Content(heap', slots[q]) == Content(heap, slots[q])
  {
    var slots' := slots[o := b'];
    forall q | 0 <= q < |slots| && q != o
      ensures BufOk(heap', slots[q]) && Content(heap', slots[q]) == Content(heap, slots[q])
      ensures slots[q].ptr != 0 ==> slots[q].ptr != b'.ptr
    {
      SlotKept(heap, slots, o, heap', b', q);
    }
    forall p | p in heap' ensures HasOwner(slots', p) {
      assert p == b'.ptr || (p in heap && p != slots[o].ptr);
      OwnerFound(heap, slots, o, b', p);
    }
  }

  lemma SlotKept(heap: Heap, slots: seq<Buf>, o: nat, heap': Heap, b': Buf, q: nat)
    requires Owned(heap, slots) && o < |slots| && q < |slots| && q != o && Local(heap, slots[o], heap', b')
    requires 0 !in heap'
    ensures BufOk(heap', slots[q]) && Content(heap', slots[q]) == Content(heap, slots[q])
    ensures slots[q].ptr != 0 ==> slots[q].ptr != b'.ptr
  {
    assert BufOk(heap, slots[q]);
    var i, j := if q < o then q else o, if q < o then o else q;
    assert slots[i].ptr != 0 ==> slots[i].ptr != slots[j].ptr;
    OtherSlotKept(heap, slots[o], heap', b', slots[q]);
  }

  lemma OtherSlotKept(heap: Heap, b: Buf, heap': Heap, b': Buf, other: Buf)
    requires Local(heap, b, heap', b') && BufOk(heap, other) && (other.ptr != 0 ==> other.ptr != b.ptr)
    requires 0 !in heap && 0 !in heap'
    ensures BufOk(heap', other) && Content(heap', other) == Content(heap, other)
    ensures other.ptr != 0 ==> other.ptr != b'.ptr
  {}

  lemma OwnerFound(heap: Heap, slots: seq<Buf>, o: nat, b': Buf, p: nat)
    requires (forall p :: p in heap ==> HasOwner(slots, p)) && o < |slots|
    requires p == b'.ptr || (p in heap && p != slots[o].ptr)
    ensures HasOwner(slots[o := b'], p)
  {
    var slots' := slots[o := b'];
    if p == b'.ptr {
      assert slots'[o].ptr == p;
    } else {
      assert HasOwner(slots, p);
      var q :| 0 <= q < |slots| && slots[q].ptr == p;
      assert slots'[q].ptr == p;
    }
  }
}
