/**
 The kernel heap as bytes (src/kernel/memory.c:313-381).

 A block is a 12-byte header (`next`, `size`, `free`, 32-bit little-endian words) followed by its payload.
 Headers and client data share one memory.  `blocks` is the block list that the headers spell out; the
 predicate `Represents` says that walking the headers in memory yields exactly that list.
 */
module HeapModel {

  const HEAP_START: nat := 0xE000_0000
  const HEAP_SIZE: nat := 0x0400_0000
  const HEAP_END: nat := HEAP_START + HEAP_SIZE
  const HEADER: nat := 12
  const NULL: nat := 0

  type Byte = x: int | 0 <= x < 256

  datatype Block = Block(addr: nat, size: nat, free: bool) {
    function Payload(): nat { addr + HEADER }
    function End(): nat { addr + HEADER + size }
  }

  // ---------- memory words ----------

  ghost predicate InHeap(a: int, n: int) { HEAP_START <= a && 0 <= n && a + n <= HEAP_END }

  /** The value of a little-endian byte string. */
  function LittleEndian(s: seq<Byte>): nat
  {
    if s == [] then 0 else var low: int := s[0]; low + 256 * LittleEndian(s[1..])
  }

  /** The 32-bit word at address `a`. */
  function Load(m: seq<Byte>, a: int): nat
    requires |m| == HEAP_SIZE && InHeap(a, 4)
  {
    LittleEndian(m[a - HEAP_START..a - HEAP_START + 4])
  }

  /** `m'` differs from `m` at most in the `n` bytes from address `a`. */
  ghost predicate SameOutside(m: seq<Byte>, m': seq<Byte>, a: int, n: int)
  {
    |m| == |m'| && forall o :: 0 <= o < |m| && !(a <= HEAP_START + o < a + n) ==> m'[o] == m[o]
  }

  // ---------- block lists ----------

  function NextAddr(B: seq<Block>, i: nat, last: nat): nat
    requires i < |B|
  {
    if i + 1 < |B| then B[i + 1].addr else last
  }

  /** Block `i` ends where the next one starts, and the last one ends with the heap. */
  ghost predicate Adjacent(B: seq<Block>, i: nat)
    requires i < |B|
  {
    B[i].End() == NextAddr(B, i, HEAP_END)
  }

  /** The blocks cover the heap exactly, each starting where the previous one ends. */
  ghost predicate Tiling(B: seq<Block>)
  {
    && |B| > 0
    && B[0].addr == HEAP_START
    && forall i :: 0 <= i < |B| ==> Adjacent(B, i)
  }

  ghost predicate HeaderIs(m: seq<Byte>, b: Block, next: nat)
    requires |m| == HEAP_SIZE
  {
    && InHeap(b.addr, HEADER)
    && Load(m, b.addr) == next
    && Load(m, b.addr + 4) == b.size
    && Load(m, b.addr + 8) == (if b.free then 1 else 0)
  }

  /** The header in memory at block `i` is that block's, and links to its successor. */
  ghost predicate HeaderAt(m: seq<Byte>, B: seq<Block>, i: nat)
    requires |m| == HEAP_SIZE && i < |B|
  {
    HeaderIs(m, B[i], NextAddr(B, i, NULL))
  }

  ghost predicate Represents(m: seq<Byte>, B: seq<Block>)
  {
    && |m| == HEAP_SIZE
    && Tiling(B)
    && forall i :: 0 <= i < |B| ==> HeaderAt(m, B, i)
  }

  ghost function PayloadBytes(m: seq<Byte>, b: Block): seq<Byte>
    requires |m| == HEAP_SIZE && InHeap(b.addr, HEADER + b.size)
  {
    m[b.Payload() - HEAP_START .. b.End() - HEAP_START]
  }

  lemma {:induction false} Ordered(B: seq<Block>, i: nat, j: nat)
    requires Tiling(B) && i < j < |B|
    ensures B[i].End() <= B[j].addr
    decreases j - i
  {
    assert Adjacent(B, i);
    if i + 1 < j {
      Ordered(B, i + 1, j);
    }
  }

  lemma Bounds(B: seq<Block>, i: nat)
    requires Tiling(B) && i < |B|
    ensures InHeap(B[i].addr, HEADER + B[i].size)
  {
    if i > 0 { Ordered(B, 0, i); }
    assert Adjacent(B, |B| - 1);
    if i + 1 < |B| { Ordered(B, i, |B| - 1); }
  }

  function TotalBytes(B: seq<Block>): nat
  {
    if B == [] then 0 else TotalBytes(B[..|B| - 1]) + HEADER + B[|B| - 1].size
  }

  lemma {:induction false} TotalOfPrefix(B: seq<Block>, n: nat)
    requires Tiling(B) && n < |B|
    ensures HEAP_START + TotalBytes(B[..n + 1]) == B[n].End()
  {
    assert B[..n + 1][..n] == B[..n];
    if n > 0 {
      TotalOfPrefix(B, n - 1);
      assert Adjacent(B, n - 1);
    }
  }

  /** Headers and payloads together account for every byte of the heap. */
  lemma TilingIsExact(B: seq<Block>)
    requires Tiling(B)
    ensures TotalBytes(B) == HEAP_SIZE
    ensures forall i, j :: 0 <= i < j < |B| ==> B[i].End() <= B[j].addr && B[i].addr < B[j].addr
  {
    TotalOfPrefix(B, |B| - 1);
    assert B[..|B|] == B;
    assert Adjacent(B, |B| - 1);
    forall i, j | 0 <= i < j < |B| ensures B[i].End() <= B[j].addr {
      Ordered(B, i, j);
    }
  }

  /** The block list is nothing but what the header words say: memory determines it. */
  lemma ListDeterminedByMemory(m: seq<Byte>, B: seq<Block>, C: seq<Block>)
    requires Represents(m, B) && Represents(m, C)
    ensures B == C
  {
    var n := if |B| < |C| then |B| else |C|;
    PrefixDeterminedByMemory(m, B, C, n - 1);
    assert HeaderAt(m, B, n - 1);
    assert HeaderAt(m, C, n - 1);
    if |B| < |C| {
      Bounds(C, |B|);
      assert false;
    }
    if |C| < |B| {
      Bounds(B, |C|);
      assert false;
    }
    forall i | 0 <= i < n ensures B[i] == C[i] {
      PrefixDeterminedByMemory(m, B, C, i);
    }
  }

  lemma {:induction false} PrefixDeterminedByMemory(m: seq<Byte>, B: seq<Block>, C: seq<Block>, i: nat)
    requires Represents(m, B) && Represents(m, C) && i < |B| && i < |C|
    ensures B[i] == C[i]
  {
    if i > 0 {
      PrefixDeterminedByMemory(m, B, C, i - 1);
      assert Adjacent(B, i - 1);
      assert Adjacent(C, i - 1);
    }
    assert HeaderAt(m, B, i);
    assert HeaderAt(m, C, i);
  }

  // ---------- kmalloc ----------

  /** `(size + 15) & ~15` on 32-bit unsigned values (memory.c:335); the sum wraps above 0xFFFFFFF0. */
  function Round16(size: nat): nat { (size + 15) % 0x1_0000_0000 / 16 * 16 }

  ghost predicate Fits(b: Block, need: nat) { b.free && b.size >= need }

  /** Block `k` is the first smallest fitting block among the first `n`. */
  ghost predicate BestFitIn(B: seq<Block>, n: nat, need: nat, k: nat)
    requires n <= |B|
  {
    && k < n && Fits(B[k], need)
    && (forall j :: 0 <= j < n && Fits(B[j], need) ==> B[k].size <= B[j].size)
    && (forall j :: 0 <= j < k && Fits(B[j], need) ==> B[k].size < B[j].size)
  }

  ghost predicate NoFitIn(B: seq<Block>, n: nat, need: nat)
    requires n <= |B|
  {
    forall j :: 0 <= j < n ==> !Fits(B[j], need)
  }

  predicate Splits(b: Block, need: nat) { b.size > need + HEADER + 16 }

  function MallocBlocks(B: seq<Block>, k: nat, need: nat): seq<Block>
    requires k < |B| && Fits(B[k], need)
  {
    var b := B[k];
    if Splits(b, need) then
      B[..k] + [Block(b.addr, need, false), Block(b.addr + HEADER + need, b.size - need - HEADER, true)] + B[k + 1..]
    else
      B[k := b.(free := false)]
  }

  /** What one successful `kmalloc` does to memory: it rewrites the header of the chosen block and, when it
      splits, the header of the remainder; no other byte changes. */
  ghost predicate MallocEffect(m: seq<Byte>, m': seq<Byte>, B: seq<Block>, k: nat, need: nat)
    requires Represents(m, B) && k < |B| && Fits(B[k], need)
  {
    var C := MallocBlocks(B, k, need);
    && |m'| == HEAP_SIZE
    && HeaderAt(m', C, k)
    && (Splits(B[k], need) ==> HeaderAt(m', C, k + 1))
    && forall o :: 0 <= o < HEAP_SIZE
         && !(C[k].addr <= HEAP_START + o < C[k].Payload())
         && !(Splits(B[k], need) && C[k + 1].addr <= HEAP_START + o < C[k + 1].Payload())
         ==> m'[o] == m[o]
  }

  lemma HeaderKept(m: seq<Byte>, m': seq<Byte>, b: Block, next: nat)
    requires |m| == |m'| == HEAP_SIZE && HeaderIs(m, b, next)
    requires forall o :: 0 <= o < HEAP_SIZE && b.addr <= HEAP_START + o < b.Payload() ==> m'[o] == m[o]
    ensures HeaderIs(m', b, next)
  {
    var i := b.addr - HEAP_START;
    assert m'[i..i + 4] == m[i..i + 4];
    assert m'[i + 4..i + 8] == m[i + 4..i + 8];
    assert m'[i + 8..i + 12] == m[i + 8..i + 12];
  }

  /** A block none of whose bytes changed keeps its header and its payload. */
  lemma BlockKept(m: seq<Byte>, m': seq<Byte>, b: Block, next: nat)
    requires |m| == |m'| == HEAP_SIZE
    requires InHeap(b.addr, HEADER + b.size) && HeaderIs(m, b, next)
    requires forall o :: 0 <= o < HEAP_SIZE && b.addr <= HEAP_START + o < b.End() ==> m'[o] == m[o]
    ensures HeaderIs(m', b, next)
    ensures PayloadBytes(m', b) == PayloadBytes(m, b)
  {
    HeaderKept(m, m', b, next);
  }

  lemma Apart(B: seq<Block>, i: nat, k: nat)
    requires Tiling(B) && i < |B| && k < |B| && i != k
    ensures InHeap(B[i].addr, HEADER + B[i].size) && InHeap(B[k].addr, HEADER + B[k].size)
    ensures B[i].End() <= B[k].addr || B[k].End() <= B[i].addr
  {
    Bounds(B, i);
    Bounds(B, k);
    if i < k { Ordered(B, i, k); } else { Ordered(B, k, i); }
  }

  lemma MallocTiles(B: seq<Block>, k: nat, need: nat)
    requires Tiling(B) && k < |B| && Fits(B[k], need)
    ensures Tiling(MallocBlocks(B, k, need))
  {
    var C := MallocBlocks(B, k, need);
    forall i | 0 <= i < |C| ensures Adjacent(C, i) {
      if Splits(B[k], need) && i > k {
        assert Adjacent(B, i - 1);
      } else {
        assert Adjacent(B, i);
      }
    }
  }

  lemma MallocKeepsOther(m: seq<Byte>, m': seq<Byte>, B: seq<Block>, k: nat, need: nat, i: nat)
    requires Represents(m, B) && k < |B| && Fits(B[k], need) && i < |B| && i != k
    requires MallocEffect(m, m', B, k, need)
    ensures InHeap(B[i].addr, HEADER + B[i].size)
    ensures HeaderIs(m', B[i], NextAddr(B, i, NULL))
    ensures PayloadBytes(m', B[i]) == PayloadBytes(m, B[i])
  {
    Apart(B, i, k);
    assert HeaderAt(m, B, i);
    BlockKept(m, m', B[i], NextAddr(B, i, NULL));
  }

  lemma MallocKeepsHeap(m: seq<Byte>, m': seq<Byte>, B: seq<Block>, k: nat, need: nat)
    requires Represents(m, B) && k < |B| && Fits(B[k], need)
    requires MallocEffect(m, m', B, k, need)
    ensures Represents(m', MallocBlocks(B, k, need))
  {
    var C := MallocBlocks(B, k, need);
    MallocTiles(B, k, need);
    forall i | 0 <= i < |C| ensures HeaderAt(m', C, i) {
      if i < k {
        MallocKeepsOther(m, m', B, k, need, i);
      } else if i > (if Splits(B[k], need) then k + 1 else k) {
        MallocKeepsOther(m, m', B, k, need, if Splits(B[k], need) then i - 1 else i);
      }
    }
  }

  // ---------- kfree ----------

  function FreeBlocks(B: seq<Block>, k: nat): seq<Block>
    requires k < |B|
  {
    if k + 1 < |B| && B[k + 1].free then
      B[..k] + [Block(B[k].addr, B[k].size + HEADER + B[k + 1].size, true)] + B[k + 2..]
    else
      B[k := B[k].(free := true)]
  }

  /** What `kfree` of block `k` does to memory: only that block's header changes. */
  ghost predicate FreeEffect(m: seq<Byte>, m': seq<Byte>, B: seq<Block>, k: nat)
    requires Represents(m, B) && k < |B|
  {
    var C := FreeBlocks(B, k);
    && SameOutside(m, m', B[k].addr, HEADER)
    && HeaderAt(m', C, k)
  }

  lemma FreeTiles(B: seq<Block>, k: nat)
    requires Tiling(B) && k < |B|
    ensures Tiling(FreeBlocks(B, k))
  {
    var C := FreeBlocks(B, k);
    forall i | 0 <= i < |C| ensures Adjacent(C, i) {
      assert Adjacent(B, i);
      if k + 1 < |B| && B[k + 1].free && i >= k {
        assert Adjacent(B, i + 1);
      }
    }
  }

  lemma FreeKeepsOther(m: seq<Byte>, m': seq<Byte>, B: seq<Block>, k: nat, i: nat)
    requires Represents(m, B) && k < |B| && i < |B| && i != k && FreeEffect(m, m', B, k)
    ensures InHeap(B[i].addr, HEADER + B[i].size)
    ensures HeaderIs(m', B[i], NextAddr(B, i, NULL))
    ensures PayloadBytes(m', B[i]) == PayloadBytes(m, B[i])
  {
    Apart(B, i, k);
    assert HeaderAt(m, B, i);
    BlockKept(m, m', B[i], NextAddr(B, i, NULL));
  }

  /** The old position of what is block `i` once block `k` is freed. */
  function BeforeFree(B: seq<Block>, k: nat, i: nat): nat
    requires k < |B|
  {
    if k + 1 < |B| && B[k + 1].free && i > k then i + 1 else i
  }

  lemma FreeShifts(B: seq<Block>, k: nat, i: nat)
    requires k < |B| && i < |FreeBlocks(B, k)| && i != k
    ensures var j := BeforeFree(B, k, i);
      j < |B| && j != k && FreeBlocks(B, k)[i] == B[j] && NextAddr(FreeBlocks(B, k), i, NULL) == NextAddr(B, j, NULL)
  {}

  lemma FreeKeepsHeader(m: seq<Byte>, m': seq<Byte>, B: seq<Block>, k: nat, i: nat)
    requires Represents(m, B) && k < |B| && FreeEffect(m, m', B, k) && i < |FreeBlocks(B, k)| && |m'| == HEAP_SIZE
    ensures HeaderAt(m', FreeBlocks(B, k), i)
  {
    if i != k {
      FreeShifts(B, k, i);
      FreeKeepsOther(m, m', B, k, BeforeFree(B, k, i));
    }
  }

  lemma FreeKeepsHeap(m: seq<Byte>, m': seq<Byte>, B: seq<Block>, k: nat)
    requires Represents(m, B) && k < |B| && FreeEffect(m, m', B, k)
    ensures Represents(m', FreeBlocks(B, k))
  {
    FreeTiles(B, k);
    forall i | 0 <= i < |FreeBlocks(B, k)| ensures HeaderAt(m', FreeBlocks(B, k), i) {
      FreeKeepsHeader(m, m', B, k, i);
    }
  }

  // ---------- free neighbours ----------

  /** Freeing absorbs one free successor and no predecessor: the freed block has a free neighbour before it exactly when
      it had one, and one behind it exactly when two free blocks followed. */
  lemma FreeNeighboursExactly(B: seq<Block>, k: nat)
    requires k < |B|
    ensures var C := FreeBlocks(B, k);
      && k < |C| && C[k].free
      && (k > 0 && C[k - 1].free <==> k > 0 && B[k - 1].free)
      && (k + 1 < |C| && C[k + 1].free <==> k + 2 < |B| && B[k + 1].free && B[k + 2].free)
  {
    if k + 1 < |FreeBlocks(B, k)| { FreeShifts(B, k, k + 1); }
    if k > 0 { FreeShifts(B, k, k - 1); }
  }
}
