/** The heap allocator as the kernel runs it: pointer chasing and word stores in one byte array. */
module Heap {
  import opened HeapModel
  import opened HeapRuns

  class KernelHeap {
    const mem: array<Byte>
    var heapStart: nat
    ghost var image: seq<Byte>  // the contents of `mem`
    ghost var blocks: seq<Block>
    ghost var live: map<nat, Alloc>  // what the clients hold

    ghost predicate Mirrored()
      reads this, mem
    {
      mem.Length == |image| == HEAP_SIZE && forall o :: 0 <= o < HEAP_SIZE ==> mem[o] == image[o]
    }

    ghost function Snapshot(): State
      reads this
    {
      State(image, blocks, live)
    }

    ghost predicate Valid()
      reads this, mem
    {
      heapStart == HEAP_START && Mirrored() && Sound(Snapshot())
    }

    /** `heap_init`: whatever the memory held, one free block now spans the heap. */
    constructor (memory: array<Byte>)
      requires memory.Length == HEAP_SIZE
      modifies memory
      ensures Valid() && mem == memory
      ensures Initial(Snapshot())
    {
      mem := memory;
      image := memory[..];
      heapStart := HEAP_START;
      blocks := [Block(HEAP_START, HEAP_SIZE - HEADER, true)];
      live := map[];
      new;
      ghost var before := image;
      Store(heapStart + 4, HEAP_SIZE - HEADER);
      Store(heapStart + 8, 1);
      Store(heapStart, NULL);
      HeaderWords(before, heapStart, NULL, HEAP_SIZE - HEADER, 1);
      FreshHeap(image);
    }

    /** One 32-bit store: the word at `a` becomes `v`; no other byte changes. */
    method Store(a: nat, v: nat)
      requires Mirrored() && InHeap(a, 4) && v < Bits.U32
      modifies mem, this`image
      ensures Mirrored() && image == Put(old(image), a, v)
    {
      var i := a - HEAP_START;
      var s := Encode(v, 4);
      mem[i], mem[i + 1], mem[i + 2], mem[i + 3] := s[0], s[1], s[2], s[3];
      OverwriteReads(image, i, s);
      image := Put(image, a, v);
      assert forall o :: i <= o < i + 4 ==> image[o] == image[i..i + 4][o - i];
    }

    method Fetch(a: nat) returns (v: nat)
      requires Mirrored() && InHeap(a, 4)
      ensures v == Load(image, a)
    {
      var i := a - HEAP_START;
      v := LittleEndian([mem[i], mem[i + 1], mem[i + 2], mem[i + 3]]);
      assert image[i..i + 4] == [mem[i], mem[i + 1], mem[i + 2], mem[i + 3]];
    }

    /** `kmalloc` is the `Malloc` step: it fails exactly when the size is 0 or nothing fits, and otherwise takes
        the first smallest fitting block, changing nothing but the two headers involved. */
    method Kmalloc(size: nat) returns (ptr: nat)
      requires Valid() && size < Bits.U32
      modifies this`blocks, this`image, this`live, mem
      ensures Valid()
      ensures Step(old(Snapshot()), Malloc(size, ptr), Snapshot())
      ensures ptr == NULL <==> size == 0 || NoFitIn(old(blocks), |old(blocks)|, Round16(size))
    {
      if size == 0 { return NULL; }
      var need := Round16(size);
      var best, k := FindBestFit(need);
      if best == NULL { return NULL; }
      Take(best, need, k);
      ptr := best + HEADER;
      Bounds(blocks, k);
      live := live[ptr := Alloc(size, PayloadBytes(image, blocks[k]))];
      assert MallocStep(old(Snapshot()), k, size, ptr, Snapshot());
      MallocSound(old(Snapshot()), k, size, ptr, Snapshot());
    }

    method Take(best: nat, need: nat, ghost k: nat)
      requires Mirrored() && Represents(image, blocks) && k < |blocks| && Fits(blocks[k], need)
      requires best == blocks[k].addr
      modifies this`blocks, this`image, mem
      ensures Mirrored() && Represents(image, blocks)
      ensures blocks == MallocBlocks(old(blocks), k, need) && MallocEffect(old(image), image, old(blocks), k, need)
    {
      Bounds(blocks, k);
      assert HeaderAt(image, blocks, k);
      LinkRange(image, blocks, k);
      Carve(best, need, NextAddr(blocks, k, NULL), blocks[k].size);
      CarveIsMalloc(old(image), image, blocks, k, need);
      MallocKeepsHeap(old(image), image, blocks, k, need);
      blocks := MallocBlocks(blocks, k, need);
    }

    /** The three words of block `i`. */
    method Header(a: nat, ghost i: nat) returns (next: nat, size: nat, free: bool)
      requires Mirrored() && Represents(image, blocks) && i < |blocks| && a == blocks[i].addr
      ensures next == NextAddr(blocks, i, NULL) && (i + 1 < |blocks| ==> next >= HEAP_START)
      ensures size == blocks[i].size && free == blocks[i].free
    {
      assert HeaderAt(image, blocks, i);
      next := Fetch(a);
      size := Fetch(a + 4);
      var flag := Fetch(a + 8);
      free := flag != 0;
      if i + 1 < |blocks| { Bounds(blocks, i + 1); }
    }

    /** The search loop of `kmalloc`, following the `next` words. */
    method FindBestFit(need: nat) returns (best: nat, ghost k: nat)
      requires Valid()
      ensures best == NULL ==> NoFitIn(blocks, |blocks|, need)
      ensures best != NULL ==> BestFitIn(blocks, |blocks|, need, k) && best == blocks[k].addr
    {
      var current := heapStart;
      best, k := NULL, 0;
      ghost var i := 0;
      while current != NULL
        invariant 0 <= i <= |blocks|
        invariant current == if i < |blocks| then blocks[i].addr else NULL
        invariant i < |blocks| ==> current >= HEAP_START
        invariant best == NULL ==> NoFitIn(blocks, i, need)
        invariant best != NULL ==> BestFitIn(blocks, i, need, k) && best == blocks[k].addr
        decreases |blocks| - i
      {
        var next, size, free := Header(current, i);
        if free && size >= need {
          if best == NULL {
            best, k := current, i;
          } else {
            var _, bestSize, _ := Header(best, k);
            if size < bestSize {
              best, k := current, i;
            }
          }
        }
        current := next;
        i := i + 1;
      }
    }

    /** The stores of `kmalloc` on the chosen block (memory.c:355-366). */
    method Carve(best: nat, need: nat, ghost link: nat, ghost size: nat)
      requires Mirrored() && InHeap(best, HEADER + size) && need <= size && link < Bits.U32
      requires WordsAt(image, best, link, size, 1)
      modifies mem, this`image
      ensures Mirrored()
      ensures if size > need + HEADER + 16 then SplitAt(old(image), image, best, link, size, need)
              else WordsAt(image, best, link, size, 0) && SameOutside(old(image), image, best, HEADER)
    {
      var bestSize := Fetch(best + 4);
      if bestSize > need + HEADER + 16 {
        Split(best, need, bestSize, link);
        SplitWords(old(image), best, link, size, need);
      } else {
        FlagWord(old(image), best, link, size, 0);
      }
      Store(best + 8, 0);
    }

    /** The split (memory.c:357-363). */
    method Split(best: nat, need: nat, size: nat, ghost link: nat)
      requires Mirrored() && InHeap(best, HEADER + size) && size > need + HEADER + 16
      requires Load(image, best) == link && link < Bits.U32
      modifies mem, this`image
      ensures Mirrored() && image == SplitImage(old(image), best, need, size, link)
    {
      var newBlock := best + HEADER + need;
      WriteRemainder(best, newBlock, size - need - HEADER, link);
      Store(best + 4, need);
      Store(best, newBlock);
    }

    /** The header of the remainder (memory.c:358-360), which inherits the link of the block it is cut from. */
    method WriteRemainder(best: nat, newBlock: nat, size: nat, ghost link: nat)
      requires Mirrored() && InHeap(best, HEADER) && best + HEADER <= newBlock && InHeap(newBlock, HEADER)
      requires Load(image, best) == link && link < Bits.U32 && size < Bits.U32
      modifies mem, this`image
      ensures Mirrored() && image == NewHeader(old(image), newBlock, link, size)
    {
      Store(newBlock + 4, size);
      Store(newBlock + 8, 1);
      PutKeeps(old(image), newBlock + 4, size, best);
      PutKeeps(Put(old(image), newBlock + 4, size), newBlock + 8, 1, best);
      var next := Fetch(best);
      Store(newBlock, next);
    }

    /** `kfree` of NULL or of a live pointer is the `Free` step: it frees that block and absorbs a free
        successor. */
    method Kfree(ptr: nat)
      requires Valid() && (ptr == NULL || ptr in live)
      modifies this`blocks, this`image, this`live, mem
      ensures Valid()
      ensures Step(old(Snapshot()), Free(ptr), Snapshot())
    {
      if ptr == NULL { return; }
      ghost var k: nat :| Allocated(blocks, k, ptr);
      Release(ptr - HEADER, k);
      live := live - {ptr};
      assert FreeStep(old(Snapshot()), k, ptr, Snapshot());
      FreeSound(old(Snapshot()), k, ptr, Snapshot());
    }

    method Release(block: nat, ghost k: nat)
      requires Mirrored() && Represents(image, blocks) && k < |blocks| && !blocks[k].free && block == blocks[k].addr
      modifies this`blocks, this`image, mem
      ensures Mirrored() && blocks == FreeBlocks(old(blocks), k)
      ensures FreeEffect(old(image), image, old(blocks), k)
    {
      UnlinkWords(image, blocks, k);
      ghost var last := k + 1 == |blocks|;
      Unlink(block, NextAddr(blocks, k, NULL), blocks[k].size,
             if last then 0 else NextAddr(blocks, k + 1, NULL), if last then 0 else blocks[k + 1].size,
             if last || !blocks[k + 1].free then 0 else 1);
      UnlinkIsFree(old(image), image, blocks, k);
      blocks := FreeBlocks(blocks, k);
    }

    /** A client stores one byte inside a payload it holds. */
    method Poke(ptr: nat, off: nat, value: Byte)
      requires Valid() && ptr in live && off < |live[ptr].bytes|
      modifies this`image, this`live, mem
      ensures Valid()
      ensures Step(old(Snapshot()), Write(ptr, off, value), Snapshot())
    {
      ghost var k: nat :| Allocated(blocks, k, ptr);
      assert Tracks(Snapshot(), k);
      mem[ptr + off - HEAP_START] := value;
      image := image[ptr + off - HEAP_START := value];
      live := live[ptr := live[ptr].(bytes := live[ptr].bytes[off := value])];
      assert WriteStep(old(Snapshot()), k, ptr, off, value, Snapshot());
      WriteSound(old(Snapshot()), k, ptr, off, value, Snapshot());
    }

    /** The stores of `kfree` (memory.c:373-380); `next`, `size` are the words of the block, `after`, `nextSize`
        and `nextFree` those of its successor, if there is one. */
    method Unlink(block: nat, ghost next: nat, ghost size: nat,
                  ghost after: nat, ghost nextSize: nat, ghost nextFree: nat)
      requires Mirrored() && InHeap(block, HEADER) && WordsAt(image, block, next, size, 0)
      requires next != NULL ==> block + HEADER <= next && InHeap(next, HEADER)
      requires next != NULL ==> WordsAt(image, next, after, nextSize, nextFree)
      requires after < Bits.U32 && size + HEADER + nextSize < Bits.U32
      modifies mem, this`image
      ensures Mirrored() && SameOutside(old(image), image, block, HEADER)
      ensures if next != NULL && nextFree != 0 then WordsAt(image, block, after, size + HEADER + nextSize, 1)
              else WordsAt(image, block, next, size, 1)
    {
      FlagWord(image, block, next, size, 1);
      Store(block + 8, 1);
      if next != NULL { WordsKept(old(image), image, next, after, nextSize, nextFree); }
      MergeNext(block, next, size, after, nextSize, nextFree);
      SameTwice(old(image), Put(old(image), block + 8, 1), image, block);
    }

    /** The second half: a free successor is absorbed (memory.c:376-380). */
    method MergeNext(block: nat, ghost next: nat, ghost size: nat,
                     ghost after: nat, ghost nextSize: nat, ghost nextFree: nat)
      requires Mirrored() && InHeap(block, HEADER) && WordsAt(image, block, next, size, 1)
      requires next != NULL ==> block + HEADER <= next && InHeap(next, HEADER)
      requires next != NULL ==> WordsAt(image, next, after, nextSize, nextFree)
      requires after < Bits.U32 && size + HEADER + nextSize < Bits.U32
      modifies mem, this`image
      ensures Mirrored() && SameOutside(old(image), image, block, HEADER)
      ensures if next != NULL && nextFree != 0 then WordsAt(image, block, after, size + HEADER + nextSize, 1)
              else WordsAt(image, block, next, size, 1)
    {
      var successor := Fetch(block);
      if successor != NULL {
        var free := Fetch(successor + 8);
        if free != 0 {
          Absorb(block, successor, size, after, nextSize);
        }
      }
    }

    /** The merge of `kfree` (memory.c:378-379). */
    method Absorb(block: nat, next: nat, ghost size: nat, ghost after: nat, ghost nextSize: nat)
      requires Mirrored() && InHeap(block, HEADER) && block + HEADER <= next && InHeap(next, HEADER)
      requires Load(image, block + 4) == size && Load(image, block + 8) == 1
      requires Load(image, next) == after && Load(image, next + 4) == nextSize
      requires after < Bits.U32 && size + HEADER + nextSize < Bits.U32
      modifies mem, this`image
      ensures Mirrored() && SameOutside(old(image), image, block, HEADER)
      ensures WordsAt(image, block, after, size + HEADER + nextSize, 1)
    {
      MergeWords(image, block, after, size + HEADER + nextSize);
      MergeStores(block, next, size, after, nextSize);
    }

    method MergeStores(block: nat, next: nat, ghost size: nat, ghost after: nat, ghost nextSize: nat)
      requires Mirrored() && InHeap(block, HEADER) && block + HEADER <= next && InHeap(next, HEADER)
      requires Load(image, block + 4) == size && Load(image, next) == after && Load(image, next + 4) == nextSize
      requires after < Bits.U32 && size + HEADER + nextSize < Bits.U32
      modifies mem, this`image
      ensures Mirrored() && image == Put(Put(old(image), block + 4, size + HEADER + nextSize), block, after)
    {
      var blockSize := Fetch(block + 4);
      var added := Fetch(next + 4);
      PutKeeps(image, block + 4, size + HEADER + nextSize, next);
      Store(block + 4, blockSize + HEADER + added);
      var link := Fetch(next);
      Store(block, link);
    }
  }

  /** One free header at the start, linking nowhere, is a sound heap without clients. */
  lemma FreshHeap(m: seq<Byte>)
    requires |m| == HEAP_SIZE && WordsAt(m, HEAP_START, NULL, HEAP_SIZE - HEADER, 1)
    ensures var s := State(m, [Block(HEAP_START, HEAP_SIZE - HEADER, true)], map[]); Initial(s) && Sound(s)
  {
    var B := [Block(HEAP_START, HEAP_SIZE - HEADER, true)];
    assert HeaderAt(m, B, 0) && Adjacent(B, 0);
  }

  lemma SameTwice(m: seq<Byte>, m1: seq<Byte>, m2: seq<Byte>, a: nat)
    requires SameOutside(m, m1, a, HEADER) && SameOutside(m1, m2, a, HEADER)
    ensures SameOutside(m, m2, a, HEADER)
  {}

  // ---------- what a few stores add up to ----------

  /** The `n` low bytes of `v`, least significant first. */
  function Encode(v: nat, n: nat): (s: seq<Byte>)
    ensures |s| == n
  {
    if n == 0 then [] else [v % 256] + Encode(v / 256, n - 1)
  }

  function Overwrite(m: seq<Byte>, i: nat, s: seq<Byte>): (m': seq<Byte>)
    requires i + |s| <= |m|
    ensures |m'| == |m|
    decreases s
  {
    if s == [] then m else Overwrite(m, i + 1, s[1..])[i := s[0]]
  }

  function Put(m: seq<Byte>, a: nat, v: nat): (m': seq<Byte>)
    requires |m| == HEAP_SIZE && InHeap(a, 4)
    ensures |m'| == HEAP_SIZE
  {
    Overwrite(m, a - HEAP_START, Encode(v, 4))
  }

  lemma {:induction false} DecodeEncode(v: nat, n: nat, bound: nat)
    requires v < bound && bound == Power256(n)
    ensures LittleEndian(Encode(v, n)) == v
  {
    if n > 0 {
      assert Encode(v, n)[1..] == Encode(v / 256, n - 1);
      DecodeEncode(v / 256, n - 1, Power256(n - 1));
    }
  }

  function Power256(n: nat): nat { if n == 0 then 1 else 256 * Power256(n - 1) }

  lemma {:induction false} OverwriteReads(m: seq<Byte>, i: nat, s: seq<Byte>)
    requires i + |s| <= |m|
    ensures Overwrite(m, i, s)[i..i + |s|] == s
    ensures forall o :: 0 <= o < |m| && !(i <= o < i + |s|) ==> Overwrite(m, i, s)[o] == m[o]
    decreases s
  {
    if s != [] {
      OverwriteReads(m, i + 1, s[1..]);
      var t := Overwrite(m, i + 1, s[1..]);
      assert t[i := s[0]][i..i + |s|] == [s[0]] + t[i + 1..i + |s|];
    }
  }

  /** A store makes the word read back as stored and changes nothing else. */
  lemma PutReads(m: seq<Byte>, a: nat, v: nat)
    requires |m| == HEAP_SIZE && InHeap(a, 4) && v < Bits.U32
    ensures Load(Put(m, a, v), a) == v && SameOutside(m, Put(m, a, v), a, 4)
  {
    OverwriteReads(m, a - HEAP_START, Encode(v, 4));
    assert Power256(2) == 0x1_0000 && Power256(4) == Bits.U32;
    DecodeEncode(v, 4, Bits.U32);
  }

  ghost predicate WordsAt(m: seq<Byte>, a: nat, next: nat, size: nat, free: nat)
    requires |m| == HEAP_SIZE && InHeap(a, HEADER)
  {
    Load(m, a) == next && Load(m, a + 4) == size && Load(m, a + 8) == free
  }

  ghost predicate SameOutside2(m: seq<Byte>, m': seq<Byte>, a: nat, b: nat)
  {
    |m| == |m'| == HEAP_SIZE &&
    forall o :: 0 <= o < HEAP_SIZE && !(a <= HEAP_START + o < a + HEADER) && !(b <= HEAP_START + o < b + HEADER) ==>
      m'[o] == m[o]
  }

  /** A store at `a` leaves the word at `b` alone when the two words do not overlap. */
  lemma PutKeeps(m: seq<Byte>, a: nat, v: nat, b: nat)
    requires |m| == HEAP_SIZE && InHeap(a, 4) && InHeap(b, 4) && v < Bits.U32
    requires b + 4 <= a || a + 4 <= b
    ensures Load(Put(m, a, v), b) == Load(m, b)
  {
    var i := b - HEAP_START;
    OverwriteReads(m, a - HEAP_START, Encode(v, 4));
    assert Put(m, a, v)[i..i + 4] == m[i..i + 4];
  }

  lemma WordsKept(m: seq<Byte>, m': seq<Byte>, a: nat, next: nat, size: nat, free: nat)
    requires |m| == |m'| == HEAP_SIZE && InHeap(a, HEADER) && WordsAt(m, a, next, size, free)
    requires forall o :: 0 <= o < HEAP_SIZE && a <= HEAP_START + o < a + HEADER ==> m'[o] == m[o]
    ensures WordsAt(m', a, next, size, free)
  {
    var i := a - HEAP_START;
    assert m'[i..i + 4] == m[i..i + 4];
    assert m'[i + 4..i + 8] == m[i + 4..i + 8];
    assert m'[i + 8..i + 12] == m[i + 8..i + 12];
  }

  /** Writing size, flag and link, in that order, makes a header. */
  lemma HeaderWords(m: seq<Byte>, a: nat, next: nat, size: nat, free: nat)
    requires |m| == HEAP_SIZE && InHeap(a, HEADER) && next < Bits.U32 && size < Bits.U32 && free < Bits.U32
    ensures var m' := Put(Put(Put(m, a + 4, size), a + 8, free), a, next);
      WordsAt(m', a, next, size, free) && SameOutside(m, m', a, HEADER)
  {
    var m1 := Put(m, a + 4, size);
    var m2 := Put(m1, a + 8, free);
    PutReads(m, a + 4, size);
    PutReads(m1, a + 8, free);
    PutReads(m2, a, next);
    PutKeeps(m1, a + 8, free, a + 4);
    PutKeeps(m2, a, next, a + 4);
    PutKeeps(m2, a, next, a + 8);
  }

  lemma FlagWord(m: seq<Byte>, a: nat, next: nat, size: nat, free: nat)
    requires |m| == HEAP_SIZE && InHeap(a, HEADER) && free < Bits.U32
    requires Load(m, a) == next && Load(m, a + 4) == size
    ensures var m' := Put(m, a + 8, free);
      WordsAt(m', a, next, size, free) && SameOutside(m, m', a, HEADER)
  {
    PutReads(m, a + 8, free);
    PutKeeps(m, a + 8, free, a);
    PutKeeps(m, a + 8, free, a + 4);
  }

  /** Two complete headers where there was one block, and nothing else changed. */
  ghost predicate SplitAt(m: seq<Byte>, m': seq<Byte>, best: nat, link: nat, size: nat, need: nat)
    requires |m'| == HEAP_SIZE && InHeap(best, HEADER + size) && size > need + HEADER + 16
  {
    var newBlock := best + HEADER + need;
    && WordsAt(m', best, newBlock, need, 0)
    && WordsAt(m', newBlock, link, size - need - HEADER, 1)
    && SameOutside2(m, m', best, newBlock)
  }

  /** A free header written in the order of memory.c:358-360. */
  ghost function NewHeader(m: seq<Byte>, a: nat, next: nat, size: nat): (m': seq<Byte>)
    requires |m| == HEAP_SIZE && InHeap(a, HEADER)
    ensures |m'| == HEAP_SIZE
  {
    Put(Put(Put(m, a + 4, size), a + 8, 1), a, next)
  }

  /** Memory after the split: the remainder's header, then the new size and link of the block itself. */
  ghost function SplitImage(m: seq<Byte>, best: nat, need: nat, size: nat, link: nat): (m': seq<Byte>)
    requires |m| == HEAP_SIZE && InHeap(best, HEADER + size) && size > need + HEADER + 16
    ensures |m'| == HEAP_SIZE
  {
    var newBlock := best + HEADER + need;
    Put(Put(NewHeader(m, newBlock, link, size - need - HEADER), best + 4, need), best, newBlock)
  }

  lemma SplitWords(m: seq<Byte>, best: nat, link: nat, size: nat, need: nat)
    requires |m| == HEAP_SIZE && InHeap(best, HEADER + size) && size > need + HEADER + 16 && link < Bits.U32
    ensures SplitAt(m, Put(SplitImage(m, best, need, size, link), best + 8, 0), best, link, size, need)
  {
    var newBlock := best + HEADER + need;
    var m3 := NewHeader(m, newBlock, link, size - need - HEADER);
    HeaderWords(m, newBlock, link, size - need - HEADER, 1);
    ShrinkWords(m3, best, newBlock, need);
    SplitDone(m, m3, Put(SplitImage(m, best, need, size, link), best + 8, 0), best, link, size, need);
  }

  lemma SplitDone(m: seq<Byte>, m3: seq<Byte>, m': seq<Byte>, best: nat, link: nat, size: nat, need: nat)
    requires |m| == |m3| == |m'| == HEAP_SIZE && InHeap(best, HEADER + size) && size > need + HEADER + 16
    requires var newBlock := best + HEADER + need;
      && WordsAt(m3, newBlock, link, size - need - HEADER, 1) && SameOutside(m, m3, newBlock, HEADER)
      && WordsAt(m', best, newBlock, need, 0) && SameOutside(m3, m', best, HEADER)
    ensures SplitAt(m, m', best, link, size, need)
  {
    WordsKept(m3, m', best + HEADER + need, link, size - need - HEADER, 1);
  }

  /** Writing size, link and flag, in that order, makes a header too. */
  lemma ShrinkWords(m: seq<Byte>, a: nat, next: nat, size: nat)
    requires |m| == HEAP_SIZE && InHeap(a, HEADER) && next < Bits.U32 && size < Bits.U32
    ensures var m' := Put(Put(Put(m, a + 4, size), a, next), a + 8, 0);
      WordsAt(m', a, next, size, 0) && SameOutside(m, m', a, HEADER)
  {
    var m1 := Put(m, a + 4, size);
    PutReads(m, a + 4, size);
    PutReads(m1, a, next);
    PutKeeps(m1, a, next, a + 4);
    FlagWord(Put(m1, a, next), a, next, size, 0);
  }

  lemma MergeWords(m: seq<Byte>, block: nat, after: nat, size: nat)
    requires |m| == HEAP_SIZE && InHeap(block, HEADER) && size < Bits.U32 && after < Bits.U32 && Load(m, block + 8) == 1
    ensures var m' := Put(Put(m, block + 4, size), block, after);
      WordsAt(m', block, after, size, 1) && SameOutside(m, m', block, HEADER)
  {
    var m1 := Put(m, block + 4, size);
    PutReads(m, block + 4, size);
    PutReads(m1, block, after);
    PutKeeps(m, block + 4, size, block + 8);
    PutKeeps(m1, block, after, block + 8);
    PutKeeps(m1, block, after, block + 4);
  }

  lemma LinkRange(m: seq<Byte>, B: seq<Block>, k: nat)
    requires Represents(m, B) && k < |B|
    ensures NextAddr(B, k, NULL) < Bits.U32 && (NextAddr(B, k, NULL) == NULL <==> k + 1 == |B|)
  {
    if k + 1 < |B| { Bounds(B, k + 1); }
  }

  lemma CarveIsMalloc(m: seq<Byte>, m': seq<Byte>, B: seq<Block>, k: nat, need: nat)
    requires Represents(m, B) && k < |B| && Fits(B[k], need) && |m'| == HEAP_SIZE
    requires InHeap(B[k].addr, HEADER + B[k].size)
    requires if Splits(B[k], need) then SplitAt(m, m', B[k].addr, NextAddr(B, k, NULL), B[k].size, need)
             else WordsAt(m', B[k].addr, NextAddr(B, k, NULL), B[k].size, 0) && SameOutside(m, m', B[k].addr, HEADER)
    ensures MallocEffect(m, m', B, k, need)
  {
    var C := MallocBlocks(B, k, need);
    MallocHeaders(B, k, need, C);
    assert HeaderAt(m', C, k);
    if Splits(B[k], need) {
      assert HeaderAt(m', C, k + 1);
    }
  }

  lemma MallocHeaders(B: seq<Block>, k: nat, need: nat, C: seq<Block>)
    requires k < |B| && Fits(B[k], need) && C == MallocBlocks(B, k, need)
    ensures if Splits(B[k], need) then
        && k + 1 < |C| && C[k] == Block(B[k].addr, need, false)
        && C[k + 1] == Block(B[k].addr + HEADER + need, B[k].size - need - HEADER, true)
        && NextAddr(C, k, NULL) == C[k + 1].addr && NextAddr(C, k + 1, NULL) == NextAddr(B, k, NULL)
      else |C| == |B| && C[k] == B[k].(free := false) && NextAddr(C, k, NULL) == NextAddr(B, k, NULL)
  {}

  lemma UnlinkWords(m: seq<Byte>, B: seq<Block>, k: nat)
    requires Represents(m, B) && k < |B|
    ensures InHeap(B[k].addr, HEADER) && HeaderAt(m, B, k) && B[k].size < HEAP_SIZE
    ensures NextAddr(B, k, NULL) != NULL ==>
      && k + 1 < |B| && B[k].Payload() <= B[k + 1].addr && InHeap(B[k + 1].addr, HEADER)
      && HeaderAt(m, B, k + 1) && NextAddr(B, k + 1, NULL) < Bits.U32
      && B[k].size + HEADER + B[k + 1].size < Bits.U32
    ensures NextAddr(B, k, NULL) == NULL ==> k + 1 == |B|
  {
    Bounds(B, k);
    LinkRange(m, B, k);
    assert HeaderAt(m, B, k);
    if k + 1 < |B| {
      Bounds(B, k + 1);
      LinkRange(m, B, k + 1);
      assert Adjacent(B, k);
      assert HeaderAt(m, B, k + 1);
    }
  }

  lemma UnlinkIsFree(m: seq<Byte>, m': seq<Byte>, B: seq<Block>, k: nat)
    requires Represents(m, B) && k < |B| && InHeap(B[k].addr, HEADER) && SameOutside(m, m', B[k].addr, HEADER)
    requires if k + 1 < |B| && B[k + 1].free
      then WordsAt(m', B[k].addr, NextAddr(B, k + 1, NULL), B[k].size + HEADER + B[k + 1].size, 1)
      else WordsAt(m', B[k].addr, NextAddr(B, k, NULL), B[k].size, 1)
    ensures FreeEffect(m, m', B, k)
  {
    assert HeaderAt(m', FreeBlocks(B, k), k);
  }
}
