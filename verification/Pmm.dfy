/** The bitmap page allocator as the kernel runs it (src/kernel/memory.c:35-154). */
module Pmm {
  import opened Bits
  import opened PmmModel

  class PageAllocator {
    const bitmap: array<nat>
    var pageCount: nat
    var freePages: nat
    var searchHint: nat
    ghost var used: seq<bool>  // the bits of the first `pageCount` pages

    /** The bitmap words spell out `used`, 32 pages a word. */
    ghost predicate Mirrored()
      reads this, bitmap
    {
      && bitmap.Length == BITMAP_WORDS
      && pageCount == |used| <= PMM_MAX_PAGES
      && (forall w :: 0 <= w < bitmap.Length ==> bitmap[w] < U32)
      && (forall i :: 0 <= i < |used| ==> used[i] == BitAt(i))
    }

    ghost predicate BitAt(i: nat)
      requires bitmap.Length == BITMAP_WORDS && i < PMM_MAX_PAGES
      reads this, bitmap
    {
      Bit(bitmap[i / 32], i % 32)
    }

    ghost function Abs(): State
      reads this
    {
      State(used, searchHint, freePages)
    }

    ghost predicate Valid()
      reads this, bitmap
    {
      Mirrored() && HintOk(Abs())
    }

    /** `pmm_init` (memory.c:73-131): the pages from the end of the kernel up are free. */
    constructor (words: array<nat>, memLower: nat, memUpper: nat, kernelEnd: nat)
      requires words.Length == BITMAP_WORDS
      requires forall w :: 0 <= w < words.Length ==> words[w] < U32
      requires memLower < U32 && memUpper < U32 && kernelEnd < U32
      modifies words
      ensures Valid() && bitmap == words
      ensures pageCount == (memLower + memUpper) % 0x1_0000_0000 * 1024 % 0x1_0000_0000 / 4096
      ensures Initial(System(Abs(), {}), (kernelEnd + PAGE_SIZE) % 0x1_0000_0000 / 4096)
    {
      var count := (memLower + memUpper) % 0x1_0000_0000 * 1024 % 0x1_0000_0000 / 4096;
      var start := (kernelEnd + PAGE_SIZE) % 0x1_0000_0000 / 4096;
      bitmap := words;
      pageCount := count;
      freePages := 0;
      searchHint := start;
      ghost var contents := words[..];
      used := seq(count, i requires 0 <= i < count => Bit(contents[i / 32], i % 32));
      new;
      ReserveAll();
      ReleaseFrom(start);
      searchHint := start;
    }

    /** The first loop of `pmm_init`: every page is used. */
    method ReserveAll()
      requires Mirrored()
      modifies bitmap, this`used
      ensures Mirrored() && |used| == |old(used)| && forall j :: 0 <= j < |used| ==> used[j]
    {
      for i := 0 to pageCount
        invariant Mirrored() && |used| == |old(used)|
        invariant forall j :: 0 <= j < i ==> used[j]
      {
        SetBit(i, true);
      }
    }

    /** The second loop of `pmm_init`: the pages from `start` up are free, and counted. */
    method ReleaseFrom(start: nat)
      requires Mirrored() && forall j :: 0 <= j < |used| ==> used[j]
      modifies bitmap, this`used, this`freePages
      ensures Mirrored() && |used| == |old(used)| && Exact(Abs())
      ensures forall j :: 0 <= j < |used| ==> used[j] == (j < start)
    {
      freePages := 0;
      CountNone(used);
      var i := start;
      while i < pageCount
        invariant Mirrored() && start <= i && |used| == |old(used)|
        invariant forall j :: 0 <= j < |used| ==> used[j] == !(start <= j < i)
        invariant freePages == CountFree(used)
      {
        CountUpdate(used, i, false);
        SetBit(i, false);
        freePages := freePages + 1;
        i := i + 1;
      }
    }

    /** `pmm_set_bit`: changes one bit and no other; ignored beyond the last page. */
    method SetBit(index: nat, value: bool)
      requires Mirrored()
      modifies bitmap, this`used
      ensures Mirrored()
      ensures used == if index < |old(used)| then old(used)[index := value] else old(used)
      ensures forall i :: 0 <= i < PMM_MAX_PAGES ==> (BitAt(i) <==> if i == index then value else old(BitAt(i)))
    {
      if index >= PMM_MAX_PAGES { return; }
      StoreBit(index, value);
      if index < |used| { used := used[index := value]; }
    }

    /** The word operations of `pmm_set_bit` (memory.c:37-43). */
    method StoreBit(index: nat, value: bool)
      requires bitmap.Length == BITMAP_WORDS && index < PMM_MAX_PAGES
      requires forall w :: 0 <= w < bitmap.Length ==> bitmap[w] < U32
      modifies bitmap
      ensures forall w :: 0 <= w < bitmap.Length ==> bitmap[w] < U32
      ensures forall i :: 0 <= i < PMM_MAX_PAGES ==> (BitAt(i) <==> if i == index then value else old(BitAt(i)))
    {
      var word, bit := index / 32, index % 32;
      var before := bitmap[word];
      Pow2Of32();
      Pow2Less(bit, 32);
      if value {
        bitmap[word] := Or(before, Pow2(bit));
        OrWidth(before, Pow2(bit), 32);
      } else {
        bitmap[word] := And(before, Not(Pow2(bit)));
        AndBound(before, Not(Pow2(bit)));
      }
      forall i | 0 <= i < PMM_MAX_PAGES ensures BitAt(i) <==> if i == index then value else old(BitAt(i)) {
        if i / 32 == word {
          if value { Bits.SetBit(before, bit, i % 32); } else { ClearBit(before, bit, i % 32); }
        }
      }
    }

    /** `pmm_get_bit`. */
    method GetBit(index: nat) returns (value: nat)
      requires Mirrored()
      ensures index < |used| ==> value == if used[index] then 1 else 0
      ensures value == if index >= PMM_MAX_PAGES || BitAt(index) then 1 else 0
    {
      if index >= PMM_MAX_PAGES { return 1; }
      BitOfShr(bitmap[index / 32], index % 32);
      value := And(Shr(bitmap[index / 32], index % 32), 1);
      assert index < |used| ==> used[index] == BitAt(index);
    }

    /** `pmm_find_free_page`: the circular scan from the hint finds the lowest free page of all. */
    method FindFreePage() returns (page: nat)
      requires Valid()
      modifies this`searchHint
      ensures page == if Lowest(used) < pageCount then Lowest(used) else PMM_MAX_PAGES
      ensures searchHint ==
              if Lowest(used) == pageCount then old(searchHint)
              else if Lowest(used) + 1 == pageCount then 0 else Lowest(used) + 1
    {
      page := Scan();
      if page < pageCount {
        searchHint := NextHint(page);
      }
    }

    /** The scan loop of `pmm_find_free_page`. */
    method Scan() returns (page: nat)
      requires Valid()
      ensures page == if Lowest(used) < pageCount then Lowest(used) else PMM_MAX_PAGES
    {
      var n := 0;
      while n < pageCount
        invariant 0 <= n <= pageCount
        invariant forall j :: 0 <= j < |used| && j < searchHint + n ==> used[j]
      {
        var i := ScanPage(n);
        var bit := GetBit(i);
        if bit == 0 {
          LowestIs(used, i);
          return i;
        }
        n := n + 1;
      }
      NoneFree(used);
      page := PMM_MAX_PAGES;
    }

    /** `pmm_alloc_page`: the address of the lowest free page, or NULL; NULL means out of memory unless the
        lowest free page is page 0. */
    method AllocPage() returns (addr: nat)
      requires Valid()
      modifies bitmap, this`used, this`freePages, this`searchHint
      ensures Valid()
      ensures Abs() == AllocState(old(Abs()))
      ensures addr == if Lowest(old(used)) < |old(used)| then Lowest(old(used)) * 4096 else 0
    {
      AllocKeeps(Abs());
      var index := FindFreePage();
      if index >= pageCount { return 0; }
      SetBit(index, true);
      freePages := (freePages - 1) % 0x1_0000_0000;
      addr := index * 4096;
    }

    /** `pmm_free_page`. */
    method FreePage(addr: nat)
      requires Valid() && addr < U32
      modifies bitmap, this`used, this`freePages, this`searchHint
      ensures Valid()
      ensures Abs() == FreeState(old(Abs()), addr / 4096)
    {
      var index := addr / 4096;
      FreeKeeps(Abs(), index);
      if index >= pageCount { return; }
      SetBit(index, false);
      freePages := (freePages + 1) % 0x1_0000_0000;
      if index < searchHint {
        searchHint := index;
      }
    }

    method NextHint(page: nat) returns (hint: nat)
      requires page < pageCount
      ensures hint == if page + 1 == pageCount then 0 else page + 1
    {
      hint := (page + 1) % pageCount;
      if page + 1 == pageCount { QuotientUnique(page + 1, pageCount, 1, 0); }
      else { QuotientUnique(page + 1, pageCount, 0, page + 1); }
    }

    /** The page that the scan looks at: `hint + n`, or, once past the end, one below the hint. */
    method ScanPage(n: nat) returns (i: nat)
      requires n < pageCount
      ensures i < pageCount && if searchHint + n < pageCount then i == searchHint + n else i < searchHint
    {
      i := (searchHint + n) % pageCount;
      WrapOnce(searchHint, n, pageCount);
    }
  }

  lemma WrapOnce(h: nat, n: nat, c: nat)
    requires n < c
    ensures 0 <= (h + n) % c < c
    ensures if h + n < c then (h + n) % c == h + n else (h + n) % c < h
  {
    if h + n < c {
      QuotientUnique(h + n, c, 0, h + n);
    } else if h < c {
      QuotientUnique(h + n, c, 1, h + n - c);
    }
  }
}
