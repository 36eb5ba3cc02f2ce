/** `vmm_init` (src/kernel/memory.c:237-297): the boot-time address space, page by page. */
module VmmInit {
  import opened PmmModel
  import opened Pmm
  import opened VmmModel
  import opened Vmm
  import opened BootSpace

  /** `vmm_map_page` as `vmm_init` calls it: writable, by page numbers. */
  method MapNumbered(a: AddressSpace, frame: nat, v: nat)
    requires a.Valid() && frame < VIRTUAL_PAGES && v < VIRTUAL_PAGES
    modifies a.ram, a`image, a`view, a.pmm, a.pmm.bitmap
    ensures a.Valid() && a.view == MapSpace(old(a.view), v, frame * 4096 + FLAGS)
  {
    WritableEntry(frame);
    a.MapPage(frame * 4096, v * 4096, 3);
  }

  lemma WritableEntry(frame: nat)
    ensures Entry(frame * 4096, 3) == frame * 4096 + FLAGS
  {
    EntryHoldsFrameAndFlags(frame, 3);
    OrOne(3);
  }

  /** Page `i` of a run (memory.c:255, 262, 268, 273 and 279). */
  method RunPage(a: AddressSpace, phys: nat, v: nat, i: nat)
    requires a.Valid() && phys + i < VIRTUAL_PAGES && v + i < VIRTUAL_PAGES
    modifies a.ram, a`image, a`view, a.pmm, a.pmm.bitmap
    ensures a.Valid() && a.view == RunNext(old(a.view), phys, v, i)
  {
    MapNumbered(a, phys + i, v + i);
  }

  /** A loop of `vmm_init` that maps `n` pages at a fixed distance (memory.c:254-281), or skips them all for want of a
      table. */
  method RunLoop(a: AddressSpace, phys: nat, v: nat, n: nat, ghost pd: nat)
    requires a.Valid() && TablesUsed(a.view, pd)
    requires 0 < n <= VIRTUAL_PAGES - v && n <= VIRTUAL_PAGES - phys && (v + n - 1) / 1024 == v / 1024
    modifies a.ram, a`image, a`view, a.pmm, a.pmm.bitmap
    ensures a.Valid() && RunDone(old(a.view), a.view, pd, phys, v, n)
  {
    ghost var s := a.view;
    RunStart(s, pd, phys, v);
    for i := 0 to n
      invariant Running(a, s, pd, phys, v, i)
    {
      RunTurn(a, phys, v, i, n, pd, s);
    }
  }

  ghost predicate Running(a: AddressSpace, s: Space, pd: nat, phys: nat, v: nat, i: nat)
    reads a, a.ram, a.pmm, a.pmm.bitmap
  {
    a.Valid() && |s.slots| == TABLE && v < VIRTUAL_PAGES && RunDone(s, a.view, pd, phys, v, i)
  }

  method RunTurn(a: AddressSpace, phys: nat, v: nat, i: nat, ghost n: nat, ghost pd: nat, ghost s: Space)
    requires Running(a, s, pd, phys, v, i) && i < n <= VIRTUAL_PAGES - v
    requires n <= VIRTUAL_PAGES - phys && (v + n - 1) / 1024 == v / 1024
    modifies a.ram, a`image, a`view, a.pmm, a.pmm.bitmap
    ensures Running(a, s, pd, phys, v, i + 1)
  {
    ghost var next := RunNext(a.view, phys, v, i);
    RunTurnDone(s, a.view, pd, phys, v, i, n);
    RunPage(a, phys, v, i);
    assert a.view == next;
  }

  /** The mappings before the heap (memory.c:253-281) take three tables, for slots 0, 768 and 1012, as far as there are
      pages. */
  method FixedRegions(a: AddressSpace, ghost pd: nat)
    requires a.Valid() && TablesUsed(a.view, pd)
    requires a.view.pages == map[] && forall d :: 0 <= d < TABLE ==> a.view.slots[d] == 0
    modifies a.ram, a`image, a`view, a.pmm, a.pmm.bitmap
    ensures a.Valid() && TablesUsed(a.view, pd)
    ensures var c := CountFree(old(a.view).pmm.used);
      a.view.pages == FixedMapFor(c) && CountFree(a.view.pmm.used) == if c <= 3 then 0 else c - 3
    ensures forall d :: HEAP_SLOT <= d < HEAP_SLOT + 16 ==> a.view.slots[d] == 0
  {
    LowRegions(a, pd);
    Screens(a, pd);
  }

  /** Low memory and the kernel (memory.c:253-264). */
  method LowRegions(a: AddressSpace, ghost pd: nat)
    requires a.Valid() && TablesUsed(a.view, pd)
    requires a.view.pages == map[] && forall d :: 0 <= d < TABLE ==> a.view.slots[d] == 0
    modifies a.ram, a`image, a`view, a.pmm, a.pmm.bitmap
    ensures a.Valid() && TablesUsed(a.view, pd)
    ensures var c := CountFree(old(a.view).pmm.used);
      && a.view.pages == LowMap(c) && CountFree(a.view.pmm.used) == (if c <= 2 then 0 else c - 2)
      && (Present(a.view.slots[0]) <==> c >= 1)
    ensures forall d :: 0 < d < TABLE && d != 768 ==> a.view.slots[d] == 0
  {
    ghost var s0 := a.view;
    RunLoop(a, 0, 0, 1024, pd);
    ghost var s1 := a.view;
    RunKeepsTables(s0, s1, pd, 0, 0, 1024);
    RunLoop(a, 0x100, KERNEL_BASE, 256, pd);
    LowDone(s0, s1, a.view, pd);
  }

  /** The VGA and VBE framebuffers (memory.c:266-281). */
  method Screens(a: AddressSpace, ghost pd: nat)
    requires a.Valid() && TablesUsed(a.view, pd) && a.view.slots[1012] == 0
    requires Present(a.view.slots[0]) || CountFree(a.view.pmm.used) == 0
    modifies a.ram, a`image, a`view, a.pmm, a.pmm.bitmap
    ensures a.Valid() && TablesUsed(a.view, pd)
    ensures var c := CountFree(old(a.view).pmm.used);
      && CountFree(a.view.pmm.used) == (if c == 0 then 0 else c - 1)
      && a.view.pages == old(a.view).pages + ScreenMap(Present(old(a.view).slots[0]), c >= 1)
    ensures forall d :: 0 < d < TABLE && d != 1012 ==> a.view.slots[d] == old(a.view).slots[d]
  {
    ghost var s0 := a.view;
    RunLoop(a, 0xB8, 0xB8, 1, pd);
    ghost var s1 := a.view;
    RunKeepsTables(s0, s1, pd, 0xB8, 0xB8, 1);
    RunLoop(a, 0xA0, 0xA0, 16, pd);
    ghost var s2 := a.view;
    RunKeepsTables(s1, s2, pd, 0xA0, 0xA0, 16);
    RunLoop(a, 0xFD000, 0xFD000, 512, pd);
    ScreensDone(s0, s1, s2, a.view, pd);
  }

  /** The heap loop (memory.c:288-297): a fresh page a turn, mapped at the next heap address, until they run out. */
  method HeapLoop(a: AddressSpace, ghost pd: nat) returns (ghost frames: seq<nat>, ghost lost: bool)
    requires a.Valid() && TablesUsed(a.view, pd)
    requires forall d :: HEAP_SLOT <= d < HEAP_SLOT + 16 ==> a.view.slots[d] == 0
    modifies a.ram, a`image, a`view, a.pmm, a.pmm.bitmap
    ensures a.Valid()
    ensures HeapDone(a.view, pd, old(a.view).pages, CountFree(old(a.view).pmm.used), frames, lost)
  {
    frames, lost := [], false;
    ghost var base, c0 := a.view.pages, CountFree(a.view.pmm.used);
    HeapMapGrows(base, [], 0);
    for i := 0 to HEAP_PAGES
      invariant a.Valid() && HeapSoFar(a.view, pd, base, c0, frames, lost, i)
    {
      var f;
      f, frames, lost := HeapTurn(a, i, pd, base, c0, frames, lost);
      if f == 0 { break; }
    }
  }

  /** Allocating a page and mapping it as heap page `i` (memory.c:289-295); 0 when there is no page. */
  method HeapPage(a: AddressSpace, i: nat) returns (f: nat)
    requires a.Valid() && i < HEAP_PAGES
    modifies a.ram, a`image, a`view, a.pmm, a.pmm.bitmap
    ensures a.Valid()
    ensures f > 0 <==> 0 < Lowest(old(a.view).pmm.used) < |old(a.view).pmm.used|
    ensures f > 0 ==> f == Lowest(old(a.view).pmm.used) && a.view == HeapNext(old(a.view), i)
    ensures f == 0 ==> a.view == old(a.view).(pmm := AllocState(old(a.view).pmm))
  {
    ghost var s := a.view;
    f := TakeFrame(a);
    if f == 0 { return; }
    HeapNextIs(s, i, a.view, f);
    MapNumbered(a, f, HEAP_BASE + i);
  }

  /** `pmm_alloc_page` (memory.c:289-293): the number of the frame, 0 for NULL. */
  method TakeFrame(a: AddressSpace) returns (f: nat)
    requires a.Valid()
    modifies a`view, a.pmm, a.pmm.bitmap
    ensures a.Valid() && a.view == old(a.view).(pmm := AllocState(old(a.view).pmm))
    ensures var lowest := Lowest(old(a.view).pmm.used);
      f == (if lowest < |old(a.view).pmm.used| then lowest else 0) && f < VIRTUAL_PAGES
  {
    var phys := a.TakePage();
    f := phys / 4096;
  }

  /** One turn of the heap loop. */
  method HeapTurn(a: AddressSpace, i: nat, ghost pd: nat, ghost base: map<nat, nat>, ghost c0: int,
                  ghost frames: seq<nat>, ghost lost: bool)
    returns (f: nat, ghost frames': seq<nat>, ghost lost': bool)
    requires a.Valid() && i < HEAP_PAGES && HeapSoFar(a.view, pd, base, c0, frames, lost, i)
    modifies a.ram, a`image, a`view, a.pmm, a.pmm.bitmap
    ensures a.Valid()
    ensures f > 0 ==> HeapSoFar(a.view, pd, base, c0, frames', lost', i + 1)
    ensures f == 0 ==> HeapDone(a.view, pd, base, c0, frames', lost')
  {
    ghost var s := a.view;
    frames', lost' := HeapTurnAccount(s, pd, base, c0, frames, lost, i);
    f := HeapPage(a, i);
  }

  /** What a turn does to the account: it maps a page, loses the last one, or finds none. */
  lemma HeapTurnAccount(s: Space, pd: nat, base: map<nat, nat>, c0: int, frames: seq<nat>, lost: bool, i: nat)
    returns (frames': seq<nat>, lost': bool)
    requires i < HEAP_PAGES && HeapSoFar(s, pd, base, c0, frames, lost, i)
    ensures var f, s' := Lowest(s.pmm.used), HeapNext(s, i);
      if f < |s.pmm.used| then 0 < f && HeapSoFar(s', pd, base, c0, frames', lost', i + 1)
      else AllocState(s.pmm) == s.pmm && HeapDone(s, pd, base, c0, frames', lost')
  {
    frames', lost' := frames, lost;
    if CountFree(s.pmm.used) == 0 {
      NoPageLeft(s.pmm);
    } else if Enough(s, i) {
      HeapTurnMaps(s, pd, base, c0, frames);
      frames' := frames + [Lowest(s.pmm.used)];
    } else {
      HeapTurnLoses(s, pd, base, c0, frames);
      lost' := true;
    }
  }

  /** All of `vmm_init` before paging is switched on, for any number `c` of free pages.  It takes 16,404 pages if there
      are that many, and otherwise all of them.  The page tables in memory then hold the fixed regions as far as `c - 1`
      pages after the directory suffice for, and the heap as far as the rest does; each heap page is on a frame of its
      own that is neither the directory nor a table, and at most one page is lost.  With enough pages every byte of the
      heap that `kmalloc` uses is mapped, writable. */
  method Init(memory: array<nat>, allocator: PageAllocator)
    returns (a: AddressSpace, ghost frames: seq<nat>, ghost lost: bool)
    requires memory.Length == RAM_WORDS && memory != allocator.bitmap && allocator.Valid()
    requires |allocator.used| > 0
    modifies memory, allocator, allocator.bitmap
    ensures fresh(a) && a.Valid() && a.ram == memory && a.pmm == allocator
    ensures a.directory == DirectoryFrame(old(allocator.used)) * 4096
    ensures OwnFrames(a.view, DirectoryFrame(old(allocator.used)), frames)
    ensures Booted(CountFree(old(allocator.used)), CountFree(allocator.used), Flat(a.image, a.directory), frames, lost)
    ensures CountFree(old(allocator.used)) >= BOOT_PAGES ==> HeapReady(Flat(a.image, a.directory), frames)
  {
    ghost var pd, c := DirectoryFrame(allocator.used), CountFree(allocator.used);
    EmptyStart(allocator.Abs());
    a := new AddressSpace(memory, allocator);
    FixedRegions(a, pd);
    ghost var base, c0 := a.view.pages, CountFree(a.view.pmm.used);
    frames, lost := HeapLoop(a, pd);
    BootAccount(c, base, c0, a.view, pd, frames, lost);
    if c >= BOOT_PAGES { EnoughPagesForHeap(c, CountFree(a.view.pmm.used), a.view.pages, frames, lost); }
  }
}
