/** The boot-time address space that `vmm_init` describes (src/kernel/memory.c:216-297). */
module BootSpace {
  import opened Options
  import opened PmmModel
  import opened VmmModel
  import H = HeapModel

  const HEAP_PAGES: nat := 16384
  const HEAP_BASE: nat := 0xE0000   // page number of HEAP_START
  const HEAP_SLOT: nat := 896       // its directory slot
  const KERNEL_BASE: nat := 0xC0000 // page number of KERNEL_VIRTUAL_BASE
  const FLAGS: nat := 3             // PDE_WRITABLE | PDE_PRESENT
  const BOOT_PAGES: nat := 16404    // 1 directory, 19 tables, 16384 heap frames

  // ---------- the maps that the loops of vmm_init add ----------

  function RunEntry(p: nat, v: nat, w: nat): nat
    requires v <= w
  {
    (p + w - v) * 4096 + FLAGS
  }

  function HeapEntry(frames: seq<nat>, w: nat): nat
    requires HEAP_BASE <= w < HEAP_BASE + |frames|
  {
    frames[w - HEAP_BASE] * 4096 + FLAGS
  }

  /** `n` consecutive pages from `v`, on consecutive frames from `p`. */
  ghost function RunMap(p: nat, v: nat, n: nat): map<nat, nat>
  {
    map w | v <= w < v + n :: RunEntry(p, v, w)
  }

  ghost function HeapMap(frames: seq<nat>): map<nat, nat>
  {
    map w | HEAP_BASE <= w < HEAP_BASE + |frames| :: HeapEntry(frames, w)
  }

  /** What `vmm_init` maps before the heap: low memory, the kernel at 3 GB, VGA text, VGA graphics, VBE. */
  ghost function FixedMap(): map<nat, nat>
  {
    RunMap(0, 0, 1024) + RunMap(0x100, KERNEL_BASE, 256) + RunMap(0xB8, 0xB8, 1) + RunMap(0xA0, 0xA0, 16)
    + RunMap(0xFD000, 0xFD000, 512)
  }

  /** The part of it that `c` free pages suffice for: tables are taken for low memory, then the kernel, then VBE. */
  ghost function FixedMapFor(c: nat): map<nat, nat>
  {
    LowMap(c) + ScreenMap(c >= 1, c >= 3)
  }

  ghost function LowMap(c: nat): map<nat, nat>
  {
    (if c >= 1 then RunMap(0, 0, 1024) else map[]) + (if c >= 2 then RunMap(0x100, KERNEL_BASE, 256) else map[])
  }

  ghost function ScreenMap(vga: bool, vbe: bool): map<nat, nat>
  {
    (if vga then RunMap(0xB8, 0xB8, 1) + RunMap(0xA0, 0xA0, 16) else map[])
    + (if vbe then RunMap(0xFD000, 0xFD000, 512) else map[])
  }

  /** Three pages suffice for all of it. */
  lemma FixedMapIsWhole(c: nat)
    requires c >= 3
    ensures FixedMapFor(c) == FixedMap()
  {
    var low := RunMap(0, 0, 1024) + RunMap(0x100, KERNEL_BASE, 256);
    var vga := RunMap(0xB8, 0xB8, 1) + RunMap(0xA0, 0xA0, 16);
    Regroup(low, RunMap(0xB8, 0xB8, 1), RunMap(0xA0, 0xA0, 16));
    Regroup(low, vga, RunMap(0xFD000, 0xFD000, 512));
  }

  lemma Regroup(a: map<nat, nat>, b: map<nat, nat>, c: map<nat, nat>)
    ensures (a + b) + c == a + (b + c)
  {}

  lemma NothingAdded(a: map<nat, nat>)
    ensures a + map[] == a && map[] + a == a
  {}

  // ---------- counting pages ----------

  lemma NoPageLeft(p: State)
    requires CountFree(p.used) == 0
    ensures Lowest(p.used) == |p.used| && AllocState(p) == p
  {
    var f := Lowest(p.used);
    if f < |p.used| {
      CountUpdate(p.used, f, true);
    }
  }

  lemma AllocCounts(p: State)
    requires CountFree(p.used) > 0
    ensures Lowest(p.used) < |p.used|
    ensures CountFree(AllocState(p).used) == CountFree(p.used) - 1
  {
    var f := Lowest(p.used);
    if f == |p.used| {
      CountNone(p.used);
    }
    CountUpdate(p.used, f, true);
  }

  // ---------- one page ----------

  /** What one successful `vmm_map_page` does: `v` is mapped; when its slot was empty, a page that was free is now
      the table of that slot; every other slot and every page in use stays as it is. */
  ghost predicate Mapped(s: Space, s': Space, v: nat, entry: nat)
  {
    var d := v / 1024;
    && d < TABLE == |s.slots| == |s'.slots|
    && s'.pages == s.pages[v := entry]
    && UsedGrows(s.pmm, s'.pmm)
    && Present(s'.slots[d])
    && (forall e :: 0 <= e < TABLE && e != d ==> s'.slots[e] == s.slots[e])
    && if Present(s.slots[d]) then s'.slots[d] == s.slots[d] && CountFree(s'.pmm.used) == CountFree(s.pmm.used)
       else TookPage(s.pmm, s'.pmm, Frame(s'.slots[d]))
  }

  ghost predicate UsedGrows(p: State, p': State)
  {
    |p'.used| == |p.used| && forall i :: 0 <= i < |p.used| && p.used[i] ==> p'.used[i]
  }

  /** Page `f` was free and is used now; the number of free pages dropped by one. */
  ghost predicate TookPage(p: State, p': State, f: nat)
  {
    && UsedGrows(p, p') && f < |p.used| && !p.used[f] && p'.used[f]
    && CountFree(p'.used) == CountFree(p.used) - 1
  }

  lemma AllocTakes(p: State)
    requires CountFree(p.used) > 0
    ensures TookPage(p, AllocState(p), Lowest(p.used)) && (p.used[0] ==> 0 < Lowest(p.used))
  {
    AllocCounts(p);
  }

  lemma MapSpaceMaps(s: Space, v: nat, entry: nat)
    requires |s.slots| == TABLE && v < VIRTUAL_PAGES && |s.pmm.used| > 0 && s.pmm.used[0]
    requires Present(s.slots[v / 1024]) || CountFree(s.pmm.used) > 0
    ensures Mapped(s, MapSpace(s, v, entry), v, entry)
  {
    if !Present(s.slots[v / 1024]) { AllocTakes(s.pmm); }
  }

  /** The directory frame `pd` and every table are in use, and no table is `pd`. */
  ghost predicate TablesUsed(s: Space, pd: nat)
  {
    && |s.slots| == TABLE && |s.pmm.used| > 0 && s.pmm.used[0]
    && pd < |s.pmm.used| && s.pmm.used[pd]
    && forall d :: 0 <= d < TABLE ==> TableUsed(s, pd, d)
  }

  ghost predicate TableUsed(s: Space, pd: nat, d: nat)
    requires d < |s.slots|
  {
    Present(s.slots[d]) ==>
      Frame(s.slots[d]) < |s.pmm.used| && s.pmm.used[Frame(s.slots[d])] && Frame(s.slots[d]) != pd
  }

  lemma MappedKeepsTables(s: Space, s': Space, v: nat, entry: nat, pd: nat)
    requires TablesUsed(s, pd) && Mapped(s, s', v, entry)
    ensures TablesUsed(s', pd)
  {
    forall d | 0 <= d < TABLE ensures TableUsed(s', pd, d) {
      assert TableUsed(s, pd, d);
    }
  }

  /** Without a table and a page to make one of, mapping does nothing. */
  lemma MapSpaceSkips(s: Space, v: nat, entry: nat)
    requires |s.slots| == TABLE && v < VIRTUAL_PAGES && !Present(s.slots[v / 1024]) && CountFree(s.pmm.used) == 0
    ensures MapSpace(s, v, entry) == s
  {
    NoPageLeft(s.pmm);
  }

  /** The directory that `vmm_init` starts from. */
  lemma EmptyStart(p: State)
    requires |p.used| > 0
    ensures var s, c := EmptySpace(AllocState(p)), CountFree(p.used);
      && TablesUsed(s, DirectoryFrame(p.used)) && s.pages == map[]
      && CountFree(s.pmm.used) == (if c == 0 then 0 else c - 1)
      && forall d :: 0 <= d < TABLE ==> s.slots[d] == 0
  {
    if CountFree(p.used) == 0 { NoPageLeft(p); } else { AllocTakes(p); }
  }

  // ---------- a run of consecutive pages in one directory slot ----------

  ghost predicate RunMapped(s: Space, s': Space, pd: nat, p: nat, v: nat, n: nat)
  {
    var d := v / 1024;
    && TablesUsed(s', pd) && |s.slots| == TABLE && d < TABLE
    && s'.pages == s.pages + RunMap(p, v, n)
    && (Present(s'.slots[d]) <==> Present(s.slots[d]) || n > 0)
    && (forall e :: 0 <= e < TABLE && e != d ==> s'.slots[e] == s.slots[e])
    && CountFree(s'.pmm.used) == CountFree(s.pmm.used) - (if Present(s.slots[d]) || n == 0 then 0 else 1)
  }

  lemma RunMapGrows(pages: map<nat, nat>, phys: nat, v: nat, i: nat)
    ensures pages + RunMap(phys, v, 0) == pages
    ensures pages + RunMap(phys, v, i + 1) == (pages + RunMap(phys, v, i))[v + i := (phys + i) * 4096 + FLAGS]
  {
    assert RunMap(phys, v, i + 1) == RunMap(phys, v, i)[v + i := RunEntry(phys, v, v + i)];
  }

  lemma RunStep(s: Space, t: Space, s': Space, pd: nat, p: nat, v: nat, i: nat)
    requires RunMapped(s, t, pd, p, v, i) && (v + i) / 1024 == v / 1024
    requires Mapped(t, s', v + i, (p + i) * 4096 + FLAGS)
    ensures RunMapped(s, s', pd, p, v, i + 1)
  {
    MappedKeepsTables(t, s', v + i, (p + i) * 4096 + FLAGS, pd);
    RunMapGrows(s.pages, p, v, i);
  }

  /** Page `i` of such a run mapped. */
  function RunNext(s: Space, p: nat, v: nat, i: nat): Space
    requires |s.slots| == TABLE && v + i < VIRTUAL_PAGES
  {
    MapSpace(s, v + i, (p + i) * 4096 + FLAGS)
  }

  /** The run is mapped, or skipped altogether for want of a table. */
  ghost predicate RunDone(s: Space, s': Space, pd: nat, p: nat, v: nat, n: nat)
    requires |s.slots| == TABLE && v < VIRTUAL_PAGES
  {
    if Present(s.slots[v / 1024]) || CountFree(s.pmm.used) > 0 then RunMapped(s, s', pd, p, v, n) else s' == s
  }

  lemma RunStart(s: Space, pd: nat, p: nat, v: nat)
    requires TablesUsed(s, pd) && v < VIRTUAL_PAGES
    ensures RunDone(s, s, pd, p, v, 0)
  {
    RunMapGrows(s.pages, p, v, 0);
  }

  lemma RunTurnDone(s: Space, t: Space, pd: nat, p: nat, v: nat, i: nat, n: nat)
    requires |s.slots| == |t.slots| == TABLE && i < n <= VIRTUAL_PAGES - v && (v + n - 1) / 1024 == v / 1024
    requires RunDone(s, t, pd, p, v, i)
    ensures RunDone(s, RunNext(t, p, v, i), pd, p, v, i + 1)
  {
    if Present(s.slots[v / 1024]) || CountFree(s.pmm.used) > 0 {
      RunTurnMaps(s, t, pd, p, v, i, n);
    } else {
      MapSpaceSkips(s, v + i, (p + i) * 4096 + FLAGS);
    }
  }

  lemma RunTurnMaps(s: Space, t: Space, pd: nat, p: nat, v: nat, i: nat, n: nat)
    requires RunMapped(s, t, pd, p, v, i) && i < n <= VIRTUAL_PAGES - v && (v + n - 1) / 1024 == v / 1024
    requires Present(s.slots[v / 1024]) || CountFree(s.pmm.used) > 0
    ensures RunMapped(s, RunNext(t, p, v, i), pd, p, v, i + 1)
  {
    MapSpaceMaps(t, v + i, (p + i) * 4096 + FLAGS);
    RunStep(s, t, RunNext(t, p, v, i), pd, p, v, i);
  }

  lemma RunKeepsTables(s: Space, s': Space, pd: nat, p: nat, v: nat, n: nat)
    requires TablesUsed(s, pd) && v < VIRTUAL_PAGES && RunDone(s, s', pd, p, v, n)
    ensures TablesUsed(s', pd)
  {}

  /** Low memory and the kernel window, each with its table if there is a page for it. */
  lemma LowDone(s0: Space, s1: Space, s2: Space, pd: nat)
    requires TablesUsed(s0, pd) && s0.pages == map[] && forall d :: 0 <= d < TABLE ==> s0.slots[d] == 0
    requires RunDone(s0, s1, pd, 0, 0, 1024) && |s1.slots| == TABLE && RunDone(s1, s2, pd, 0x100, KERNEL_BASE, 256)
    ensures TablesUsed(s2, pd)
    ensures var c := CountFree(s0.pmm.used);
      && s2.pages == LowMap(c) && CountFree(s2.pmm.used) == (if c <= 2 then 0 else c - 2)
      && (Present(s2.slots[0]) <==> c >= 1)
    ensures forall d :: 0 < d < TABLE && d != 768 ==> s2.slots[d] == 0
  {
    NothingAdded(RunMap(0, 0, 1024));
    assert s0.slots[0] == 0 && s0.slots[768] == 0;
  }

  /** The two VGA regions need the table of low memory; VBE has its own. */
  lemma ScreensDone(s0: Space, s1: Space, s2: Space, s3: Space, pd: nat)
    requires TablesUsed(s0, pd) && s0.slots[1012] == 0 && (Present(s0.slots[0]) || CountFree(s0.pmm.used) == 0)
    requires RunDone(s0, s1, pd, 0xB8, 0xB8, 1) && |s1.slots| == TABLE && RunDone(s1, s2, pd, 0xA0, 0xA0, 16)
    requires |s2.slots| == TABLE && RunDone(s2, s3, pd, 0xFD000, 0xFD000, 512)
    ensures TablesUsed(s3, pd)
    ensures var c := CountFree(s0.pmm.used);
      && CountFree(s3.pmm.used) == (if c == 0 then 0 else c - 1)
      && s3.pages == s0.pages + ScreenMap(Present(s0.slots[0]), c >= 1)
    ensures forall d :: 0 < d < TABLE && d != 1012 ==> s3.slots[d] == s0.slots[d]
  {
    var vga, vbe := RunMap(0xB8, 0xB8, 1) + RunMap(0xA0, 0xA0, 16), RunMap(0xFD000, 0xFD000, 512);
    Regroup(s0.pages, RunMap(0xB8, 0xB8, 1), RunMap(0xA0, 0xA0, 16));
    Regroup(s0.pages, vga, vbe);
    NothingAdded(s0.pages);
    NothingAdded(vga);
    NothingAdded(vbe);
  }

  // ---------- the heap ----------

  /** Tables needed for the first `n` heap pages. */
  function Tables(n: nat): nat { (n + TABLE - 1) / 1024 }

  /** A frame that is in use, but neither as the directory nor as a table. */
  ghost predicate DataFrame(s: Space, pd: nat, f: nat)
  {
    && f < |s.pmm.used| && s.pmm.used[f] && f != pd
    && forall d :: 0 <= d < |s.slots| && Present(s.slots[d]) ==> Frame(s.slots[d]) != f
  }

  /** `frames` are pairwise distinct data frames. */
  ghost predicate OwnFrames(s: Space, pd: nat, frames: seq<nat>)
  {
    && (forall j :: 0 <= j < |frames| ==> DataFrame(s, pd, frames[j]))
    && (forall j, k :: 0 <= j < k < |frames| ==> frames[j] != frames[k])
  }

  /** After some heap pages are mapped: each is on its own data frame, and every page taken is accounted for. */
  ghost predicate HeapMapped(s: Space, pd: nat, base: map<nat, nat>, c0: int, frames: seq<nat>)
  {
    && TablesUsed(s, pd)
    && s.pages == base + HeapMap(frames)
    && CountFree(s.pmm.used) == c0 - |frames| - Tables(|frames|)
    && (forall d :: HEAP_SLOT <= d < HEAP_SLOT + 16 ==> (Present(s.slots[d]) <==> d < HEAP_SLOT + Tables(|frames|)))
    && OwnFrames(s, pd, frames)
  }

  lemma HeapMapGrows(base: map<nat, nat>, frames: seq<nat>, f: nat)
    ensures base + HeapMap([]) == base
    ensures base + HeapMap(frames + [f]) == (base + HeapMap(frames))[HEAP_BASE + |frames| := f * 4096 + FLAGS]
  {
    assert HeapMap(frames + [f]) == HeapMap(frames)[HEAP_BASE + |frames| := f * 4096 + FLAGS];
  }

  /** A page that was free is a data frame once taken, apart from all earlier ones. */
  lemma TakenIsData(s: Space, p': State, pd: nat, frames: seq<nat>, f: nat)
    requires TablesUsed(s, pd) && OwnFrames(s, pd, frames) && TookPage(s.pmm, p', f)
    ensures TablesUsed(s.(pmm := p'), pd) && OwnFrames(s.(pmm := p'), pd, frames + [f])
  {
    var s1, frames' := s.(pmm := p'), frames + [f];
    forall d | 0 <= d < TABLE ensures TableUsed(s1, pd, d) && (Present(s.slots[d]) ==> Frame(s.slots[d]) != f) {
      assert TableUsed(s, pd, d);
    }
    forall j | 0 <= j < |frames'| ensures DataFrame(s1, pd, frames'[j]) && (j < |frames| ==> frames'[j] != f) {
      if j < |frames| { assert DataFrame(s, pd, frames[j]); }
    }
  }

  /** Data frames stay data frames when a page is mapped: a new table is a page that was free. */
  lemma MappedKeepsData(s: Space, s': Space, v: nat, entry: nat, pd: nat, frames: seq<nat>)
    requires TablesUsed(s, pd) && OwnFrames(s, pd, frames) && Mapped(s, s', v, entry)
    ensures OwnFrames(s', pd, frames)
  {
    forall j | 0 <= j < |frames| ensures DataFrame(s', pd, frames[j]) {
      assert DataFrame(s, pd, frames[j]);
    }
  }

  lemma HeapStep(s: Space, p1: State, s': Space, pd: nat, base: map<nat, nat>, c0: int, frames: seq<nat>, f: nat)
    requires HeapMapped(s, pd, base, c0, frames) && |frames| < HEAP_PAGES
    requires TookPage(s.pmm, p1, f)
    requires Mapped(s.(pmm := p1), s', HEAP_BASE + |frames|, f * 4096 + FLAGS)
    ensures HeapMapped(s', pd, base, c0, frames + [f])
  {
    var n, v, s1 := |frames|, HEAP_BASE + |frames|, s.(pmm := p1);
    TakenIsData(s, p1, pd, frames, f);
    MappedKeepsTables(s1, s', v, f * 4096 + FLAGS, pd);
    MappedKeepsData(s1, s', v, f * 4096 + FLAGS, pd, frames + [f]);
    HeapMapGrows(base, frames, f);
    assert v / 1024 == HEAP_SLOT + n / 1024;
    assert Tables(n + 1) == Tables(n) + (if n % 1024 == 0 then 1 else 0);
    assert Present(s.slots[v / 1024]) <==> n % 1024 != 0;
  }

  /** The lowest free page taken and mapped as heap page `i`. */
  function HeapNext(s: Space, i: nat): Space
    requires |s.slots| == TABLE && i < HEAP_PAGES
  {
    MapSpace(s.(pmm := AllocState(s.pmm)), HEAP_BASE + i, Lowest(s.pmm.used) * 4096 + FLAGS)
  }

  lemma HeapNextIs(s: Space, i: nat, s1: Space, f: nat)
    requires |s.slots| == TABLE && i < HEAP_PAGES && s1 == s.(pmm := AllocState(s.pmm)) && f == Lowest(s.pmm.used)
    ensures MapSpace(s1, HEAP_BASE + i, f * 4096 + FLAGS) == HeapNext(s, i)
  {}

  /** Is there a page for the next heap page, and one for its table if it needs one? */
  ghost predicate Enough(s: Space, n: nat) { CountFree(s.pmm.used) >= if n % 1024 == 0 then 2 else 1 }

  /** There is a page to take, and its mapping succeeds. */
  lemma HeapPageMaps(s: Space, pd: nat, base: map<nat, nat>, c0: int, frames: seq<nat>)
    requires HeapMapped(s, pd, base, c0, frames) && |frames| < HEAP_PAGES && Enough(s, |frames|)
    ensures var f, p1 := Lowest(s.pmm.used), AllocState(s.pmm);
      0 < f && TookPage(s.pmm, p1, f)
      && Mapped(s.(pmm := p1), HeapNext(s, |frames|), HEAP_BASE + |frames|, f * 4096 + FLAGS)
  {
    var n, v, s1 := |frames|, HEAP_BASE + |frames|, s.(pmm := AllocState(s.pmm));
    AllocTakes(s.pmm);
    assert v / 1024 == HEAP_SLOT + n / 1024;
    assert Present(s.slots[v / 1024]) || n % 1024 == 0;
    MapSpaceMaps(s1, v, Lowest(s.pmm.used) * 4096 + FLAGS);
  }

  /** One turn of the heap loop: the lowest free page becomes the frame of the next heap page. */
  lemma HeapTurnMaps(s: Space, pd: nat, base: map<nat, nat>, c0: int, frames: seq<nat>)
    requires HeapMapped(s, pd, base, c0, frames) && |frames| < HEAP_PAGES && Enough(s, |frames|)
    ensures var f := Lowest(s.pmm.used);
      0 < f < |s.pmm.used| && HeapMapped(HeapNext(s, |frames|), pd, base, c0, frames + [f])
  {
    HeapPageMaps(s, pd, base, c0, frames);
    HeapStep(s, AllocState(s.pmm), HeapNext(s, |frames|), pd, base, c0, frames, Lowest(s.pmm.used));
  }

  /** When the last page goes to a frame whose table is missing, that page is lost. */
  lemma HeapTurnLoses(s: Space, pd: nat, base: map<nat, nat>, c0: int, frames: seq<nat>)
    requires HeapMapped(s, pd, base, c0, frames) && |frames| < HEAP_PAGES
    requires |frames| % 1024 == 0 && CountFree(s.pmm.used) == 1
    ensures var s' := HeapNext(s, |frames|);
      HeapMapped(s', pd, base, c0 - 1, frames) && CountFree(s'.pmm.used) == 0 && 0 < Lowest(s.pmm.used) < |s.pmm.used|
  {
    var n, v, s1 := |frames|, HEAP_BASE + |frames|, s.(pmm := AllocState(s.pmm));
    AllocTakes(s.pmm);
    assert v / 1024 == HEAP_SLOT + n / 1024;
    assert !Present(s.slots[v / 1024]);
    MapSpaceSkips(s1, v, Lowest(s.pmm.used) * 4096 + FLAGS);
    TakenKeeps(s, AllocState(s.pmm), pd, frames);
  }

  /** With a page to take, a turn maps the next heap page exactly when there is also a page for its table, if it needs
      one; otherwise the page taken was the last, and is lost. */
  lemma HeapTurnExactly(s: Space, pd: nat, base: map<nat, nat>, c0: int, frames: seq<nat>)
    requires HeapMapped(s, pd, base, c0, frames) && |frames| < HEAP_PAGES && CountFree(s.pmm.used) > 0
    ensures var s', f := HeapNext(s, |frames|), Lowest(s.pmm.used);
      && (HeapMapped(s', pd, base, c0, frames + [f]) <==> Enough(s, |frames|))
      && (!Enough(s, |frames|) ==> HeapMapped(s', pd, base, c0 - 1, frames) && CountFree(s'.pmm.used) == 0)
  {
    if Enough(s, |frames|) {
      HeapTurnMaps(s, pd, base, c0, frames);
    } else {
      HeapTurnLoses(s, pd, base, c0, frames);
      assert Tables(|frames| + 1) == Tables(|frames|) + 1;
    }
  }

  lemma TakenKeeps(s: Space, p': State, pd: nat, frames: seq<nat>)
    requires TablesUsed(s, pd) && OwnFrames(s, pd, frames) && UsedGrows(s.pmm, p')
    ensures TablesUsed(s.(pmm := p'), pd) && OwnFrames(s.(pmm := p'), pd, frames)
  {
    var s1 := s.(pmm := p');
    forall d | 0 <= d < TABLE ensures TableUsed(s1, pd, d) { assert TableUsed(s, pd, d); }
    forall j | 0 <= j < |frames| ensures DataFrame(s1, pd, frames[j]) { assert DataFrame(s, pd, frames[j]); }
  }

  /** The heap loop after `i` turns: all went well, or the last turn lost the last page. */
  ghost predicate HeapSoFar(s: Space, pd: nat, base: map<nat, nat>, c0: int, frames: seq<nat>, lost: bool, i: nat)
  {
    && HeapMapped(s, pd, base, if lost then c0 - 1 else c0, frames)
    && if lost then |frames| + 1 == i && |frames| % 1024 == 0 && CountFree(s.pmm.used) == 0 else |frames| == i
  }

  /** The end of the heap loop: every heap page is mapped, or the pages have run out. */
  ghost predicate HeapDone(s: Space, pd: nat, base: map<nat, nat>, c0: int, frames: seq<nat>, lost: bool)
  {
    && HeapMapped(s, pd, base, if lost then c0 - 1 else c0, frames) && |frames| <= HEAP_PAGES
    && (lost ==> |frames| % 1024 == 0 && |frames| < HEAP_PAGES)
    && (CountFree(s.pmm.used) == 0 || (|frames| == HEAP_PAGES && !lost))
  }

  /** How far `c0` pages go: all the heap takes 16,400; fewer are used up, and map as many pages as they can. */
  lemma HeapAccount(s: Space, pd: nat, base: map<nat, nat>, c0: nat, frames: seq<nat>, lost: bool)
    requires HeapDone(s, pd, base, c0, frames, lost)
    ensures CountFree(s.pmm.used) == if c0 <= HEAP_PAGES + 16 then 0 else c0 - HEAP_PAGES - 16
    ensures if c0 >= HEAP_PAGES + 16 then |frames| == HEAP_PAGES && !lost
            else |frames| + Tables(|frames|) + (if lost then 1 else 0) == c0
  {}

  /** What `vmm_init` makes of `c` free pages: `left` are left, `pages` is the address space, and `frames` are the
      frames of the heap. */
  ghost predicate Booted(c: nat, left: nat, pages: map<nat, nat>, frames: seq<nat>, lost: bool)
  {
    && left == (if c <= BOOT_PAGES then 0 else c - BOOT_PAGES)
    && pages == FixedMapFor(if c == 0 then 0 else c - 1) + HeapMap(frames)
    && (if c >= BOOT_PAGES then |frames| == HEAP_PAGES && !lost
        else |frames| + Tables(|frames|) + (if lost then 1 else 0) == if c <= 4 then 0 else c - 4)
    && (lost ==> |frames| % 1024 == 0)
  }

  /** The accounts of the directory, the fixed regions and the heap put together. */
  lemma BootAccount(c: nat, base: map<nat, nat>, c0: nat, s: Space, pd: nat, frames: seq<nat>, lost: bool)
    requires base == FixedMapFor(if c == 0 then 0 else c - 1) && c0 == if c <= 4 then 0 else c - 4
    requires HeapDone(s, pd, base, c0, frames, lost)
    ensures Booted(c, CountFree(s.pmm.used), s.pages, frames, lost) && OwnFrames(s, pd, frames)
  {
    HeapAccount(s, pd, base, c0, frames, lost);
  }

  /** Low memory is mapped to itself, the kernel window to 1 MB, VBE to itself. */
  lemma FixedMapReads(w: nat)
    ensures var pages := FixedMap();
      && (w < 1024 ==> w in pages && pages[w] == w * 4096 + FLAGS)
      && (w < 256 ==> KERNEL_BASE + w in pages && pages[KERNEL_BASE + w] == (0x100 + w) * 4096 + FLAGS)
      && (w < 512 ==> 0xFD000 + w in pages && pages[0xFD000 + w] == (0xFD000 + w) * 4096 + FLAGS)
      && (w in pages <==> w < 1024 || KERNEL_BASE <= w < KERNEL_BASE + 256 || 0xFD000 <= w < 0xFD200)
  {}

  /** Reading the result of a boot with enough pages: the fixed regions, the heap, and nothing else. */
  lemma BootMapReads(frames: seq<nat>, w: nat)
    requires |frames| == HEAP_PAGES
    ensures var pages := FixedMap() + HeapMap(frames);
      && (w < 1024 ==> w in pages && pages[w] == w * 4096 + FLAGS)
      && (w < 256 ==> KERNEL_BASE + w in pages && pages[KERNEL_BASE + w] == (0x100 + w) * 4096 + FLAGS)
      && (w < 512 ==> 0xFD000 + w in pages && pages[0xFD000 + w] == (0xFD000 + w) * 4096 + FLAGS)
      && (w < HEAP_PAGES ==> HEAP_BASE + w in pages && pages[HEAP_BASE + w] == frames[w] * 4096 + FLAGS)
      && (w in pages <==> w < 1024 || KERNEL_BASE <= w < KERNEL_BASE + 256 || 0xFD000 <= w < 0xFD200
                          || HEAP_BASE <= w < HEAP_BASE + HEAP_PAGES)
  {
    FixedMapReads(w);
    BootMapAt(FixedMap(), frames, w);
    BootMapAt(FixedMap(), frames, KERNEL_BASE + w);
    BootMapAt(FixedMap(), frames, 0xFD000 + w);
    BootMapAt(FixedMap(), frames, HEAP_BASE + w);
  }

  lemma BootMapAt(fixed: map<nat, nat>, frames: seq<nat>, v: nat)
    ensures var pages, heap := fixed + HeapMap(frames), HEAP_BASE <= v < HEAP_BASE + |frames|;
      && (v in pages <==> heap || v in fixed)
      && (heap ==> pages[v] == frames[v - HEAP_BASE] * 4096 + FLAGS)
      && (!heap && v in fixed ==> pages[v] == fixed[v])
  {}

  // ---------- addresses ----------

  /** The physical address of a virtual one. */
  function Translate(pages: map<nat, nat>, a: nat): Option<nat>
  {
    if a / 4096 in pages then Some(Frame(pages[a / 4096]) * 4096 + a % 4096) else None
  }

  /** The result of a boot with enough pages, byte by byte: the first 4 MB and the 2 MB of VBE at 0xFD000000 are where
      they are, the megabyte at 0xC0000000 is the one at 0x100000, the heap that `kmalloc` uses is on `frames`, and no
      other address is mapped. */
  lemma BootTranslates(frames: seq<nat>, a: nat)
    requires |frames| == HEAP_PAGES
    ensures Translate(FixedMap() + HeapMap(frames), a) ==
            if a < 0x40_0000 || 0xFD00_0000 <= a < 0xFD20_0000 then Some(a)
            else if 0xC000_0000 <= a < 0xC010_0000 then Some(a - 0xC000_0000 + 0x10_0000)
            else if H.HEAP_START <= a < H.HEAP_END then Some(frames[(a - H.HEAP_START) / 4096] * 4096 + a % 4096)
            else None
  {
    BootPage(frames, a / 4096);
    HeapPageOf(a);
    RegionOf(a);
  }

  /** The frame of page `v`, or none. */
  lemma BootPage(frames: seq<nat>, v: nat)
    requires |frames| == HEAP_PAGES
    ensures var pages := FixedMap() + HeapMap(frames);
      && (v < 0x400 || 0xFD000 <= v < 0xFD200 ==> v in pages && Frame(pages[v]) == v)
      && (0xC0000 <= v < 0xC0100 ==> v in pages && Frame(pages[v]) == v - 0xC0000 + 0x100)
      && (HEAP_BASE <= v < HEAP_BASE + HEAP_PAGES ==> v in pages && Frame(pages[v]) == frames[v - HEAP_BASE])
      && (v in pages ==> v < 0x400 || 0xFD000 <= v < 0xFD200 || 0xC0000 <= v < 0xC0100
                         || HEAP_BASE <= v < HEAP_BASE + HEAP_PAGES)
  {
    var w := if v < 1024 then v else if v < HEAP_BASE then v - KERNEL_BASE else if v < 0xFD000 then v - HEAP_BASE
             else v - 0xFD000;
    BootMapReads(frames, v);
    if w >= 0 { BootMapReads(frames, w); }
  }

  lemma RegionOf(a: nat)
    ensures a / 4096 < 0x400 <==> a < 0x40_0000
    ensures 0xFD000 <= a / 4096 < 0xFD200 <==> 0xFD00_0000 <= a < 0xFD20_0000
    ensures 0xC0000 <= a / 4096 < 0xC0100 <==> 0xC000_0000 <= a < 0xC010_0000
    ensures a / 4096 * 4096 + a % 4096 == a
  {}

  /** The heap's first page is at `HEAP_START`, and its pages are all of the heap. */
  lemma HeapPageOf(a: nat)
    ensures HEAP_BASE <= a / 4096 < HEAP_BASE + HEAP_PAGES <==> H.HEAP_START <= a < H.HEAP_END
    ensures H.HEAP_START <= a ==> a / 4096 - HEAP_BASE == (a - H.HEAP_START) / 4096
  {}

  /** Every byte of the heap that `kmalloc` uses is on the frame of its page, present and writable. */
  ghost predicate HeapReady(pages: map<nat, nat>, frames: seq<nat>)
  {
    forall a :: H.HEAP_START <= a < H.HEAP_END ==> HeapByteReady(pages, frames, a)
  }

  ghost predicate HeapByteReady(pages: map<nat, nat>, frames: seq<nat>, a: nat)
    requires H.HEAP_START <= a
  {
    var k := (a - H.HEAP_START) / 4096;
    && k < |frames| && a / 4096 in pages && pages[a / 4096] == frames[k] * 4096 + 3
    && Present(pages[a / 4096]) && Writable(pages[a / 4096])
    && Translate(pages, a) == Some(frames[k] * 4096 + a % 4096)
  }

  lemma EnoughPagesForHeap(c: nat, left: nat, pages: map<nat, nat>, frames: seq<nat>, lost: bool)
    requires Booted(c, left, pages, frames, lost) && c >= BOOT_PAGES
    ensures HeapReady(pages, frames)
  {
    forall a | H.HEAP_START <= a < H.HEAP_END ensures HeapByteReady(pages, frames, a) {
      HeapPageOf(a);
      var k := a / 4096 - HEAP_BASE;
      BootMapAt(FixedMapFor(c - 1), frames, a / 4096);
      TableEntryIs(frames[k]);
    }
  }

  /** No two bytes of the heap share a physical byte, and none lies in the directory or a table. */
  lemma HeapBytesApart(s: Space, pd: nat, frames: seq<nat>, pages: map<nat, nat>, a: nat, b: nat)
    requires OwnFrames(s, pd, frames) && HeapReady(pages, frames)
    requires H.HEAP_START <= a < b < H.HEAP_END
    ensures Translate(pages, a) != Translate(pages, b)
    ensures Translate(pages, a).Some? && Translate(pages, a).value / 4096 != pd
    ensures forall d :: 0 <= d < |s.slots| && Present(s.slots[d]) ==>
      Frame(s.slots[d]) != Translate(pages, a).value / 4096
  {
    assert HeapByteReady(pages, frames, a) && HeapByteReady(pages, frames, b);
    var j, k := (a - H.HEAP_START) / 4096, (b - H.HEAP_START) / 4096;
    assert DataFrame(s, pd, frames[j]);
    SplitAddress(frames[j], a % 4096);
    SplitAddress(frames[k], b % 4096);
  }

  lemma SplitAddress(f: nat, o: nat)
    requires o < 4096
    ensures (f * 4096 + o) / 4096 == f && (f * 4096 + o) % 4096 == o
  {}
}
