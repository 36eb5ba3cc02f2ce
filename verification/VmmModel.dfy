/**
 Two-level page tables in physical memory (src/kernel/memory.c:156-214), read the way 32-bit paging reads them
 (section 4.3 of the Intel SDM, Volume 3A): directory entry, then table entry, each valid only when its
 low bit is set.

 `m` is physical memory as 32-bit words, `pd` the address of the page directory, and `v` a virtual page number.
 */
module VmmModel {
  import opened Options
  import opened PmmModel

  const RAM_WORDS: nat := 0x4000_0000
  const TABLE: nat := 1024  // entries of a directory or table
  const VIRTUAL_PAGES: nat := 0x10_0000

  predicate Present(entry: nat) { entry % 2 == 1 }

  predicate Writable(entry: nat) { entry / 2 % 2 == 1 }

  function Frame(entry: nat): nat { entry / 4096 }

  /** Directory entry `d`. */
  function Pde(m: seq<nat>, pd: nat, d: nat): nat
    requires |m| == RAM_WORDS && pd / 4 + TABLE <= RAM_WORDS && d < TABLE
  {
    m[pd / 4 + d]
  }

  /** The directory and the tables are pairwise distinct frames that the page allocator counts as used. */
  ghost predicate WellFormed(m: seq<nat>, pd: nat, used: seq<bool>)
  {
    && |m| == RAM_WORDS
    && |used| <= PMM_MAX_PAGES
    && pd % 4096 == 0 && pd / 4096 < |used| && used[pd / 4096]
    && (forall d :: 0 <= d < TABLE ==> TableOk(m, pd, used, d))
    && (forall d, e :: 0 <= d < e < TABLE && Present(Pde(m, pd, d)) && Present(Pde(m, pd, e)) ==>
          Frame(Pde(m, pd, d)) != Frame(Pde(m, pd, e)))
  }

  ghost predicate TableOk(m: seq<nat>, pd: nat, used: seq<bool>, d: nat)
    requires |m| == RAM_WORDS && pd / 4 + TABLE <= RAM_WORDS && d < TABLE
  {
    Present(Pde(m, pd, d)) ==>
      && Frame(Pde(m, pd, d)) < |used| && used[Frame(Pde(m, pd, d))] && Frame(Pde(m, pd, d)) != pd / 4096
      && Writable(Pde(m, pd, d))
  }

  /** Where the table entry of page `v` lies. */
  function PteIndex(m: seq<nat>, pd: nat, v: nat): nat
    requires |m| == RAM_WORDS && pd / 4 + TABLE <= RAM_WORDS && v < VIRTUAL_PAGES
  {
    Frame(Pde(m, pd, v / 1024)) * 1024 + v % 1024
  }

  /** The translation of page `v`: its table entry, if both levels are present. */
  function Lookup(m: seq<nat>, pd: nat, v: nat): Option<nat>
    requires |m| == RAM_WORDS && pd / 4 + TABLE <= RAM_WORDS && v < VIRTUAL_PAGES
  {
    var i := PteIndex(m, pd, v);
    if Present(Pde(m, pd, v / 1024)) && i < RAM_WORDS && Present(m[i]) then Some(m[i]) else None
  }

  /** The address space as one flat map. */
  ghost function Flat(m: seq<nat>, pd: nat): map<nat, nat>
    requires |m| == RAM_WORDS && pd / 4 + TABLE <= RAM_WORDS
  {
    map v | 0 <= v < VIRTUAL_PAGES && Lookup(m, pd, v).Some? :: Lookup(m, pd, v).value
  }

  /** Paging lets a page be written only if the entries of both levels are writable. */
  predicate WriteAllowed(m: seq<nat>, pd: nat, v: nat)
    requires |m| == RAM_WORDS && pd / 4 + TABLE <= RAM_WORDS && v < VIRTUAL_PAGES
  {
    match Lookup(m, pd, v)
    case None => false
    case Some(entry) => Writable(Pde(m, pd, v / 1024)) && Writable(entry)
  }

  /** The directory takes no right away: the flat map tells what may be written. */
  lemma RightsAreInTheEntry(m: seq<nat>, pd: nat, used: seq<bool>, v: nat)
    requires WellFormed(m, pd, used) && v < VIRTUAL_PAGES
    ensures WriteAllowed(m, pd, v) <==> v in Flat(m, pd) && Writable(Flat(m, pd)[v])
  {
    FlatAt(m, pd, v);
    assert TableOk(m, pd, used, v / 1024);
  }

  // ---------- storing a table entry ----------

  lemma PdesKept(m: seq<nat>, pd: nat, used: seq<bool>, i: nat, entry: nat)
    requires WellFormed(m, pd, used) && i < RAM_WORDS && i / 1024 != pd / 4096
    ensures forall d :: 0 <= d < TABLE ==> Pde(m[i := entry], pd, d) == Pde(m, pd, d)
    ensures WellFormed(m[i := entry], pd, used)
  {
    var m' := m[i := entry];
    forall d | 0 <= d < TABLE
      ensures Pde(m', pd, d) == Pde(m, pd, d) && TableOk(m', pd, used, d)
    {
      assert pd / 4 == pd / 4096 * 1024;
      assert TableOk(m, pd, used, d);
    }
  }

  /** Two pages share a table entry only when they are the same page. */
  lemma PteApart(m: seq<nat>, pd: nat, used: seq<bool>, v: nat, w: nat)
    requires WellFormed(m, pd, used) && v < VIRTUAL_PAGES && w < VIRTUAL_PAGES && v != w
    requires Present(Pde(m, pd, v / 1024)) && Present(Pde(m, pd, w / 1024))
    ensures PteIndex(m, pd, v) != PteIndex(m, pd, w)
  {
    var d, e := v / 1024, w / 1024;
    if d != e {
      assert Frame(Pde(m, pd, if d < e then d else e)) != Frame(Pde(m, pd, if d < e then e else d));
    }
  }

  /** Writing the table entry of `v` changes the translation of `v` and of no other page. */
  lemma StorePte(m: seq<nat>, pd: nat, used: seq<bool>, v: nat, entry: nat)
    requires WellFormed(m, pd, used) && v < VIRTUAL_PAGES && Present(Pde(m, pd, v / 1024))
    ensures PteIndex(m, pd, v) < RAM_WORDS && WellFormed(m[PteIndex(m, pd, v) := entry], pd, used)
    ensures Flat(m[PteIndex(m, pd, v) := entry], pd) ==
            if Present(entry) then Flat(m, pd)[v := entry] else Flat(m, pd) - {v}
    ensures forall d :: 0 <= d < TABLE ==> Pde(m[PteIndex(m, pd, v) := entry], pd, d) == Pde(m, pd, d)
  {
    assert TableOk(m, pd, used, v / 1024);
    var i := PteIndex(m, pd, v);
    PdesKept(m, pd, used, i, entry);
    forall w | 0 <= w < VIRTUAL_PAGES
      ensures Lookup(m[i := entry], pd, w) ==
              if w != v then Lookup(m, pd, w) else if Present(entry) then Some(entry) else None
    {
      StorePteLookup(m, pd, used, v, entry, w);
    }
    FlatUpdated(m, m[i := entry], pd, used, v, entry);
  }

  lemma FlatUpdated(m: seq<nat>, m': seq<nat>, pd: nat, used: seq<bool>, v: nat, entry: nat)
    requires WellFormed(m, pd, used) && WellFormed(m', pd, used) && v < VIRTUAL_PAGES
    requires forall w :: 0 <= w < VIRTUAL_PAGES ==>
      Lookup(m', pd, w) ==
      if w != v then Lookup(m, pd, w) else if Present(entry) then Some(entry) else None
    ensures Flat(m', pd) ==
            if Present(entry) then Flat(m, pd)[v := entry] else Flat(m, pd) - {v}
  {
    var f, f' := Flat(m, pd), Flat(m', pd);
    var g := if Present(entry) then f[v := entry] else f - {v};
    forall w ensures w in f' <==> w in g {
      FlatAt(m, pd, w);
      FlatAt(m', pd, w);
    }
    forall w | w in f' ensures f'[w] == g[w] {
      FlatAt(m, pd, w);
      FlatAt(m', pd, w);
    }
  }

  lemma FlatAt(m: seq<nat>, pd: nat, w: nat)
    requires |m| == RAM_WORDS && pd / 4 + TABLE <= RAM_WORDS
    ensures w in Flat(m, pd) <==> w < VIRTUAL_PAGES && Lookup(m, pd, w).Some?
    ensures w in Flat(m, pd) ==> Flat(m, pd)[w] == Lookup(m, pd, w).value
  {}

  lemma StorePteLookup(m: seq<nat>, pd: nat, used: seq<bool>, v: nat, entry: nat, w: nat)
    requires WellFormed(m, pd, used) && v < VIRTUAL_PAGES && w < VIRTUAL_PAGES && Present(Pde(m, pd, v / 1024))
    requires PteIndex(m, pd, v) < RAM_WORDS && WellFormed(m[PteIndex(m, pd, v) := entry], pd, used)
    requires Pde(m[PteIndex(m, pd, v) := entry], pd, w / 1024) == Pde(m, pd, w / 1024)
    ensures Lookup(m[PteIndex(m, pd, v) := entry], pd, w) ==
            if w != v then Lookup(m, pd, w) else if Present(entry) then Some(entry) else None
  {
    assert TableOk(m, pd, used, w / 1024);
    if w != v && Present(Pde(m, pd, w / 1024)) {
      PteApart(m, pd, used, v, w);
    }
  }

  // ---------- adding a table ----------

  /** Memory after a fresh frame `f` is cleared and entered in the directory at `d`. */
  ghost predicate TableAdded(m: seq<nat>, m': seq<nat>, pd: nat, d: nat, f: nat)
    requires |m| == |m'| == RAM_WORDS && pd / 4 + TABLE <= RAM_WORDS && d < TABLE
  {
    && Pde(m', pd, d) == f * 4096 + 3
    && (forall i :: f * 1024 <= i < f * 1024 + TABLE && i < RAM_WORDS ==> m'[i] == 0)
    && (forall i :: 0 <= i < RAM_WORDS && !(f * 1024 <= i < f * 1024 + TABLE) && i != pd / 4 + d ==> m'[i] == m[i])
  }

  /** A frame that the allocator had free is no table yet, so a cleared table there changes no translation. */
  lemma AddTable(m: seq<nat>, m': seq<nat>, pd: nat, used: seq<bool>, d: nat, f: nat)
    requires WellFormed(m, pd, used) && d < TABLE && !Present(Pde(m, pd, d))
    requires f < |used| && !used[f] && |m'| == RAM_WORDS && TableAdded(m, m', pd, d, f)
    ensures WellFormed(m', pd, used[f := true])
    ensures Flat(m', pd) == Flat(m, pd)
    ensures forall e :: 0 <= e < TABLE && e != d ==> Pde(m', pd, e) == Pde(m, pd, e)
  {
    var used' := used[f := true];
    AddTableKeeps(m, m', pd, used, d, f);
    forall v | 0 <= v < VIRTUAL_PAGES ensures Lookup(m', pd, v) == Lookup(m, pd, v) {
      AddTableLookup(m, m', pd, used, d, f, v);
    }
  }

  lemma AddTableKeeps(m: seq<nat>, m': seq<nat>, pd: nat, used: seq<bool>, d: nat, f: nat)
    requires WellFormed(m, pd, used) && d < TABLE && !Present(Pde(m, pd, d))
    requires f < |used| && !used[f] && |m'| == RAM_WORDS && TableAdded(m, m', pd, d, f)
    ensures WellFormed(m', pd, used[f := true])
    ensures forall e :: 0 <= e < TABLE && e != d ==> Pde(m', pd, e) == Pde(m, pd, e)
  {
    var used' := used[f := true];
    assert pd / 4 == pd / 4096 * 1024;
    TableEntryIs(f);
    forall e | 0 <= e < TABLE
      ensures e != d ==> Pde(m', pd, e) == Pde(m, pd, e)
      ensures TableOk(m', pd, used', e)
      ensures e != d && Present(Pde(m', pd, e)) ==> Frame(Pde(m', pd, e)) != f
    {
      assert TableOk(m, pd, used, e);
    }
  }

  lemma TableEntryIs(f: nat)
    ensures Frame(f * 4096 + 3) == f && Present(f * 4096 + 3) && Writable(f * 4096 + 3)
  {}

  lemma AddTableLookup(m: seq<nat>, m': seq<nat>, pd: nat, used: seq<bool>, d: nat, f: nat, v: nat)
    requires WellFormed(m, pd, used) && d < TABLE && !Present(Pde(m, pd, d)) && v < VIRTUAL_PAGES
    requires f < |used| && !used[f] && |m'| == RAM_WORDS && TableAdded(m, m', pd, d, f)
    requires WellFormed(m', pd, used[f := true])
    requires forall e :: 0 <= e < TABLE && e != d ==> Pde(m', pd, e) == Pde(m, pd, e)
    ensures Lookup(m', pd, v) == Lookup(m, pd, v)
  {
    var e := v / 1024;
    if e == d {
      assert Frame(Pde(m', pd, d)) == f;
    } else if Present(Pde(m, pd, e)) {
      assert TableOk(m, pd, used, e);
      assert pd / 4 == pd / 4096 * 1024;
    }
  }

  // ---------- vmm_map_page ----------

  /** The first half of `vmm_map_page`: keep the table of slot `d`, or give it a fresh one.  `ok` tells whether
      there is one now; the allocator's page 0 counts as NULL. */
  ghost predicate TableStep(m: seq<nat>, p: State, m': seq<nat>, p': State, pd: nat, d: nat, ok: bool)
    requires WellFormed(m, pd, p.used) && d < TABLE
  {
    if Present(Pde(m, pd, d)) then ok && m' == m && p' == p
    else
      && p' == AllocState(p)
      && ok == (0 < Lowest(p.used) < |p.used|)
      && |m'| == RAM_WORDS
      && if ok then TableAdded(m, m', pd, d, Lowest(p.used)) else m' == m
  }

  lemma TableStepKeeps(m: seq<nat>, p: State, m': seq<nat>, p': State, pd: nat, d: nat, ok: bool)
    requires WellFormed(m, pd, p.used) && d < TABLE && TableStep(m, p, m', p', pd, d, ok)
    ensures WellFormed(m', pd, p'.used) && Flat(m', pd) == Flat(m, pd)
    ensures ok ==> Present(Pde(m', pd, d))
    ensures forall e :: 0 <= e < TABLE && e != d ==> Pde(m', pd, e) == Pde(m, pd, e)
  {
    if !Present(Pde(m, pd, d)) {
      var f := Lowest(p.used);
      if ok {
        AddTable(m, m', pd, p.used, d, f);
      } else if f < |p.used| {
        MoreUsed(m, pd, p.used, f);
      }
    }
  }

  lemma MoreUsed(m: seq<nat>, pd: nat, used: seq<bool>, f: nat)
    requires WellFormed(m, pd, used) && f < |used|
    ensures WellFormed(m, pd, used[f := true])
  {
    var used' := used[f := true];
    forall d | 0 <= d < TABLE ensures TableOk(m, pd, used', d) {
      assert TableOk(m, pd, used, d);
    }
  }

  // ---------- the abstract address space ----------

  /** What page tables amount to: the flat map, the 1024 directory entries and the page allocator. */
  datatype Space = Space(pages: map<nat, nat>, slots: seq<nat>, pmm: State)

  ghost predicate Shows(m: seq<nat>, pd: nat, s: Space)
  {
    && WellFormed(m, pd, s.pmm.used)
    && s.pages == Flat(m, pd)
    && |s.slots| == TABLE
    && forall d :: 0 <= d < TABLE ==> s.slots[d] == Pde(m, pd, d)
  }

  /** All of `vmm_map_page` on the abstract address space: `entry` becomes the translation of `v`, unless a table
      is missing and none can be allocated; at most one page is taken from the allocator. */
  function MapSpace(s: Space, v: nat, entry: nat): Space
    requires |s.slots| == TABLE && v < VIRTUAL_PAGES
  {
    var d := v / 1024;
    var f := Lowest(s.pmm.used);
    if Present(s.slots[d]) then s.(pages := s.pages[v := entry])
    else if 0 < f < |s.pmm.used| then
      Space(s.pages[v := entry], s.slots[d := f * 4096 + 3], AllocState(s.pmm))
    else s.(pmm := AllocState(s.pmm))
  }

  /** The two-level update refines the flat one. */
  lemma MapRefines(m: seq<nat>, m1: seq<nat>, pd: nat, s: Space, v: nat, entry: nat, ok: bool)
    requires Shows(m, pd, s) && v < VIRTUAL_PAGES && Present(entry)
    requires TableStep(m, s.pmm, m1, MapSpace(s, v, entry).pmm, pd, v / 1024, ok)
    ensures WellFormed(m1, pd, MapSpace(s, v, entry).pmm.used)
    ensures !ok ==> Shows(m1, pd, MapSpace(s, v, entry))
    ensures ok ==> Present(Pde(m1, pd, v / 1024)) && PteIndex(m1, pd, v) < RAM_WORDS
    ensures ok ==> Shows(m1[PteIndex(m1, pd, v) := entry], pd, MapSpace(s, v, entry))
  {
    var s' := MapSpace(s, v, entry);
    var d := v / 1024;
    TableStepKeeps(m, s.pmm, m1, s'.pmm, pd, d, ok);
    if ok {
      StorePte(m1, pd, s'.pmm.used, v, entry);
    }
  }

  lemma UnmapRefines(m: seq<nat>, pd: nat, s: Space, v: nat)
    requires Shows(m, pd, s) && v < VIRTUAL_PAGES
    ensures !Present(Pde(m, pd, v / 1024)) ==> v !in s.pages
    ensures Present(Pde(m, pd, v / 1024)) ==>
      PteIndex(m, pd, v) < RAM_WORDS && Shows(m[PteIndex(m, pd, v) := 0], pd, s.(pages := s.pages - {v}))
  {
    if Present(Pde(m, pd, v / 1024)) {
      StorePte(m, pd, s.pmm.used, v, 0);
    }
  }

  /** Taking one more page from the allocator does not disturb the address space. */
  lemma AllocShows(m: seq<nat>, pd: nat, s: Space)
    requires Shows(m, pd, s)
    ensures Shows(m, pd, s.(pmm := AllocState(s.pmm)))
  {
    var f := Lowest(s.pmm.used);
    if f < |s.pmm.used| { MoreUsed(m, pd, s.pmm.used, f); }
  }

  /** A cleared directory in its own used frame maps nothing. */
  lemma EmptyDirectory(m: seq<nat>, pd: nat, p: State)
    requires |m| == RAM_WORDS && |p.used| <= PMM_MAX_PAGES
    requires pd % 4096 == 0 && pd / 4096 < |p.used| && p.used[pd / 4096]
    requires forall d :: 0 <= d < TABLE ==> Pde(m, pd, d) == 0
    ensures Shows(m, pd, EmptySpace(p))
  {
    forall v | 0 <= v < VIRTUAL_PAGES ensures Lookup(m, pd, v) == None {
      assert Pde(m, pd, v / 1024) == 0;
    }
  }

  /** The frame of the directory: the lowest free one, or 0 when there is none. */
  function DirectoryFrame(used: seq<bool>): nat { if Lowest(used) < |used| then Lowest(used) else 0 }

  function EmptySpace(p: State): Space { Space(map[], seq(TABLE, _ => 0), p) }
}
