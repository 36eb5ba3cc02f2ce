/**
 The physical page allocator as a state (src/kernel/memory.c:35-154): which pages are used, the search hint
 and the counter of free pages.  The reference search is the plain one: the lowest free page.
 */
module PmmModel {
  import opened Runs

  const PMM_MAX_PAGES: nat := 0x10_0000
  const BITMAP_WORDS: nat := 0x8000
  const PAGE_SIZE: nat := 4096  // written out below where it multiplies or divides

  datatype State = State(used: seq<bool>, hint: nat, free: nat)

  /** The first free page at or above `i`, or the number of pages when there is none. */
  function LowestFrom(used: seq<bool>, i: nat): (r: nat)
    requires i <= |used|
    ensures i <= r <= |used|
    ensures r < |used| ==> !used[r]
    ensures forall j :: i <= j < r ==> used[j]
    decreases |used| - i
  {
    if i == |used| || !used[i] then i else LowestFrom(used, i + 1)
  }

  function Lowest(used: seq<bool>): nat { LowestFrom(used, 0) }

  lemma LowestIs(used: seq<bool>, i: nat)
    requires i < |used| && !used[i] && forall j :: 0 <= j < i ==> used[j]
    ensures Lowest(used) == i
  {}

  lemma NoneFree(used: seq<bool>)
    requires forall j :: 0 <= j < |used| ==> used[j]
    ensures Lowest(used) == |used|
  {}

  function CountFree(used: seq<bool>): nat
  {
    if used == [] then 0
    else CountFree(used[..|used| - 1]) + if used[|used| - 1] then 0 else 1
  }

  /** Every page below the hint is used: nothing is lost by starting the search there. */
  ghost predicate HintOk(s: State)
  {
    forall i :: 0 <= i < |s.used| && i < s.hint ==> s.used[i]
  }

  ghost predicate Exact(s: State) { s.free == CountFree(s.used) }

  function AllocState(s: State): State
  {
    var i := Lowest(s.used);
    if i == |s.used| then s
    else State(s.used[i := true], if i + 1 == |s.used| then 0 else i + 1, (s.free - 1) % 0x1_0000_0000)
  }

  function FreeState(s: State, page: nat): State
  {
    if page >= |s.used| then s
    else State(s.used[page := false], if page < s.hint then page else s.hint, (s.free + 1) % 0x1_0000_0000)
  }

  lemma {:induction false} CountUpdate(used: seq<bool>, i: nat, b: bool)
    requires i < |used|
    ensures CountFree(used[i := b]) ==
            CountFree(used) + (if used[i] then 1 else 0) - (if b then 1 else 0)
  {
    var n := |used| - 1;
    if i < n {
      assert used[i := b][..n] == used[..n][i := b];
      CountUpdate(used[..n], i, b);
    } else {
      assert used[i := b][..n] == used[..n];
    }
  }

  lemma {:induction false} CountBound(used: seq<bool>)
    ensures CountFree(used) <= |used|
  {
    if used != [] { CountBound(used[..|used| - 1]); }
  }

  lemma {:induction false} CountNone(used: seq<bool>)
    requires forall j :: 0 <= j < |used| ==> used[j]
    ensures CountFree(used) == 0
  {
    if used != [] { CountNone(used[..|used| - 1]); }
  }

  lemma AllocKeeps(s: State)
    requires HintOk(s)
    ensures HintOk(AllocState(s))
    ensures Exact(s) && |s.used| <= PMM_MAX_PAGES ==> Exact(AllocState(s))
  {
    var i := Lowest(s.used);
    if i < |s.used| {
      CountUpdate(s.used, i, true);
      CountBound(s.used);
    }
  }

  /** Freeing keeps the hint sound always, and the counter exact exactly when the page was in use. */
  lemma FreeKeeps(s: State, page: nat)
    requires HintOk(s)
    ensures HintOk(FreeState(s, page))
    ensures Exact(s) && page < |s.used| <= PMM_MAX_PAGES ==> (Exact(FreeState(s, page)) <==> s.used[page])
  {
    if page < |s.used| {
      CountUpdate(s.used, page, false);
      CountBound(s.used);
    }
  }

  // ---------- runs ----------

  /** The allocator together with the pages its clients hold. */
  datatype System = System(pmm: State, held: set<nat>)
  datatype Event = Alloc(page: nat) | OutOfMemory | Free(page: nat)

  ghost predicate Initial(c: System, start: nat)
  {
    && |c.pmm.used| <= PMM_MAX_PAGES
    && (forall i :: 0 <= i < |c.pmm.used| ==> c.pmm.used[i] == (i < start))
    && c.pmm.hint == start && Exact(c.pmm) && c.held == {}
  }

  ghost predicate Step(c: System, e: Event, c': System)
  {
    match e
    case Alloc(page) =>
      page == Lowest(c.pmm.used) < |c.pmm.used| && c'.pmm == AllocState(c.pmm) && c'.held == c.held + {page}
    case OutOfMemory =>
      Lowest(c.pmm.used) == |c.pmm.used| && c' == c
    case Free(page) =>
      page in c.held && c'.pmm == FreeState(c.pmm, page) && c'.held == c.held - {page}
  }

  /** A page is used exactly when it is reserved or held; the hint and the counter are right. */
  ghost predicate Sound(c: System, start: nat)
  {
    && |c.pmm.used| <= PMM_MAX_PAGES
    && HintOk(c.pmm) && Exact(c.pmm)
    && (forall p :: p in c.held ==> start <= p < |c.pmm.used|)
    && (forall i :: 0 <= i < |c.pmm.used| ==> (c.pmm.used[i] <==> i < start || i in c.held))
  }

  lemma StepSound(c: System, e: Event, c': System, start: nat)
    requires Sound(c, start) && Step(c, e, c')
    ensures Sound(c', start)
    ensures e.Alloc? ==> e.page !in c.held && e.page >= start
  {
    AllocKeeps(c.pmm);
    if e.Free? { FreeKeeps(c.pmm, e.page); }
  }

  ghost predicate Run(states: seq<System>, events: seq<Event>, start: nat)
  {
    IsRun(Step, states, events) && Initial(states[0], start)
  }

  /** In every run of allocations and frees of held pages, no page is issued twice or out of the reserved
      range, and the free counter is exact. */
  lemma {:induction false} EveryRunIsSound(states: seq<System>, events: seq<Event>, start: nat, i: nat)
    requires Run(states, events, start) && i <= |events|
    ensures Sound(states[i], start)
    ensures i < |events| && events[i].Alloc? ==> events[i].page !in states[i].held && events[i].page >= start
  {
    if i > 0 {
      EveryRunIsSound(states, events, start, i - 1);
      StepSound(states[i - 1], events[i - 1], states[i], start);
    }
    if i < |events| {
      StepSound(states[i], events[i], states[i + 1], start);
    }
  }
}
