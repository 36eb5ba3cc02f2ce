/**
 The scancode ring between the keyboard interrupt and its reader (src/kernel/keyboard.c:567-574, 670-679).

 The reader tests, fetches and advances in three separate steps, and the interrupt may come between any two.
 `accepted` and `delivered` record every key stored and every key handed to the caller.
 */
module Keyboard {
  import opened Runs

  const KEYBUF_SIZE: nat := 64

  /** How far the reader has got in `keyboard_get_scancode`. */
  datatype Reader = Idle | Checked | Fetched(scancode: nat)

  datatype State = State(buffer: seq<nat>, head: nat, tail: nat, reader: Reader,
                         accepted: seq<nat>, delivered: seq<nat>)
  datatype Event = Irq(scancode: nat) | Check | Fetch | Advance

  ghost predicate InRange(s: State) { |s.buffer| == KEYBUF_SIZE && s.head < KEYBUF_SIZE && s.tail < KEYBUF_SIZE }

  function Count(s: State): nat { (s.head - s.tail) % 64 }

  /** The slot of the `i`-th unread key. */
  function Slot(tail: nat, i: nat): nat { (tail + i) % 64 }

  /** The unread keys, oldest first. */
  function Pending(s: State): seq<nat>
    requires InRange(s)
  {
    seq(Count(s), i requires 0 <= i => s.buffer[Slot(s.tail, i)])
  }

  ghost predicate Initial(s: State)
  {
    InRange(s) && s.head == s.tail == 0 && s.reader == Idle && s.accepted == [] && s.delivered == []
  }

  predicate Enabled(s: State, e: Event)
  {
    match e
    case Irq(_) => true
    case Check => s.reader.Idle?
    case Fetch => s.reader.Checked?
    case Advance => s.reader.Fetched?
  }

  function Next(s: State, e: Event): State
    requires InRange(s) && Enabled(s, e)
  {
    match e
    case Irq(scancode) =>
      var next := (s.head + 1) % 64;
      if scancode % 256 < 128 && next != s.tail then
        s.(buffer := s.buffer[s.head := scancode], head := next, accepted := s.accepted + [scancode])
      else s
    case Check => if s.tail != s.head then s.(reader := Checked) else s
    case Fetch => s.(reader := Fetched(s.buffer[s.tail]))
    case Advance => s.(tail := (s.tail + 1) % 64, reader := Idle, delivered := s.delivered + [s.reader.scancode])
  }

  /** Nothing is lost, duplicated or reordered; a fetched key is still the oldest unread one. */
  ghost predicate Inv(s: State)
  {
    && InRange(s)
    && s.accepted == s.delivered + Pending(s)
    && (!s.reader.Idle? ==> Count(s) > 0)
    && (s.reader.Fetched? ==> s.reader.scancode == s.buffer[s.tail])
  }

  lemma Mod64(x: int)
    requires -64 < x < 128
    ensures x % 64 == if x < 0 then x + 64 else if x < 64 then x else x - 64
  {}

  /** The slot that the interrupt fills is not among the unread ones, and comes right after them. */
  lemma HeadIsFree(head: nat, tail: nat, i: nat)
    requires head < 64 && tail < 64 && i < (head - tail) % 64
    ensures Slot(tail, i) != head
  {
    Mod64(head - tail);
    Mod64(tail + i);
  }

  lemma RingArithmetic(head: nat, tail: nat)
    requires head < 64 && tail < 64
    ensures Slot(tail, (head - tail) % 64) == head
    ensures (head - tail) % 64 < 63 <==> (head + 1) % 64 != tail
    ensures (head + 1) % 64 != tail ==> ((head + 1) % 64 - tail) % 64 == (head - tail) % 64 + 1
  {
    Mod64(head - tail);
    Mod64(head + 1);
    Mod64(tail + (head - tail) % 64);
    Mod64((head + 1) % 64 - tail);
  }

  /** An interrupt leaves every unread key as it is and, unless 63 keys are pending, appends its own. */
  lemma IrqKeepsUnread(s: State, scancode: nat)
    requires InRange(s) && scancode % 256 < 128
    ensures InRange(Next(s, Irq(scancode)))
    ensures Pending(Next(s, Irq(scancode))) == if Count(s) < 63 then Pending(s) + [scancode] else Pending(s)
    ensures Next(s, Irq(scancode)) == s <==> Count(s) == 63
  {
    var s' := Next(s, Irq(scancode));
    RingArithmetic(s.head, s.tail);
    if Count(s) < 63 {
      assert |s'.accepted| == |s.accepted| + 1;
      forall i | 0 <= i < Count(s) ensures Pending(s')[i] == Pending(s)[i] {
        HeadIsFree(s.head, s.tail, i);
      }
    }
  }

  /** A release, or any other code with bit 7 set, changes nothing at all. */
  lemma ReleaseIsIgnored(s: State, scancode: nat)
    requires InRange(s) && scancode % 256 >= 128
    ensures Next(s, Irq(scancode)) == s
  {}

  lemma AdvancePops(s: State)
    requires InRange(s) && Count(s) > 0 && s.reader.Fetched?
    ensures Pending(s) == [s.buffer[s.tail]] + Pending(Next(s, Advance))
  {
    var s' := Next(s, Advance);
    TailArithmetic(s.head, s.tail, 0);
    var before, after := Pending(s), Pending(s');
    forall i | 0 <= i < |after| ensures after[i] == before[i + 1] {
      TailArithmetic(s.head, s.tail, i);
    }
    Mod64(s.tail);
    assert before[0] == s.buffer[s.tail];
  }

  lemma TailArithmetic(head: nat, tail: nat, i: nat)
    requires head < 64 && tail < 64 && head != tail && i < 63
    ensures (head - (tail + 1) % 64) % 64 == (head - tail) % 64 - 1
    ensures Slot((tail + 1) % 64, i) == Slot(tail, i + 1)
  {
    Mod64(tail + 1);
    Mod64(head - tail);
    Mod64(head - (tail + 1) % 64);
    Mod64((tail + 1) % 64 + i);
    Mod64(tail + i + 1);
  }

  lemma StepKeeps(s: State, e: Event)
    requires Inv(s) && Enabled(s, e)
    ensures Inv(Next(s, e))
  {
    match e
    case Irq(scancode) => if scancode % 256 < 128 { IrqKeeps(s, scancode, Next(s, e)); }
    case Check =>
    case Fetch =>
    case Advance => AdvanceKeeps(s, Next(s, e));
  }

  lemma IrqKeeps(s: State, scancode: nat, s': State)
    requires Inv(s) && scancode % 256 < 128 && s' == Next(s, Irq(scancode))
    ensures Inv(s')
  {
    IrqKeepsUnread(s, scancode);
    HeadMoves(s.head, s.tail);
    assert s.delivered + (Pending(s) + [scancode]) == (s.delivered + Pending(s)) + [scancode];
    assert Count(s) > 0 ==> s.tail != s.head;
  }

  lemma HeadMoves(head: nat, tail: nat)
    requires head < 64 && tail < 64
    ensures (head - tail) % 64 == 0 <==> head == tail
    ensures (head + 1) % 64 != tail ==> ((head + 1) % 64 - tail) % 64 > 0
  {
    Mod64(head - tail);
    Mod64(head + 1);
    Mod64((head + 1) % 64 - tail);
  }

  lemma AdvanceKeeps(s: State, s': State)
    requires Inv(s) && s.reader.Fetched? && s' == Next(s, Advance)
    ensures Inv(s')
  {
    AdvancePops(s);
    var key := s.buffer[s.tail];
    assert s.delivered + ([key] + Pending(s')) == (s.delivered + [key]) + Pending(s');
  }

  /** An event in a ring whose indices are in range. */
  ghost predicate Follows(s: State, e: Event, s': State) { InRange(s) ==> Enabled(s, e) && s' == Next(s, e) }

  ghost predicate Run(states: seq<State>, events: seq<Event>)
  {
    IsRun(Follows, states, events) && Initial(states[0])
  }

  /** For every interleaving, the keys delivered followed by the keys pending are the keys accepted, in order. */
  lemma {:induction false} EveryInterleaving(states: seq<State>, events: seq<Event>, i: nat)
    requires Run(states, events) && i <= |events|
    ensures Inv(states[i])
  {
    if i > 0 {
      EveryInterleaving(states, events, i - 1);
      assert Follows(states[i - 1], events[i - 1], states[i]);
      StepKeeps(states[i - 1], events[i - 1]);
    }
  }

  // ---------- what a list of events makes of the keys ----------

  /** How many keys have been handed to the reader. */
  function Advances(events: seq<Event>): nat
  {
    if events == [] then 0
    else Advances(events[..|events| - 1]) + if events[|events| - 1].Advance? then 1 else 0
  }

  /** The keys kept, from the events alone: every press that arrives with fewer than 63 keys waiting. */
  function Kept(events: seq<Event>): seq<nat>
  {
    if events == [] then []
    else
      var before, last := events[..|events| - 1], events[|events| - 1];
      if last.Irq? && last.scancode % 256 < 128 && |Kept(before)| - Advances(before) < 63
      then Kept(before) + [last.scancode]
      else Kept(before)
  }

  lemma StepTells(s: State, e: Event, before: seq<Event>, s': State)
    requires Inv(s) && Follows(s, e, s') && s.accepted == Kept(before) && |s.delivered| == Advances(before)
    ensures s'.accepted == Kept(before + [e]) && |s'.delivered| == Advances(before + [e])
  {
    assert (before + [e])[..|before|] == before;
    assert |Pending(s)| == Count(s) == |s.accepted| - |s.delivered|;
    match e
    case Irq(scancode) =>
      if scancode % 256 < 128 { RingArithmetic(s.head, s.tail); } else { ReleaseIsIgnored(s, scancode); }
    case _ =>
  }

  /** In every interleaving the keys accepted are exactly the presses that found room, in order, and the keys delivered
      are the first of them, one for each advance. */
  lemma {:induction false} EventsTellKeys(states: seq<State>, events: seq<Event>, i: nat)
    requires Run(states, events) && i <= |events|
    ensures Inv(states[i]) && states[i].accepted == Kept(events[..i])
    ensures Advances(events[..i]) <= |Kept(events[..i])|
    ensures states[i].delivered == Kept(events[..i])[..Advances(events[..i])]
  {
    EveryInterleaving(states, events, i);
    CountsTell(states, events, i);
    var s := states[i];
    assert s.delivered == s.accepted[..|s.delivered|];
  }

  lemma {:induction false} CountsTell(states: seq<State>, events: seq<Event>, i: nat)
    requires Run(states, events) && i <= |events|
    ensures states[i].accepted == Kept(events[..i]) && |states[i].delivered| == Advances(events[..i])
  {
    if i > 0 {
      CountsTell(states, events, i - 1);
      EveryInterleaving(states, events, i - 1);
      assert Follows(states[i - 1], events[i - 1], states[i]);
      assert events[..i] == events[..i - 1] + [events[i - 1]];
      StepTells(states[i - 1], events[i - 1], events[..i - 1], states[i]);
    }
  }

  /** A release has bit 7 set. */
  lemma TopBit(scancode: nat)
    requires scancode < 256
    ensures scancode / 128 % 2 == 0 <==> scancode % 256 < 128
  {}

  /** The ring as the driver runs it. */
  class KeyRing {
    const buffer: array<nat>
    var head: nat
    var tail: nat
    var reader: Reader
    ghost var accepted: seq<nat>
    ghost var delivered: seq<nat>

    ghost function Abs(): State
      reads this, buffer
    {
      State(buffer[..], head, tail, reader, accepted, delivered)
    }

    ghost predicate Valid()
      reads this, buffer
    {
      Inv(Abs())
    }

    constructor ()
      ensures Valid() && Initial(Abs()) && fresh(buffer)
    {
      buffer := new nat[64];
      head, tail, reader := 0, 0, Idle;
      accepted, delivered := [], [];
    }

    /** The tail end of `keyboard_irq_handler`. */
    method Irq(scancode: nat)
      requires Valid() && scancode < 256
      modifies this`head, this`accepted, buffer
      ensures Valid() && Abs() == Next(old(Abs()), Event.Irq(scancode))
    {
      StepKeeps(Abs(), Event.Irq(scancode));
      TopBit(scancode);
      if scancode / 128 % 2 == 0 {
        var next := (head + 1) % 64;
        if next != tail {
          buffer[head] := scancode;
          head := next;
          accepted := accepted + [scancode];
        }
      }
    }

    /** `keyboard_get_scancode`, first step: is there a key?  If not, the call returns 0. */
    method Check() returns (any: bool)
      requires Valid() && reader.Idle?
      modifies this`reader
      ensures Valid() && Abs() == Next(old(Abs()), Event.Check)
      ensures any <==> Pending(Abs()) != []
    {
      StepKeeps(Abs(), Event.Check);
      any := tail != head;
      if any { reader := Checked; }
    }

    /** Second step: read the oldest slot. */
    method Fetch()
      requires Valid() && reader.Checked?
      modifies this`reader
      ensures Valid() && Abs() == Next(old(Abs()), Event.Fetch)
    {
      StepKeeps(Abs(), Event.Fetch);
      reader := Fetched(buffer[tail]);
    }

    /** Third step: free the slot and return the key, which is the oldest one accepted and not yet delivered. */
    method Advance() returns (scancode: nat)
      requires Valid() && reader.Fetched?
      modifies this`tail, this`reader, this`delivered
      ensures Valid() && Abs() == Next(old(Abs()), Event.Advance)
      ensures |old(delivered)| < |accepted| && scancode == accepted[|old(delivered)|]
    {
      StepKeeps(Abs(), Event.Advance);
      AdvancePops(Abs());
      scancode := reader.scancode;
      tail := (tail + 1) % 64;
      delivered := delivered + [scancode];
      reader := Idle;
    }
  }
}
