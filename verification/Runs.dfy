/** Finite runs of a step relation. */
module Runs {

  /** `states[i + 1]` follows from `states[i]` by `events[i]`. */
  ghost predicate IsRun<S, E>(step: (S, E, S) -> bool, states: seq<S>, events: seq<E>)
  {
    && |states| == |events| + 1
    && forall i :: 0 <= i < |events| ==> step(states[i], events[i], states[i + 1])
  }

  /** A run goes on with one more step. */
  lemma Extend<S, E>(step: (S, E, S) -> bool, states: seq<S>, events: seq<E>, e: E, s': S)
    requires IsRun(step, states, events) && step(states[|events|], e, s')
    ensures IsRun(step, states + [s'], events + [e])
  {
    var states', events' := states + [s'], events + [e];
    forall i | 0 <= i < |events'| ensures step(states'[i], events'[i], states'[i + 1]) {
      if i < |events| { assert step(states[i], events[i], states[i + 1]); }
    }
  }
}
