/** Runs of a state machine given by a step relation. */
module Runs {

  ghost predicate IsRun<S(!new), E(!new)>(states: seq<S>, events: seq<E>, init: S, step: (S, E, S) -> bool) {
    && |states| == |events| + 1
    && states[0] == init
    && forall i :: 0 <= i < |events| ==> step(states[i], events[i], states[i + 1])
  }

  /** What holds at the start and is kept by every step holds all along a run. */
  lemma {:induction false} Invariant<S(!new), E(!new)>(
    states: seq<S>, events: seq<E>, init: S, step: (S, E, S) -> bool, inv: S -> bool, k: nat)
    requires IsRun(states, events, init, step) && k < |states|
    requires inv(init)
    requires forall s, e, s' :: inv(s) && step(s, e, s') ==> inv(s')
    ensures inv(states[k])
  {
    if k > 0 {
      Invariant(states, events, init, step, inv, k - 1);
      assert step(states[k - 1], events[k - 1], states[k]);
    }
  }

  lemma {:induction false} StepAt<S(!new), E(!new)>(
    states: seq<S>, events: seq<E>, init: S, step: (S, E, S) -> bool, k: nat)
    requires IsRun(states, events, init, step) && k < |events|
    ensures step(states[k], events[k], states[k + 1])
  {
  }

  /** A run can be extended by a step from its last state. */
  lemma {:induction false} Extend<S(!new), E(!new)>(
    states: seq<S>, events: seq<E>, init: S, step: (S, E, S) -> bool, e: E, s: S)
    returns (states': seq<S>, events': seq<E>)
    requires IsRun(states, events, init, step) && step(states[|events|], e, s)
    ensures IsRun(states', events', init, step) && |events'| == |events| + 1
    ensures events'[|events|] == e && states'[|events|] == states[|events|] && states'[|events'|] == s
  {
    states', events' := states + [s], events + [e];
  }

  /** Four steps make a run. */
  lemma {:induction false} FourSteps<S(!new), E(!new)>(
    s0: S, e0: E, s1: S, e1: E, s2: S, e2: E, s3: S, e3: E, s4: S, step: (S, E, S) -> bool)
    returns (states: seq<S>, events: seq<E>)
    requires step(s0, e0, s1) && step(s1, e1, s2) && step(s2, e2, s3) && step(s3, e3, s4)
    ensures IsRun(states, events, s0, step)
    ensures |events| == 4 && states[3] == s3 && events[3] == e3 && states[4] == s4
  {
    states, events := [s0, s1, s2, s3, s4], [e0, e1, e2, e3];
  }

  /** Five steps make a run, and what holds of their events holds of all events of the run. */
  lemma {:induction false} FiveSteps<S(!new), E(!new)>(
    s0: S, e0: E, s1: S, e1: E, s2: S, e2: E, s3: S, e3: E, s4: S, e4: E, s5: S, step: (S, E, S) -> bool, ok: E -> bool)
    returns (states: seq<S>, events: seq<E>)
    requires step(s0, e0, s1) && step(s1, e1, s2) && step(s2, e2, s3) && step(s3, e3, s4) && step(s4, e4, s5)
    requires ok(e0) && ok(e1) && ok(e2) && ok(e3) && ok(e4)
    ensures IsRun(states, events, s0, step) && forall i :: 0 <= i < |events| ==> ok(events[i])
    ensures |events| == 5 && events[4] == e4 && states[4] == s4
  {
    states, events := [s0, s1, s2, s3, s4, s5], [e0, e1, e2, e3, e4];
  }

  /** Five steps make a run. */
  lemma {:induction false} FiveStepsOf<S(!new), E(!new)>(
    s0: S, e0: E, s1: S, e1: E, s2: S, e2: E, s3: S, e3: E, s4: S, e4: E, s5: S, step: (S, E, S) -> bool)
    returns (states: seq<S>, events: seq<E>)
    requires step(s0, e0, s1) && step(s1, e1, s2) && step(s2, e2, s3) && step(s3, e3, s4) && step(s4, e4, s5)
    ensures IsRun(states, events, s0, step) && |events| == 5
    ensures events[2] == e2 && events[3] == e3 && events[4] == e4
    ensures states[3] == s3 && states[4] == s4 && states[5] == s5
  {
    states, events := [s0, s1, s2, s3, s4, s5], [e0, e1, e2, e3, e4];
  }
}
