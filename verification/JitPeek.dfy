/** What `jit_peek` removes, and which packet it hands over. */
module JitPeek {
  import opened Word32
  import opened CountSort
  import opened JitQueue

  /** `inv` holds of every state of the scan: of the queue, the index and the candidate. */
  ghost predicate ScanKeeps(inv: (Queue, nat, int) -> bool, time: uint32) {
    && (forall q: Queue, i: nat, best: int, r: Queue ::
          inv(q, i, best) && best >= -1 && i < |q.nodes| && Outdated(q.nodes[i], time) && Removed(q, i, r) ==>
            inv(r, 1, best))
    && (forall q: Queue, i: nat, best: int ::
          inv(q, i, best) && best >= -1 && i < |q.nodes| && !Outdated(q.nodes[i], time) ==>
            inv(q, i + 1, Closest(q.nodes, i, best, time)))
  }

  /** Induction over the scan and its restarts: it ends in a state that satisfies every invariant it keeps. */
  lemma {:induction false} ScanInduction(
    q: Queue, i: nat, best: int, time: uint32, q': Queue, idx: int, inv: (Queue, nat, int) -> bool)
    returns (i': nat, best': int)
    requires best >= -1 && PeekLoop(q, i, best, time, q', idx)
    requires ScanKeeps(inv, time) && inv(q, i, best)
    ensures best' >= -1 && i' >= |q'.nodes| && inv(q', i', best') && idx == Chosen(q'.nodes, best', time)
    decreases |q.nodes|, |q.nodes| - i
  {
    if i >= |q.nodes| {
      i', best' := i, best;
    } else if Outdated(q.nodes[i], time) {
      var r :| Removed(q, i, r) && PeekLoop(r, 1, best, time, q', idx);
      i', best' := ScanInduction(r, 1, best, time, q', idx, inv);
    } else {
      i', best' := ScanInduction(q, i + 1, Closest(q.nodes, i, best, time), time, q', idx, inv);
    }
  }

  /* ---- What a peek removes ---- */

  ghost predicate Purging(s0: seq<Node>, time: uint32, s: seq<Node>, i: nat) {
    && multiset(s) <= multiset(s0)
    && (forall n :: multiset(s)[n] < multiset(s0)[n] ==> Outdated(n, time))
    && forall j :: 1 <= j < i && j < |s| ==> !Outdated(s[j], time)
  }

  lemma {:induction false} PurgeStep(s0: seq<Node>, time: uint32, q: Queue, i: nat, r: Queue)
    requires Purging(s0, time, q.nodes, i) && i < |q.nodes| && Outdated(q.nodes[i], time) && Removed(q, i, r)
    ensures Purging(s0, time, r.nodes, 1)
  {
    SwapRemoveMultiset(q.nodes, i);
    assert multiset(r.nodes) == multiset(q.nodes) - multiset{q.nodes[i]};
  }

  lemma {:induction false} PurgeSkip(s0: seq<Node>, time: uint32, s: seq<Node>, i: nat)
    requires Purging(s0, time, s, i) && i < |s| && !Outdated(s[i], time)
    ensures Purging(s0, time, s, i + 1)
  {
  }

  /** A peek only removes outdated packets, and what it leaves outdated is at most the packet at index 0: after a purge
      the scan resumes at index 1. */
  lemma {:induction false} PeekPurges(q: Queue, time: uint32, q': Queue, idx: int)
    requires PeekLoop(q, 0, -1, time, q', idx)
    ensures multiset(q'.nodes) <= multiset(q.nodes)
    ensures forall n :: multiset(q'.nodes)[n] < multiset(q.nodes)[n] ==> Outdated(n, time)
    ensures forall j :: 1 <= j < |q'.nodes| ==> !Outdated(q'.nodes[j], time)
  {
    var inv := (p: Queue, i: nat, best: int) => Purging(q.nodes, time, p.nodes, i);
    forall p: Queue, i: nat, best: int, r: Queue |
      inv(p, i, best) && i < |p.nodes| && Outdated(p.nodes[i], time) && Removed(p, i, r)
      ensures inv(r, 1, best)
    {
      PurgeStep(q.nodes, time, p, i, r);
    }
    forall p: Queue, i: nat, best: int |
      inv(p, i, best) && best >= -1 && i < |p.nodes| && !Outdated(p.nodes[i], time)
      ensures inv(p, i + 1, Closest(p.nodes, i, best, time))
    {
      PurgeSkip(q.nodes, time, p.nodes, i);
    }
    assert inv(q, 0, -1);
    var i', best' := ScanInduction(q, 0, -1, time, q', idx, inv);
  }

  /* ---- Which packet it hands over ---- */

  /** Of two plausible packets of an ordered queue, the one at the lower index is the closer one. */
  lemma {:induction false} CloserFirst(s: seq<Node>, i: nat, j: nat, time: uint32)
    requires Ordered(s, CountOf) && i < j < |s|
    requires !Outdated(s[i], time) && !Outdated(s[j], time)
    ensures Sub(CountOf(s[i]), time) < Sub(CountOf(s[j]), time)
  {
    assert 0 < Sub(CountOf(s[j]), CountOf(s[i])) < TWO31;
  }

  /** What the scan of an ordered queue knows about its candidate: it is 0 or 1, live, plausible and not ahead of the
      scan. */
  ghost predicate Candidate(s: seq<Node>, i: nat, best: int, time: uint32) {
    && Ordered(s, CountOf)
    && if best == -1 then i <= 1
       else 0 <= best <= 1 && best <= i && best < |s| && !Outdated(s[best], time)
  }

  /** A purge happens behind the candidate and leaves it in place. */
  lemma {:induction false} PurgeKeeps(q: Queue, i: nat, best: int, time: uint32, r: Queue)
    requires i < |q.nodes| && Candidate(q.nodes, i, best, time)
    requires Outdated(q.nodes[i], time) && Removed(q, i, r)
    ensures Candidate(r.nodes, 1, best, time)
  {
    RemoveSorts(r.nodes, q.nodes, i, CountOf);
    if best != -1 {
      assert best < i && r.nodes[best] == q.nodes[best];
    }
  }

  lemma {:induction false} StepKeeps(s: seq<Node>, i: nat, best: int, time: uint32)
    requires best >= -1 && i < |s| && Candidate(s, i, best, time) && !Outdated(s[i], time)
    ensures Candidate(s, i + 1, Closest(s, i, best, time), time)
  {
    if best != -1 && best < i {
      CloserFirst(s, best, i, time);
    }
  }

  /** On an ordered queue the index that a peek hands over is always live and close, although the scan keeps it across
      purges and re-sorts. */
  lemma {:induction false} PeekSafe(q: Queue, time: uint32, q': Queue, idx: int)
    requires PeekLoop(q, 0, -1, time, q', idx) && Ordered(q.nodes, CountOf)
    ensures Ordered(q'.nodes, CountOf)
    ensures idx == -1 || (0 <= idx < |q'.nodes| && Sub(CountOf(q'.nodes[idx]), time) < TX_JIT_DELAY)
  {
    var inv := (p: Queue, i: nat, best: int) => Candidate(p.nodes, i, best, time);
    forall p: Queue, i: nat, best: int, r: Queue |
      inv(p, i, best) && i < |p.nodes| && Outdated(p.nodes[i], time) && Removed(p, i, r)
      ensures inv(r, 1, best)
    {
      PurgeKeeps(p, i, best, time, r);
    }
    forall p: Queue, i: nat, best: int |
      inv(p, i, best) && best >= -1 && i < |p.nodes| && !Outdated(p.nodes[i], time)
      ensures inv(p, i + 1, Closest(p.nodes, i, best, time))
    {
      StepKeeps(p.nodes, i, best, time);
    }
    var i', best' := ScanInduction(q, 0, -1, time, q', idx, inv);
  }

  ghost predicate Plausible(s: seq<Node>, time: uint32) {
    forall j :: 0 <= j < |s| ==> !Outdated(s[j], time)
  }

  ghost predicate Minimal(q: Queue, time: uint32, p: Queue, i: nat, best: int) {
    && p == q && i <= |q.nodes|
    && (best == -1 <==> i == 0) && -1 <= best < |q.nodes|
    && (forall j :: 0 <= j < i ==> Sub(CountOf(q.nodes[best]), time) <= Sub(CountOf(q.nodes[j]), time))
    && forall j :: 0 <= j < best ==> Sub(CountOf(q.nodes[best]), time) < Sub(CountOf(q.nodes[j]), time)
  }

  lemma {:induction false} MinimalStep(q: Queue, time: uint32, i: nat, best: int)
    requires Minimal(q, time, q, i, best) && i < |q.nodes|
    ensures Minimal(q, time, q, i + 1, Closest(q.nodes, i, best, time))
  {
  }

  /** With nothing outdated, a peek changes nothing and picks the first of the closest packets, or -1 exactly when none is
      less than TX_JIT_DELAY away. The queue need not be ordered. */
  lemma {:induction false} PeekClosest(q: Queue, time: uint32, q': Queue, idx: int)
    requires PeekLoop(q, 0, -1, time, q', idx) && q.nodes != [] && Plausible(q.nodes, time)
    ensures q' == q && -1 <= idx < |q.nodes|
    ensures idx == -1 <==> forall j :: 0 <= j < |q.nodes| ==> Sub(CountOf(q.nodes[j]), time) >= TX_JIT_DELAY
    ensures idx != -1 ==>
              && Sub(CountOf(q.nodes[idx]), time) < TX_JIT_DELAY
              && (forall j :: 0 <= j < |q.nodes| ==> Sub(CountOf(q.nodes[idx]), time) <= Sub(CountOf(q.nodes[j]), time))
              && forall j :: 0 <= j < idx ==> Sub(CountOf(q.nodes[idx]), time) < Sub(CountOf(q.nodes[j]), time)
  {
    var inv := (p: Queue, i: nat, best: int) => Minimal(q, time, p, i, best);
    forall p: Queue, i: nat, best: int |
      inv(p, i, best) && best >= -1 && i < |p.nodes| && !Outdated(p.nodes[i], time)
      ensures inv(p, i + 1, Closest(p.nodes, i, best, time))
    {
      MinimalStep(q, time, i, best);
    }
    var i', best' := ScanInduction(q, 0, -1, time, q', idx, inv);
    assert Sub(CountOf(q.nodes[best']), time) <= Sub(CountOf(q.nodes[0]), time);
  }
}
