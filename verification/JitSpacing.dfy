/** How far apart peeks may be: the exact spacing for which no packet is ever purged, with the runs that lose one when it
    is exceeded. */
module JitSpacing {
  import opened Options
  import opened Word32
  import opened CountSort
  import opened TimeOnAir
  import opened JitQueue
  import opened JitSeparation
  import opened JitProtocol
  import opened JitTimely
  import Runs

  /** In no run that keeps this pace a packet is purged. */
  ghost predicate NeverPurges(pace: Pace, now: int) {
    forall states: seq<Timed>, events: seq<Event> ::
      TimedRun(states, events, now, pace) ==> states[|events|].sys.purged == multiset{}
  }

  /** The exact spacing, from any start: no packet is ever purged if and only if a peek comes at least every 40 ms and,
      where both beacons and Class A downlinks are queued, at least every half of 42,501 us plus the shortest reservation
      of a Class A downlink, `p`. */
  lemma {:induction false} NeverPurgesIff(pace: Pace, p: TxPacket, now: int)
    requires pace.beacons && pace.classA ==> PostDelay(p, ClassA) == pace.least
    ensures NeverPurges(pace, now) <==> Suffices(pace)
  {
    if Suffices(pace) {
      forall states: seq<Timed>, events: seq<Event> | TimedRun(states, events, now, pace)
        ensures states[|events|].sys.purged == multiset{}
      {
        TimedRunInv(states, events, now, pace, |events|);
      }
    } else if pace.spacing > TX_JIT_DELAY {
      var states, events := DownlinkLost(pace, now);
    } else {
      var states, events := BeaconLost(pace, p, now);
    }
  }

  /* ---- Single steps ---- */

  ghost function Peeked(ts: Timed, time: int, q: Queue, pending: int): Timed {
    ts.(sys := ts.sys.(q := q, pending := pending,
                       purged := ts.sys.purged + (multiset(ts.sys.q.nodes) - multiset(q.nodes))),
        clock := time, lastPeek := time)
  }

  lemma {:induction false} PeekStep(ts: Timed, time: int, q: Queue, pending: int)
    requires ts.sys.q.nodes != [] && ts.sys.pending == -1 && Ticks(ts, time)
    requires PeekLoop(ts.sys.q, 0, -1, Wrap(time), q, pending)
    ensures TimedStep(ts, Peek(time), Peeked(ts, time, q, pending))
  {
    assert PeekRel(ts.sys.q, Wrap(time), -1, Ok, q, pending);
  }

  /** A peek at a single plausible packet. */
  lemma {:induction false} ScanOne(q: Queue, n: Node, time: uint32)
    requires q.nodes == [n] && !Outdated(n, time)
    ensures PeekLoop(q, 0, -1, time, q, if Sub(CountOf(n), time) < TX_JIT_DELAY then 0 else -1)
  {
    assert PeekLoop(q, 1, 0, time, q, if Sub(CountOf(n), time) < TX_JIT_DELAY then 0 else -1);
  }

  /** A peek at a single outdated packet. */
  lemma {:induction false} ScanLate(q: Queue, n: Node, time: uint32) returns (r: Queue)
    requires q.nodes == [n] && Outdated(n, time)
    ensures r.nodes == [] && PeekLoop(q, 0, -1, time, r, -1)
  {
    r := Queue([], BeaconsWithout(q, 0));
    assert SwapRemove(q.nodes, 0) == [];
    assert Removed(q, 0, r);
    assert PeekLoop(r, 1, -1, time, r, -1);
  }

  /** A peek at two plausible packets, the closer one first. */
  lemma {:induction false} ScanTwo(q: Queue, a: Node, b: Node, time: uint32)
    requires q.nodes == [a, b] && !Outdated(b, time) && Sub(CountOf(a), time) < Sub(CountOf(b), time)
    ensures PeekLoop(q, 0, -1, time, q, if Sub(CountOf(a), time) < TX_JIT_DELAY then 0 else -1)
  {
    var idx := if Sub(CountOf(a), time) < TX_JIT_DELAY then 0 else -1;
    assert PeekLoop(q, 2, 0, time, q, idx);
    assert PeekLoop(q, 1, 0, time, q, idx);
  }

  ghost function Accepted(ts: Timed, e: Event, n: Node, nodes: seq<Node>): Timed
    requires e.Enqueue? && (n.pktType.Beacon? ==> ts.sys.beaconLoop > 0)
  {
    ts.(sys := ts.sys.(q := Queue(nodes, if n.pktType.Beacon? then (ts.sys.q.numBeacon + 1) % 256 else ts.sys.q.numBeacon),
                       accepted := ts.sys.accepted + multiset{n},
                       beaconLoop := if n.pktType.Beacon? then ts.sys.beaconLoop - 1 else ts.sys.beaconLoop),
        clock := e.time, accepted := ts.accepted + {EntryOf(n, e.time)})
  }

  lemma {:induction false} EnqueueStep(ts: Timed, e: Event, n: Node, nodes: seq<Node>)
    requires e.Enqueue? && Ticks(ts, e.time) && Result(ts.sys, e).0.Ok? && NewNode(ts.sys, e) == n
    requires n.pktType.Beacon? ==> ts.sys.beaconLoop > 0
    requires WellFormed(n) && Allows(ts.pace, n) && Sub(CountOf(n), Wrap(e.time)) < TX_MAX_ADVANCE_DELAY
    requires IsSortOf(nodes, ts.sys.q.nodes + [n], CountOf)
    ensures TimedStep(ts, e, Accepted(ts, e, n, nodes))
  {
    assert n.pktType == e.t;
  }

  /* ---- A downlink lost when peeks are more than TX_JIT_DELAY apart ---- */

  /** An immediate downlink on an empty queue is due 80 ms later. */
  lemma {:induction false} ImmediateResult(s: Sys, e: Event)
    requires s.q.nodes == [] && e.Enqueue? && e.t == ClassC && e.packet.Some?
    ensures Result(s, e).0.Ok? && CountOf(NewNode(s, e)) == Add(Wrap(e.time), 2 * TX_JIT_DELAY)
    ensures NewNode(s, e).postDelay == PostDelay(e.packet.value, ClassC) && NewNode(s, e).pktType == ClassC
    ensures NewNode(s, e).preDelay == PreDelay(ClassC)
  {
    StampedPostDelay(s.q.nodes, Wrap(e.time), e.packet.value, ClassC);
  }

  lemma {:induction false} AddWrap(t: int, x: uint32)
    ensures Add(Wrap(t), x) == Wrap(t + x)
  {
    DueUnique(t, Add(Wrap(t), x), t + x);
    SubWrap(t + x, t);
  }

  /** Peeked exactly 40 ms ahead, the packet is not chosen; the next peek comes too late. */
  lemma {:induction false} DownlinkLost(pace: Pace, now: int) returns (states: seq<Timed>, events: seq<Event>)
    requires pace.spacing > TX_JIT_DELAY
    ensures TimedRun(states, events, now, pace) && states[|events|].sys.purged != multiset{}
  {
    var s0, e0 := Start(now, pace), Enqueue(now, Some(ZERO_NODE.pkt), ClassC);
    var n := NewNode(s0.sys, e0);
    ImmediateResult(s0.sys, e0);
    AddWrap(now, 2 * TX_JIT_DELAY);
    SubWrap(now + 2 * TX_JIT_DELAY, now);
    assert [] + [n] == [n];
    EnqueueStep(s0, e0, n, [n]);
    var s1 := Accepted(s0, e0, n, [n]);
    var t1, t2 := now + TX_JIT_DELAY, now + 2 * TX_JIT_DELAY + 1;
    SubWrap(now + 2 * TX_JIT_DELAY, t1);
    SubWrap(t2, now + 2 * TX_JIT_DELAY);
    ScanOne(s1.sys.q, n, Wrap(t1));
    PeekStep(s1, t1, s1.sys.q, -1);
    var s2 := Peeked(s1, t1, s1.sys.q, -1);
    var r := ScanLate(s2.sys.q, n, Wrap(t2));
    PeekStep(s2, t2, r, -1);
    var s3 := Peeked(s2, t2, r, -1);
    states, events := Runs.Extend([s0], [], s0, TimedStep, e0, s1);
    states, events := Runs.Extend(states, events, s0, TimedStep, Peek(t1), s2);
    states, events := Runs.Extend(states, events, s0, TimedStep, Peek(t2), s3);
    assert n in s3.sys.purged;
  }

  /* ---- A beacon lost behind a Class A downlink ---- */

  /** The beacon follows the downlink `a` as closely as acceptance allows. */
  ghost predicate CloseBehind(a: Node, b: Node, now: int) {
    && a.pktType == ClassA && b.pktType == Beacon && WellFormed(a) && WellFormed(b)
    && CountOf(a) == Wrap(now + 42_501) && CountOf(b) == Wrap(now + 45_002 + a.postDelay)
    && a.postDelay < 37_499
  }

  /** Distances seen at a moment up to the due time of the downlink. */
  lemma {:induction false} Distances(a: Node, b: Node, now: int, t: int)
    requires CloseBehind(a, b, now) && now <= t <= now + 42_501
    ensures Sub(CountOf(a), Wrap(t)) == now + 42_501 - t
    ensures Sub(CountOf(b), Wrap(t)) == now + 45_002 + a.postDelay - t
    ensures Sub(CountOf(b), CountOf(a)) == 2501 + a.postDelay
  {
    SubWrap(now + 42_501, t);
    SubWrap(now + 45_002 + a.postDelay, t);
    SubWrap(now + 45_002 + a.postDelay, now + 42_501);
  }

  /** The beacon is queued first, then the downlink inside its guard. */
  lemma {:induction false} BothAccepted(pace: Pace, p: TxPacket, beacon: TxPacket, a: Node, b: Node, now: int)
    returns (states: seq<Timed>, events: seq<Event>)
    requires a == NodeFor(p, ClassA) && b == NodeFor(beacon, Beacon) && CloseBehind(a, b, now)
    requires Allows(pace, a) && Allows(pace, b)
    ensures TimedRun(states, events, now, pace)
    ensures var ts := states[|events|];
            && ts.sys.q.nodes == [a, b] && ts.sys.pending == -1 && ts.sys.purged == multiset{}
            && ts.clock == ts.lastPeek == now && ts.pace == pace
  {
    Distances(a, b, now, now);
    var s0 := Start(now, pace);
    var s1 := s0.(sys := s0.sys.(beaconLoop := 3));
    var e1, e2 := Enqueue(now, Some(beacon), Beacon), Enqueue(now, Some(p), ClassA);
    assert [] + [b] == [b];
    BeaconResult(s1.sys, e1, b);
    EnqueueStep(s1, e1, b, [b]);
    var s2 := Accepted(s1, e1, b, [b]);
    GuardResult(s2.sys, e2, a, b);
    SortPair(a, b);
    EnqueueStep(s2, e2, a, [a, b]);
    var s3 := Accepted(s2, e2, a, [a, b]);
    states, events := Runs.Extend([s0], [], s0, TimedStep, StartCycle, s1);
    states, events := Runs.Extend(states, events, s0, TimedStep, e1, s2);
    states, events := Runs.Extend(states, events, s0, TimedStep, e2, s3);
  }

  lemma {:induction false} BeaconResult(s: Sys, e: Event, b: Node)
    requires s.q.nodes == [] && e.Enqueue? && e.t == Beacon && e.packet.Some? && b == NodeFor(e.packet.value, Beacon)
    requires Sub(CountOf(b), Wrap(e.time)) > TX_START_DELAY + TX_MARGIN_DELAY + TX_JIT_DELAY
    ensures Result(s, e).0.Ok? && NewNode(s, e) == b
  {
  }

  /** A Class A downlink is accepted inside the guard of a queued beacon. */
  lemma {:induction false} GuardResult(s: Sys, e: Event, a: Node, b: Node)
    requires s.q.nodes == [b] && b.pktType == Beacon && WellFormed(b)
    requires e.Enqueue? && e.t == ClassA && e.packet.Some? && a == NodeFor(e.packet.value, ClassA) && a.postDelay < 37_499
    requires Sub(CountOf(a), Wrap(e.time)) == 42_501 && Sub(CountOf(b), CountOf(a)) == 2501 + a.postDelay
    ensures Result(s, e).0.Ok? && NewNode(s, e) == a
  {
    assert !Blocks(s.q.nodes[0], CountOf(a), ClassA, a.postDelay);
    assert FirstBlocker(s.q.nodes, 0, CountOf(a), ClassA, a.postDelay) == 1;
  }

  lemma {:induction false} SortPair(a: Node, b: Node)
    requires 0 < Sub(CountOf(b), CountOf(a)) < TWO31
    ensures IsSortOf([a, b], [b] + [a], CountOf)
  {
    assert [b] + [a] == [b, a];
    forall base: uint32 | HalfRange([b, a], CountOf, base) ensures SortedFrom([a, b], CountOf, base) {
      assert Sub(CountOf([b, a][0]), base) < TWO31 && Sub(CountOf([b, a][1]), base) < TWO31;
      AfterInHalfRange(CountOf(b), CountOf(a), base);
    }
  }

  /** The downlink at index 0 is handed over. */
  lemma {:induction false} DequeueFirst(ts: Timed, a: Node, b: Node) returns (ts': Timed)
    requires ts.sys.q.nodes == [a, b] && ts.sys.pending == 0
    ensures TimedStep(ts, Dequeue, ts') && ts'.sys.q.nodes == [b] && ts'.sys.pending == -1
    ensures ts' == ts.(sys := ts'.sys, sent := ts'.sent) && ts'.sys.purged == ts.sys.purged
  {
    var q := Queue([b], BeaconsWithout(ts.sys.q, 0));
    assert SwapRemove([a, b], 0) == [b];
    assert DequeueRel(ts.sys.q, 0, Ok, Some(a), q);
    ts' := ts.(sys := ts.sys.(q := q, pending := -1, dequeued := ts.sys.dequeued + multiset{a}),
               sent := ts.sent[EntryOf(a, ts.lastPeek) := ts.lastPeek]);
  }

  /** One peek 40 ms before the downlink, which does not choose it; the next one chooses it; and the one after that comes
      too late for the beacon. */
  lemma {:induction false} BeaconLost(pace: Pace, p: TxPacket, now: int) returns (states: seq<Timed>, events: seq<Event>)
    requires pace.spacing <= TX_JIT_DELAY && !Suffices(pace) && PostDelay(p, ClassA) == pace.least
    ensures TimedRun(states, events, now, pace) && states[|events|].sys.purged != multiset{}
  {
    var first := p.(countUs := Wrap(now + 42_501));
    var a := NodeFor(first, ClassA);
    assert EmissionUs(first) == EmissionUs(p);
    var beacon := ZERO_NODE.pkt.(countUs := Wrap(now + 45_002 + a.postDelay));
    var b := NodeFor(beacon, Beacon);
    states, events := BothAccepted(pace, first, beacon, a, b, now);
    states, events := PeeksTooLate(states, events, pace, a, b, now);
  }

  lemma {:induction false} PeeksTooLate(
    before: seq<Timed>, prior: seq<Event>, pace: Pace, a: Node, b: Node, now: int)
    returns (states: seq<Timed>, events: seq<Event>)
    requires CloseBehind(a, b, now) && pace.spacing <= TX_JIT_DELAY && 2 * pace.spacing > 42_501 + a.postDelay
    requires TimedRun(before, prior, now, pace)
    requires var ts := before[|prior|];
             && ts.sys.q.nodes == [a, b] && ts.sys.pending == -1 && ts.sys.purged == multiset{}
             && ts.clock == ts.lastPeek == now && ts.pace == pace
    ensures TimedRun(states, events, now, pace) && states[|events|].sys.purged != multiset{}
  {
    var s0, s3 := Start(now, pace), before[|prior|];
    var t3, t4, t6 := now + 2501, now + 2501 + pace.spacing, now + 2501 + 2 * pace.spacing;
    var s4, s5 := TwoPeeks(s3, a, b, now, t3, t4);
    var s6 := DequeueFirst(s5, a, b);
    BeaconLate(a, b, now, t6);
    var r := ScanLate(s6.sys.q, b, Wrap(t6));
    PeekStep(s6, t6, r, -1);
    var s7 := Peeked(s6, t6, r, -1);
    states, events := Runs.Extend(before, prior, s0, TimedStep, Peek(t3), s4);
    states, events := Runs.Extend(states, events, s0, TimedStep, Peek(t4), s5);
    states, events := Runs.Extend(states, events, s0, TimedStep, Dequeue, s6);
    states, events := Runs.Extend(states, events, s0, TimedStep, Peek(t6), s7);
    assert b in s7.sys.purged;
  }

  lemma {:induction false} BeaconLate(a: Node, b: Node, now: int, t: int)
    requires CloseBehind(a, b, now) && now + 45_002 + a.postDelay < t <= now + 90_000
    ensures Outdated(b, Wrap(t))
  {
    SubWrap(t, now + 45_002 + a.postDelay);
  }

  lemma {:induction false} TwoPeeks(ts: Timed, a: Node, b: Node, now: int, t3: int, t4: int)
    returns (ts1: Timed, ts2: Timed)
    requires CloseBehind(a, b, now) && t3 == now + 2501 < t4 <= now + 42_501
    requires ts.sys.q.nodes == [a, b] && ts.sys.pending == -1 && ts.clock == ts.lastPeek == now
    requires t3 <= now + ts.pace.spacing && t4 <= t3 + ts.pace.spacing
    ensures TimedStep(ts, Peek(t3), ts1) && TimedStep(ts1, Peek(t4), ts2)
    ensures ts2.sys.q.nodes == [a, b] && ts2.sys.pending == 0 && ts2.clock == ts2.lastPeek == t4
    ensures ts2.pace == ts.pace && ts2.sys.purged == ts.sys.purged
  {
    Distances(a, b, now, t3);
    ScanTwo(ts.sys.q, a, b, Wrap(t3));
    PeekStep(ts, t3, ts.sys.q, -1);
    ts1 := Peeked(ts, t3, ts.sys.q, -1);
    Distances(a, b, now, t4);
    ScanTwo(ts1.sys.q, a, b, Wrap(t4));
    PeekStep(ts1, t4, ts1.sys.q, 0);
    ts2 := Peeked(ts1, t4, ts1.sys.q, 0);
  }
}
