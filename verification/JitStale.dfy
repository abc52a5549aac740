/** How old the clock reading of an enqueue may be, that falls between a peek and its dequeue: the exact tolerance, with the
    runs in which the dequeue removes another packet than the one peeked when it is exceeded. */
module JitStale {
  import opened Options
  import opened Word32
  import opened CountSort
  import opened TimeOnAir
  import opened JitQueue
  import opened JitSeparation
  import opened JitProtocol
  import JitSpacing
  import Runs

  /** Peek `i` of a run chooses a packet of type `tx`, then a packet of type `t` that reserves `post` is accepted whose clock
      reading is `late` older than that of the peek, and the dequeue removes another packet than the one chosen. */
  ghost predicate Overtakes(
    states: seq<Sys>, events: seq<Event>, i: nat, tx: PktType, t: PktType, post: uint32, late: int)
  {
    && Run(states, events) && i + 2 < |events|
    && events[i].Peek? && HasPending(states[i + 1]) && PendingNode(states[i + 1]).pktType == tx
    && events[i + 1].Enqueue? && events[i + 1].t == t && events[i + 1].time == events[i].time - late
    && Result(states[i + 1], events[i + 1]).0.Ok? && NewNode(states[i + 1], events[i + 1]).postDelay == post
    && Due(events[i + 1].time, CountOf(NewNode(states[i + 1], events[i + 1]))) < events[i].time + TWO31
    && events[i + 2].Dequeue?
    && states[i + 3].dequeued != states[i + 2].dequeued + multiset{PendingNode(states[i + 1])}
  }

  lemma {:induction false} WithinTolerance(
    states: seq<Sys>, events: seq<Event>, i: nat, tx: PktType, t: PktType, post: uint32, late: int)
    requires Overtakes(states, events, i, tx, t, post, late)
    ensures late > Tolerance(tx, t, post)
  {
    var x := PendingNode(states[i + 1]);
    PeekSetsPending(states, events, i);
    RunInv(states, events, i + 1);
    assert WellFormed(x);
    if late <= Tolerance(tx, t, post) {
      assert Between(states[i + 1], events[i + 1], x, events[i].time);
      DequeuesPeeked(states, events, i, i + 2);
    }
  }

  /* ---- The run in which the newcomer overtakes ---- */

  /** `x` is due 39,999 us after the peek at `time`, and `n` as shortly before it as acceptance allows. */
  ghost predicate JustBefore(x: Node, n: Node, time: int) {
    && WellFormed(x) && WellFormed(n) && (n.pktType.ClassA? || n.pktType.ClassB?) && !x.pktType.ClassC?
    && Before(x, n) < TWO31 && x.postDelay <= BEACON_RESERVED
    && CountOf(x) == Wrap(time + 39_999) && CountOf(n) == Wrap(time + 39_999 - Before(x, n))
  }

  /** The least distance at which `n` is accepted before `x`. */
  function Before(x: Node, n: Node): nat {
    TargetPreDelay(n.pktType, x) + n.postDelay + TX_MARGIN_DELAY + 1
  }

  lemma {:induction false} Distance(x: Node, n: Node, time: int)
    requires JustBefore(x, n, time)
    ensures Sub(CountOf(x), CountOf(n)) == Before(x, n)
  {
    SubWrap(time + 39_999, time + 39_999 - Before(x, n));
  }

  ghost function Accepted(s: Sys, n: Node, nodes: seq<Node>): Sys
    requires n.pktType.Beacon? ==> s.beaconLoop > 0
  {
    s.(q := Queue(nodes, if n.pktType.Beacon? then (s.q.numBeacon + 1) % 256 else s.q.numBeacon),
       accepted := s.accepted + multiset{n},
       beaconLoop := if n.pktType.Beacon? then s.beaconLoop - 1 else s.beaconLoop)
  }

  lemma {:induction false} EnqueueStep(s: Sys, e: Event, n: Node, nodes: seq<Node>, base: uint32)
    requires e.Enqueue? && Result(s, e).0.Ok? && NewNode(s, e) == n && (n.pktType.Beacon? ==> s.beaconLoop > 0)
    requires WellFormed(n) && HalfRange(s.q.nodes + [n], CountOf, base)
    requires IsSortOf(nodes, s.q.nodes + [n], CountOf)
    ensures BenignStep(s, e, Accepted(s, n, nodes))
  {
    assert n.pktType == e.t;
  }

  /** Any packet but an immediate one is accepted by an empty queue 42,501 us ahead. */
  lemma {:induction false} FirstResult(s: Sys, e: Event, n: Node)
    requires s.q.nodes == [] && e.Enqueue? && e.packet.Some? && !e.t.ClassC? && n == NodeFor(e.packet.value, e.t)
    requires Sub(CountOf(n), Wrap(e.time)) == 42_501
    ensures Result(s, e).0.Ok? && NewNode(s, e) == n
  {
  }

  /** With an old enough clock reading the newcomer is accepted before `x`. */
  lemma {:induction false} OvertakerResult(s: Sys, e: Event, x: Node, n: Node, time: int)
    requires s.q.nodes == [x] && JustBefore(x, n, time)
    requires e.Enqueue? && e.packet.Some? && e.t == n.pktType && n == NodeFor(e.packet.value, e.t)
    requires 42_501 <= time + 39_999 - Before(x, n) - e.time <= TX_MAX_ADVANCE_DELAY
    ensures Result(s, e).0.Ok? && NewNode(s, e) == n
  {
    Distance(x, n, time);
    SubWrap(time + 39_999 - Before(x, n), e.time);
    assert !Blocks(s.q.nodes[0], CountOf(n), e.t, n.postDelay);
    assert FirstBlocker(s.q.nodes, 0, CountOf(n), e.t, n.postDelay) == 1;
  }

  lemma {:induction false} PeekStep(s: Sys, x: Node, time: int) returns (s': Sys)
    requires s.q.nodes == [x] && s.pending == -1 && CountOf(x) == Wrap(time + 39_999)
    ensures BenignStep(s, Peek(time), s')
    ensures s' == s.(pending := 0)
  {
    SubWrap(time + 39_999, time);
    JitSpacing.ScanOne(s.q, x, Wrap(time));
    assert PeekRel(s.q, Wrap(time), -1, Ok, s.q, 0);
    s' := s.(pending := 0);
    assert s.purged + (multiset(s.q.nodes) - multiset(s.q.nodes)) == s.purged;
  }

  lemma {:induction false} DequeueStep(s: Sys, n: Node, x: Node) returns (s': Sys)
    requires s.q.nodes == [n, x] && s.pending == 0
    ensures BenignStep(s, Dequeue, s') && s'.dequeued == s.dequeued + multiset{n}
  {
    var q := Queue([x], BeaconsWithout(s.q, 0));
    assert SwapRemove([n, x], 0) == [x];
    assert DequeueRel(s.q, 0, Ok, Some(n), q);
    s' := s.(q := q, pending := -1, dequeued := s.dequeued + multiset{n});
  }

  /** `x` is queued and chosen by the peek. */
  lemma {:induction false} ChosenFirst(px: TxPacket, x: Node, time: int)
    returns (s1: Sys, s2: Sys, s3: Sys)
    requires x == NodeFor(px, x.pktType) && !x.pktType.ClassC? && WellFormed(x) && CountOf(x) == Wrap(time + 39_999)
    ensures BenignStep(INIT, StartCycle, s1) && BenignStep(s1, Enqueue(time - 2502, Some(px), x.pktType), s2)
    ensures BenignStep(s2, Peek(time), s3) && s3.q.nodes == [x] && s3.pending == 0
  {
    var e := Enqueue(time - 2502, Some(px), x.pktType);
    s1 := INIT.(beaconLoop := 3);
    SubWrap(time + 39_999, time - 2502);
    FirstResult(s1, e, x);
    assert [] + [x] == [x];
    EnqueueStep(s1, e, x, [x], CountOf(x));
    s2 := Accepted(s1, x, [x]);
    s3 := PeekStep(s2, x, time);
  }

  /** Then the newcomer is accepted and sorted in before it, and takes its index. */
  lemma {:induction false} Overtaken(s3: Sys, e: Event, x: Node, n: Node, time: int) returns (s4: Sys, s5: Sys)
    requires s3.q.nodes == [x] && s3.pending == 0 && JustBefore(x, n, time)
    requires e.Enqueue? && e.packet.Some? && e.t == n.pktType && n == NodeFor(e.packet.value, e.t)
    requires 42_501 <= time + 39_999 - Before(x, n) - e.time <= TX_MAX_ADVANCE_DELAY
    ensures BenignStep(s3, e, s4) && BenignStep(s4, Dequeue, s5) && s5.dequeued == s4.dequeued + multiset{n}
    ensures Result(s3, e).0.Ok? && NewNode(s3, e) == n
    ensures Due(e.time, CountOf(n)) == time + 39_999 - Before(x, n)
  {
    OvertakerResult(s3, e, x, n, time);
    Distance(x, n, time);
    JitSpacing.SortPair(n, x);
    assert HalfRange([x] + [n], CountOf, CountOf(n));
    EnqueueStep(s3, e, n, [n, x], CountOf(n));
    s4 := Accepted(s3, n, [n, x]);
    s5 := DequeueStep(s4, n, x);
    SubWrap(time + 39_999 - Before(x, n), e.time);
  }

  /** Beyond the tolerance a packet of any type that is not immediate is overtaken. */
  lemma {:induction false} BeyondTolerance(px: TxPacket, x: Node, p: TxPacket, n: Node, time: int, late: int)
    returns (states: seq<Sys>, events: seq<Event>)
    requires x == NodeFor(px, x.pktType) && n == NodeFor(p, n.pktType) && JustBefore(x, n, time)
    requires Tolerance(x.pktType, n.pktType, n.postDelay) < late <= 500_000_000
    ensures Overtakes(states, events, 2, x.pktType, n.pktType, n.postDelay, late)
  {
    var e1, e3 := Enqueue(time - 2502, Some(px), x.pktType), Enqueue(time - late, Some(p), n.pktType);
    var s1, s2, s3 := ChosenFirst(px, x, time);
    var s4, s5 := Overtaken(s3, e3, x, n, time);
    Distance(x, n, time);
    assert n != x;
    states, events := Runs.FiveStepsOf(INIT, StartCycle, s1, e1, s2, Peek(time), s3, e3, s4, Dequeue, s5, BenignStep);
    Different(states[5].dequeued, states[4].dequeued, n, x);
  }

  lemma {:induction false} Different(d': multiset<Node>, d: multiset<Node>, n: Node, x: Node)
    requires d' == d + multiset{n} && n != x
    ensures d' != d + multiset{x}
  {
    assert d'[n] == d[n] + 1;
  }

  /** The exact tolerance: a Class A or B packet `p` can take the place of a packet of type `tx` that a peek
      chose if and only if its clock reading is older than that of the peek by more than the tolerance. */
  lemma {:induction false} OvertakesIff(tx: PktType, p: TxPacket, t: PktType, late: int)
    requires !tx.ClassC? && (t.ClassA? || t.ClassB?) && late <= 500_000_000
    requires Tolerance(tx, t, PostDelay(p, t)) < TWO31
    ensures (exists states, events, i :: Overtakes(states, events, i, tx, t, PostDelay(p, t), late)) <==>
            late > Tolerance(tx, t, PostDelay(p, t))
  {
    var post := PostDelay(p, t);
    if exists states, events, i :: Overtakes(states, events, i, tx, t, post, late) {
      var states, events, i :| Overtakes(states, events, i, tx, t, post, late);
      WithinTolerance(states, events, i, tx, t, post, late);
    }
    if late > Tolerance(tx, t, post) {
      var states, events := StaleOvertakes(tx, p, t, late);
    }
  }

  lemma {:induction false} StaleOvertakes(tx: PktType, p: TxPacket, t: PktType, late: int)
    returns (states: seq<Sys>, events: seq<Event>)
    requires !tx.ClassC? && (t.ClassA? || t.ClassB?)
    requires Tolerance(tx, t, PostDelay(p, t)) < TWO31 && Tolerance(tx, t, PostDelay(p, t)) < late <= 500_000_000
    ensures Overtakes(states, events, 2, tx, t, PostDelay(p, t), late)
  {
    var px, x := Target(tx, 39_999);
    var before := TargetPreDelay(t, x) + PostDelay(p, t) + TX_MARGIN_DELAY + 1;
    var p', n := Stamp(p, t, 39_999 - before);
    states, events := BeyondTolerance(px, x, p', n, 0, late);
  }

  /** A packet that reserves as little as possible. */
  lemma {:induction false} Target(tx: PktType, due: int) returns (px: TxPacket, x: Node)
    ensures x == NodeFor(px, tx) && x.pktType == tx && CountOf(x) == Wrap(due) && WellFormed(x)
    ensures x.postDelay <= BEACON_RESERVED
  {
    px := ZERO_NODE.pkt.(countUs := Wrap(due));
    x := NodeFor(px, tx);
  }

  lemma {:induction false} Stamp(p: TxPacket, t: PktType, due: int) returns (p': TxPacket, n: Node)
    requires PostDelay(p, t) <= MAX_POST_DELAY
    ensures n == NodeFor(p', t) && CountOf(n) == Wrap(due) && n.postDelay == PostDelay(p, t) && WellFormed(n)
    ensures n.pktType == t
  {
    p' := p.(countUs := Wrap(due));
    assert EmissionUs(p') == EmissionUs(p);
    n := NodeFor(p', t);
  }
}
