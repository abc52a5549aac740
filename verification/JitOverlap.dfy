/** What the queue does not promise: a packet that has been handed over to the concentrator no longer blocks anything,
    so a newcomer can be due while the other is still on air. */
module JitOverlap {
  import opened Options
  import opened Word32
  import opened CountSort
  import opened TimeOnAir
  import opened JitQueue
  import opened JitSeparation
  import opened JitProtocol
  import opened JitTimely
  import JitSlot
  import JitSpacing
  import Runs

  /** Downlinks of every class, and a peek at least every TX_JIT_DELAY. */
  const DOWNLINKS: Pace := Pace(TX_JIT_DELAY, false, true, 0)

  /** The least distance between a packet handed over and a newcomer: the acceptance bound of 42,500 us is exclusive, and
      a packet handed over was due less than 40,000 us after its peek. */
  const LEAST_GAP: int := TX_START_DELAY + TX_MARGIN_DELAY + 2

  /** Step `k` of a timely run accepts a newcomer although `x` was handed over before. */
  ghost predicate Follows(states: seq<Timed>, events: seq<Event>, now: int, pace: Pace, k: nat, x: Entry) {
    && TimedRun(states, events, now, pace) && k < |events| && x in states[k].sent
    && events[k].Enqueue? && Result(states[k].sys, events[k]).0.Ok?
  }

  /** When that newcomer is due. */
  ghost function NewcomerDueAt(states: seq<Timed>, events: seq<Event>, k: nat): int
    requires k < |events| && k < |states| && events[k].Enqueue? && Result(states[k].sys, events[k]).0.Ok?
  {
    Due(events[k].time, CountOf(NewNode(states[k].sys, events[k])))
  }

  /** In every timely run a newcomer is due at least 2502 us after everything handed over. */
  lemma {:induction false} NewcomerGap(states: seq<Timed>, events: seq<Event>, now: int, pace: Pace, k: nat, x: Entry)
    requires Follows(states, events, now, pace, k, x) && Suffices(pace)
    ensures NewcomerDueAt(states, events, k) >= x.due + LEAST_GAP
  {
    TimedRunInv(states, events, now, pace, k);
    Runs.StepAt(states, events, Start(now, pace), TimedStep, k);
    AcceptedAhead(states[k].sys, events[k]);
  }

  /** That gap is met, whenever the run starts and whatever the packets: one that hands over `p` and then accepts `r`,
      due 2502 us later. */
  lemma {:induction false} GapIsTight(p: TxPacket, r: TxPacket, now: int)
    returns (states: seq<Timed>, events: seq<Event>, x: Entry)
    requires WellFormed(NodeFor(p, ClassA)) && p.countUs == Wrap(now + 42_501)
    requires WellFormed(NodeFor(r, ClassA)) && r.countUs == Wrap(now + 45_003)
    ensures x == Entry(NodeFor(p, ClassA), now + 42_501)
    ensures Follows(states, events, now, DOWNLINKS, 3, x) && NewNode(states[3].sys, events[3]) == NodeFor(r, ClassA)
    ensures NewcomerDueAt(states, events, 3) == x.due + LEAST_GAP
  {
    var n, m := NodeFor(p, ClassA), NodeFor(r, ClassA);
    var t := now + 2502;
    var e0, e3 := Enqueue(now, Some(p), ClassA), Enqueue(t, Some(r), ClassA);
    SubWrap(now + 42_501, now);
    SubWrap(now + 42_501, t);
    SubWrap(now + 45_003, t);
    x := EntryOf(n, t);
    var s0 := Start(now, DOWNLINKS);
    var s1 := AcceptFirst(s0, e0, n);
    var s2, s3 := HandOverOnly(s1, n, t);
    var s4 := AcceptFirst(s3, e3, m);
    states, events := Runs.FourSteps(s0, e0, s1, Peek(t), s2, Dequeue, s3, e3, s4, TimedStep);
  }

  /** The same frame, whatever its timestamp. */
  predicate SameFrame(p: TxPacket, q: TxPacket) {
    p == q.(txMode := p.txMode, countUs := p.countUs)
  }

  lemma {:induction false} SameEmission(p: TxPacket, q: TxPacket)
    requires SameFrame(p, q)
    ensures EmissionUs(p) == EmissionUs(q)
  {
  }

  /** A newcomer due while the frame of `p`, handed over as `x`, is still on air. */
  ghost predicate Overlaps(states: seq<Timed>, events: seq<Event>, now: int, k: nat, x: Entry, p: TxPacket) {
    && Follows(states, events, now, DOWNLINKS, k, x) && SameFrame(x.node.pkt, p)
    && NewcomerDueAt(states, events, k) < x.due + EmissionUs(x.node.pkt)
  }

  lemma {:induction false} OverlapIsLong(
    states: seq<Timed>, events: seq<Event>, now: int, k: nat, x: Entry, p: TxPacket)
    requires Overlaps(states, events, now, k, x, p)
    ensures EmissionUs(p) > LEAST_GAP
  {
    NewcomerGap(states, events, now, DOWNLINKS, k, x);
    SameEmission(x.node.pkt, p);
  }

  lemma {:induction false} LongOverlaps(p: TxPacket, now: int) returns (states: seq<Timed>, events: seq<Event>, x: Entry)
    requires p.modulation == MOD_LORA && EmissionUs(p) > LEAST_GAP
    ensures Overlaps(states, events, now, 3, x, p)
  {
    var first := p.(countUs := Wrap(now + 42_501));
    var second := p.(countUs := Wrap(now + 45_003));
    LoraWellFormed(first, ClassA);
    LoraWellFormed(second, ClassA);
    SameEmission(first, p);
    states, events, x := GapIsTight(first, second, now);
  }

  /** The exact condition: starting at any time, a timely run in which a newcomer is due while a given LoRa frame is still
      on air exists if and only if the frame stays on air for more than 2502 us. */
  lemma {:induction false} OverlapIff(p: TxPacket, now: int)
    requires p.modulation == MOD_LORA
    ensures (exists states, events, k, x :: Overlaps(states, events, now, k, x, p)) <==> EmissionUs(p) > LEAST_GAP
  {
    if exists states, events, k, x :: Overlaps(states, events, now, k, x, p) {
      var states, events, k, x :| Overlaps(states, events, now, k, x, p);
      OverlapIsLong(states, events, now, k, x, p);
    }
    if EmissionUs(p) > LEAST_GAP {
      var states, events, x := LongOverlaps(p, now);
    }
  }

  /* ---- Immediate newcomers ---- */

  /** The least distance for a newcomer that the queue itself places: ASAP is 80 ms ahead. */
  const LEAST_IMMEDIATE_GAP: int := TX_JIT_DELAY + 1

  /** The slot of an immediate downlink, seen from the last peek: ASAP, or behind a queued packet. */
  lemma {:induction false} ImmediateDue(ts: Timed, e: Event, x: Entry)
    requires TimedInv(ts) && e.Enqueue? && e.t == ClassC && Result(ts.sys, e).0.Ok? && x in ts.sent && Ticks(ts, e.time)
    requires Sub(CountOf(NewNode(ts.sys, e)), Wrap(e.time)) < TX_MAX_ADVANCE_DELAY
    requires !AnyLonger(ts.sys.q.nodes, LONG_POST_DELAY)
    ensures Due(e.time, CountOf(NewNode(ts.sys, e))) >= x.due + LEAST_IMMEDIATE_GAP
  {
    var s, time, post := ts.sys.q.nodes, e.time, PostDelay(e.packet.value, ClassC);
    var c := AsapCount(s, Wrap(time), PreDelay(ClassC), post);
    AcceptedAhead(ts.sys, e);
    NewcomerDue(ts.lastPeek, time, c);
    if JitSlot.AsapTaken(s, Wrap(time), post) {
      var k := JitSlot.SearchStops(s, 0, PreDelay(ClassC), post);
      assert s[k] in s;
      AheadOfPeek(ts, s[k]);
      JitSlot.SlotAheadIs(s[k], Wrap(ts.lastPeek));
    }
  }

  /** In every timely run of legal packets an immediate newcomer is due at least 40,001 us after everything handed over,
      whether or not a dequeue is outstanding. */
  lemma {:induction false} ImmediateGap(states: seq<Timed>, events: seq<Event>, now: int, pace: Pace, k: nat, x: Entry)
    requires Follows(states, events, now, pace, k, x) && LegalRun(states, events, now, pace) && Suffices(pace)
    requires events[k].t == ClassC
    ensures NewcomerDueAt(states, events, k) >= x.due + LEAST_IMMEDIATE_GAP
  {
    TimedRunInv(states, events, now, pace, k);
    LegalRunShort(states, events, now, pace, k);
    Runs.StepAt(states, events, Start(now, pace), TimedStep, k);
    ImmediateDue(states[k], events[k], x);
  }

  /** An immediate newcomer due while the frame of `p`, handed over as `x`, is still on air. */
  ghost predicate ImmediateOverlaps(states: seq<Timed>, events: seq<Event>, now: int, k: nat, x: Entry, p: TxPacket) {
    && Follows(states, events, now, DOWNLINKS, k, x) && LegalRun(states, events, now, DOWNLINKS)
    && events[k].t == ClassC && SameFrame(x.node.pkt, p)
    && NewcomerDueAt(states, events, k) < x.due + EmissionUs(x.node.pkt)
  }

  /** A run of two immediate downlinks that meets that gap: the first is due 39,999 us after the peek that chooses it, and
      the second is enqueued at that moment. */
  lemma {:induction false} ImmediateGapIsTight(p: TxPacket, now: int)
    returns (states: seq<Timed>, events: seq<Event>, x: Entry)
    requires Legal(p)
    ensures Follows(states, events, now, DOWNLINKS, 4, x) && LegalRun(states, events, now, DOWNLINKS)
    ensures events[4].t == ClassC && SameFrame(x.node.pkt, p)
    ensures NewcomerDueAt(states, events, 4) == x.due + LEAST_IMMEDIATE_GAP
  {
    var t1, t2 := now + TX_JIT_DELAY, now + TX_JIT_DELAY + 1;
    var s0, e0, e4 := Start(now, DOWNLINKS), Enqueue(now, Some(p), ClassC), Enqueue(t2, Some(p), ClassC);
    var s1, n := AcceptImmediate(s0, e0);
    var s2, s3, s4 := ImmediateSent(s1, n, now, t1, t2);
    x := EntryOf(n, t2);
    SubWrap(now + 2 * TX_JIT_DELAY, t2);
    states, events := LastImmediate(s0, e0, s1, Peek(t1), s2, Peek(t2), s3, s4, e4, now, x);
  }

  lemma {:induction false} LastImmediate(
    s0: Timed, e0: Event, s1: Timed, e1: Event, s2: Timed, e2: Event, s3: Timed, s4: Timed, e4: Event, now: int, x: Entry)
    returns (states: seq<Timed>, events: seq<Event>)
    requires s0 == Start(now, DOWNLINKS) && TimedStep(s0, e0, s1) && TimedStep(s1, e1, s2) && TimedStep(s2, e2, s3)
    requires TimedStep(s3, Dequeue, s4) && LegalEvent(e0) && LegalEvent(e1) && LegalEvent(e2)
    requires s4.sys.q == Queue([], 0) && s4.pace == DOWNLINKS && x in s4.sent
    requires e4.Enqueue? && e4.t == ClassC && e4.packet.Some? && Legal(e4.packet.value) && Ticks(s4, e4.time)
    ensures Follows(states, events, now, DOWNLINKS, 4, x) && LegalRun(states, events, now, DOWNLINKS)
    ensures events[4] == e4 && NewcomerDueAt(states, events, 4) == e4.time + 2 * TX_JIT_DELAY
  {
    var s5, m := AcceptImmediate(s4, e4);
    SubWrap(e4.time + 2 * TX_JIT_DELAY, e4.time);
    states, events := Runs.FiveSteps(s0, e0, s1, e1, s2, e2, s3, Dequeue, s4, e4, s5, TimedStep, LegalEvent);
  }

  /** Not chosen by a peek 40 ms ahead, and handed over by one a microsecond later. */
  lemma {:induction false} ImmediateSent(ts: Timed, n: Node, now: int, t1: int, t2: int)
    returns (ts1: Timed, ts2: Timed, ts3: Timed)
    requires ts.sys.q == Queue([n], 0) && ts.sys.pending == -1 && ts.sys.purged == multiset{} && !n.pktType.Beacon?
    requires CountOf(n) == Wrap(now + 2 * TX_JIT_DELAY) && t1 == now + TX_JIT_DELAY && t2 == t1 + 1
    requires Ticks(ts, t1) && ts.pace == DOWNLINKS
    ensures TimedStep(ts, Peek(t1), ts1) && TimedStep(ts1, Peek(t2), ts2) && TimedStep(ts2, Dequeue, ts3)
    ensures ts3.sys.q == Queue([], 0) && EntryOf(n, t2) in ts3.sent && ts3.sys.pending == -1
    ensures ts3.clock == ts3.lastPeek == t2 && ts3.pace == DOWNLINKS
  {
    SubWrap(now + 2 * TX_JIT_DELAY, t1);
    SubWrap(now + 2 * TX_JIT_DELAY, t2);
    JitSpacing.ScanOne(ts.sys.q, n, Wrap(t1));
    JitSpacing.PeekStep(ts, t1, ts.sys.q, -1);
    ts1 := JitSpacing.Peeked(ts, t1, ts.sys.q, -1);
    ts2, ts3 := HandOverOnly(ts1, n, t2);
  }

  /** An immediate downlink on an empty queue. */
  lemma {:induction false} AcceptImmediate(ts: Timed, e: Event) returns (ts': Timed, n: Node)
    requires ts.sys.q == Queue([], 0) && e.Enqueue? && e.t == ClassC && e.packet.Some? && Legal(e.packet.value)
    requires Ticks(ts, e.time) && ts.pace == DOWNLINKS
    ensures Result(ts.sys, e).0.Ok? && n == NewNode(ts.sys, e) && SameFrame(n.pkt, e.packet.value)
    ensures CountOf(n) == Wrap(e.time + 2 * TX_JIT_DELAY) && n.pktType == ClassC
    ensures TimedStep(ts, e, ts') && ts' == ts.(sys := ts'.sys, clock := e.time, accepted := ts'.accepted)
    ensures ts'.sys.q == Queue([n], 0) && ts'.sys.pending == ts.sys.pending && ts'.sys.purged == ts.sys.purged
  {
    JitSpacing.ImmediateResult(ts.sys, e);
    JitSpacing.AddWrap(e.time, 2 * TX_JIT_DELAY);
    SubWrap(e.time + 2 * TX_JIT_DELAY, e.time);
    n := NewNode(ts.sys, e);
    LegalWellFormed(Result(ts.sys, e).1.value, ClassC);
    assert ts.sys.q.nodes + [n] == [n];
    JitSpacing.EnqueueStep(ts, e, n, [n]);
    ts' := JitSpacing.Accepted(ts, e, n, [n]);
  }

  /** The exact condition for the newcomers that the gateway queues: such an overlap exists if and only if the frame stays
      on air for more than 40,001 us. */
  lemma {:induction false} ImmediateOverlapIff(p: TxPacket, now: int)
    requires p.modulation == MOD_LORA
    ensures (exists states, events, k, x :: ImmediateOverlaps(states, events, now, k, x, p)) <==>
            EmissionUs(p) > LEAST_IMMEDIATE_GAP
  {
    if exists states, events, k, x :: ImmediateOverlaps(states, events, now, k, x, p) {
      var states, events, k, x :| ImmediateOverlaps(states, events, now, k, x, p);
      ImmediateGap(states, events, now, DOWNLINKS, k, x);
      SameEmission(x.node.pkt, p);
    }
    if EmissionUs(p) > LEAST_IMMEDIATE_GAP {
      var states, events, x := ImmediateGapIsTight(p, now);
      SameEmission(x.node.pkt, p);
      assert ImmediateOverlaps(states, events, now, 4, x, p);
    }
  }

  /* ---- The run that meets the gap ---- */

  /** The only packet of a queue is handed over when it is close. */
  lemma {:induction false} HandOverOnly(ts: Timed, n: Node, time: int) returns (ts1: Timed, ts2: Timed)
    requires ts.sys.q == Queue([n], 0) && ts.sys.pending == -1 && ts.sys.purged == multiset{} && !n.pktType.Beacon?
    requires Ticks(ts, time) && Sub(CountOf(n), Wrap(time)) < TX_JIT_DELAY
    ensures TimedStep(ts, Peek(time), ts1) && TimedStep(ts1, Dequeue, ts2)
    ensures ts2.sys.q == Queue([], 0) && ts2.sent == ts.sent[EntryOf(n, time) := time] && ts2.accepted == ts.accepted
    ensures ts2.clock == time == ts2.lastPeek && ts2.sys.pending == -1 && ts2.pace == ts.pace
  {
    ts1 := ts.(sys := ts.sys.(pending := 0), clock := time, lastPeek := time);
    assert PeekLoop(ts.sys.q, 1, 0, Wrap(time), ts.sys.q, 0);
    assert PeekRel(ts.sys.q, Wrap(time), -1, Ok, ts1.sys.q, 0);
    ts2 := ts1.(sys := ts1.sys.(q := Queue([], 0), pending := -1, dequeued := ts.sys.dequeued + multiset{n}),
                sent := ts.sent[EntryOf(n, time) := time]);
    assert SwapRemove([n], 0) == [];
    assert DequeueRel(ts1.sys.q, 0, Ok, Some(n), ts2.sys.q);
  }

  /** A Class A downlink 42,501 us ahead is accepted by an empty queue. */
  lemma {:induction false} AcceptFirst(ts: Timed, e: Event, n: Node) returns (ts': Timed)
    requires ts.sys.q == Queue([], 0) && e.Enqueue? && e.t == ClassA && e.packet.Some?
    requires n == NodeFor(e.packet.value, ClassA) && WellFormed(n)
    requires Sub(e.packet.value.countUs, Wrap(e.time)) == 42_501
    requires Ticks(ts, e.time) && Allows(ts.pace, n)
    ensures TimedStep(ts, e, ts') && Result(ts.sys, e).0.Ok? && NewNode(ts.sys, e) == n
    ensures ts' == ts.(sys := ts.sys.(q := Queue([n], 0), accepted := ts.sys.accepted + multiset{n}),
                       clock := e.time, accepted := ts.accepted + {EntryOf(n, e.time)})
  {
    ts' := ts.(sys := ts.sys.(q := Queue([n], 0), accepted := ts.sys.accepted + multiset{n}),
               clock := e.time, accepted := ts.accepted + {EntryOf(n, e.time)});
    assert Result(ts.sys, e) == (Ok, e.packet);
    assert ts.sys.q.nodes + [n] == [n];
    assert EnqueueRel(ts.sys.q, Wrap(e.time), e.packet, ClassA, Ok, e.packet, ts'.sys.q);
  }
}
