/** The two threads that share one JIT queue (clusterduck/src/clusterduckd.c): `thread_down` enqueues downlinks and
    beacons, `thread_jit` peeks and then dequeues the index it was given. Every interleaving of their calls is a run. */
module JitProtocol {
  import opened Options
  import opened Word32
  import opened CountSort
  import opened TimeOnAir
  import opened JitQueue
  import opened JitSeparation
  import JitPeek
  import Runs

  /** The queue, the locals of the two threads that matter here, and the history of the packets. */
  datatype Sys = Sys(
    q: Queue,
    beaconLoop: uint8,          // beacons thread_down still wants to queue in this cycle
    pending: int,               // index peeked and not yet dequeued by thread_jit, or -1
    accepted: multiset<Node>,
    dequeued: multiset<Node>,
    purged: multiset<Node>)

  /** Times are true times; the code only sees them wrapped to the 32-bit counter. */
  datatype Event =
    | StartCycle
    | Enqueue(time: int, packet: Option<TxPacket>, t: PktType)
    | Peek(time: int)
    | Dequeue

  const INIT: Sys := Sys(Queue([], 0), 0, -1, multiset{}, multiset{}, multiset{})

  function Result(s: Sys, e: Event): (JitError, Option<TxPacket>)
    requires e.Enqueue?
  {
    EnqueueResult(s.q.nodes, Wrap(e.time), e.packet, e.t)
  }

  function NewNode(s: Sys, e: Event): Node
    requires e.Enqueue? && Result(s, e).0.Ok?
  {
    NodeFor(Result(s, e).1.value, e.t)
  }

  ghost predicate Step(s: Sys, e: Event, s': Sys) {
    match e
    case StartCycle =>
      s' == s.(beaconLoop := (JIT_NUM_BEACON_IN_QUEUE - s.q.numBeacon) % 256)
    case Enqueue(time, packet, t) =>
      && (t.Beacon? ==> s.beaconLoop > 0)
      && EnqueueRel(s.q, Wrap(time), packet, t, Result(s, e).0, Result(s, e).1, s'.q)
      && (if Result(s, e).0.Ok? then
            s' == s.(q := s'.q, accepted := s.accepted + multiset{NewNode(s, e)},
                     beaconLoop := if t.Beacon? then s.beaconLoop - 1 else s.beaconLoop)
          else s' == s)
    case Peek(time) =>
      && s.pending == -1
      && (exists err :: PeekRel(s.q, Wrap(time), -1, err, s'.q, s'.pending))
      && s' == s.(q := s'.q, pending := s'.pending,
                  purged := s.purged + (multiset(s.q.nodes) - multiset(s'.q.nodes)))
    case Dequeue =>
      && s.pending != -1
      && exists out :: DequeueRel(s.q, s.pending, Ok, Some(out), s'.q)
                       && s' == s.(q := s'.q, pending := -1, dequeued := s.dequeued + multiset{out})
  }

  /** The environment: an accepted packet is LoRa or a beacon, or at least reserves no more than MAX_POST_DELAY, and
      it is not scheduled more than half the counter range away from the packets already queued. */
  ghost predicate Benign(s: Sys, e: Event) {
    e.Enqueue? && Result(s, e).0.Ok? ==>
      && WellFormed(NewNode(s, e))
      && exists base: uint32 :: HalfRange(s.q.nodes + [NewNode(s, e)], CountOf, base)
  }

  ghost predicate BenignStep(s: Sys, e: Event, s': Sys) {
    Benign(s, e) && Step(s, e, s')
  }

  ghost predicate Run(states: seq<Sys>, events: seq<Event>) {
    Runs.IsRun(states, events, INIT, BenignStep)
  }

  /* ---- Counting beacons ---- */

  function Beacons(s: seq<Node>): nat {
    if s == [] then 0 else (if s[0].pktType.Beacon? then 1 else 0) + Beacons(s[1..])
  }

  lemma {:induction false} BeaconsDelete(s: seq<Node>, k: nat)
    requires k < |s|
    ensures Beacons(s) == Beacons(s[..k] + s[k+1..]) + (if s[k].pktType.Beacon? then 1 else 0)
  {
    var t := s[..k] + s[k+1..];
    if k == 0 {
      assert t == s[1..];
    } else {
      BeaconsDelete(s[1..], k - 1);
      assert t[1..] == s[1..][..k-1] + s[1..][k..];
    }
  }

  /** Deleting the first of `s` from both of two permutations leaves permutations. */
  lemma {:induction false} DeleteFirst(s: seq<Node>, r: seq<Node>) returns (k: nat)
    requires multiset(s) == multiset(r) && s != []
    ensures k < |r| && r[k] == s[0] && multiset(s[1..]) == multiset(r[..k] + r[k+1..])
  {
    k := PlaceOf(s[0], r, multiset(s));
    DeleteMultiset(r, k);
    DeleteMultiset(s, 0);
    assert s[..0] + s[1..] == s[1..];
  }

  lemma {:induction false} PlaceOf(x: Node, r: seq<Node>, m: multiset<Node>) returns (k: nat)
    requires multiset(r) == m && x in m
    ensures k < |r| && r[k] == x
  {
    assert x in multiset(r);
    k :| 0 <= k < |r| && r[k] == x;
  }

  lemma {:induction false} BeaconsPerm(s: seq<Node>, r: seq<Node>)
    requires multiset(s) == multiset(r)
    ensures Beacons(s) == Beacons(r)
  {
    SameLength(s, r);
    if s != [] {
      var k := DeleteFirst(s, r);
      BeaconsPerm(s[1..], r[..k] + r[k+1..]);
      BeaconsDelete(r, k);
    }
  }

  ghost predicate BeaconsCounted(q: Queue) {
    q.numBeacon == Beacons(q.nodes)
  }

  lemma {:induction false} BeaconsOneMore(s: seq<Node>, r: seq<Node>, n: Node)
    requires multiset(r) == multiset(s) + multiset{n}
    ensures Beacons(r) == Beacons(s) + (if n.pktType.Beacon? then 1 else 0)
  {
    var u := s + [n];
    BeaconsPerm(r, u);
    BeaconsDelete(u, |s|);
    assert u[..|s|] + u[|s|+1..] == s;
  }

  lemma {:induction false} RemovedMultiset(q: Queue, k: nat, r: Queue)
    requires k < |q.nodes| && Removed(q, k, r)
    ensures multiset(q.nodes) == multiset(r.nodes) + multiset{q.nodes[k]}
  {
    SwapRemoveMultiset(q.nodes, k);
  }

  lemma {:induction false} RemovedCounts(q: Queue, k: nat, r: Queue)
    requires k < |q.nodes| && Removed(q, k, r) && BeaconsCounted(q)
    ensures BeaconsCounted(r) && r.numBeacon <= q.numBeacon
  {
    RemovedMultiset(q, k, r);
    BeaconsOneMore(r.nodes, q.nodes, q.nodes[k]);
  }

  lemma {:induction false} EnqueueCounts(q: Queue, n: Node, q': Queue)
    requires multiset(q'.nodes) == multiset(q.nodes) + multiset{n} && BeaconsCounted(q) && q.numBeacon < 255
    requires q'.numBeacon == if n.pktType.Beacon? then (q.numBeacon + 1) % 256 else q.numBeacon
    ensures BeaconsCounted(q') && q'.numBeacon == q.numBeacon + if n.pktType.Beacon? then 1 else 0
  {
    BeaconsOneMore(q.nodes, q'.nodes, n);
  }

  lemma {:induction false} PeekCounts(q: Queue, time: uint32, q': Queue, idx: int)
    requires PeekLoop(q, 0, -1, time, q', idx) && BeaconsCounted(q)
    ensures BeaconsCounted(q') && q'.numBeacon <= q.numBeacon
  {
    var inv := (p: Queue, i: nat, best: int) => BeaconsCounted(p) && p.numBeacon <= q.numBeacon;
    forall p: Queue, i: nat, best: int, r: Queue |
      inv(p, i, best) && i < |p.nodes| && Outdated(p.nodes[i], time) && Removed(p, i, r)
      ensures inv(r, 1, best)
    {
      RemovedCounts(p, i, r);
    }
    var i', best' := JitPeek.ScanInduction(q, 0, -1, time, q', idx, inv);
  }

  /* ---- The invariant ---- */

  ghost predicate QueueOk(s: seq<Node>) {
    && |s| <= JIT_QUEUE_MAX
    && Ordered(s, CountOf) && AllSeparated(s) && AllWellFormed(s)
  }

  ghost predicate BeaconsOk(s: Sys) {
    BeaconsCounted(s.q) && s.q.numBeacon + s.beaconLoop <= JIT_NUM_BEACON_IN_QUEUE
  }

  ghost predicate Inv(s: Sys) {
    && QueueOk(s.q.nodes)
    && BeaconsOk(s)
    && -1 <= s.pending < |s.q.nodes|
    && s.accepted == multiset(s.q.nodes) + s.dequeued + s.purged
  }

  lemma {:induction false} AcceptKeepsQueue(
    s: seq<Node>, time: uint32, p: TxPacket, t: PktType, s': seq<Node>, base: uint32)
    requires QueueOk(s) && |s| < JIT_QUEUE_MAX && Admit(s, time, p, t) == Ok && WellFormed(NodeFor(p, t))
    requires HalfRange(s + [NodeFor(p, t)], CountOf, base)
    requires IsSortOf(s', s + [NodeFor(p, t)], CountOf)
    ensures QueueOk(s') && |s'| == |s| + 1 && Distinct(s + [NodeFor(p, t)], CountOf)
  {
    var u := s + [NodeFor(p, t)];
    AdmittedSeparated(s, time, p, t);
    SeparatedDistinct(u);
    SortOrders(s', u, CountOf, base);
    SubSeparated(s', u);
    SubWellFormed(s', u);
    SameLength(s', u);
  }

  lemma {:induction false} ShrinkKeepsQueue(s: seq<Node>, s': seq<Node>)
    requires QueueOk(s) && multiset(s') <= multiset(s) && Ordered(s', CountOf)
    ensures QueueOk(s')
  {
    SubSeparated(s', s);
    SubWellFormed(s', s);
    assert |s'| == |multiset(s')|;
    assert multiset(s) == multiset(s') + (multiset(s) - multiset(s'));
    assert |s| == |multiset(s)|;
  }

  /** Conservation of packets, one move at a time. */
  lemma {:induction false} Conserved(
    acc: multiset<Node>, q: multiset<Node>, q': multiset<Node>, d: multiset<Node>, p: multiset<Node>, n: Node)
    requires acc == q + d + p
    ensures q' == q + multiset{n} ==> acc + multiset{n} == q' + d + p
    ensures q == q' + multiset{n} ==> acc == q' + (d + multiset{n}) + p
    ensures q' <= q ==> acc == q' + d + (p + (q - q'))
  {
  }

  lemma {:induction false} AcceptedInv(s: Sys, e: Event, s': Sys, base: uint32)
    requires Inv(s) && e.Enqueue? && Step(s, e, s') && Result(s, e).0.Ok? && WellFormed(NewNode(s, e))
    requires HalfRange(s.q.nodes + [NewNode(s, e)], CountOf, base)
    ensures QueueOk(s'.q.nodes) && |s'.q.nodes| == |s.q.nodes| + 1
    ensures multiset(s'.q.nodes) == multiset(s.q.nodes) + multiset{NewNode(s, e)}
    ensures Distinct(s.q.nodes + [NewNode(s, e)], CountOf)
  {
    AcceptKeepsQueue(s.q.nodes, Wrap(e.time), Result(s, e).1.value, e.t, s'.q.nodes, base);
  }

  lemma {:induction false} AcceptedCounts(s: Sys, n: Node, s': Sys)
    requires Inv(s) && QueueOk(s'.q.nodes) && |s'.q.nodes| == |s.q.nodes| + 1
    requires multiset(s'.q.nodes) == multiset(s.q.nodes) + multiset{n}
    requires s'.q.numBeacon == if n.pktType.Beacon? then (s.q.numBeacon + 1) % 256 else s.q.numBeacon
    requires n.pktType.Beacon? ==> s.beaconLoop > 0
    requires s' == s.(q := s'.q, accepted := s.accepted + multiset{n},
                      beaconLoop := if n.pktType.Beacon? then s.beaconLoop - 1 else s.beaconLoop)
    ensures Inv(s')
  {
    EnqueueCounts(s.q, n, s'.q);
    Conserved(s.accepted, multiset(s.q.nodes), multiset(s'.q.nodes), s.dequeued, s.purged, n);
  }

  lemma {:induction false} EnqueueInv(s: Sys, e: Event, s': Sys)
    requires Inv(s) && e.Enqueue? && Benign(s, e) && Step(s, e, s')
    ensures Inv(s')
  {
    if Result(s, e).0.Ok? {
      var n := NewNode(s, e);
      var base: uint32 :| HalfRange(s.q.nodes + [n], CountOf, base);
      AcceptedInv(s, e, s', base);
      AcceptedCounts(s, n, s');
    }
  }

  lemma {:induction false} PeekInv(s: Sys, e: Event, s': Sys)
    requires Inv(s) && e.Peek? && Step(s, e, s')
    ensures Inv(s')
  {
    if s.q.nodes != [] {
      JitPeek.PeekPurges(s.q, Wrap(e.time), s'.q, s'.pending);
      JitPeek.PeekSafe(s.q, Wrap(e.time), s'.q, s'.pending);
      ShrinkKeepsQueue(s.q.nodes, s'.q.nodes);
      PeekCounts(s.q, Wrap(e.time), s'.q, s'.pending);
      Conserved(s.accepted, multiset(s.q.nodes), multiset(s'.q.nodes), s.dequeued, s.purged, s.q.nodes[0]);
    }
  }

  lemma {:induction false} RemovedOk(q: Queue, k: nat, q': Queue)
    requires QueueOk(q.nodes) && k < |q.nodes| && Removed(q, k, q')
    ensures QueueOk(q'.nodes) && q'.nodes == q.nodes[..k] + q.nodes[k+1..]
  {
    RemovedMultiset(q, k, q');
    RemoveSorts(q'.nodes, q.nodes, k, CountOf);
    ShrinkKeepsQueue(q.nodes, q'.nodes);
  }

  lemma {:induction false} DequeueInv(s: Sys, e: Event, s': Sys)
    requires Inv(s) && e.Dequeue? && Step(s, e, s')
    ensures Inv(s')
    ensures s'.dequeued == s.dequeued + multiset{s.q.nodes[s.pending]}
  {
    var k := s.pending;
    RemovedOk(s.q, k, s'.q);
    RemovedCounts(s.q, k, s'.q);
    RemovedMultiset(s.q, k, s'.q);
    Conserved(s.accepted, multiset(s.q.nodes), multiset(s'.q.nodes), s.dequeued, s.purged, s.q.nodes[k]);
  }

  lemma {:induction false} StepInv(s: Sys, e: Event, s': Sys)
    requires Inv(s) && Benign(s, e) && Step(s, e, s')
    ensures Inv(s')
  {
    match e
    case StartCycle =>
    case Enqueue(_, _, _) => EnqueueInv(s, e, s');
    case Peek(_) => PeekInv(s, e, s');
    case Dequeue => DequeueInv(s, e, s');
  }

  /** Over every interleaving: the beacon counter is the number of queued beacons and at most 3, at most 32 packets are
      queued, the queue stays in order and separated, a peeked index stays live, and no packet is lost or duplicated:
      the accepted ones are exactly those queued, dequeued or purged. */
  lemma {:induction false} RunInv(states: seq<Sys>, events: seq<Event>, k: nat)
    requires Run(states, events) && k < |states|
    ensures Inv(states[k])
  {
    forall s, e, s' | Inv(s) && BenignStep(s, e, s') ensures Inv(s') {
      StepInv(s, e, s');
    }
    Runs.Invariant(states, events, INIT, BenignStep, Inv, k);
  }

  /** So there are never more than 3 beacons among never more than 32 packets, and the counter shows how many. */
  lemma {:induction false} RunAtMostThree(states: seq<Sys>, events: seq<Event>, k: nat)
    requires Run(states, events) && k < |states|
    ensures states[k].q.numBeacon == Beacons(states[k].q.nodes) <= 3 && |states[k].q.nodes| <= 32
  {
    RunInv(states, events, k);
  }

  /** A node as `jit_enqueue` builds it. */
  predicate Built(n: Node) {
    n == NodeFor(n.pkt, n.pktType)
  }

  ghost predicate AllBuilt(s: Sys) {
    forall n :: n in s.accepted ==> Built(n)
  }

  lemma {:induction false} StepBuilt(s: Sys, e: Event, s': Sys)
    requires AllBuilt(s) && Step(s, e, s')
    ensures AllBuilt(s')
  {
    if e.Enqueue? && Result(s, e).0.Ok? {
      forall n | n in s'.accepted ensures Built(n) {
        assert n in s.accepted || n == NewNode(s, e);
      }
    }
  }

  /** Over every interleaving, each queued node carries the delays of its own packet. */
  lemma {:induction false} RunBuilt(states: seq<Sys>, events: seq<Event>, k: nat, i: nat)
    requires Run(states, events) && k < |states| && i < |states[k].q.nodes|
    ensures Built(states[k].q.nodes[i])
  {
    forall s, e, s' | AllBuilt(s) && BenignStep(s, e, s') ensures AllBuilt(s') {
      StepBuilt(s, e, s');
    }
    Runs.Invariant(states, events, INIT, BenignStep, AllBuilt, k);
    RunInv(states, events, k);
    assert states[k].q.nodes[i] in multiset(states[k].q.nodes);
    assert states[k].q.nodes[i] in states[k].accepted;
  }

  /** In every reachable queue the emissions of LoRa downlinks are pairwise disjoint in true time. */
  lemma {:induction false} RunEmissionsDisjoint(
    states: seq<Sys>, events: seq<Event>, k: nat, i: nat, j: nat, ti: int, tj: int)
    requires Run(states, events) && k < |states|
    requires var s := states[k].q.nodes;
             && i < |s| && j < |s| && i != j
             && (forall l | l == i || l == j :: !s[l].pktType.Beacon? && s[l].pkt.modulation == MOD_LORA)
             && Wrap(ti) == CountOf(s[i]) && Wrap(tj) == CountOf(s[j]) && ti <= tj < ti + TWO32
    ensures ti + EmissionUs(states[k].q.nodes[i].pkt) + 42_000 < tj
  {
    RunInv(states, events, k);
    RunBuilt(states, events, k, i);
    RunBuilt(states, events, k, j);
    EmissionsDisjoint(states[k].q.nodes, i, j, ti, tj);
  }

  /* ---- A dequeue removes the packet that was peeked ---- */

  /** The packet at the pending index is `x`, seen by a peek at true time `peekTime`. */
  ghost predicate Pending(s: Sys, x: Node, peekTime: int) {
    && 0 <= s.pending < |s.q.nodes| && s.q.nodes[s.pending] == x
    && Sub(CountOf(x), Wrap(peekTime)) < TX_JIT_DELAY
  }

  /** How much older than that of the peek the clock reading of an enqueue may be, for its packet of type `t` to come
      after the one that the peek chose, of type `tx`: it is due more than 42.5 ms later, the other less than 40 ms after the
      peek, and the two do not collide. */
  function Tolerance(tx: PktType, t: PktType, post: uint32): nat {
    TX_START_DELAY + 2 * TX_MARGIN_DELAY + 2 + post
    + if (t.ClassA? || t.ClassC?) && tx.Beacon? then TX_START_DELAY else PreDelay(tx)
  }

  /** Steps of thread_down that may fall between a peek that chose `x` and its dequeue: the clock reading of what is
      accepted is not older than that, and it is due less than half the counter range after the peek. */
  ghost predicate Between(s: Sys, e: Event, x: Node, peekTime: int) {
    || e.StartCycle?
    || (e.Enqueue? && (Result(s, e).0.Ok? ==>
          && e.time >= peekTime - Tolerance(x.pktType, e.t, NewNode(s, e).postDelay)
          && Due(e.time, CountOf(NewNode(s, e))) < peekTime + TWO31))
  }

  /** A newcomer is due more than 42,500 us after its clock reading, and apart from the packet that a peek chose; so it
      comes after that one. */
  lemma {:induction false} NewcomerLater(x: Node, peekTime: int, c: uint32, t: PktType, post: uint32, time: int)
    requires WellFormed(x) && post <= MAX_POST_DELAY && !Blocks(x, c, t, post)
    requires Sub(CountOf(x), Wrap(peekTime)) < TX_JIT_DELAY && time >= peekTime - Tolerance(x.pktType, t, post)
    requires Sub(c, Wrap(time)) > TX_START_DELAY + TX_MARGIN_DELAY + TX_JIT_DELAY
    requires Due(time, c) < peekTime + TWO31
    ensures After(c, CountOf(x))
  {
    var tx, tn := Due(peekTime, CountOf(x)), Due(time, c);
    DueUnique(peekTime, CountOf(x), tx);
    DueUnique(time, c, tn);
    if tn >= tx {
      SubWrap(tn, tx);
    } else {
      SubWrap(tx, tn);
    }
  }

  /** What is accepted is blocked by no queued packet. */
  lemma {:induction false} AcceptedUnblocked(s: Sys, e: Event, k: nat)
    requires e.Enqueue? && Result(s, e).0.Ok? && k < |s.q.nodes|
    ensures !Blocks(s.q.nodes[k], CountOf(NewNode(s, e)), e.t, NewNode(s, e).postDelay)
    ensures Sub(CountOf(NewNode(s, e)), Wrap(e.time)) > TX_START_DELAY + TX_MARGIN_DELAY + TX_JIT_DELAY
  {
    var p := Result(s, e).1.value;
    assert FirstBlocker(s.q.nodes, 0, p.countUs, e.t, PostDelay(p, e.t)) == |s.q.nodes|;
  }

  lemma {:induction false} BetweenKeepsPending(s: Sys, e: Event, s': Sys, x: Node, peekTime: int)
    requires Inv(s) && Benign(s, e) && Step(s, e, s') && Between(s, e, x, peekTime)
    requires Pending(s, x, peekTime)
    ensures Pending(s', x, peekTime)
  {
    if e.Enqueue? && Result(s, e).0.Ok? {
      var n := NewNode(s, e);
      var base: uint32 :| HalfRange(s.q.nodes + [n], CountOf, base);
      AcceptedInv(s, e, s', base);
      AcceptedUnblocked(s, e, s.pending);
      NewcomerLater(x, peekTime, CountOf(n), e.t, n.postDelay, e.time);
      IndexKept(s'.q.nodes, s.q.nodes, n, s.pending, base);
    }
  }

  lemma {:induction false} IndexKept(s': seq<Node>, s: seq<Node>, n: Node, k: nat, base: uint32)
    requires Ordered(s, CountOf) && k < |s| && IsSortOf(s', s + [n], CountOf) && After(CountOf(n), CountOf(s[k]))
    requires HalfRange(s + [n], CountOf, base) && Distinct(s + [n], CountOf)
    ensures k < |s'| && s'[k] == s[k]
  {
    InsertAfter(s', s, n, k, CountOf, base);
    assert s'[k] == s'[..k+1][k];
  }

  function PendingNode(s: Sys): Node
    requires 0 <= s.pending < |s.q.nodes|
  {
    s.q.nodes[s.pending]
  }

  predicate HasPending(s: Sys) {
    0 <= s.pending < |s.q.nodes|
  }

  /** Between a peek and its dequeue any number of enqueues may be accepted: the dequeue still removes exactly the
      packet that the peek chose. */
  lemma {:induction false} DequeuesPeeked(states: seq<Sys>, events: seq<Event>, p: nat, d: nat)
    requires Run(states, events) && p < d < |events|
    requires events[p].Peek? && states[p + 1].pending != -1 && events[d].Dequeue?
    requires HasPending(states[p + 1]) ==>
               forall i :: p < i < d ==> Between(states[i], events[i], PendingNode(states[p + 1]), events[p].time)
    ensures HasPending(states[p + 1])
    ensures states[d + 1].dequeued == states[d].dequeued + multiset{PendingNode(states[p + 1])}
  {
    PeekSetsPending(states, events, p);
    var x := PendingNode(states[p + 1]);
    PendingUntil(states, events, p + 1, d, x, events[p].time);
    DequeueTakesPending(states, events, d, x, events[p].time);
  }

  lemma {:induction false} PeekSetsPending(states: seq<Sys>, events: seq<Event>, p: nat)
    requires Run(states, events) && p < |events| && events[p].Peek? && states[p + 1].pending != -1
    ensures 0 <= states[p + 1].pending < |states[p + 1].q.nodes|
    ensures Pending(states[p + 1], states[p + 1].q.nodes[states[p + 1].pending], events[p].time)
  {
    RunInv(states, events, p);
    Runs.StepAt(states, events, INIT, BenignStep, p);
    JitPeek.PeekSafe(states[p].q, Wrap(events[p].time), states[p + 1].q, states[p + 1].pending);
  }

  lemma {:induction false} DequeueTakesPending(states: seq<Sys>, events: seq<Event>, d: nat, x: Node, peekTime: int)
    requires Run(states, events) && d < |events| && events[d].Dequeue? && Pending(states[d], x, peekTime)
    ensures states[d + 1].dequeued == states[d].dequeued + multiset{x}
  {
    RunInv(states, events, d);
    Runs.StepAt(states, events, INIT, BenignStep, d);
    DequeueInv(states[d], events[d], states[d + 1]);
  }

  lemma {:induction false} PendingUntil(states: seq<Sys>, events: seq<Event>, i: nat, d: nat, x: Node, peekTime: int)
    requires Run(states, events) && i <= d < |events|
    requires Pending(states[i], x, peekTime)
    requires forall j :: i <= j < d ==> Between(states[j], events[j], x, peekTime)
    ensures Pending(states[d], x, peekTime)
    decreases d - i
  {
    if i < d {
      RunInv(states, events, i);
      Runs.StepAt(states, events, INIT, BenignStep, i);
      BetweenKeepsPending(states[i], events[i], states[i + 1], x, peekTime);
      PendingUntil(states, events, i + 1, d, x, peekTime);
    }
  }
}
