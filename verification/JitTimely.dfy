/** Runs in which the scheduler keeps up: a clock that never goes back, and a peek (with its dequeue) at least every so
    often. If that is often enough, no packet is ever purged and each is handed over once, in time. */
module JitTimely {
  import opened Options
  import opened Word32
  import opened CountSort
  import opened TimeOnAir
  import opened JitQueue
  import opened JitSeparation
  import opened JitProtocol
  import JitPeek
  import JitSlot
  import JitAdvance
  import Runs

  /** An accepted packet and the true time it is due. */
  datatype Entry = Entry(node: Node, due: int)

  /** How often peeks come, and what is queued meanwhile. */
  datatype Pace = Pace(
    spacing: nat,               // longest time from one peek to the next
    beacons: bool,              // whether beacons are queued
    classA: bool,               // whether Class A downlinks are queued
    least: nat)                 // shortest reservation of a Class A downlink

  const LONG_POST_DELAY: int := 3_770_000_000

  /** The packets that may be queued. */
  predicate Allows(pace: Pace, n: Node) {
    && (n.pktType.Beacon? ==> pace.beacons)
    && (n.pktType.ClassA? ==> pace.classA && n.postDelay >= pace.least)
    && (pace.beacons ==> n.postDelay <= LONG_POST_DELAY)
  }

  /** Often enough: every TX_JIT_DELAY, except that a beacon may follow a Class A downlink by a little more than that
      one's reservation and 2500 us, and a peek hands over only one of the two. */
  predicate Suffices(pace: Pace) {
    && pace.spacing <= TX_JIT_DELAY
    && (pace.beacons && pace.classA ==>
          2 * pace.spacing <= TX_JIT_DELAY + TX_START_DELAY + TX_MARGIN_DELAY + 1 + pace.least)
  }

  datatype Timed = Timed(
    pace: Pace,
    sys: Sys,
    clock: int,                 // last clock reading
    lastPeek: int,              // clock reading of the last peek, or of the start
    accepted: set<Entry>,
    sent: map<Entry, int>)      // packets handed over, with the clock reading of the peek that chose them

  function Start(now: int, pace: Pace): Timed {
    Timed(pace, INIT, now, now, {}, map[])
  }

  function EntryOf(n: Node, t: int): Entry {
    Entry(n, Due(t, CountOf(n)))
  }

  /** The clock only moves forward, and the next peek is never overdue. */
  predicate Ticks(ts: Timed, time: int) {
    ts.clock <= time <= ts.lastPeek + ts.pace.spacing
  }

  ghost predicate TimedStep(ts: Timed, e: Event, ts': Timed) {
    && Step(ts.sys, e, ts'.sys)
    && match e
       case StartCycle => ts' == ts.(sys := ts'.sys)
       case Enqueue(time, _, _) =>
         && Ticks(ts, time)
         && (if Result(ts.sys, e).0.Ok? then
               && WellFormed(NewNode(ts.sys, e)) && Allows(ts.pace, NewNode(ts.sys, e))
               && Sub(CountOf(NewNode(ts.sys, e)), Wrap(time)) < TX_MAX_ADVANCE_DELAY
               && ts' == ts.(sys := ts'.sys, clock := time, accepted := ts.accepted + {EntryOf(NewNode(ts.sys, e), time)})
             else ts' == ts.(sys := ts'.sys, clock := time))
       case Peek(time) =>
         && Ticks(ts, time)
         && ts' == ts.(sys := ts'.sys, clock := time, lastPeek := time)
       case Dequeue =>
         && 0 <= ts.sys.pending < |ts.sys.q.nodes|
         && ts' == ts.(sys := ts'.sys,
                       sent := ts.sent[EntryOf(ts.sys.q.nodes[ts.sys.pending], ts.lastPeek) := ts.lastPeek])
  }

  ghost predicate TimedRun(states: seq<Timed>, events: seq<Event>, now: int, pace: Pace) {
    Runs.IsRun(states, events, Start(now, pace), TimedStep)
  }

  /* ---- The invariant ---- */

  predicate IsPending(s: Sys, n: Node) {
    0 <= s.pending < |s.q.nodes| && s.q.nodes[s.pending] == n
  }

  /** The time by which a peek must have come, before a packet that was not chosen is due. */
  function Reach(pace: Pace, n: Node): int {
    if n.pktType.Beacon? then pace.spacing else TX_JIT_DELAY
  }

  /** Every queued packet is due at least TX_JIT_DELAY after the last peek, a beacon at least the spacing of the peeks,
      except the one that peek chose. */
  ghost predicate InTime(pace: Pace, s: Sys, lastPeek: int, clock: int) {
    forall n :: n in s.q.nodes ==>
      && Allows(pace, n)
      && Due(lastPeek, CountOf(n)) < clock + TX_MAX_ADVANCE_DELAY
      && (if IsPending(s, n) then Due(lastPeek, CountOf(n)) < lastPeek + TX_JIT_DELAY
          else Due(lastPeek, CountOf(n)) >= lastPeek + Reach(pace, n))
  }

  /** No beacon follows an immediate downlink within TX_JIT_DELAY. */
  ghost predicate Clear(s: seq<Node>) {
    forall a, b :: a in s && b in s ==> ClearPair(a, b)
  }

  predicate ClearPair(a: Node, b: Node) {
    a.pktType.ClassC? && b.pktType.Beacon? ==> Sub(CountOf(b), CountOf(a)) > TX_JIT_DELAY
  }

  ghost predicate Logged(ts: Timed) {
    && (forall n :: n in ts.sys.q.nodes ==> EntryOf(n, ts.lastPeek) in ts.accepted)
    && (forall x :: x in ts.sent ==> x in ts.accepted)
    && (forall x :: x in ts.accepted ==>
          x in ts.sent || (x.node in ts.sys.q.nodes && x == EntryOf(x.node, ts.lastPeek)))
  }

  ghost predicate SentInTime(ts: Timed) {
    && (forall x :: x in ts.sent ==> ts.sent[x] <= x.due < ts.sent[x] + TX_JIT_DELAY && ts.sent[x] <= ts.lastPeek)
    && (forall x, n :: x in ts.sent && n in ts.sys.q.nodes ==> x.due < Due(ts.lastPeek, CountOf(n)))
  }

  ghost predicate TimedInv(ts: Timed) {
    && Inv(ts.sys) && ts.sys.purged == multiset{}
    && Suffices(ts.pace) && ts.lastPeek <= ts.clock <= ts.lastPeek + ts.pace.spacing
    && InTime(ts.pace, ts.sys, ts.lastPeek, ts.clock) && Clear(ts.sys.q.nodes)
    && Logged(ts) && SentInTime(ts)
  }

  /* ---- Enqueue ---- */

  /** What a timely newcomer looks like from the last peek. */
  lemma {:induction false} NewcomerDue(lastPeek: int, time: int, c: uint32)
    requires lastPeek <= time <= lastPeek + TX_JIT_DELAY
    requires TX_START_DELAY + TX_MARGIN_DELAY + TX_JIT_DELAY < Sub(c, Wrap(time)) < TX_MAX_ADVANCE_DELAY
    ensures Due(lastPeek, c) == Due(time, c)
    ensures lastPeek + TX_JIT_DELAY < Due(time, c) < time + TX_MAX_ADVANCE_DELAY
  {
    DueStable(lastPeek, time, c);
  }

  lemma {:induction false} AcceptedAhead(s: Sys, e: Event)
    requires e.Enqueue? && Result(s, e).0.Ok?
    ensures Sub(CountOf(NewNode(s, e)), Wrap(e.time)) > TX_START_DELAY + TX_MARGIN_DELAY + TX_JIT_DELAY
    ensures NewNode(s, e).pktType == e.t
  {
  }

  /** A timely downlink always lies in the same half range as the queue. */
  lemma {:induction false} TimelyHalfRange(pace: Pace, s: Sys, lastPeek: int, clock: int, n: Node)
    requires InTime(pace, s, lastPeek, clock) && clock <= lastPeek + TX_JIT_DELAY
    requires Due(lastPeek, CountOf(n)) < lastPeek + TX_JIT_DELAY + TX_MAX_ADVANCE_DELAY
    ensures HalfRange(s.q.nodes + [n], CountOf, Wrap(lastPeek))
  {
    var u := s.q.nodes + [n];
    forall i | 0 <= i < |u| ensures Sub(CountOf(u[i]), Wrap(lastPeek)) < TWO31 {
      assert u[i] == n || u[i] in s.q.nodes;
    }
  }

  lemma {:induction false} GrownMembers(s: seq<Node>, n: Node, s': seq<Node>)
    requires multiset(s') == multiset(s) + multiset{n}
    ensures forall m :: m in s' <==> m == n || m in s
  {
    forall m ensures m in s' <==> m == n || m in s {
      assert m in s' <==> m in multiset(s');
      assert m in s <==> m in multiset(s);
    }
  }

  /** The queue holds one more packet, due later than everything handed over, and the chosen one kept its place. */
  ghost predicate Grown(ts: Timed, n: Node, time: int, ts': Timed) {
    && Ticks(ts, time) && Inv(ts'.sys)
    && ts' == ts.(sys := ts'.sys, clock := time, accepted := ts.accepted + {EntryOf(n, time)})
    && ts'.sys.purged == multiset{} && ts'.sys.pending == ts.sys.pending
    && (forall m :: m in ts'.sys.q.nodes <==> m == n || m in ts.sys.q.nodes)
    && (ts.sys.pending != -1 ==>
          && 0 <= ts.sys.pending < |ts.sys.q.nodes| && ts.sys.pending < |ts'.sys.q.nodes|
          && ts'.sys.q.nodes[ts.sys.pending] == ts.sys.q.nodes[ts.sys.pending])
    && Allows(ts.pace, n) && Due(ts.lastPeek, CountOf(n)) == Due(time, CountOf(n))
    && ts.lastPeek + TX_JIT_DELAY < Due(time, CountOf(n)) < time + TX_MAX_ADVANCE_DELAY
  }

  lemma {:induction false} GrownInTime(ts: Timed, n: Node, time: int, ts': Timed)
    requires InTime(ts.pace, ts.sys, ts.lastPeek, ts.clock) && Grown(ts, n, time, ts') && Suffices(ts.pace)
    ensures InTime(ts'.pace, ts'.sys, ts'.lastPeek, ts'.clock)
  {
    forall m | m in ts'.sys.q.nodes ensures IsPending(ts'.sys, m) <==> IsPending(ts.sys, m) {
    }
  }

  lemma {:induction false} GrownLogged(ts: Timed, n: Node, time: int, ts': Timed)
    requires Logged(ts) && SentInTime(ts) && Grown(ts, n, time, ts')
    ensures Logged(ts') && SentInTime(ts')
  {
    assert EntryOf(n, time) == EntryOf(n, ts.lastPeek);
  }

  lemma {:induction false} EnqueueTimed(ts: Timed, e: Event, ts': Timed)
    requires TimedInv(ts) && e.Enqueue? && TimedStep(ts, e, ts')
    ensures TimedInv(ts')
    ensures Result(ts.sys, e).0.Ok? ==> EntryOf(NewNode(ts.sys, e), e.time) !in ts.accepted
  {
    if Result(ts.sys, e).0.Ok? {
      var n := NewNode(ts.sys, e);
      AcceptedAhead(ts.sys, e);
      NewcomerDue(ts.lastPeek, e.time, CountOf(n));
      TimelyHalfRange(ts.pace, ts.sys, ts.lastPeek, ts.clock, n);
      AcceptedInv(ts.sys, e, ts'.sys, Wrap(ts.lastPeek));
      EnqueueInv(ts.sys, e, ts'.sys);
      if ts.sys.pending != -1 {
        PendingKept(ts, e, ts', n);
      }
      GrownMembers(ts.sys.q.nodes, n, ts'.sys.q.nodes);
      GrownInTime(ts, n, e.time, ts');
      GrownLogged(ts, n, e.time, ts');
      NewcomerFresh(ts, n, e.time);
      NewcomerClear(ts, e, n);
      GrownClear(ts.sys.q.nodes, n, ts'.sys.q.nodes);
    }
  }

  lemma {:induction false} GrownClear(s: seq<Node>, n: Node, s': seq<Node>)
    requires Clear(s) && (forall m :: m in s' <==> m == n || m in s)
    requires ClearOf(s, n)
    ensures Clear(s')
  {
  }

  ghost predicate ClearOf(s: seq<Node>, n: Node) {
    forall m :: m in s ==> ClearPair(n, m) && ClearPair(m, n)
  }

  /** A newcomer keeps immediate downlinks and beacons clear of each other: a beacon is accepted with its whole guard, and
      an immediate downlink is placed with it. */
  lemma {:induction false} NewcomerClear(ts: Timed, e: Event, n: Node)
    requires TimedInv(ts) && e.Enqueue? && Result(ts.sys, e).0.Ok? && n == NewNode(ts.sys, e)
    requires WellFormed(n) && Allows(ts.pace, n)
    ensures ClearOf(ts.sys.q.nodes, n)
  {
    var s := ts.sys.q.nodes;
    forall m | m in s ensures ClearPair(n, m) && ClearPair(m, n) {
      var j :| 0 <= j < |s| && s[j] == m;
      if e.t.ClassC? && m.pktType.Beacon? {
        BeforeBeacon(ts, e, j);
      } else if e.t.Beacon? && m.pktType.ClassC? {
        BeaconBehind(s, Wrap(e.time), Result(ts.sys, e).1.value, j);
      }
    }
  }

  lemma {:induction false} BeaconBehind(s: seq<Node>, time: uint32, p: TxPacket, j: nat)
    requires Admit(s, time, p, Beacon) == Ok && AllWellFormed(s) && j < |s|
    ensures Sub(p.countUs, CountOf(s[j])) > TX_JIT_DELAY
  {
    assert FirstBlocker(s, 0, p.countUs, Beacon, PostDelay(p, Beacon)) == |s|;
    assert !Blocks(s[j], p.countUs, Beacon, PostDelay(p, Beacon));
    assert WellFormed(s[j]);
  }

  lemma {:induction false} BeforeBeacon(ts: Timed, e: Event, j: nat)
    requires TimedInv(ts) && e.Enqueue? && e.t.ClassC? && Result(ts.sys, e).0.Ok? && Allows(ts.pace, NewNode(ts.sys, e))
    requires j < |ts.sys.q.nodes| && ts.sys.q.nodes[j].pktType.Beacon?
    ensures Sub(CountOf(ts.sys.q.nodes[j]), CountOf(NewNode(ts.sys, e))) > TX_JIT_DELAY
  {
    var s, p := ts.sys.q.nodes, e.packet.value;
    assert s[j] in s;
    StampedPostDelay(s, Wrap(e.time), p, ClassC);
    PeekRoom(ts, PostDelay(p, ClassC));
    JitSlot.AsapClear(s, Wrap(ts.lastPeek), Wrap(e.time), PostDelay(p, ClassC), j);
  }

  /** Seen from the last peek, the queue lies in order within one counter period. */
  lemma {:induction false} PeekRoom(ts: Timed, post: uint32)
    requires TimedInv(ts) && post <= MAX_POST_DELAY
    ensures JitSlot.Roomy(ts.sys.q.nodes, Wrap(ts.lastPeek), post)
    ensures !AnyLonger(ts.sys.q.nodes, LONG_POST_DELAY) ==> JitSlot.Short(ts.sys.q.nodes, Wrap(ts.lastPeek))
  {
    var s, base := ts.sys.q.nodes, Wrap(ts.lastPeek);
    forall i | 0 <= i < |s| ensures JitSlot.Ahead(s[i], base) < TX_JIT_DELAY + TX_MAX_ADVANCE_DELAY {
      AheadOfPeek(ts, s[i]);
    }
    JitSlot.RoomyFrom(s, base, post);
  }

  lemma {:induction false} AheadOfPeek(ts: Timed, n: Node)
    requires TimedInv(ts) && n in ts.sys.q.nodes
    ensures Sub(CountOf(n), Wrap(ts.lastPeek)) < TX_JIT_DELAY + TX_MAX_ADVANCE_DELAY
  {
  }

  ghost predicate AnyLonger(s: seq<Node>, bound: int) {
    exists i :: 0 <= i < |s| && s[i].postDelay > bound
  }

  lemma {:induction false} PendingKept(ts: Timed, e: Event, ts': Timed, n: Node)
    requires TimedInv(ts) && e.Enqueue? && TimedStep(ts, e, ts') && Benign(ts.sys, e) && ts.sys.pending != -1
    requires Result(ts.sys, e).0.Ok? && n == NewNode(ts.sys, e) && Due(e.time, CountOf(n)) < ts.lastPeek + TWO31
    ensures ts'.sys.pending == ts.sys.pending < |ts'.sys.q.nodes|
    ensures ts'.sys.q.nodes[ts.sys.pending] == ts.sys.q.nodes[ts.sys.pending]
  {
    var x := ts.sys.q.nodes[ts.sys.pending];
    assert x in ts.sys.q.nodes && IsPending(ts.sys, x);
    BetweenKeepsPending(ts.sys, e, ts'.sys, x, ts.lastPeek);
  }

  /** A newcomer is a new entry: it is due later than all handed over, and at another time than all queued. */
  lemma {:induction false} NewcomerFresh(ts: Timed, n: Node, time: int)
    requires TimedInv(ts) && Due(ts.lastPeek, CountOf(n)) == Due(time, CountOf(n)) > ts.lastPeek + TX_JIT_DELAY
    requires Distinct(ts.sys.q.nodes + [n], CountOf)
    ensures EntryOf(n, time) !in ts.accepted
  {
    var s := ts.sys.q.nodes;
    forall i | 0 <= i < |s| ensures s[i] != n {
      assert (s + [n])[i] == s[i] && (s + [n])[|s|] == n;
    }
  }

  /* ---- Peek ---- */

  /** Queued packets are due at or after a timely peek, so their due times look the same from it. */
  lemma {:induction false} DueFromPeek(ts: Timed, time: int, n: Node)
    requires TimedInv(ts) && Ticks(ts, time) && ts.sys.pending == -1 && n in ts.sys.q.nodes
    ensures Due(time, CountOf(n)) == Due(ts.lastPeek, CountOf(n)) >= ts.lastPeek + Reach(ts.pace, n)
    ensures !Outdated(n, Wrap(time))
  {
    var d := Due(ts.lastPeek, CountOf(n));
    assert !IsPending(ts.sys, n);
    DueUnique(ts.lastPeek, CountOf(n), d);
    DueUnique(time, CountOf(n), d);
  }

  /** Next to the chosen packet, every other one is out of reach of the peek. Only a beacon behind a Class A downlink can be
      close to it, and that downlink has just come into the window. */
  lemma {:induction false} OthersLater(pace: Pace, s: seq<Node>, k: nat, i: nat, lastPeek: int, time: int)
    requires Suffices(pace) && time <= lastPeek + pace.spacing
    requires AllSeparated(s) && AllWellFormed(s) && Clear(s) && k < |s| && i < |s| && i != k && Allows(pace, s[k])
    requires Allows(pace, s[i]) && (s[k].pktType.Beacon? || Due(time, CountOf(s[k])) >= lastPeek + TX_JIT_DELAY)
    requires Sub(CountOf(s[k]), Wrap(time)) <= Sub(CountOf(s[i]), Wrap(time))
    ensures Due(time, CountOf(s[i])) >= time + Reach(pace, s[i])
  {
    var dk, di := Due(time, CountOf(s[k])), Due(time, CountOf(s[i]));
    DueUnique(time, CountOf(s[k]), dk);
    DueUnique(time, CountOf(s[i]), di);
    SeparatedSymmetric(s[k], s[i]);
    assert if k < i then Separated(s[k], s[i]) else Separated(s[i], s[k]);
    SeparatedGap(s[k], s[i], dk, di);
    SubWrap(di, dk);
    assert s[k] in s && s[i] in s && ClearPair(s[k], s[i]);
  }

  /** A timely peek purges nothing. What it chooses is due within TX_JIT_DELAY, and nothing else is due before the next peek
      must come. */
  lemma {:induction false} PeekChooses(ts: Timed, e: Event, ts': Timed)
    requires TimedInv(ts) && e.Peek? && TimedStep(ts, e, ts') && ts.sys.q.nodes != []
    ensures ts'.sys.q == ts.sys.q && ts'.sys.purged == multiset{}
    ensures forall n :: n in ts.sys.q.nodes ==>
              if IsPending(ts'.sys, n) then Due(e.time, CountOf(n)) < e.time + TX_JIT_DELAY
              else Due(e.time, CountOf(n)) >= e.time + Reach(ts.pace, n)
  {
    var s := ts.sys.q.nodes;
    forall j | 0 <= j < |s| ensures !Outdated(s[j], Wrap(e.time)) {
      DueFromPeek(ts, e.time, s[j]);
    }
    JitPeek.PeekClosest(ts.sys.q, Wrap(e.time), ts'.sys.q, ts'.sys.pending);
    forall n | n in s && !IsPending(ts'.sys, n) ensures Due(e.time, CountOf(n)) >= e.time + Reach(ts.pace, n) {
      var i :| 0 <= i < |s| && s[i] == n;
      var k := ts'.sys.pending;
      if k != -1 {
        assert s[k] in s;
        DueFromPeek(ts, e.time, s[k]);
        OthersLater(ts.pace, s, k, i, ts.lastPeek, e.time);
      }
    }
  }

  lemma {:induction false} PeekTimed(ts: Timed, e: Event, ts': Timed)
    requires TimedInv(ts) && e.Peek? && TimedStep(ts, e, ts')
    ensures TimedInv(ts')
  {
    PeekInv(ts.sys, e, ts'.sys);
    if ts.sys.q.nodes != [] {
      PeekChooses(ts, e, ts');
      forall n | n in ts.sys.q.nodes ensures Due(e.time, CountOf(n)) == Due(ts.lastPeek, CountOf(n)) {
        DueFromPeek(ts, e.time, n);
      }
    }
  }

  /* ---- Dequeue ---- */

  lemma {:induction false} RemovedMembers(s: seq<Node>, k: nat, n: Node)
    requires Distinct(s, CountOf) && k < |s|
    ensures n in s[..k] + s[k+1..] <==> n in s && n != s[k]
  {
    var t := s[..k] + s[k+1..];
    if n in t {
      var j :| 0 <= j < |t| && t[j] == n;
      var i := if j < k then j else j + 1;
      assert s[i] == n;
    }
    if n in s && n != s[k] {
      var i :| 0 <= i < |s| && s[i] == n;
      assert t[if i < k then i else i - 1] == n;
    }
  }

  /** The queue without the chosen packet, which is logged as handed over. */
  ghost predicate Shrunk(ts: Timed, x: Node, ts': Timed) {
    && IsPending(ts.sys, x) && ts'.sys.pending == -1
    && ts' == ts.(sys := ts'.sys, sent := ts.sent[EntryOf(x, ts.lastPeek) := ts.lastPeek])
    && forall n :: n in ts'.sys.q.nodes <==> n in ts.sys.q.nodes && n != x
  }

  lemma {:induction false} ShrunkInTime(ts: Timed, x: Node, ts': Timed)
    requires InTime(ts.pace, ts.sys, ts.lastPeek, ts.clock) && Clear(ts.sys.q.nodes) && Shrunk(ts, x, ts')
    ensures InTime(ts'.pace, ts'.sys, ts'.lastPeek, ts'.clock) && Clear(ts'.sys.q.nodes)
  {
  }

  /** The chosen packet is due before every other one. */
  lemma {:induction false} ChosenFirst(ts: Timed, x: Node, n: Node)
    requires InTime(ts.pace, ts.sys, ts.lastPeek, ts.clock) && QueueOk(ts.sys.q.nodes)
    requires IsPending(ts.sys, x) && n in ts.sys.q.nodes && n != x
    ensures Due(ts.lastPeek, CountOf(x)) < Due(ts.lastPeek, CountOf(n))
  {
  }

  lemma {:induction false} ShrunkLogged(ts: Timed, x: Node, ts': Timed)
    requires TimedInv(ts) && Shrunk(ts, x, ts')
    ensures Logged(ts') && SentInTime(ts') && EntryOf(x, ts.lastPeek) !in ts.sent
  {
    assert x in ts.sys.q.nodes;
    forall n | n in ts'.sys.q.nodes ensures Due(ts.lastPeek, CountOf(x)) < Due(ts.lastPeek, CountOf(n)) {
      ChosenFirst(ts, x, n);
    }
  }

  lemma {:induction false} DequeueTimed(ts: Timed, e: Event, ts': Timed)
    requires TimedInv(ts) && e.Dequeue? && TimedStep(ts, e, ts')
    ensures TimedInv(ts')
    ensures EntryOf(ts.sys.q.nodes[ts.sys.pending], ts.lastPeek) !in ts.sent
  {
    var s, k := ts.sys.q.nodes, ts.sys.pending;
    var x := s[k];
    assert x in s && IsPending(ts.sys, x);
    DequeueInv(ts.sys, e, ts'.sys);
    RemovedOk(ts.sys.q, k, ts'.sys.q);
    SeparatedDistinct(s);
    forall n ensures n in ts'.sys.q.nodes <==> n in s && n != x {
      RemovedMembers(s, k, n);
    }
    ShrunkInTime(ts, x, ts');
    ShrunkLogged(ts, x, ts');
  }

  /* ---- Whole runs ---- */

  lemma {:induction false} TimedStepInv(ts: Timed, e: Event, ts': Timed)
    requires TimedInv(ts) && TimedStep(ts, e, ts')
    ensures TimedInv(ts')
  {
    match e
    case StartCycle =>
    case Enqueue(_, _, _) => EnqueueTimed(ts, e, ts');
    case Peek(_) => PeekTimed(ts, e, ts');
    case Dequeue => DequeueTimed(ts, e, ts');
  }

  lemma {:induction false} TimedRunInv(states: seq<Timed>, events: seq<Event>, now: int, pace: Pace, k: nat)
    requires TimedRun(states, events, now, pace) && Suffices(pace) && k < |states|
    ensures TimedInv(states[k]) && states[k].pace == pace
  {
    Runs.Invariant(states, events, Start(now, pace), TimedStep, (ts: Timed) => ts.pace == pace, k);
    forall ts, e, ts' | TimedInv(ts) && TimedStep(ts, e, ts') ensures TimedInv(ts') {
      TimedStepInv(ts, e, ts');
    }
    Runs.Invariant(states, events, Start(now, pace), TimedStep, TimedInv, k);
  }

  /** No packet is ever purged. Every accepted packet is either still queued or was handed over, by a peek at or before
      its due time and less than TX_JIT_DELAY ahead of it; and once a peek reaches that window, and its dequeue is done,
      the packet has been handed over. */
  lemma {:induction false} EveryPacketInTime(states: seq<Timed>, events: seq<Event>, now: int, pace: Pace, k: nat, x: Entry)
    requires TimedRun(states, events, now, pace) && Suffices(pace) && k < |states|
    ensures states[k].sys.purged == multiset{}
    ensures x in states[k].accepted ==>
              (x in states[k].sent <==> !(x.node in states[k].sys.q.nodes && x == EntryOf(x.node, states[k].lastPeek)))
    ensures x in states[k].sent ==>
              x in states[k].accepted && states[k].sent[x] <= x.due < states[k].sent[x] + TX_JIT_DELAY
    ensures x in states[k].accepted && states[k].sys.pending == -1 && x.due < states[k].lastPeek + Reach(pace, x.node) ==>
              x in states[k].sent
  {
    TimedRunInv(states, events, now, pace, k);
  }

  /** Exactly once: every acceptance is a new entry, and every dequeue hands over an entry not handed over before. */
  lemma {:induction false} HandedOverOnce(states: seq<Timed>, events: seq<Event>, now: int, pace: Pace, k: nat)
    requires TimedRun(states, events, now, pace) && Suffices(pace) && k < |events|
    ensures events[k].Enqueue? && Result(states[k].sys, events[k]).0.Ok? ==>
              EntryOf(NewNode(states[k].sys, events[k]), events[k].time) !in states[k].accepted
    ensures events[k].Dequeue? ==>
              exists x :: x in states[k].accepted && x !in states[k].sent
                          && states[k + 1].sent == states[k].sent[x := states[k].lastPeek]
  {
    TimedRunInv(states, events, now, pace, k);
    var e := events[k];
    Runs.StepAt(states, events, Start(now, pace), TimedStep, k);
    if e.Enqueue? {
      EnqueueTimed(states[k], e, states[k + 1]);
    } else if e.Dequeue? {
      DequeueTimed(states[k], e, states[k + 1]);
      var n := states[k].sys.q.nodes[states[k].sys.pending];
      assert n in states[k].sys.q.nodes;
      assert EntryOf(n, states[k].lastPeek) in states[k].accepted;
    }
  }

  /** When an immediate downlink is refused in a timely run, although the queue has a free place and no dequeue is
      outstanding: exactly when ASAP and every gap are taken, and the place behind the last packet reaches around the
      counter to the first one or wraps to at most 42.5 ms ahead. */
  lemma {:induction false} ImmediateAcceptedIff(
    states: seq<Timed>, events: seq<Event>, now: int, pace: Pace, k: nat, time: int, p: TxPacket)
    requires TimedRun(states, events, now, pace) && Suffices(pace) && k < |states|
    requires Ticks(states[k], time) && states[k].sys.pending == -1 && |states[k].sys.q.nodes| < JIT_QUEUE_MAX
    requires PostDelay(p, ClassC) <= MAX_POST_DELAY
    ensures var s, post := states[k].sys.q.nodes, PostDelay(p, ClassC);
            EnqueueResult(s, Wrap(time), Some(p), ClassC).0 == Ok <==>
            !JitSlot.NoRoom(s, Wrap(time), post) && !JitSlot.LateWrap(s, Wrap(time), post)
  {
    TimedRunInv(states, events, now, pace, k);
    TimelyRoom(states[k], time, PostDelay(p, ClassC));
    JitSlot.ClassCAcceptedIff(states[k].sys.q.nodes, Wrap(time), p);
  }

  /** So none is refused while its reservation and that of any queued packet together last no longer than 3770 s. It is
      given a slot 512 s or more ahead, which is beyond what a peek keeps, if and only if nothing closer is free. */
  lemma {:induction false} ImmediateAccepted(
    states: seq<Timed>, events: seq<Event>, now: int, pace: Pace, k: nat, time: int, p: TxPacket)
    requires TimedRun(states, events, now, pace) && Suffices(pace) && k < |states|
    requires Ticks(states[k], time) && states[k].sys.pending == -1 && |states[k].sys.q.nodes| < JIT_QUEUE_MAX
    requires !AnyLonger(states[k].sys.q.nodes, LONG_POST_DELAY - PostDelay(p, ClassC))
    ensures var s := states[k].sys.q.nodes;
            var (err, out) := EnqueueResult(s, Wrap(time), Some(p), ClassC);
            && err == Ok
            && (Sub(out.value.countUs, Wrap(time)) >= TX_MAX_ADVANCE_DELAY <==>
                JitSlot.NoneBefore(s, Wrap(time), PostDelay(p, ClassC), TX_MAX_ADVANCE_DELAY))
  {
    var s := states[k].sys.q.nodes;
    if s != [] {
      TimedRunInv(states, events, now, pace, k);
      assert s[0] in s;
      TimelyRoom(states[k], time, PostDelay(p, ClassC));
      forall i | 0 <= i < |s|
        ensures JitSlot.Ahead(s[i], Wrap(time)) + s[i].postDelay + PostDelay(p, ClassC) + 200_000 <= TWO32
      {
        DueFromPeek(states[k], time, s[i]);
      }
      JitSlot.ClassCAccepted(s, Wrap(time), p);
      JitSlot.SlotBeyondIff(s, Wrap(time), PostDelay(p, ClassC), TX_MAX_ADVANCE_DELAY);
    }
  }

  /** In a timely run an accepted immediate downlink is still queued after a peek with the same clock reading, if and only
      if something less than 512 s ahead was free, the place behind the last packet included when it wraps. */
  lemma {:induction false} ImmediateStaysIff(
    states: seq<Timed>, events: seq<Event>, now: int, pace: Pace, k: nat, time: int, p: TxPacket,
    packet': Option<TxPacket>, q': Queue, q'': Queue, idx: int)
    requires TimedRun(states, events, now, pace) && Suffices(pace) && k < |states|
    requires Ticks(states[k], time) && states[k].sys.pending == -1 && PostDelay(p, ClassC) <= MAX_POST_DELAY
    requires EnqueueRel(states[k].sys.q, Wrap(time), Some(p), ClassC, Ok, packet', q')
    requires PeekLoop(q', 0, -1, Wrap(time), q'', idx)
    ensures NodeFor(packet'.value, ClassC) in q''.nodes <==>
            || !JitSlot.NoneBefore(states[k].sys.q.nodes, Wrap(time), PostDelay(p, ClassC), TX_MAX_ADVANCE_DELAY)
            || JitSlot.ComesAround(states[k].sys.q.nodes, Wrap(time), PostDelay(p, ClassC), TX_MAX_ADVANCE_DELAY)
  {
    TimedRunInv(states, events, now, pace, k);
    TimelyRoom(states[k], time, PostDelay(p, ClassC));
    TimelyPlausible(states[k], time);
    JitAdvance.ImmediateKeptIff(states[k].sys.q, Wrap(time), p, packet', q', q'', idx);
  }

  lemma {:induction false} TimelyPlausible(ts: Timed, time: int)
    requires TimedInv(ts) && Ticks(ts, time) && ts.sys.pending == -1
    ensures Ordered(ts.sys.q.nodes, CountOf) && JitPeek.Plausible(ts.sys.q.nodes, Wrap(time))
  {
    var s := ts.sys.q.nodes;
    forall i | 0 <= i < |s| ensures !Outdated(s[i], Wrap(time)) {
      DueFromPeek(ts, time, s[i]);
    }
  }

  lemma {:induction false} TimelyRoom(ts: Timed, time: int, post: uint32)
    requires TimedInv(ts) && Ticks(ts, time) && ts.sys.pending == -1 && post <= MAX_POST_DELAY
    ensures JitSlot.Roomy(ts.sys.q.nodes, Wrap(time), post)
  {
    TimelyPlausible(ts, time);
    JitSlot.RoomyFrom(ts.sys.q.nodes, Wrap(time), post);
  }

  /* ---- Legal packets ---- */

  /** Only packets with a legal datarate are enqueued. */
  ghost predicate LegalRun(states: seq<Timed>, events: seq<Event>, now: int, pace: Pace) {
    && TimedRun(states, events, now, pace)
    && forall i :: 0 <= i < |events| ==> LegalEvent(events[i])
  }

  predicate LegalEvent(e: Event) {
    e.Enqueue? && e.packet.Some? ==> Legal(e.packet.value)
  }

  ghost predicate AllShort(s: Sys) {
    forall n :: n in s.accepted ==> n.postDelay <= LONG_POST_DELAY
  }

  lemma {:induction false} LegalStepShort(s: Sys, e: Event, s': Sys)
    requires AllShort(s) && Step(s, e, s') && LegalEvent(e)
    ensures AllShort(s')
  {
    if e.Enqueue? && Result(s, e).0.Ok? {
      LegalWellFormed(Result(s, e).1.value, e.t);
      forall n | n in s'.accepted ensures n.postDelay <= LONG_POST_DELAY {
        assert n in s.accepted || n == NewNode(s, e);
      }
    }
  }

  lemma {:induction false} LegalAccepted(states: seq<Timed>, events: seq<Event>, now: int, pace: Pace, k: nat)
    requires LegalRun(states, events, now, pace) && k < |states|
    ensures AllShort(states[k].sys)
  {
    if k > 0 {
      LegalAccepted(states, events, now, pace, k - 1);
      Runs.StepAt(states, events, Start(now, pace), TimedStep, k - 1);
      assert LegalEvent(events[k - 1]);
      LegalStepShort(states[k - 1].sys, events[k - 1], states[k].sys);
    }
  }

  /** In a run of legal packets no reservation is as long as the lemmas about immediate downlinks exclude. */
  lemma {:induction false} LegalRunShort(states: seq<Timed>, events: seq<Event>, now: int, pace: Pace, k: nat)
    requires LegalRun(states, events, now, pace) && Suffices(pace) && k < |states|
    ensures !AnyLonger(states[k].sys.q.nodes, LONG_POST_DELAY)
  {
    LegalAccepted(states, events, now, pace, k);
    TimedRunInv(states, events, now, pace, k);
    var s := states[k].sys;
    forall i | 0 <= i < |s.q.nodes| ensures s.q.nodes[i].postDelay <= LONG_POST_DELAY {
      assert s.q.nodes[i] in multiset(s.q.nodes);
      assert s.q.nodes[i] in s.accepted;
    }
  }
}
