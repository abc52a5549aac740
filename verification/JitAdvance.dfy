/** How far ahead a packet may be: `jit_enqueue` and `jit_peek` draw the line differently, so some packets are accepted
    and then purged. */
module JitAdvance {
  import opened Options
  import opened Word32
  import opened CountSort
  import opened TimeOnAir
  import opened JitQueue
  import opened JitPeek
  import opened JitPurge
  import opened JitSlot

  /** Acceptance limits only Class A and B downlinks, to 512 s, and a peek limits every packet to less: a Class A or B
      packet that was just accepted is outdated if and only if it lies exactly 512 s ahead, a Class C downlink or a beacon
      wherever it lies at least that far ahead. */
  lemma {:induction false} AcceptedOutdatedIff(s: seq<Node>, time: uint32, p: TxPacket, t: PktType)
    requires Admit(s, time, p, t) == Ok
    ensures t.ClassA? || t.ClassB? ==>
              (Outdated(NodeFor(p, t), time) <==> Sub(p.countUs, time) == TX_MAX_ADVANCE_DELAY)
    ensures t.ClassC? || t.Beacon? ==>
              (Outdated(NodeFor(p, t), time) <==> Sub(p.countUs, time) >= TX_MAX_ADVANCE_DELAY)
  {
  }

  /** The scan of a queue whose only outdated packet is at index `j`: that packet is still ahead, or gone already. */
  ghost predicate Hunting(q: Queue, j: nat, s: seq<Node>, p: Queue, i: nat) {
    (p == q && i <= j) || p.nodes == s
  }

  /** Wherever the sort has put it, a single outdated packet is found by the first pass of the scan. */
  lemma {:induction false} OnlyOutdatedGone(q: Queue, j: nat, s: seq<Node>, time: uint32, q': Queue, idx: int)
    requires PeekLoop(q, 0, -1, time, q', idx)
    requires j < |q.nodes| && (forall i :: 0 <= i < |q.nodes| ==> (Outdated(q.nodes[i], time) <==> i == j))
    requires Ordered(s, CountOf) && Plausible(s, time) && multiset(q.nodes) == multiset(s) + multiset{q.nodes[j]}
    ensures q'.nodes == s
  {
    var inv := (p: Queue, i: nat, best: int) => Hunting(q, j, s, p, i);
    forall p: Queue, i: nat, best: int, r: Queue |
      inv(p, i, best) && i < |p.nodes| && Outdated(p.nodes[i], time) && Removed(p, i, r)
      ensures inv(r, 1, best)
    {
      if p == q && i <= j {
        RemovedIsRest(q, j, s, r);
      }
    }
    var i', best' := ScanInduction(q, 0, -1, time, q', idx, inv);
  }

  lemma {:induction false} RemovedIsRest(q: Queue, j: nat, s: seq<Node>, r: Queue)
    requires j < |q.nodes| && Removed(q, j, r)
    requires Ordered(s, CountOf) && multiset(q.nodes) == multiset(s) + multiset{q.nodes[j]}
    ensures r.nodes == s
  {
    SwapRemoveMultiset(q.nodes, j);
    SortSubOrders(r.nodes, SwapRemove(q.nodes, j), s, CountOf);
    OrderedUnique(r.nodes, s, CountOf);
  }

  lemma {:induction false} OnlyNewcomer(s: seq<Node>, n: Node, s': seq<Node>, time: uint32) returns (j: nat)
    requires Plausible(s, time) && Outdated(n, time) && multiset(s') == multiset(s) + multiset{n}
    ensures j < |s'| && s'[j] == n
    ensures forall i :: 0 <= i < |s'| ==> (Outdated(s'[i], time) <==> i == j)
  {
    assert n in multiset(s');
    j :| 0 <= j < |s'| && s'[j] == n;
    DeleteMultiset(s', j);
    var rest := s'[..j] + s'[j + 1..];
    assert multiset(rest) == multiset(s);
    forall i | 0 <= i < |s'| && i != j ensures !Outdated(s'[i], time) {
      assert s'[i] == rest[if i < j then i else i - 1];
      assert s'[i] in multiset(s);
    }
  }

  /** Grown by one packet, a queue without outdated packets is given back without it by a peek, if it is outdated. */
  lemma {:induction false} OutdatedNewcomerGone(
    s: seq<Node>, n: Node, q: Queue, time: uint32, q': Queue, idx: int)
    requires Ordered(s, CountOf) && Plausible(s, time) && Outdated(n, time)
    requires multiset(q.nodes) == multiset(s) + multiset{n} && PeekLoop(q, 0, -1, time, q', idx)
    ensures q'.nodes == s
  {
    var j := OnlyNewcomer(s, n, q.nodes, time);
    OnlyOutdatedGone(q, j, s, time, q', idx);
  }

  lemma {:induction false} PlausibleNewcomerStays(
    s: seq<Node>, n: Node, q: Queue, time: uint32, q': Queue, idx: int)
    requires Plausible(s, time) && !Outdated(n, time)
    requires multiset(q.nodes) == multiset(s) + multiset{n} && PeekLoop(q, 0, -1, time, q', idx)
    ensures q' == q && n in q'.nodes
  {
    assert n in multiset(q.nodes);
    forall j | 0 <= j < |q.nodes| ensures !Outdated(q.nodes[j], time) {
      assert q.nodes[j] in multiset(s) + multiset{n};
      assert q.nodes[j] in s || q.nodes[j] == n;
    }
    PeekClosest(q, time, q', idx);
  }

  /** The law for every type of packet and every timestamp: accepted by an ordered queue without outdated packets, it is
      still there after a peek with the same clock reading if and only if it lies less than 512 s ahead. Otherwise the
      peek gives the queue back as it was before the packet came. */
  lemma {:induction false} EnqueueThenPeek(
    q: Queue, time: uint32, p: TxPacket, t: PktType, packet': Option<TxPacket>, q': Queue, q'': Queue, idx: int)
    requires Ordered(q.nodes, CountOf) && Plausible(q.nodes, time)
    requires EnqueueRel(q, time, Some(p), t, Ok, packet', q') && PeekLoop(q', 0, -1, time, q'', idx)
    ensures if Sub(packet'.value.countUs, time) >= TX_MAX_ADVANCE_DELAY then q''.nodes == q.nodes
            else q'' == q' && NodeFor(packet'.value, t) in q''.nodes
  {
    var n := NodeFor(packet'.value, t);
    assert multiset(q.nodes + [n]) == multiset(q.nodes) + multiset{n};
    if Outdated(n, time) {
      OutdatedNewcomerGone(q.nodes, n, q', time, q'', idx);
    } else {
      PlausibleNewcomerStays(q.nodes, n, q', time, q'', idx);
    }
  }

  /** A beacon at least 512 s ahead is accepted by an empty queue, however far it is, and gone after such a peek. */
  lemma {:induction false} FarBeaconLost(
    time: uint32, p: TxPacket, err: JitError, packet': Option<TxPacket>, q': Queue, q'': Queue, idx: int)
    requires Sub(p.countUs, time) >= TX_MAX_ADVANCE_DELAY
    requires EnqueueRel(Queue([], 0), time, Some(p), Beacon, err, packet', q') && PeekLoop(q', 0, -1, time, q'', idx)
    ensures err == Ok && packet' == Some(p) && q''.nodes == []
  {
    assert EnqueueResult([], time, Some(p), Beacon) == (Ok, Some(p));
    EnqueueThenPeek(Queue([], 0), time, p, Beacon, packet', q', q'', idx);
  }

  /** An empty queue accepts a Class A or B packet exactly 512 s ahead. */
  lemma {:induction false} BoundaryPacketAccepted(time: uint32, p: TxPacket, t: PktType)
    requires (t.ClassA? || t.ClassB?) && Sub(p.countUs, time) == TX_MAX_ADVANCE_DELAY
    ensures EnqueueResult([], time, Some(p), t) == (Ok, Some(p))
  {
  }

  /** For an immediate downlink the condition is one on the queue before the call: it is accepted and then lost if and only
      if ASAP is taken, so is everything behind a queued packet and less than 512 s ahead, and the place behind the last
      packet does not come around the counter to less. */
  lemma {:induction false} ImmediateKeptIff(
    q: Queue, time: uint32, p: TxPacket, packet': Option<TxPacket>, q': Queue, q'': Queue, idx: int)
    requires Ordered(q.nodes, CountOf) && Plausible(q.nodes, time) && Roomy(q.nodes, time, PostDelay(p, ClassC))
    requires EnqueueRel(q, time, Some(p), ClassC, Ok, packet', q') && PeekLoop(q', 0, -1, time, q'', idx)
    ensures NodeFor(packet'.value, ClassC) in q''.nodes <==>
            || !NoneBefore(q.nodes, time, PostDelay(p, ClassC), TX_MAX_ADVANCE_DELAY)
            || ComesAround(q.nodes, time, PostDelay(p, ClassC), TX_MAX_ADVANCE_DELAY)
  {
    SlotBeyondIff(q.nodes, time, PostDelay(p, ClassC), TX_MAX_ADVANCE_DELAY);
    EnqueueThenPeek(q, time, p, ClassC, packet', q', q'', idx);
    StampedIsAsap(q.nodes, time, p, packet');
  }

  lemma {:induction false} StampedIsAsap(s: seq<Node>, time: uint32, p: TxPacket, packet': Option<TxPacket>)
    requires EnqueueResult(s, time, Some(p), ClassC) == (Ok, packet')
    ensures packet'.value.countUs == AsapCount(s, time, PreDelay(ClassC), PostDelay(p, ClassC))
  {
  }

  /** For instance behind a single downlink that ends more than 512 s ahead. */
  lemma {:induction false} FarSlotLost(
    n: Node, time: uint32, p: TxPacket, packet': Option<TxPacket>, q': Queue, q'': Queue, idx: int)
    requires Roomy([n], time, PostDelay(p, ClassC)) && n.pktType.ClassC? && !Outdated(n, time)
    requires CollidesWith(Add(time, 2 * TX_JIT_DELAY), PreDelay(ClassC), PostDelay(p, ClassC), n)
    requires TX_MAX_ADVANCE_DELAY <= Ahead(n, time) + n.postDelay < TWO32 - 3_200_000
    requires n.postDelay + PostDelay(p, ClassC) + 125_000 < TWO32
    requires EnqueueRel(Queue([n], 0), time, Some(p), ClassC, EnqueueResult([n], time, Some(p), ClassC).0, packet', q')
    requires PeekLoop(q', 0, -1, time, q'', idx)
    ensures EnqueueResult([n], time, Some(p), ClassC).0 == Ok && q''.nodes == [n]
  {
    OneQueuedIff(n, time, p);
    SingleBeyond(n, time, PostDelay(p, ClassC));
    StampedIsAsap([n], time, p, packet');
    EnqueueThenPeek(Queue([n], 0), time, p, ClassC, packet', q', q'', idx);
  }

  lemma {:induction false} SingleBeyond(n: Node, time: uint32, post: uint32)
    requires Roomy([n], time, post) && CollidesWith(Add(time, 2 * TX_JIT_DELAY), PreDelay(ClassC), post, n)
    requires TX_MAX_ADVANCE_DELAY <= Ahead(n, time) + n.postDelay < TWO32 - 3_200_000
    ensures Sub(AsapCount([n], time, PreDelay(ClassC), post), time) >= TX_MAX_ADVANCE_DELAY
  {
    assert CollidesWith(Add(time, 2 * TX_JIT_DELAY), PreDelay(ClassC), post, [n][0]);
    SlotBeyondIff([n], time, post, TX_MAX_ADVANCE_DELAY);
  }

  /* ---- Where the sort puts a far packet ---- */

  /** A packet behind all others is sorted in last. */
  lemma {:induction false} AppendedLast(s: seq<Node>, n: Node, s': seq<Node>, base: uint32)
    requires Ordered(s, CountOf) && HalfRange(s + [n], CountOf, base)
    requires forall i :: 0 <= i < |s| ==> After(CountOf(n), CountOf(s[i]))
    requires IsSortOf(s', s + [n], CountOf)
    ensures s' == s + [n] && Ordered(s', CountOf)
  {
    var u := s + [n];
    assert Ordered(u, CountOf) by {
      InsertedOrdered(s, n, |s|, CountOf);
      assert s[..|s|] + [n] + s[|s|..] == u;
    }
    OrderedIffSorted(u, CountOf, base);
    SortOrders(s', u, CountOf, base);
    OrderedUnique(s', u, CountOf);
  }

  lemma {:induction false} SplitLast(s: seq<Node>, n: Node, time: uint32) returns (m: nat)
    requires Plausible(s, time) && Outdated(n, time)
    ensures m <= 1 && Split(s + [n], m, |s|, time) && Left(s + [n], m, |s|) == s
    ensures HandedOver(s + [n], m, |s|, time) == if s != [] && IsDue(s[0], time) then 0 else -1
  {
    m := if s == [] then 1 else 0;
    assert (s + [n])[..|s|] == s;
  }

  lemma {:induction false} DropsLast(s: seq<Node>, n: Node, q: Queue, time: uint32, q': Queue, idx: int)
    requires Plausible(s, time) && Outdated(n, time) && q.nodes == s + [n] && Ordered(q.nodes, CountOf)
    requires PeekLoop(q, 0, -1, time, q', idx)
    ensures q'.nodes == s && idx == if s != [] && IsDue(s[0], time) then 0 else -1
  {
    var m := SplitLast(s, n, time);
    PeekExactly(q, m, |s|, time, q', idx);
  }

  /** Between 512 s and half the counter range ahead, the lost packet was the last one, and the peek hands over what it
      would have handed over without it. */
  lemma {:induction false} FarPacketLost(
    q: Queue, time: uint32, p: TxPacket, t: PktType, packet': Option<TxPacket>, q': Queue, q'': Queue, idx: int)
    requires Ordered(q.nodes, CountOf) && Plausible(q.nodes, time)
    requires EnqueueRel(q, time, Some(p), t, Ok, packet', q') && PeekLoop(q', 0, -1, time, q'', idx)
    requires TX_MAX_ADVANCE_DELAY <= Sub(packet'.value.countUs, time) < TWO31
    ensures q'.nodes == q.nodes + [NodeFor(packet'.value, t)] && q''.nodes == q.nodes
    ensures idx == if q.nodes != [] && IsDue(q.nodes[0], time) then 0 else -1
  {
    var n := NodeFor(packet'.value, t);
    AppendedLast(q.nodes, n, q'.nodes, time);
    DropsLast(q.nodes, n, q', time, q'', idx);
  }

  /* ---- The beacons of one cycle ---- */

  /** Every queued beacon lies at least 6 s, the least period that the configuration allows, before the new one. */
  ghost predicate PeriodBehind(s: seq<Node>, c: uint32) {
    forall i :: 0 <= i < |s| ==>
      && s[i].preDelay == PreDelay(Beacon) && s[i].postDelay == BEACON_RESERVED
      && 6_000_000 <= Sub(c, CountOf(s[i])) < TWO31
  }

  /** Such a beacon is accepted, and sorted in last. */
  lemma {:induction false} BeaconFits(
    q: Queue, time: uint32, p: TxPacket, err: JitError, packet': Option<TxPacket>, q': Queue)
    requires |q.nodes| < JIT_QUEUE_MAX && Ordered(q.nodes, CountOf) && HalfRange(q.nodes, CountOf, time)
    requires TX_START_DELAY + TX_MARGIN_DELAY + TX_JIT_DELAY < Sub(p.countUs, time) < TWO31
    requires PeriodBehind(q.nodes, p.countUs) && EnqueueRel(q, time, Some(p), Beacon, err, packet', q')
    ensures err == Ok && q'.nodes == q.nodes + [NodeFor(p, Beacon)]
    ensures Ordered(q'.nodes, CountOf) && HalfRange(q'.nodes, CountOf, time)
  {
    forall i | 0 <= i < |q.nodes| ensures !Blocks(q.nodes[i], p.countUs, Beacon, BEACON_RESERVED) {
    }
    assert EnqueueResult(q.nodes, time, Some(p), Beacon) == (Ok, Some(p));
    AppendedLast(q.nodes, NodeFor(p, Beacon), q'.nodes, time);
  }

  /** The beacons of a cycle so far, the first `d` ahead and the others a period apart. */
  ghost predicate Cycle(s: seq<Node>, time: uint32, d: nat, period: nat) {
    && Ordered(s, CountOf) && HalfRange(s, CountOf, time)
    && forall i :: 0 <= i < |s| ==>
         && s[i].preDelay == PreDelay(Beacon) && s[i].postDelay == BEACON_RESERVED
         && Sub(CountOf(s[i]), time) == d + i * period
  }

  lemma {:induction false} NextBeacon(
    q: Queue, time: uint32, d: nat, period: nat, p: TxPacket, err: JitError, packet': Option<TxPacket>, q': Queue)
    requires |q.nodes| < JIT_QUEUE_MAX && Cycle(q.nodes, time, d, period)
    requires TX_START_DELAY + TX_MARGIN_DELAY + TX_JIT_DELAY < d && 6_000_000 <= period
    requires Sub(p.countUs, time) == d + |q.nodes| * period < TWO31
    requires EnqueueRel(q, time, Some(p), Beacon, err, packet', q')
    ensures err == Ok && q'.nodes == q.nodes + [NodeFor(p, Beacon)] && Cycle(q'.nodes, time, d, period)
  {
    CycleBehind(q.nodes, time, d, period, p.countUs);
    BeaconFits(q, time, p, err, packet', q');
    CycleGrows(q.nodes, NodeFor(p, Beacon), time, d, period);
  }

  lemma {:induction false} PeriodsApart(i: nat, n: nat, period: nat)
    requires i < n
    ensures i * period + period <= n * period
  {
    assert n * period == (n - 1) * period + period;
    if i < n - 1 {
      PeriodsApart(i, n - 1, period);
    }
  }

  lemma {:induction false} CycleBehind(s: seq<Node>, time: uint32, d: nat, period: nat, c: uint32)
    requires Cycle(s, time, d, period) && 6_000_000 <= period && Sub(c, time) == d + |s| * period < TWO31
    ensures PeriodBehind(s, c)
  {
    forall i | 0 <= i < |s| ensures 6_000_000 <= Sub(c, CountOf(s[i])) < TWO31 {
      PeriodsApart(i, |s|, period);
      assert Sub(CountOf(s[i]), time) == d + i * period;
    }
  }

  lemma {:induction false} CycleGrows(s: seq<Node>, n: Node, time: uint32, d: nat, period: nat)
    requires Cycle(s, time, d, period) && Ordered(s + [n], CountOf) && HalfRange(s + [n], CountOf, time)
    requires n.preDelay == PreDelay(Beacon) && n.postDelay == BEACON_RESERVED
    requires Sub(CountOf(n), time) == d + |s| * period
    ensures Cycle(s + [n], time, d, period)
  {
  }

  /** Beacon `i` of a cycle is due `i` periods behind the first, and enqueued as such. */
  ghost predicate CycleStep(ps: seq<TxPacket>, time: uint32, d: nat, period: nat, errs: seq<JitError>, qs: seq<Queue>, i: nat)
    requires i < |ps| && |errs| == |ps| && |qs| == |ps| + 1
  {
    && Sub(ps[i].countUs, time) == d + i * period < TWO31
    && EnqueueRel(qs[i], time, Some(ps[i]), Beacon, errs[i], Some(ps[i]), qs[i + 1])
  }

  /** The beacons of a cycle are all accepted, as many as are queued in one go. */
  lemma {:induction false} CycleAccepted(
    ps: seq<TxPacket>, time: uint32, d: nat, period: nat, errs: seq<JitError>, qs: seq<Queue>, k: nat)
    requires k <= |ps| <= JIT_QUEUE_MAX && |errs| == |ps| && |qs| == |ps| + 1 && qs[0].nodes == []
    requires TX_START_DELAY + TX_MARGIN_DELAY + TX_JIT_DELAY < d && 6_000_000 <= period
    requires forall i :: 0 <= i < |ps| ==> CycleStep(ps, time, d, period, errs, qs, i)
    ensures |qs[k].nodes| == k && Cycle(qs[k].nodes, time, d, period)
    ensures forall i :: 0 <= i < k ==> errs[i] == Ok && qs[k].nodes[i] == NodeFor(ps[i], Beacon)
  {
    if k > 0 {
      CycleAccepted(ps, time, d, period, errs, qs, k - 1);
      assert CycleStep(ps, time, d, period, errs, qs, k - 1);
      NextBeacon(qs[k - 1], time, d, period, ps[k - 1], errs[k - 1], Some(ps[k - 1]), qs[k]);
    }
  }

  /** Three beacons, queued as `thread_down` does: a peek with the same clock reading keeps all of them if and only if the
      last one lies less than 512 s ahead. */
  lemma {:induction false} BeaconsKeptIff(q: Queue, time: uint32, d: nat, period: nat, q': Queue, idx: int)
    requires |q.nodes| == 3 && Cycle(q.nodes, time, d, period) && PeekLoop(q, 0, -1, time, q', idx)
    ensures q'.nodes == q.nodes <==> d + 2 * period < TX_MAX_ADVANCE_DELAY
  {
    assert Sub(CountOf(q.nodes[1]), time) == d + 1 * period;
    assert Sub(CountOf(q.nodes[2]), time) == d + 2 * period;
    var m, n := SplitExists(q.nodes, time);
    PeekExactly(q, m, n, time, q', idx);
    assert |q'.nodes| == (if m >= 2 then 1 else 0) + n;
    assert m == 0 && n == 3 <==> d + 2 * period < TX_MAX_ADVANCE_DELAY;
  }
}
