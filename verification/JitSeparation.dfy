/** No two queued packets collide: what the wrapping collision test means on true times, and why every queue operation
    keeps the queue separated. */
module JitSeparation {
  import opened Word32
  import opened CountSort
  import opened TimeOnAir
  import opened JitQueue

  /** The longest reservation for which no sum of delays in the collision test wraps. */
  const MAX_POST_DELAY: uint32 := TWO32 - 1 - (TX_START_DELAY + BEACON_GUARD + TX_JIT_DELAY) - TX_MARGIN_DELAY

  /** The collision test on counter values is the plain statement on true times: the two reserved intervals are at most
      TX_MARGIN_DELAY apart. */
  lemma {:induction false} CollidesExactly(t1: int, pre1: uint32, post1: uint32, t2: int, pre2: uint32, post2: uint32)
    requires -TWO31 < t1 - t2 < TWO31
    requires pre1 + post2 + TX_MARGIN_DELAY < TWO31 && pre2 + post1 + TX_MARGIN_DELAY < TWO31
    ensures Collides(Wrap(t1), pre1, post1, Wrap(t2), pre2, post2) <==>
              && t1 - pre1 <= t2 + post2 + TX_MARGIN_DELAY
              && t2 - pre2 <= t1 + post1 + TX_MARGIN_DELAY
  {
    if t1 >= t2 {
      SubWrap(t1, t2);
    } else {
      SubWrap(t2, t1);
    }
  }

  /** Two packets can share the queue: they do not collide, a beacon counting only TX_START_DELAY as its pre-delay
      against a Class A or C downlink. */
  predicate Separated(a: Node, b: Node) {
    !Collides(CountOf(a), TargetPreDelay(b.pktType, a), a.postDelay,
              CountOf(b), TargetPreDelay(a.pktType, b), b.postDelay)
  }

  ghost predicate AllSeparated(s: seq<Node>) {
    forall i, j :: 0 <= i < j < |s| ==> Separated(s[i], s[j])
  }

  /** A node as `jit_enqueue` builds it, with a reservation that cannot wrap. */
  predicate WellFormed(n: Node) {
    && n.preDelay == PreDelay(n.pktType)
    && n.postDelay <= MAX_POST_DELAY
    && (n.pktType.Beacon? ==> n.postDelay == BEACON_RESERVED)
  }

  ghost predicate AllWellFormed(s: seq<Node>) {
    forall i :: 0 <= i < |s| ==> WellFormed(s[i])
  }

  /** Every LoRa packet, and every beacon, is well formed. */
  lemma {:induction false} LoraWellFormed(p: TxPacket, t: PktType)
    requires t.Beacon? || p.modulation == MOD_LORA
    ensures WellFormed(NodeFor(p, t))
  {
    if !t.Beacon? {
      LoraPostDelay(p);
    }
  }

  /** So is every packet with a legal datarate. */
  lemma {:induction false} LegalWellFormed(p: TxPacket, t: PktType)
    requires t.Beacon? || Legal(p)
    ensures WellFormed(NodeFor(p, t)) && PostDelay(p, t) <= 2_180_001_000
  {
    if !t.Beacon? {
      LegalPostDelay(p);
    }
  }

  /** A packet that no queued node blocks is separated from all of them; in particular a new beacon is checked with its
      whole guard, which is stricter than the pre-delay that counts later. */
  lemma {:induction false} UnblockedSeparated(n: Node, p: TxPacket, t: PktType)
    requires WellFormed(n) && WellFormed(NodeFor(p, t))
    requires !Blocks(n, p.countUs, t, PostDelay(p, t))
    ensures Separated(n, NodeFor(p, t))
  {
    var x := NodeFor(p, t);
    assert TargetPreDelay(n.pktType, x) <= x.preDelay;
  }

  /** The exact reservations for which the wrapped test with the whole beacon guard implies the test with the reduced
      one. Only a slow FSK packet can reserve as much as the excluded lengths, more than 71 minutes. */
  lemma {:induction false} GuardCheckedIff(n: Node)
    requires (n.pktType.ClassA? || n.pktType.ClassC?) && n.preDelay == PreDelay(n.pktType)
    ensures (forall p: TxPacket :: !Blocks(n, p.countUs, Beacon, PostDelay(p, Beacon)) ==>
                                   Separated(n, NodeFor(p, Beacon)))
            <==> !(MAX_POST_DELAY < n.postDelay < TWO32 - TX_START_DELAY - TX_MARGIN_DELAY)
  {
    if MAX_POST_DELAY < n.postDelay < TWO32 - TX_START_DELAY - TX_MARGIN_DELAY {
      var p := ZERO_NODE.pkt.(countUs := Add(CountOf(n), 3_040_000));
      assert !Blocks(n, p.countUs, Beacon, PostDelay(p, Beacon)) && !Separated(n, NodeFor(p, Beacon));
    }
  }

  lemma {:induction false} SeparatedSymmetric(a: Node, b: Node)
    ensures Separated(a, b) == Separated(b, a)
  {
  }

  /** Separated packets carry different timestamps. */
  lemma {:induction false} SeparatedDistinct(s: seq<Node>)
    requires AllSeparated(s)
    ensures Distinct(s, CountOf)
  {
    forall i, j | 0 <= i < j < |s| ensures CountOf(s[i]) != CountOf(s[j]) {
      assert Separated(s[i], s[j]);
    }
  }

  /** Removing packets or reordering them, as dequeues, purges and sorts do, keeps the others separated. */
  lemma {:induction false} SubSeparated(s': seq<Node>, s: seq<Node>)
    requires AllSeparated(s) && multiset(s') <= multiset(s)
    ensures AllSeparated(s')
  {
    forall i, j | 0 <= i < j < |s'| ensures Separated(s'[i], s'[j]) {
      TwoPlaces(s', s, i, j);
      var k, l :| 0 <= k < |s| && 0 <= l < |s| && k != l && s[k] == s'[i] && s[l] == s'[j];
      SeparatedSymmetric(s[k], s[l]);
      assert if k < l then Separated(s[k], s[l]) else Separated(s[l], s[k]);
    }
  }

  lemma {:induction false} SubWellFormed(s': seq<Node>, s: seq<Node>)
    requires AllWellFormed(s) && multiset(s') <= multiset(s)
    ensures AllWellFormed(s')
  {
    forall i | 0 <= i < |s'| ensures WellFormed(s'[i]) {
      assert s'[i] in multiset(s);
    }
  }

  /** An accepted packet fits beside everything queued. */
  lemma {:induction false} AdmittedSeparated(s: seq<Node>, time: uint32, p: TxPacket, t: PktType)
    requires Admit(s, time, p, t) == Ok
    requires AllSeparated(s) && AllWellFormed(s) && WellFormed(NodeFor(p, t))
    ensures AllSeparated(s + [NodeFor(p, t)]) && AllWellFormed(s + [NodeFor(p, t)])
  {
    assert FirstBlocker(s, 0, p.countUs, t, PostDelay(p, t)) == |s|;
    var u := s + [NodeFor(p, t)];
    forall i, j | 0 <= i < j < |u| ensures Separated(u[i], u[j]) {
      if j == |s| {
        UnblockedSeparated(s[i], p, t);
      } else {
        assert u[i] == s[i] && u[j] == s[j];
      }
    }
  }

  /** On true times, a later packet starts its reservation more than TX_MARGIN_DELAY after the earlier one's ends. */
  lemma {:induction false} SeparatedGap(a: Node, b: Node, ta: int, tb: int)
    requires Separated(a, b) && WellFormed(a) && WellFormed(b)
    requires Wrap(ta) == CountOf(a) && Wrap(tb) == CountOf(b)
    requires ta <= tb < ta + TWO32
    ensures tb - ta > TargetPreDelay(a.pktType, b) + a.postDelay + TX_MARGIN_DELAY
  {
    SubWrap(tb, ta);
  }

  /** Emissions of queued LoRa downlinks never overlap: the margin covers the millisecond rounding of the reservation. */
  lemma {:induction false} EmissionsDisjoint(s: seq<Node>, i: nat, j: nat, ti: int, tj: int)
    requires AllSeparated(s) && AllWellFormed(s)
    requires i < |s| && j < |s| && i != j
    requires forall k | k == i || k == j ::
               !s[k].pktType.Beacon? && s[k].pkt.modulation == MOD_LORA && s[k] == NodeFor(s[k].pkt, s[k].pktType)
    requires Wrap(ti) == CountOf(s[i]) && Wrap(tj) == CountOf(s[j])
    requires ti <= tj < ti + TWO32
    ensures ti + EmissionUs(s[i].pkt) + 42_000 < tj
  {
    SeparatedSymmetric(s[i], s[j]);
    assert if i < j then Separated(s[i], s[j]) else Separated(s[j], s[i]);
    SeparatedGap(s[i], s[j], ti, tj);
    LoraPostDelay(s[i].pkt);
  }

  /** The reserved intervals around two true times are more than TX_MARGIN_DELAY apart. */
  predicate Apart(t1: int, pre1: uint32, post1: uint32, t2: int, pre2: uint32, post2: uint32) {
    t1 - pre1 > t2 + post2 + TX_MARGIN_DELAY || t2 - pre2 > t1 + post1 + TX_MARGIN_DELAY
  }

  /** Acceptance in true time, both ways: a packet is accepted if and only if it is due more than 42.5 ms ahead, for
      Class A and B at most 512 s ahead, and apart from every queued packet. */
  lemma {:induction false} AdmitIff(s: seq<Node>, dues: seq<int>, time: int, due: int, p: TxPacket, t: PktType)
    requires |dues| == |s| && Wrap(due) == p.countUs && time <= due < time + TWO32
    requires forall i :: 0 <= i < |s| ==> Wrap(dues[i]) == CountOf(s[i]) && -TWO31 < due - dues[i] < TWO31
    requires forall i :: 0 <= i < |s| ==>
               && PreDelay(t) + s[i].postDelay + TX_MARGIN_DELAY < TWO31
               && TargetPreDelay(t, s[i]) + PostDelay(p, t) + TX_MARGIN_DELAY < TWO31
    ensures Admit(s, Wrap(time), p, t) == Ok <==>
              && due - time > 42_500
              && (t.ClassA? || t.ClassB? ==> due - time <= 512_000_000)
              && forall i :: 0 <= i < |s| ==>
                   Apart(due, PreDelay(t), PostDelay(p, t), dues[i], TargetPreDelay(t, s[i]), s[i].postDelay)
  {
    SubWrap(due, time);
    var post := PostDelay(p, t);
    forall i | 0 <= i < |s|
      ensures Blocks(s[i], p.countUs, t, post) <==>
              !Apart(due, PreDelay(t), post, dues[i], TargetPreDelay(t, s[i]), s[i].postDelay)
    {
      CollidesExactly(due, PreDelay(t), post, dues[i], TargetPreDelay(t, s[i]), s[i].postDelay);
    }
  }
}
