/** An immediate (Class C) downlink finds a slot, unless the place behind the last packet reaches around the counter. */
module JitSlot {
  import opened Options
  import opened Word32
  import opened CountSort
  import opened TimeOnAir
  import opened JitQueue
  import opened JitSeparation

  /** How far ahead of `time` a node is. */
  function Ahead(n: Node, time: uint32): uint32 {
    Sub(CountOf(n), time)
  }

  /** The queue is in order and separated and lies within half the counter range from `time` on. */
  ghost predicate Roomy(s: seq<Node>, time: uint32, post: uint32) {
    && AllSeparated(s) && AllWellFormed(s) && post <= MAX_POST_DELAY
    && (forall i, j :: 0 <= i < j < |s| ==> Ahead(s[i], time) < Ahead(s[j], time))
    && forall i :: 0 <= i < |s| ==> Ahead(s[i], time) < TWO31
  }

  /** An ordered and separated queue is roomy from every moment that it lies ahead of. */
  lemma {:induction false} RoomyFrom(s: seq<Node>, base: uint32, post: uint32)
    requires Ordered(s, CountOf) && AllSeparated(s) && AllWellFormed(s) && post <= MAX_POST_DELAY
    requires forall i :: 0 <= i < |s| ==> Ahead(s[i], base) < TWO31
    ensures Roomy(s, base, post)
  {
    forall i, j | 0 <= i < j < |s| ensures Ahead(s[i], base) < Ahead(s[j], base) {
      AfterInHalfRange(CountOf(s[j]), CountOf(s[i]), base);
    }
  }

  /** A packet `x` ahead that lasts `post` ends before the counter comes around to the first queued packet again. */
  ghost predicate EndsBeforeFirst(s: seq<Node>, time: uint32, x: nat, post: uint32) {
    s == [] || x + post + TargetPreDelay(ClassC, s[0]) + TX_MARGIN_DELAY < Ahead(s[0], time) + TWO32
  }

  /** The collision test in terms of distances from `time`: the later interval starts after the earlier one ends, and
      ends before the earlier one comes around again. */
  lemma {:induction false} CollidesAhead(
    x: nat, c: uint32, pre1: uint32, post1: uint32, c2: uint32, pre2: uint32, post2: uint32, time: uint32)
    requires x < TWO32 && c == Add(time, x)
    requires pre1 + post2 + TX_MARGIN_DELAY < TWO32 && pre2 + post1 + TX_MARGIN_DELAY < TWO32
    ensures Sub(c2, time) <= x ==>
              (!Collides(c, pre1, post1, c2, pre2, post2) <==>
                && x - pre1 > Sub(c2, time) + post2 + TX_MARGIN_DELAY
                && x + post1 + pre2 + TX_MARGIN_DELAY < Sub(c2, time) + TWO32)
    ensures x < Sub(c2, time) ==>
              (!Collides(c, pre1, post1, c2, pre2, post2) <==>
                && Sub(c2, time) - pre2 > x + post1 + TX_MARGIN_DELAY
                && Sub(c2, time) + post2 + pre1 + TX_MARGIN_DELAY < x + TWO32)
  {
  }

  /** Distances of a queue in order grow by at least the reservations between them. */
  lemma {:induction false} AheadGap(s: seq<Node>, i: nat, j: nat, time: uint32)
    requires AllSeparated(s) && AllWellFormed(s) && i < j < |s|
    requires Ahead(s[i], time) < Ahead(s[j], time)
    ensures Ahead(s[j], time) > Ahead(s[i], time) + s[i].postDelay + TargetPreDelay(s[i].pktType, s[j]) + TX_MARGIN_DELAY
  {
    assert Separated(s[i], s[j]);
    DueUnique(time, CountOf(s[i]), 0);
    DueUnique(time, CountOf(s[j]), 0);
    SeparatedGap(s[i], s[j], Due(time, CountOf(s[i])), Due(time, CountOf(s[j])));
  }

  /** Around the counter, the first of two packets comes again only after the reservation of the second has ended. */
  lemma {:induction false} WrapGap(s: seq<Node>, i: nat, j: nat, time: uint32)
    requires AllSeparated(s) && AllWellFormed(s) && i < j < |s|
    requires Ahead(s[i], time) < Ahead(s[j], time)
    ensures Ahead(s[j], time) + s[j].postDelay + TargetPreDelay(s[j].pktType, s[i]) + TX_MARGIN_DELAY
            < Ahead(s[i], time) + TWO32
  {
    assert Separated(s[i], s[j]);
  }

  /** The search stops at the first index whose slot misses the next packet, or at the last index. */
  lemma {:induction false} SearchStops(s: seq<Node>, i: nat, pre: uint32, post: uint32) returns (k: nat)
    requires i < |s|
    ensures i <= k < |s| && SearchSlot(s, i, pre, post) == SlotAfter(s[k], pre)
    ensures k < |s| - 1 ==> !CollidesWith(SlotAfter(s[k], pre), pre, post, s[k + 1])
    ensures forall j :: i <= j < k ==> CollidesWith(SlotAfter(s[j], pre), pre, post, s[j + 1])
    decreases |s| - i
  {
    if i == |s| - 1 || !CollidesWith(SlotAfter(s[i], pre), pre, post, s[i + 1]) {
      k := i;
    } else {
      k := SearchStops(s, i + 1, pre, post);
    }
  }

  /** Distance of the slot behind node `k`. */
  function SlotAhead(n: Node, time: uint32): nat {
    Ahead(n, time) + n.postDelay + PreDelay(ClassC) + TX_JIT_DELAY + TX_MARGIN_DELAY
  }

  lemma {:induction false} SlotAheadIs(n: Node, time: uint32)
    ensures SlotAhead(n, time) < TWO32 ==>
              && SlotAfter(n, PreDelay(ClassC)) == Add(time, SlotAhead(n, time))
              && Sub(SlotAfter(n, PreDelay(ClassC)), time) == SlotAhead(n, time)
    ensures TWO32 <= SlotAhead(n, time) < 2 * TWO32 ==>
              && SlotAfter(n, PreDelay(ClassC)) == Add(time, SlotAhead(n, time) - TWO32)
              && Sub(SlotAfter(n, PreDelay(ClassC)), time) == SlotAhead(n, time) - TWO32
  {
  }

  /** Only the slot behind the last packet can wrap around the counter. */
  lemma {:induction false} GapSlotAhead(s: seq<Node>, k: nat, time: uint32, post: uint32)
    requires Roomy(s, time, post) && k + 1 < |s|
    ensures SlotAhead(s[k], time) < TWO31 + 2 * TX_JIT_DELAY
    ensures SlotAfter(s[k], PreDelay(ClassC)) == Add(time, SlotAhead(s[k], time))
    ensures Sub(SlotAfter(s[k], PreDelay(ClassC)), time) == SlotAhead(s[k], time)
  {
    AheadGap(s, k, k + 1, time);
    SlotAheadIs(s[k], time);
    assert TargetPreDelay(s[k].pktType, s[k + 1]) >= TX_START_DELAY;
  }

  /** Missing the next packet means ending before it: separation leaves no room to land behind it. */
  lemma {:induction false} SlotBeforeNext(s: seq<Node>, k: nat, time: uint32, post: uint32)
    requires Roomy(s, time, post) && k + 1 < |s|
    requires !CollidesWith(SlotAfter(s[k], PreDelay(ClassC)), PreDelay(ClassC), post, s[k + 1])
    ensures SlotAhead(s[k], time) + post + PreDelay(ClassC) + TX_MARGIN_DELAY < Ahead(s[k + 1], time)
  {
    var n := s[k + 1];
    GapSlotAhead(s, k, time, post);
    AheadGap(s, k, k + 1, time);
    CollidesAhead(SlotAhead(s[k], time), SlotAfter(s[k], PreDelay(ClassC)), PreDelay(ClassC), post,
                  CountOf(n), n.preDelay, n.postDelay, time);
    assert TargetPreDelay(s[k].pktType, n) >= TX_START_DELAY;
    assert n.pktType.Beacon? || TargetPreDelay(s[k].pktType, n) == PreDelay(ClassC);
  }

  /** The slot found by looking only at the next packet, when it does not wrap, lies behind the packets up to `k` and before
      all others, so the only way to collide is to reach around the counter to one of the former. */
  lemma {:induction false} SlotFits(s: seq<Node>, k: nat, j: nat, time: uint32, post: uint32)
    requires Roomy(s, time, post) && k < |s| && j < |s| && SlotAhead(s[k], time) < TWO32
    requires k + 1 < |s| ==> !CollidesWith(SlotAfter(s[k], PreDelay(ClassC)), PreDelay(ClassC), post, s[k + 1])
    ensures Blocks(s[j], SlotAfter(s[k], PreDelay(ClassC)), ClassC, post) <==>
            j <= k && SlotAhead(s[k], time) + post + TargetPreDelay(ClassC, s[j]) + TX_MARGIN_DELAY
                      >= Ahead(s[j], time) + TWO32
  {
    SlotAheadIs(s[k], time);
    CollidesAhead(SlotAhead(s[k], time), SlotAfter(s[k], PreDelay(ClassC)), PreDelay(ClassC), post,
                  CountOf(s[j]), TargetPreDelay(ClassC, s[j]), s[j].postDelay, time);
    assert TargetPreDelay(ClassC, s[j]) <= PreDelay(ClassC);
    if j < k {
      AheadGap(s, j, k, time);
    } else if j > k {
      SlotBeforeNext(s, k, time, post);
      assert j == k + 1 || Ahead(s[k + 1], time) < Ahead(s[j], time);
      WrapGap(s, k, j, time);
      assert TargetPreDelay(s[j].pktType, s[k]) >= TX_START_DELAY;
    }
  }

  /** Of the queued packets, the first is the one reached first around the counter. */
  lemma {:induction false} FirstReached(s: seq<Node>, j: nat, time: uint32)
    requires AllSeparated(s) && AllWellFormed(s) && 0 < j < |s| && Ahead(s[0], time) < Ahead(s[j], time)
    ensures Ahead(s[0], time) - TargetPreDelay(ClassC, s[0]) <= Ahead(s[j], time) - TargetPreDelay(ClassC, s[j])
  {
    AheadGap(s, 0, j, time);
  }

  /** ASAP itself, when it misses every packet with the whole beacon guard, also passes with the reduced one. */
  lemma {:induction false} AsapFits(n: Node, c: uint32, post: uint32)
    requires WellFormed(n) && post <= MAX_POST_DELAY
    requires !CollidesWith(c, PreDelay(ClassC), post, n)
    ensures !Blocks(n, c, ClassC, post)
  {
  }

  /** No queued node blocks an immediate downlink stamped with `c`. */
  ghost predicate Unblocked(s: seq<Node>, c: uint32, post: uint32) {
    forall j :: 0 <= j < |s| ==> !Blocks(s[j], c, ClassC, post)
  }

  lemma {:induction false} SlotUnblockedIff(s: seq<Node>, k: nat, time: uint32, post: uint32)
    requires Roomy(s, time, post) && k < |s| && SlotAhead(s[k], time) < TWO32
    requires k + 1 < |s| ==> !CollidesWith(SlotAfter(s[k], PreDelay(ClassC)), PreDelay(ClassC), post, s[k + 1])
    ensures Unblocked(s, SlotAfter(s[k], PreDelay(ClassC)), post) <==>
            EndsBeforeFirst(s, time, SlotAhead(s[k], time), post)
  {
    SlotFits(s, k, 0, time, post);
    if EndsBeforeFirst(s, time, SlotAhead(s[k], time), post) {
      forall j | 0 <= j < |s| ensures !Blocks(s[j], SlotAfter(s[k], PreDelay(ClassC)), ClassC, post) {
        SlotFits(s, k, j, time, post);
        if j > 0 {
          FirstReached(s, j, time);
        }
      }
    }
  }

  /** The slot behind the last packet, when it wraps, comes at most 80 ms behind the first packet. */
  lemma {:induction false} WrapBound(s: seq<Node>, time: uint32, post: uint32)
    requires Roomy(s, time, post) && s != []
    ensures SlotAhead(s[|s| - 1], time) + TargetPreDelay(ClassA, s[0]) < Ahead(s[0], time) + TWO32 + 82_500
  {
    if |s| > 1 {
      WrapGap(s, 0, |s| - 1, time);
      assert TargetPreDelay(ClassA, s[0]) <= TargetPreDelay(s[|s| - 1].pktType, s[0]);
    }
  }

  /** A wrapped slot misses the queue exactly when it ends before the first packet. */
  lemma {:induction false} WrappedUnblockedIff(s: seq<Node>, time: uint32, post: uint32)
    requires Roomy(s, time, post) && s != [] && SlotAhead(s[|s| - 1], time) >= TWO32
    ensures Unblocked(s, SlotAfter(s[|s| - 1], PreDelay(ClassC)), post) <==>
            EndsBeforeFirst(s, time, SlotAhead(s[|s| - 1], time), post)
  {
    if EndsBeforeFirst(s, time, SlotAhead(s[|s| - 1], time), post) {
      forall j | 0 <= j < |s| ensures !Blocks(s[j], SlotAfter(s[|s| - 1], PreDelay(ClassC)), ClassC, post) {
        WrappedFits(s, j, time, post);
      }
    } else {
      WrappedBlocked(s, time, post);
    }
  }

  lemma {:induction false} WrappedFits(s: seq<Node>, j: nat, time: uint32, post: uint32)
    requires Roomy(s, time, post) && j < |s| && SlotAhead(s[|s| - 1], time) >= TWO32
    requires EndsBeforeFirst(s, time, SlotAhead(s[|s| - 1], time), post)
    ensures !Blocks(s[j], SlotAfter(s[|s| - 1], PreDelay(ClassC)), ClassC, post)
  {
    var l := |s| - 1;
    var x := SlotAhead(s[l], time) - TWO32;
    WrapBound(s, time, post);
    SlotAheadIs(s[l], time);
    CollidesAhead(x, SlotAfter(s[l], PreDelay(ClassC)), PreDelay(ClassC), post,
                  CountOf(s[j]), TargetPreDelay(ClassC, s[j]), s[j].postDelay, time);
    if j > 0 {
      FirstReached(s, j, time);
    }
    if j < l {
      AheadGap(s, j, l, time);
    }
  }

  lemma {:induction false} WrappedBlocked(s: seq<Node>, time: uint32, post: uint32)
    requires Roomy(s, time, post) && s != [] && SlotAhead(s[|s| - 1], time) >= TWO32
    requires !EndsBeforeFirst(s, time, SlotAhead(s[|s| - 1], time), post)
    ensures Blocks(s[0], SlotAfter(s[|s| - 1], PreDelay(ClassC)), ClassC, post)
  {
    var l := |s| - 1;
    WrapBound(s, time, post);
    SlotAheadIs(s[l], time);
    CollidesAhead(SlotAhead(s[l], time) - TWO32, SlotAfter(s[l], PreDelay(ClassC)), PreDelay(ClassC), post,
                  CountOf(s[0]), TargetPreDelay(ClassC, s[0]), s[0].postDelay, time);
  }

  lemma {:induction false} UnblockedIff(s: seq<Node>, c: uint32, post: uint32)
    ensures FirstBlocker(s, 0, c, ClassC, post) == |s| <==> Unblocked(s, c, post)
  {
  }

  /** ASAP collides with some queued packet, with the whole guard of a beacon. */
  ghost predicate AsapTaken(s: seq<Node>, time: uint32, post: uint32) {
    exists i :: 0 <= i < |s| && CollidesWith(Add(time, 2 * TX_JIT_DELAY), PreDelay(ClassC), post, s[i])
  }

  /** The slot right behind packet `k` does not fit before the next packet. */
  ghost predicate GapTaken(s: seq<Node>, k: nat, post: uint32) {
    k + 1 < |s| && CollidesWith(SlotAfter(s[k], PreDelay(ClassC)), PreDelay(ClassC), post, s[k + 1])
  }

  /** ASAP and every gap are taken, so that only the place behind the last packet is left. */
  ghost predicate OnlyLast(s: seq<Node>, time: uint32, post: uint32) {
    AsapTaken(s, time, post) && forall k :: 0 <= k < |s| - 1 ==> GapTaken(s, k, post)
  }

  /** Behind the last packet the reservation would reach around the counter to the first one. */
  ghost predicate NoRoom(s: seq<Node>, time: uint32, post: uint32) {
    OnlyLast(s, time, post) && !EndsBeforeFirst(s, time, SlotAhead(s[|s| - 1], time), post)
  }

  /** The slot behind the last packet wraps around the counter, to less than `limit` ahead. */
  ghost predicate ComesAround(s: seq<Node>, time: uint32, post: uint32, limit: nat) {
    OnlyLast(s, time, post) && TWO32 <= SlotAhead(s[|s| - 1], time) < TWO32 + limit
  }

  /** That is closer than what is accepted. */
  ghost predicate LateWrap(s: seq<Node>, time: uint32, post: uint32) {
    ComesAround(s, time, post, TX_START_DELAY + TX_MARGIN_DELAY + TX_JIT_DELAY + 1)
  }

  lemma {:induction false} GapEnds(s: seq<Node>, k: nat, time: uint32, post: uint32)
    requires Roomy(s, time, post) && k + 1 < |s| && !GapTaken(s, k, post)
    ensures EndsBeforeFirst(s, time, SlotAhead(s[k], time), post)
  {
    SlotBeforeNext(s, k, time, post);
    assert TargetPreDelay(ClassC, s[0]) <= PreDelay(ClassC);
  }

  /** Where the search ends, when ASAP is taken: in the first gap that is free, or behind the last packet. */
  lemma {:induction false} SearchEnds(s: seq<Node>, time: uint32, post: uint32) returns (k: nat)
    requires AsapTaken(s, time, post)
    ensures k < |s| && AsapCount(s, time, PreDelay(ClassC), post) == SlotAfter(s[k], PreDelay(ClassC))
    ensures !GapTaken(s, k, post) && (forall j :: 0 <= j < k ==> GapTaken(s, j, post))
    ensures OnlyLast(s, time, post) <==> k == |s| - 1
  {
    k := SearchStops(s, 0, PreDelay(ClassC), post);
  }

  /** The slot search in one statement: no queued packet blocks the timestamp it picks, unless there is no room; and that
      timestamp is at least 80 ms ahead, unless it is the place behind the last packet and wraps around the counter. */
  lemma {:induction false} AsapUnblockedIff(s: seq<Node>, time: uint32, post: uint32)
    requires Roomy(s, time, post)
    ensures var c := AsapCount(s, time, PreDelay(ClassC), post);
            && (Unblocked(s, c, post) <==> !NoRoom(s, time, post))
            && if OnlyLast(s, time, post) && SlotAhead(s[|s| - 1], time) >= TWO32
               then Sub(c, time) == SlotAhead(s[|s| - 1], time) - TWO32
               else Sub(c, time) >= 2 * TX_JIT_DELAY
  {
    if AsapTaken(s, time, post) {
      var k := SearchEnds(s, time, post);
      SlotAheadIs(s[k], time);
      if k < |s| - 1 {
        GapSlotAhead(s, k, time, post);
        SlotUnblockedIff(s, k, time, post);
        GapEnds(s, k, time, post);
      } else {
        LastSlot(s, time, post);
      }
    } else {
      forall j | 0 <= j < |s| ensures !Blocks(s[j], Add(time, 2 * TX_JIT_DELAY), ClassC, post) {
        AsapFits(s[j], Add(time, 2 * TX_JIT_DELAY), post);
      }
    }
  }

  lemma {:induction false} LastSlot(s: seq<Node>, time: uint32, post: uint32)
    requires Roomy(s, time, post) && s != []
    ensures Unblocked(s, SlotAfter(s[|s| - 1], PreDelay(ClassC)), post) <==>
            EndsBeforeFirst(s, time, SlotAhead(s[|s| - 1], time), post)
    ensures SlotAhead(s[|s| - 1], time) < 2 * TWO32
  {
    if SlotAhead(s[|s| - 1], time) < TWO32 {
      SlotUnblockedIff(s, |s| - 1, time, post);
    } else {
      WrappedUnblockedIff(s, time, post);
    }
  }

  /** A Class C enqueue on a queue with a free place, from the queue as it is before the call: it is refused as too late if
      and only if ASAP and every gap are taken and the place behind the last packet wraps around the counter to at most
      42.5 ms ahead, and because of a collision if and only if that place reaches around to the first packet. So a packet
      that fits at ASAP or into a gap is never refused. */
  lemma {:induction false} ClassCAcceptedIff(s: seq<Node>, time: uint32, p: TxPacket)
    requires |s| < JIT_QUEUE_MAX && Roomy(s, time, PostDelay(p, ClassC))
    ensures var c, post := AsapCount(s, time, PreDelay(ClassC), PostDelay(p, ClassC)), PostDelay(p, ClassC);
            var (err, out) := EnqueueResult(s, time, Some(p), ClassC);
            && out == Some(p.(txMode := TIMESTAMPED, countUs := c))
            && (err == TooLate <==> LateWrap(s, time, post))
            && (err == Ok <==> !NoRoom(s, time, post) && !LateWrap(s, time, post))
            && (Sub(c, time) >= 2 * TX_JIT_DELAY || ComesAround(s, time, post, 2 * TX_JIT_DELAY))
  {
    var c := AsapCount(s, time, PreDelay(ClassC), PostDelay(p, ClassC));
    AsapUnblockedIff(s, time, PostDelay(p, ClassC));
    UnblockedIff(s, c, PostDelay(p, ClassC));
    StampedPostDelay(s, time, p, ClassC);
  }

  /** ASAP is taken, and so is every gap whose slot lies less than `limit` ahead; the last packet has no such slot. */
  ghost predicate NoneBefore(s: seq<Node>, time: uint32, post: uint32, limit: nat) {
    && AsapTaken(s, time, post)
    && forall k :: 0 <= k < |s| && SlotAhead(s[k], time) < limit ==> GapTaken(s, k, post)
  }

  /** How far ahead the chosen slot is, from the queue before the call: at `limit` or beyond if and only if nothing is free
      before and the place behind the last packet does not come around the counter to less. */
  lemma {:induction false} SlotBeyondIff(s: seq<Node>, time: uint32, post: uint32, limit: nat)
    requires Roomy(s, time, post) && limit > 2 * TX_JIT_DELAY
    ensures Sub(AsapCount(s, time, PreDelay(ClassC), post), time) >= limit <==>
            NoneBefore(s, time, post, limit) && !ComesAround(s, time, post, limit)
  {
    if AsapTaken(s, time, post) {
      var k := SearchEnds(s, time, post);
      SlotAheadIs(s[k], time);
      NoneBeforeIff(s, k, time, post, limit);
      if k < |s| - 1 {
        GapSlotAhead(s, k, time, post);
      }
    }
  }

  lemma {:induction false} NoneBeforeIff(s: seq<Node>, k: nat, time: uint32, post: uint32, limit: nat)
    requires Roomy(s, time, post) && AsapTaken(s, time, post) && k < |s|
    requires !GapTaken(s, k, post) && (forall j :: 0 <= j < k ==> GapTaken(s, j, post))
    ensures NoneBefore(s, time, post, limit) <==> SlotAhead(s[k], time) >= limit
  {
    forall j | 0 <= j < |s| && SlotAhead(s[j], time) < SlotAhead(s[k], time) ensures GapTaken(s, j, post) {
      if k <= j {
        SlotsGrow(s, k, j, time, post);
      }
    }
  }

  /** So it is never refused while the reservations of every queued packet and of the new one together fit into the
      counter period that starts now. */
  lemma {:induction false} ClassCAccepted(s: seq<Node>, time: uint32, p: TxPacket)
    requires |s| < JIT_QUEUE_MAX && Roomy(s, time, PostDelay(p, ClassC))
    requires forall i :: 0 <= i < |s| ==>
               Ahead(s[i], time) + s[i].postDelay + PostDelay(p, ClassC) + 200_000 <= TWO32
    ensures EnqueueResult(s, time, Some(p), ClassC).0 == Ok
  {
    var post := PostDelay(p, ClassC);
    if s != [] {
      assert SlotAhead(s[|s| - 1], time) + post + 100_000 <= TWO32;
    }
    ClassCAcceptedIff(s, time, p);
  }

  /** Slots lie in the order of the packets they follow. */
  lemma {:induction false} SlotsGrow(s: seq<Node>, k: nat, j: nat, time: uint32, post: uint32)
    requires Roomy(s, time, post) && k <= j < |s|
    ensures SlotAhead(s[k], time) <= SlotAhead(s[j], time)
  {
    if k < j {
      AheadGap(s, k, j, time);
    }
  }

  /** When ASAP itself collides, the slot chosen is the earliest behind any queued packet that misses them all; a slot that
      wraps around the counter counts as later than all others. */
  lemma {:induction false} SlotEarliest(s: seq<Node>, time: uint32, post: uint32, j: nat) returns (k: nat)
    requires Roomy(s, time, post) && j < |s|
    requires exists i :: 0 <= i < |s| && CollidesWith(Add(time, 2 * TX_JIT_DELAY), PreDelay(ClassC), post, s[i])
    requires forall i :: 0 <= i < |s| ==> !CollidesWith(SlotAfter(s[j], PreDelay(ClassC)), PreDelay(ClassC), post, s[i])
    ensures k < |s| && AsapCount(s, time, PreDelay(ClassC), post) == SlotAfter(s[k], PreDelay(ClassC))
    ensures SlotAhead(s[k], time) <= SlotAhead(s[j], time)
    ensures SlotAhead(s[j], time) < TWO32 ==>
              Sub(AsapCount(s, time, PreDelay(ClassC), post), time) <= Sub(SlotAfter(s[j], PreDelay(ClassC)), time)
  {
    k := FirstFree(s, time, PreDelay(ClassC), post, j);
    SlotsGrow(s, k, j, time, post);
    SlotAheadIs(s[k], time);
    SlotAheadIs(s[j], time);
  }

  lemma {:induction false} FirstFree(s: seq<Node>, time: uint32, pre: uint32, post: uint32, j: nat) returns (k: nat)
    requires j < |s|
    requires exists i :: 0 <= i < |s| && CollidesWith(Add(time, 2 * TX_JIT_DELAY), pre, post, s[i])
    requires forall i :: 0 <= i < |s| ==> !CollidesWith(SlotAfter(s[j], pre), pre, post, s[i])
    ensures k <= j && AsapCount(s, time, pre, post) == SlotAfter(s[k], pre)
  {
    k := SearchStops(s, 0, pre, post);
    var next := if j + 1 < |s| then j + 1 else j;
    assert !CollidesWith(SlotAfter(s[j], pre), pre, post, s[next]);
  }

  /** No slot behind a queued packet wraps around the counter. */
  ghost predicate Short(s: seq<Node>, time: uint32) {
    forall i :: 0 <= i < |s| ==> Ahead(s[i], time) + s[i].postDelay + 3_200_000 < TWO32
  }

  /** The slot behind packet `k`, when it misses the next one, is not within TX_JIT_DELAY before any queued packet. */
  lemma {:induction false} SlotClear(s: seq<Node>, k: nat, j: nat, base: uint32, post: uint32)
    requires Roomy(s, base, post) && Short(s, base) && k < |s| && j < |s|
    requires k + 1 < |s| ==> !CollidesWith(SlotAfter(s[k], PreDelay(ClassC)), PreDelay(ClassC), post, s[k + 1])
    ensures Sub(CountOf(s[j]), SlotAfter(s[k], PreDelay(ClassC))) > TX_JIT_DELAY
  {
    SlotAheadIs(s[k], base);
    if j > k {
      SlotBeforeNext(s, k, base, post);
      assert j == k + 1 || Ahead(s[k + 1], base) < Ahead(s[j], base);
    } else {
      assert j == k || Ahead(s[j], base) < Ahead(s[k], base);
    }
  }

  /** So an immediate downlink is never placed that close before a queued packet: the search uses the whole guard of a
      beacon, although the acceptance test does not. The queue may be in order from an earlier moment `base`. */
  lemma {:induction false} AsapClear(s: seq<Node>, base: uint32, time: uint32, post: uint32, j: nat)
    requires Roomy(s, base, post) && Short(s, base) && j < |s|
    ensures Sub(CountOf(s[j]), AsapCount(s, time, PreDelay(ClassC), post)) > TX_JIT_DELAY
  {
    if AsapTaken(s, time, post) {
      var k := SearchStops(s, 0, PreDelay(ClassC), post);
      SlotClear(s, k, j, base, post);
    } else {
      assert !CollidesWith(Add(time, 2 * TX_JIT_DELAY), PreDelay(ClassC), post, s[j]);
    }
  }

  /** The longest preamble at the lowest data rate. */
  const LONGEST: TxPacket :=
    ZERO_NODE.pkt.(modulation := MOD_LORA, bandwidth := BW_125KHZ, datarate := 12, coderate := 1, preamble := 65535)

  lemma {:induction false} LongLasts(p: TxPacket)
    requires p.modulation == MOD_LORA && p.bandwidth == BW_125KHZ && p.datarate == 12 && p.coderate == 1 && p.size == 0
    requires !p.noHeader && !p.noCrc
    ensures DownlinkPostDelay(p) == ((4 * (p.preamble + 8) + 17) * 8192 + 500) / 1000 * 1000
  {
    assert SymbolUs(BW_125KHZ, 12) == 32768 by {
      assert Pow2(8) == 256;
      assert Pow2(12) == 4096;
    }
    assert PayloadSymbols(12, 1, false, false, 0) == 0;
    assert EmissionUs(p) == FrameUs(12, p.preamble, 0, 32768) == Quarters(12, p.preamble, 0) * 8192;
  }

  /** Two such packets do not fit: with one queued 50 ms ahead, the other is refused although 31 places are free. */
  lemma {:induction false} TwoLongestRefused()
    ensures EnqueueResult([NodeFor(LONGEST.(countUs := 50_000, txMode := TIMESTAMPED), ClassC)], 0, Some(LONGEST), ClassC).0
            == CollisionPacket
  {
    var p := LONGEST.(countUs := 50_000, txMode := TIMESTAMPED);
    LongLasts(p);
    LongLasts(LONGEST);
    OneQueuedIff(NodeFor(p, ClassC), 0, LONGEST);
  }

  /** Behind a single queued packet the search is refused as too late when the slot wraps around the counter to at most
      42.5 ms ahead, and otherwise exactly when both reservations together do not fit into one counter period. */
  lemma {:induction false} OneQueuedIff(n: Node, time: uint32, p: TxPacket)
    requires Roomy([n], time, PostDelay(p, ClassC)) && n.pktType.ClassC?
    requires CollidesWith(Add(time, 2 * TX_JIT_DELAY), PreDelay(ClassC), PostDelay(p, ClassC), n)
    ensures EnqueueResult([n], time, Some(p), ClassC).0 ==
            if TWO32 <= SlotAhead(n, time) <= TWO32 + 42_500 then TooLate
            else if n.postDelay + PostDelay(p, ClassC) + 125_000 < TWO32 then Ok else CollisionPacket
    ensures EnqueueResult([n], time, Some(p), ClassC).1 ==
            Some(p.(txMode := TIMESTAMPED, countUs := SlotAfter(n, PreDelay(ClassC))))
  {
    ClassCAcceptedIff([n], time, p);
    assert CollidesWith(Add(time, 2 * TX_JIT_DELAY), PreDelay(ClassC), PostDelay(p, ClassC), [n][0]);
    assert OnlyLast([n], time, PostDelay(p, ClassC));
    var k := SearchEnds([n], time, PostDelay(p, ClassC));
  }

  /** A packet that reserves only 2 ms. */
  const SHORT: TxPacket :=
    ZERO_NODE.pkt.(modulation := MOD_LORA, bandwidth := BW_500KHZ, datarate := 5, coderate := 1, preamble := 6)

  lemma {:induction false} ShortLasts()
    ensures DownlinkPostDelay(SHORT) == 2000
  {
    assert SymbolUs(BW_500KHZ, 5) == 64 by {
      assert Pow2(5) == 32;
    }
    assert PayloadBits(5, false, false, 0) == 16 && CeilDiv(16, 20) == 1;
    assert PayloadSymbols(5, 1, false, false, 0) == 5;
    assert EmissionUs(SHORT) == FrameUs(5, 6, 5, 64) == 1616;
  }

  /** Three immediate downlinks at clock 0: the first two are accepted and fill the counter period, and the third, however
      short, is refused as too late although 30 places are free. */
  lemma {:induction false} ThirdTooLate()
    ensures var a, b := LONGEST.(preamble := 65506, txMode := TIMESTAMPED, countUs := 80_000),
                        LONGEST.(txMode := TIMESTAMPED, countUs := 2_147_064_500);
            && EnqueueResult([], 0, Some(LONGEST.(preamble := 65506)), ClassC) == (Ok, Some(a))
            && EnqueueResult([NodeFor(a, ClassC)], 0, Some(LONGEST), ClassC) == (Ok, Some(b))
            && EnqueueResult([NodeFor(a, ClassC), NodeFor(b, ClassC)], 0, Some(SHORT), ClassC).0 == TooLate
  {
    var a, b := LONGEST.(preamble := 65506, txMode := TIMESTAMPED, countUs := 80_000),
                LONGEST.(txMode := TIMESTAMPED, countUs := 2_147_064_500);
    LongLasts(a);
    LongLasts(b);
    LongLasts(LONGEST);
    ShortLasts();
    FirstFits(LONGEST.(preamble := 65506));
    SecondFits(NodeFor(a, ClassC), LONGEST);
    ThirdWraps(NodeFor(a, ClassC), NodeFor(b, ClassC), SHORT);
  }

  lemma {:induction false} FirstFits(p: TxPacket)
    ensures EnqueueResult([], 0, Some(p), ClassC) == (Ok, Some(p.(txMode := TIMESTAMPED, countUs := 80_000)))
  {
  }

  lemma {:induction false} SecondFits(a: Node, p: TxPacket)
    requires a.pktType == ClassC && a.preDelay == PreDelay(ClassC)
    requires CountOf(a) == 80_000 && a.postDelay == 2_146_902_000 && PostDelay(p, ClassC) == 2_147_852_000
    ensures EnqueueResult([a], 0, Some(p), ClassC) == (Ok, Some(p.(txMode := TIMESTAMPED, countUs := 2_147_064_500)))
  {
    OneQueuedIff(a, 0, p);
  }

  lemma {:induction false} ThirdWraps(a: Node, b: Node, p: TxPacket)
    requires a.pktType == b.pktType == ClassC && a.preDelay == b.preDelay == PreDelay(ClassC)
    requires CountOf(a) == 80_000 && a.postDelay == 2_146_902_000
    requires CountOf(b) == 2_147_064_500 && b.postDelay == 2_147_852_000 && PostDelay(p, ClassC) == 2000
    ensures EnqueueResult([a, b], 0, Some(p), ClassC).0 == TooLate
  {
    var s := [a, b];
    assert Separated(a, b);
    assert CollidesWith(Add(0, 2 * TX_JIT_DELAY), PreDelay(ClassC), 2000, s[0]);
    assert GapTaken(s, 0, 2000);
    ClassCAcceptedIff(s, 0, p);
  }
}
