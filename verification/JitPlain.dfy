/** What `jit_enqueue` answers, in plain microseconds: the distances between packets that it asks for, written out for
    every pair of types, the answer for every queue, and where an immediate downlink goes beside a beacon. */
module JitPlain {
  import opened Options
  import opened Word32
  import opened TimeOnAir
  import opened JitQueue
  import CountSort

  /** The time reserved after the timestamp of a packet: a beacon window of 2.12 s, or the time on air. */
  function Reserved(p: TxPacket, t: PktType): nat {
    if t.Beacon? then 2_120_000 else DownlinkPostDelay(p)
  }

  /** How much later than a queued packet a new one must be due: the reservation of the queued one, 41.5 ms to program the
      new one, for a new beacon 3 s of guard, and a margin of 1 ms. */
  function AfterQueued(t: PktType, reserved: nat): nat {
    reserved + (if t.Beacon? then 3_041_500 else 41_500) + 1_000
  }

  /** How much earlier than a queued packet of type `tx` a new one must be due: its own reservation and the same for the
      queued one, but only 1.5 ms for a queued beacon when the new packet is of Class A or C. */
  function BeforeQueued(tx: PktType, t: PktType, reserved: nat): nat {
    reserved + 1_000
    + if !tx.Beacon? then 41_500 else if t.ClassA? || t.ClassC? then 1_500 else 3_041_500
  }

  /** The new packet lies far enough behind the queued one, and far enough before the time at which the counter shows the
      queued one again. */
  predicate Clears(tx: PktType, reservedX: nat, t: PktType, reserved: nat, later: nat) {
    later > AfterQueued(t, reservedX) && 0x1_0000_0000 - later > BeforeQueued(tx, t, reserved)
  }

  /** The longest reservation for which the sums of the source do not wrap, about 71 minutes. */
  const LONGEST_RESERVED: nat := 4_291_924_795

  /** The collision test against one queued packet. */
  lemma {:induction false} BlocksPlain(px: TxPacket, tx: PktType, c: uint32, p: TxPacket, t: PktType)
    requires Reserved(px, tx) <= LONGEST_RESERVED && Reserved(p, t) <= LONGEST_RESERVED
    ensures !Blocks(NodeFor(px, tx), c, t, PostDelay(p, t)) <==>
            Clears(tx, Reserved(px, tx), t, Reserved(p, t), Sub(c, px.countUs))
  {
  }

  /** Queue entries as `jit_enqueue` builds them. */
  ghost predicate BuiltQueue(s: seq<Node>) {
    forall i :: 0 <= i < |s| ==>
      s[i] == NodeFor(s[i].pkt, s[i].pktType) && Reserved(s[i].pkt, s[i].pktType) <= LONGEST_RESERVED
  }

  /** The new packet is clear of queue entry `i`. */
  predicate ClearOf(s: seq<Node>, i: nat, p: TxPacket, t: PktType)
    requires i < |s|
  {
    Clears(s[i].pktType, Reserved(s[i].pkt, s[i].pktType), t, Reserved(p, t), Sub(p.countUs, s[i].pkt.countUs))
  }

  /** The answer to a packet with a timestamp, for every queue: full at 32 entries, too late up to 42.5 ms ahead, too early
      for Class A and B beyond 512 s, and otherwise decided by the first entry that it is not clear of; the packet is
      handed back unchanged. */
  lemma {:induction false} EnqueuePlain(s: seq<Node>, time: uint32, p: TxPacket, t: PktType)
    requires !t.ClassC? && BuiltQueue(s) && Reserved(p, t) <= LONGEST_RESERVED
    ensures EnqueueResult(s, time, None, t) == (Invalid, None)
    ensures EnqueueResult(s, time, Some(p), t).1 == Some(p)
    ensures var err, ahead := EnqueueResult(s, time, Some(p), t).0, Sub(p.countUs, time);
            && (err == Full <==> |s| == 32)
            && (err == TooLate <==> |s| != 32 && ahead <= 42_500)
            && (err == TooEarly <==> |s| != 32 && (t.ClassA? || t.ClassB?) && ahead > 512_000_000)
            && (Checked(s, ahead, t) ==> if AllClear(s, p, t) then err == Ok else FirstDecides(s, p, t, err))
  {
    var b := FirstNotClear(s, p, t);
    assert b < |s| ==> IsFirst(s, b, p, t);
  }

  /** Neither the number of entries nor the distance decides. */
  predicate Checked(s: seq<Node>, ahead: nat, t: PktType) {
    |s| != 32 && ahead > 42_500 && ((t.ClassA? || t.ClassB?) ==> ahead <= 512_000_000)
  }

  ghost predicate AllClear(s: seq<Node>, p: TxPacket, t: PktType) {
    forall i :: 0 <= i < |s| ==> ClearOf(s, i, p, t)
  }

  /** The first entry that the packet is not clear of. */
  ghost predicate IsFirst(s: seq<Node>, i: nat, p: TxPacket, t: PktType) {
    i < |s| && !ClearOf(s, i, p, t) && forall j :: 0 <= j < i ==> ClearOf(s, j, p, t)
  }

  /** The collision is called after its type. */
  ghost predicate FirstDecides(s: seq<Node>, p: TxPacket, t: PktType, err: JitError) {
    exists i: nat :: IsFirst(s, i, p, t) && err == if s[i].pktType.Beacon? then CollisionBeacon else CollisionPacket
  }

  lemma {:induction false} FirstNotClear(s: seq<Node>, p: TxPacket, t: PktType) returns (b: nat)
    requires BuiltQueue(s) && Reserved(p, t) <= LONGEST_RESERVED
    ensures b <= |s| && b == FirstBlocker(s, 0, p.countUs, t, PostDelay(p, t))
    ensures forall i :: 0 <= i < b ==> ClearOf(s, i, p, t)
    ensures b < |s| ==> !ClearOf(s, b, p, t)
  {
    forall i | 0 <= i < |s| ensures Blocks(s[i], p.countUs, t, PostDelay(p, t)) <==> !ClearOf(s, i, p, t) {
      BlocksPlain(s[i].pkt, s[i].pktType, p.countUs, p, t);
    }
    b := FirstBlocker(s, 0, p.countUs, t, PostDelay(p, t));
  }

  /** What an enqueue leaves behind: a refused packet changes nothing, an accepted one is there besides all others, with the
      delays that belong to its type and its time on air. */
  lemma {:induction false} EnqueueLeaves(
    q: Queue, time: uint32, packet: Option<TxPacket>, t: PktType, err: JitError, packet': Option<TxPacket>, q': Queue)
    requires EnqueueRel(q, time, packet, t, err, packet', q')
    ensures err != Ok ==> q' == q
    ensures err == Ok ==>
              && packet'.Some?
              && var pre := if t.Beacon? then 3_041_500 else 41_500;
                 var post := if t.Beacon? then 2_120_000 else DownlinkPostDelay(packet'.value);
                 multiset(q'.nodes) == multiset(q.nodes) + multiset{Node(packet'.value, t, pre, post)}
    ensures err == Ok && q.numBeacon < 255 ==> q'.numBeacon == q.numBeacon + if t.Beacon? then 1 else 0
  {
    if err == Ok {
      var n := NodeFor(packet'.value, t);
      assert multiset(q.nodes + [n]) == multiset(q.nodes) + multiset{n};
    }
  }

  /** What a dequeue answers: a bad index and an empty queue are refused and change nothing, a live index hands out its
      packet and leaves the others. */
  lemma {:induction false} DequeuePlain(q: Queue, index: int, err: JitError, out: Option<Node>, q': Queue)
    requires DequeueRel(q, index, err, out, q')
    ensures index < 0 || index >= 32 ==> err == Invalid && out == None && q' == q
    ensures 0 <= index < 32 && q.nodes == [] ==> err == Empty && out == None && q' == q
    ensures 0 <= index < 32 && q.nodes != [] ==>
              && index < |q.nodes| && err == Ok && out == Some(q.nodes[index])
              && multiset(q.nodes) == multiset(q'.nodes) + multiset{q.nodes[index]}
              && (q.numBeacon > 0 ==> q'.numBeacon == q.numBeacon - if q.nodes[index].pktType.Beacon? then 1 else 0)
  {
    if 0 <= index < 32 && q.nodes != [] {
      CountSort.SwapRemoveMultiset(q.nodes, index);
    }
  }

  /** A peek at an empty queue says so and leaves the caller's index alone; any other answers OK. */
  lemma {:induction false} PeekPlain(q: Queue, time: uint32, index: int, err: JitError, q': Queue, index': int)
    requires PeekRel(q, time, index, err, q', index')
    ensures q.nodes == [] ==> err == Empty && q' == q && index' == index
    ensures q.nodes != [] ==> err == Ok
  {
  }

  /** A beacon behind a queued downlink: accepted if and only if the whole guard fits between them. */
  lemma {:induction false} BeaconBehindDownlink(px: TxPacket, tx: PktType, time: uint32, p: TxPacket, later: nat)
    requires !tx.Beacon? && DownlinkPostDelay(px) <= LONGEST_RESERVED
    requires later == Sub(p.countUs, px.countUs) < TWO31 && Sub(p.countUs, time) > 42_500
    ensures EnqueueResult([NodeFor(px, tx)], time, Some(p), Beacon).0 == Ok <==> later > DownlinkPostDelay(px) + 3_042_500
  {
    var s := [NodeFor(px, tx)];
    EnqueuePlain(s, time, p, Beacon);
    assert ClearOf(s, 0, p, Beacon) <==> later > DownlinkPostDelay(px) + 3_042_500;
    assert AllClear(s, p, Beacon) <==> ClearOf(s, 0, p, Beacon);
  }

  /** A downlink before a queued beacon: Class B keeps off the whole guard, Class A only off the beacon itself. */
  lemma {:induction false} DownlinkBeforeBeacon(px: TxPacket, time: uint32, p: TxPacket, t: PktType, earlier: nat)
    requires (t.ClassA? || t.ClassB?) && DownlinkPostDelay(p) <= LONGEST_RESERVED
    requires 0 < earlier == Sub(px.countUs, p.countUs) < TWO31 && 42_500 < Sub(p.countUs, time) <= 512_000_000
    ensures EnqueueResult([NodeFor(px, Beacon)], time, Some(p), t).0 == Ok <==>
            earlier > DownlinkPostDelay(p) + if t.ClassA? then 2_500 else 3_042_500
    ensures EnqueueResult([NodeFor(px, Beacon)], time, Some(p), t).0 in {Ok, CollisionBeacon}
  {
    var s := [NodeFor(px, Beacon)];
    EnqueuePlain(s, time, p, t);
    assert Sub(p.countUs, px.countUs) == 0x1_0000_0000 - earlier;
    assert ClearOf(s, 0, p, t) <==> earlier > DownlinkPostDelay(p) + if t.ClassA? then 2_500 else 3_042_500;
    assert AllClear(s, p, t) <==> ClearOf(s, 0, p, t);
  }

  /** An immediate downlink beside a single beacon, `d` ahead: it goes 80 ms ahead if it ends before the guard of the
      beacon begins, and otherwise right behind the beacon window. */
  lemma {:induction false} ImmediateBesideBeacon(b: TxPacket, time: uint32, p: TxPacket, d: nat)
    requires d == Sub(b.countUs, time) < TWO31 && DownlinkPostDelay(p) <= LONGEST_RESERVED
    ensures var (err, out) := EnqueueResult([NodeFor(b, Beacon)], time, Some(p), ClassC);
            && err == Ok && out.Some? && out.value == p.(txMode := 1, countUs := out.value.countUs)
            && Sub(out.value.countUs, time) == if d > DownlinkPostDelay(p) + 3_122_500 then 80_000 else d + 2_202_500
  {
    var s := [NodeFor(b, Beacon)];
    var c := AsapBesideBeacon(b, time, p, d);
    StampedPostDelay(s, time, p, ClassC);
    BlocksPlain(b, Beacon, c, p, ClassC);
  }

  lemma {:induction false} AsapBesideBeacon(b: TxPacket, time: uint32, p: TxPacket, d: nat) returns (c: uint32)
    requires d == Sub(b.countUs, time) < TWO31 && DownlinkPostDelay(p) <= LONGEST_RESERVED
    ensures c == AsapCount([NodeFor(b, Beacon)], time, PreDelay(ClassC), PostDelay(p, ClassC))
    ensures Sub(c, time) == if d > DownlinkPostDelay(p) + 3_122_500 then 80_000 else d + 2_202_500
  {
    var s, post := [NodeFor(b, Beacon)], PostDelay(p, ClassC);
    var free := !CollidesWith(Add(time, 2 * TX_JIT_DELAY), PreDelay(ClassC), post, s[0]);
    assert free <==> d > DownlinkPostDelay(p) + 3_122_500;
    c := AsapCount(s, time, PreDelay(ClassC), post);
    assert c == if free then Add(time, 80_000) else SlotAfter(s[0], PreDelay(ClassC));
  }
}
