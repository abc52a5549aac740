/** The Just-In-Time TX queue (clusterduck/src/jitqueue.c).

    The first half says, as functions and relations on values, what each call does to the queued nodes; the class at
    the end is the queue itself, updated in place and proved to follow them. Each call holds the queue mutex while it
    works, so each is one atomic step. */
module JitQueue {
  import opened Options
  import opened Word32
  import opened CountSort
  import opened TimeOnAir

  const JIT_QUEUE_MAX: int := 32
  const JIT_NUM_BEACON_IN_QUEUE: int := 3
  const TX_START_DELAY: uint32 := 1500
  const TX_MARGIN_DELAY: uint32 := 1000
  const TX_JIT_DELAY: uint32 := 40000
  const TX_MAX_ADVANCE_DELAY: uint32 := 512_000_000
  const BEACON_GUARD: uint32 := 3_000_000
  const BEACON_RESERVED: uint32 := 2_120_000

  datatype PktType = ClassA | ClassB | ClassC | Beacon

  datatype JitError = Ok | TooLate | TooEarly | Full | Empty | CollisionPacket | CollisionBeacon | Invalid

  datatype Node = Node(pkt: TxPacket, pktType: PktType, preDelay: uint32, postDelay: uint32)

  /** A slot cleared by memset. */
  const ZERO_NODE: Node :=
    Node(TxPacket(0, 0, 0, 0, 0, 0, 0, 0, 0, 0, false, 0, 0, false, false, 0, seq(256, _ => 0)), ClassA, 0, 0)

  /** The live part of the queue. */
  datatype Queue = Queue(nodes: seq<Node>, numBeacon: uint8)

  function CountOf(n: Node): uint32 { n.pkt.countUs }

  predicate Collides(c1: uint32, pre1: uint32, post1: uint32, c2: uint32, pre2: uint32, post2: uint32) {
    || Sub(c1, c2) <= Add(Add(pre1, post2), TX_MARGIN_DELAY)
    || Sub(c2, c1) <= Add(Add(pre2, post1), TX_MARGIN_DELAY)
  }

  function PreDelay(t: PktType): uint32 {
    if t.Beacon? then TX_START_DELAY + BEACON_GUARD + TX_JIT_DELAY else TX_START_DELAY + TX_JIT_DELAY
  }

  function PostDelay(p: TxPacket, t: PktType): uint32 {
    if t.Beacon? then BEACON_RESERVED else DownlinkPostDelay(p)
  }

  /* ---- Enqueue ---- */

  predicate CollidesWith(c: uint32, pre: uint32, post: uint32, n: Node) {
    Collides(c, pre, post, CountOf(n), n.preDelay, n.postDelay)
  }

  /** The ASAP slot right behind a queued packet. */
  function SlotAfter(n: Node, pre: uint32): uint32 {
    Add(Add(Add(Add(CountOf(n), n.postDelay), pre), TX_JIT_DELAY), TX_MARGIN_DELAY)
  }

  /** The slot chosen from index `i` on: behind the first packet whose slot misses the next packet, else the last. */
  function SearchSlot(s: seq<Node>, i: nat, pre: uint32, post: uint32): uint32
    requires i < |s|
    decreases |s| - i
  {
    var asap := SlotAfter(s[i], pre);
    if i == |s| - 1 || !CollidesWith(asap, pre, post, s[i + 1]) then asap
    else SearchSlot(s, i + 1, pre, post)
  }

  /** The timestamp an immediate downlink is given. */
  function AsapCount(s: seq<Node>, time: uint32, pre: uint32, post: uint32): uint32 {
    var asap := Add(time, 2 * TX_JIT_DELAY);
    if exists i :: 0 <= i < |s| && CollidesWith(asap, pre, post, s[i]) then SearchSlot(s, 0, pre, post)
    else asap
  }

  /** Class A and C downlinks ignore the guard interval of a queued beacon. */
  function TargetPreDelay(t: PktType, n: Node): uint32 {
    if (t.ClassA? || t.ClassC?) && n.pktType.Beacon? then TX_START_DELAY else n.preDelay
  }

  predicate Blocks(n: Node, c: uint32, t: PktType, post: uint32) {
    Collides(c, PreDelay(t), post, CountOf(n), TargetPreDelay(t, n), n.postDelay)
  }

  /** The first node from `i` on that blocks the packet, or the number of nodes. */
  function FirstBlocker(s: seq<Node>, i: nat, c: uint32, t: PktType, post: uint32): (r: nat)
    requires i <= |s|
    ensures i <= r <= |s|
    ensures forall j :: i <= j < r ==> !Blocks(s[j], c, t, post)
    ensures r < |s| ==> Blocks(s[r], c, t, post)
    decreases |s| - i
  {
    if i == |s| || Blocks(s[i], c, t, post) then i else FirstBlocker(s, i + 1, c, t, post)
  }

  /** The packet as the acceptance checks see it: an immediate downlink has become a timestamped one. */
  function Stamped(s: seq<Node>, time: uint32, p: TxPacket, t: PktType): TxPacket {
    if t.ClassC? then p.(txMode := TIMESTAMPED, countUs := AsapCount(s, time, PreDelay(t), PostDelay(p, t))) else p
  }

  /** Stamping an immediate downlink does not change how long it is on air. */
  lemma {:induction false} StampedPostDelay(s: seq<Node>, time: uint32, p: TxPacket, t: PktType)
    ensures PostDelay(Stamped(s, time, p, t), t) == PostDelay(p, t)
  {
    if t.ClassC? {
      var q := Stamped(s, time, p, t);
      assert EmissionUs(q) == EmissionUs(p);
    }
  }

  /** The three acceptance criteria, in the order they are checked. */
  function Admit(s: seq<Node>, time: uint32, p: TxPacket, t: PktType): JitError {
    var ahead := Sub(p.countUs, time);
    if ahead <= TX_START_DELAY + TX_MARGIN_DELAY + TX_JIT_DELAY then TooLate
    else if (t.ClassA? || t.ClassB?) && ahead > TX_MAX_ADVANCE_DELAY then TooEarly
    else
      var b := FirstBlocker(s, 0, p.countUs, t, PostDelay(p, t));
      if b == |s| then Ok
      else if s[b].pktType.Beacon? then CollisionBeacon else CollisionPacket
  }

  function NodeFor(p: TxPacket, t: PktType): Node {
    Node(p, t, PreDelay(t), PostDelay(p, t))
  }

  /** What `jit_enqueue` returns, and the packet as it leaves it to the caller. */
  function EnqueueResult(s: seq<Node>, time: uint32, packet: Option<TxPacket>, t: PktType): (JitError, Option<TxPacket>)
  {
    if packet.None? then (Invalid, packet)
    else if |s| == JIT_QUEUE_MAX then (Full, packet)
    else
      var p := Stamped(s, time, packet.value, t);
      (Admit(s, time, p, t), Some(p))
  }

  /** One `jit_enqueue`: an accepted packet is appended and the queue sorted, a refused one changes nothing. */
  ghost predicate EnqueueRel(
    q: Queue, time: uint32, packet: Option<TxPacket>, t: PktType, err: JitError, packet': Option<TxPacket>, q': Queue)
  {
    && (err, packet') == EnqueueResult(q.nodes, time, packet, t)
    && if err.Ok? then
         && IsSortOf(q'.nodes, q.nodes + [NodeFor(packet'.value, t)], CountOf)
         && q'.numBeacon == if t.Beacon? then (q.numBeacon + 1) % 256 else q.numBeacon
       else q' == q
  }

  /* ---- Dequeue ---- */

  function BeaconsWithout(q: Queue, k: nat): uint8
    requires k < |q.nodes|
  {
    if q.nodes[k].pktType.Beacon? then (q.numBeacon - 1) % 256 else q.numBeacon
  }

  /** Node `k` leaves the queue: the last node takes its place and the queue is sorted again. */
  ghost predicate Removed(q: Queue, k: nat, q': Queue)
    requires k < |q.nodes|
  {
    && IsSortOf(q'.nodes, SwapRemove(q.nodes, k), CountOf)
    && |q'.nodes| == |q.nodes| - 1
    && q'.numBeacon == BeaconsWithout(q, k)
  }

  /** One `jit_dequeue` with an index inside the queue, or refused. */
  ghost predicate DequeueRel(q: Queue, index: int, err: JitError, out: Option<Node>, q': Queue) {
    if !(0 <= index < JIT_QUEUE_MAX) then err == Invalid && out == None && q' == q
    else if q.nodes == [] then err == Empty && out == None && q' == q
    else index < |q.nodes| && err == Ok && out == Some(q.nodes[index]) && Removed(q, index, q')
  }

  /* ---- Peek ---- */

  /** A packet whose time has passed, or that lies implausibly far ahead. */
  predicate Outdated(n: Node, time: uint32) {
    Sub(CountOf(n), time) >= TX_MAX_ADVANCE_DELAY
  }

  /** What the scan reads at an index that may lie past the live nodes: cleared slots hold a zero timestamp. */
  function CountAt(s: seq<Node>, k: nat): uint32 {
    if k < |s| then CountOf(s[k]) else 0
  }

  function Closest(s: seq<Node>, i: nat, best: int, time: uint32): int
    requires i < |s| && best >= -1
  {
    if best == -1 || Sub(CountOf(s[i]), time) < Sub(CountAt(s, best), time) then i else best
  }

  function Chosen(s: seq<Node>, best: int, time: uint32): int
    requires best >= -1
  {
    if best != -1 && Sub(CountAt(s, best), time) < TX_JIT_DELAY then best else -1
  }

  /** The scan of `jit_peek` from index `i` on, with `best` the closest packet so far. A purge restarts the scan, and
      the loop increment then makes it resume at index 1. */
  ghost predicate PeekLoop(q: Queue, i: nat, best: int, time: uint32, q': Queue, idx: int)
    requires best >= -1
    decreases |q.nodes|, |q.nodes| - i
  {
    if i >= |q.nodes| then q' == q && idx == Chosen(q.nodes, best, time)
    else if Outdated(q.nodes[i], time) then
      exists r :: Removed(q, i, r) && PeekLoop(r, 1, best, time, q', idx)
    else PeekLoop(q, i + 1, Closest(q.nodes, i, best, time), time, q', idx)
  }

  /** One `jit_peek`; on an empty queue the caller's index is left alone. */
  ghost predicate PeekRel(q: Queue, time: uint32, index: int, err: JitError, q': Queue, index': int) {
    if q.nodes == [] then err == Empty && q' == q && index' == index
    else err == Ok && PeekLoop(q, 0, -1, time, q', index')
  }

  /* ---- The queue in place ---- */

  class JitQueue {
    var numPkt: uint8
    var numBeacon: uint8
    const nodes: array<Node>

    /** The slots past the live nodes are cleared. */
    ghost predicate Valid()
      reads this, nodes
    {
      && nodes.Length == JIT_QUEUE_MAX
      && numPkt <= JIT_QUEUE_MAX
      && forall i :: numPkt <= i < JIT_QUEUE_MAX ==> nodes[i] == ZERO_NODE
    }

    ghost function Model(): Queue
      reads this, nodes
      requires Valid()
    {
      Queue(nodes[..numPkt], numBeacon)
    }

    constructor ()
      ensures Valid() && fresh(nodes)
      ensures Model() == Queue([], 0)
    {
      nodes := new Node[JIT_QUEUE_MAX](_ => ZERO_NODE);
      numPkt, numBeacon := 0, 0;
    }

    method Init()
      requires nodes.Length == JIT_QUEUE_MAX
      modifies this, nodes
      ensures Valid()
      ensures Model() == Queue([], 0)
    {
      forall i | 0 <= i < nodes.Length {
        nodes[i] := ZERO_NODE;
      }
      numPkt, numBeacon := 0, 0;
    }

    /** The slot search for an immediate downlink. */
    method FindAsap(time: uint32, pre: uint32, post: uint32) returns (asap: uint32)
      requires Valid()
      ensures asap == AsapCount(nodes[..numPkt], time, pre, post)
    {
      ghost var s := nodes[..numPkt];
      asap := Add(time, 2 * TX_JIT_DELAY);
      var i := 0;
      while i < numPkt && !CollidesWith(asap, pre, post, nodes[i])
        invariant 0 <= i <= numPkt
        invariant forall j :: 0 <= j < i ==> !CollidesWith(asap, pre, post, s[j])
      {
        i := i + 1;
      }
      if i < numPkt {
        assert CollidesWith(asap, pre, post, s[i]);
        i := 0;
        while i < numPkt
          invariant 0 <= i < numPkt
          invariant SearchSlot(s, 0, pre, post) == SearchSlot(s, i, pre, post)
          decreases numPkt - i
        {
          asap := SlotAfter(nodes[i], pre);
          if i == numPkt - 1 || !CollidesWith(asap, pre, post, nodes[i + 1]) {
            break;
          }
          assert s[i + 1] == nodes[i + 1];
          i := i + 1;
        }
      }
    }

    method FindBlocker(c: uint32, t: PktType, post: uint32) returns (i: nat)
      requires Valid()
      ensures i == FirstBlocker(nodes[..numPkt], 0, c, t, post)
    {
      ghost var s := nodes[..numPkt];
      i := 0;
      while i < numPkt && !Blocks(nodes[i], c, t, post)
        invariant 0 <= i <= numPkt
        invariant FirstBlocker(s, 0, c, t, post) == FirstBlocker(s, i, c, t, post)
      {
        i := i + 1;
      }
    }

    method Enqueue(time: uint32, packet: Option<TxPacket>, t: PktType)
      returns (err: JitError, packet': Option<TxPacket>)
      requires Valid()
      modifies this, nodes
      ensures Valid()
      ensures EnqueueRel(old(Model()), time, packet, t, err, packet', Model())
    {
      packet' := packet;
      if packet.None? {
        return Invalid, packet';
      }
      if numPkt == JIT_QUEUE_MAX {
        return Full, packet';
      }
      var pre, post := PreDelay(t), PostDelay(packet.value, t);
      var p := Stamp(time, packet.value, t, pre, post);
      packet' := Some(p);
      err := Check(time, p, t, post);
      if err.Ok? {
        Append(Node(p, t, pre, post));
      }
    }

    /** An immediate downlink becomes a timestamped one. */
    method Stamp(time: uint32, packet: TxPacket, t: PktType, pre: uint32, post: uint32) returns (p: TxPacket)
      requires Valid() && pre == PreDelay(t) && post == PostDelay(packet, t)
      ensures p == Stamped(nodes[..numPkt], time, packet, t) && PostDelay(p, t) == post
    {
      p := packet;
      if t.ClassC? {
        var asap := FindAsap(time, pre, post);
        p := p.(txMode := TIMESTAMPED, countUs := asap);
      }
      StampedPostDelay(nodes[..numPkt], time, packet, t);
    }

    /** The acceptance criteria. */
    method Check(time: uint32, p: TxPacket, t: PktType, post: uint32) returns (err: JitError)
      requires Valid() && post == PostDelay(p, t)
      ensures err == Admit(nodes[..numPkt], time, p, t)
    {
      if Sub(p.countUs, time) <= TX_START_DELAY + TX_MARGIN_DELAY + TX_JIT_DELAY {
        return TooLate;
      }
      if (t.ClassA? || t.ClassB?) && Sub(p.countUs, time) > TX_MAX_ADVANCE_DELAY {
        return TooEarly;
      }
      var b := FindBlocker(p.countUs, t, post);
      if b < numPkt {
        return if nodes[b].pktType.Beacon? then CollisionBeacon else CollisionPacket;
      }
      return Ok;
    }

    method Append(n: Node)
      requires Valid() && numPkt < JIT_QUEUE_MAX
      modifies this, nodes
      ensures Valid()
      ensures IsSortOf(nodes[..numPkt], old(nodes[..numPkt]) + [n], CountOf)
      ensures numBeacon == if n.pktType.Beacon? then (old(numBeacon) + 1) % 256 else old(numBeacon)
    {
      nodes[numPkt] := n;
      if n.pktType.Beacon? {
        numBeacon := (numBeacon + 1) % 256;
      }
      numPkt := numPkt + 1;
      assert nodes[..numPkt] == old(nodes[..numPkt]) + [n];
      Sort();
    }

    method Sort()
      requires Valid()
      modifies nodes
      ensures Valid()
      ensures IsSortOf(nodes[..numPkt], old(nodes[..numPkt]), CountOf)
    {
      QSort(nodes, numPkt, CountOf);
      forall i | numPkt <= i < JIT_QUEUE_MAX ensures nodes[i] == ZERO_NODE {
        assert nodes[i] == nodes[numPkt..][i - numPkt] == old(nodes[numPkt..])[i - numPkt];
      }
    }

    /** Dropping node `k`, as both `jit_dequeue` and the purge of `jit_peek` do it. */
    method Drop(k: nat)
      requires Valid() && k < numPkt
      modifies this, nodes
      ensures Valid()
      ensures Removed(old(Model()), k, Model())
    {
      ghost var q := Model();
      numPkt := numPkt - 1;
      if nodes[k].pktType.Beacon? {
        numBeacon := (numBeacon - 1) % 256;
      }
      nodes[k] := nodes[numPkt];
      nodes[numPkt] := ZERO_NODE;
      assert nodes[..numPkt] == SwapRemove(q.nodes, k);
      Sort();
    }

    /** With an index past the live nodes the source hands out a cleared slot, moves the last node there and thereby
        loses it: the queue is then no longer `Valid`. Callers must pass an index that `Peek` returned. */
    method Dequeue(index: int) returns (err: JitError, out: Option<Node>)
      requires Valid()
      modifies this, nodes
      ensures !(old(numPkt) <= index < JIT_QUEUE_MAX) || old(numPkt) == 0 ==>
                Valid() && DequeueRel(old(Model()), index, err, out, Model())
      ensures 0 < old(numPkt) <= index < JIT_QUEUE_MAX ==>
                && err == Ok && out == Some(ZERO_NODE)
                && numPkt == old(numPkt) - 1 && numBeacon == old(numBeacon)
                && IsSortOf(nodes[..numPkt], old(nodes[..numPkt - 1]), CountOf)
                && nodes[index] == old(nodes[numPkt - 1])
                && forall i :: numPkt <= i < JIT_QUEUE_MAX && i != index ==> nodes[i] == ZERO_NODE
    {
      if index < 0 || index >= JIT_QUEUE_MAX {
        return Invalid, None;
      }
      if numPkt == 0 {
        return Empty, None;
      }
      out := Some(nodes[index]);
      if index < numPkt {
        Drop(index);
      } else {
        numPkt := numPkt - 1;
        nodes[index] := nodes[numPkt];
        nodes[numPkt] := ZERO_NODE;
        label moved:
        assert nodes[..numPkt] == old(nodes[..numPkt - 1]);
        QSort(nodes, numPkt, CountOf);
        forall i | numPkt <= i < JIT_QUEUE_MAX ensures nodes[i] == old@moved(nodes[i]) {
          assert nodes[i] == nodes[numPkt..][i - numPkt] == old@moved(nodes[numPkt..])[i - numPkt];
        }
      }
      return Ok, out;
    }

    method Peek(time: uint32, index: int) returns (err: JitError, index': int)
      requires Valid()
      modifies this, nodes
      ensures Valid()
      ensures PeekRel(old(Model()), time, index, err, Model(), index')
    {
      if numPkt == 0 {
        return Empty, index;
      }
      ghost var q := Model();
      var i, best := 0, -1;
      while i < numPkt
        invariant Valid() && 0 <= i && -1 <= best < JIT_QUEUE_MAX
        invariant forall q', r :: PeekLoop(Model(), i, best, time, q', r) ==> PeekLoop(q, 0, -1, time, q', r)
        decreases numPkt, numPkt - i
      {
        ghost var m := Model();
        if Outdated(nodes[i], time) {
          Drop(i);
          assert Removed(m, i, Model());
          i := 1;
        } else {
          assert best != -1 ==> nodes[best].pkt.countUs == CountAt(m.nodes, best);
          if best == -1 || Sub(nodes[i].pkt.countUs, time) < Sub(nodes[best].pkt.countUs, time) {
            best := i;
          }
          i := i + 1;
        }
      }
      if best != -1 && Sub(nodes[best].pkt.countUs, time) < TX_JIT_DELAY {
        index' := best;
      } else {
        index' := -1;
      }
      assert PeekLoop(Model(), i, best, time, Model(), index');
      return Ok, index';
    }
  }
}
