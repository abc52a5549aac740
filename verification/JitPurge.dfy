/** The exact law of `jit_peek` on an ordered queue: which packets it purges and which one it hands over, for every
    number of outdated packets. The restart of the scan at index 1 makes it depend on how many are late. */
module JitPurge {
  import opened Word32
  import opened CountSort
  import opened JitQueue
  import opened JitSeparation
  import opened JitPeek

  /** `m` outdated packets, then `n` plausible ones, then only outdated ones again: in true time the first are late and
      the last too far ahead. */
  ghost predicate Split(s: seq<Node>, m: nat, n: nat, time: uint32) {
    && m + n <= |s| && (n == 0 ==> m == |s|)
    && (forall j :: 0 <= j < m ==> Outdated(s[j], time))
    && (forall j :: m <= j < m + n ==> !Outdated(s[j], time))
    && forall j :: m + n <= j < |s| ==> Outdated(s[j], time)
  }

  predicate IsDue(n: Node, time: uint32) {
    Sub(CountOf(n), time) < TX_JIT_DELAY
  }

  /* ---- Every ordered queue splits ---- */

  /** What follows a packet too far ahead, itself behind a plausible one, is too far ahead as well. */
  lemma {:induction false} FarBehindFar(s: seq<Node>, i: nat, j: nat, k: nat, time: uint32)
    requires Ordered(s, CountOf) && i < j < k < |s|
    requires !Outdated(s[i], time) && Outdated(s[j], time)
    ensures Outdated(s[k], time)
  {
    assert 0 < Sub(CountOf(s[j]), CountOf(s[i])) < TWO31 && 0 < Sub(CountOf(s[k]), CountOf(s[j])) < TWO31;
    assert 0 < Sub(CountOf(s[k]), CountOf(s[i])) < TWO31;
  }

  /** The plausible packets of an ordered queue are contiguous. */
  lemma {:induction false} SplitExists(s: seq<Node>, time: uint32) returns (m: nat, n: nat)
    requires Ordered(s, CountOf)
    ensures Split(s, m, n, time)
  {
    m, n := 0, 0;
    while m < |s| && Outdated(s[m], time)
      invariant m <= |s|
      invariant forall j :: 0 <= j < m ==> Outdated(s[j], time)
    {
      m := m + 1;
    }
    while m + n < |s| && !Outdated(s[m + n], time)
      invariant m + n <= |s|
      invariant forall j :: m <= j < m + n ==> !Outdated(s[j], time)
    {
      n := n + 1;
    }
    forall k | m + n <= k < |s| ensures Outdated(s[k], time) {
      if m + n < k {
        FarBehindFar(s, m, m + n, k, time);
      }
    }
  }

  /* ---- The scan as a function ---- */

  function Without(s: seq<Node>, i: nat): seq<Node>
    requires i < |s|
  {
    s[..i] + s[i + 1..]
  }

  /** The scan of an ordered queue: a purge deletes packet `i`, and the scan resumes at index 1. */
  function Scan(s: seq<Node>, i: nat, best: int, time: uint32): (seq<Node>, int)
    requires best >= -1
    decreases |s|, |s| - i
  {
    if i >= |s| then (s, Chosen(s, best, time))
    else if Outdated(s[i], time) then Scan(Without(s, i), 1, best, time)
    else Scan(s, i + 1, Closest(s, i, best, time), time)
  }

  /** On an ordered queue the overwriting, clearing and sorting of the source leaves `jit_peek` no freedom. */
  lemma {:induction false} PeekIsScan(q: Queue, i: nat, best: int, time: uint32, q': Queue, idx: int)
    requires best >= -1 && Ordered(q.nodes, CountOf) && PeekLoop(q, i, best, time, q', idx)
    ensures (q'.nodes, idx) == Scan(q.nodes, i, best, time)
    decreases |q.nodes|, |q.nodes| - i
  {
    if i < |q.nodes| {
      if Outdated(q.nodes[i], time) {
        var r :| Removed(q, i, r) && PeekLoop(r, 1, best, time, q', idx);
        RemoveSorts(r.nodes, q.nodes, i, CountOf);
        PeekIsScan(r, 1, best, time, q', idx);
      } else {
        PeekIsScan(q, i + 1, Closest(q.nodes, i, best, time), time, q', idx);
      }
    }
  }

  /** From index `o` on, `n` plausible packets and then only outdated ones. */
  ghost predicate Near(s: seq<Node>, o: nat, n: nat, time: uint32) {
    && o <= 1 && (o == 0 ==> n >= 1) && o + n <= |s|
    && (forall j :: o <= j < o + n ==> !Outdated(s[j], time))
    && forall j :: o + n <= j < |s| ==> Outdated(s[j], time)
  }

  lemma {:induction false} NearWithout(s: seq<Node>, o: nat, n: nat, time: uint32)
    requires Near(s, o, n, time) && o + n < |s| && Ordered(s, CountOf)
    ensures var r := Without(s, o + n);
            Near(r, o, n, time) && Ordered(r, CountOf) && r[..o + n] == s[..o + n] && (n >= 1 ==> r[o] == s[o])
  {
    RemoveOrdered(s, o + n, CountOf);
    var r := Without(s, o + n);
    forall j | o + n <= j < |r| ensures Outdated(r[j], time) {
      assert r[j] == s[j + 1];
    }
  }

  /** Over the plausible packets the scan keeps its first candidate. */
  lemma {:induction false} WalkNear(s: seq<Node>, o: nat, n: nat, time: uint32, i: nat)
    requires Near(s, o, n, time) && Ordered(s, CountOf) && n >= 1 && o <= i <= o + n
    ensures Scan(s, i, o, time) == Scan(s, o + n, o, time)
    decreases o + n - i
  {
    if i < o + n {
      if o < i {
        CloserFirst(s, o, i, time);
      }
      assert Closest(s, i, o, time) == o;
      WalkNear(s, o, n, time, i + 1);
    }
  }

  /** Packets too far ahead are purged one after the other, the candidate staying where it is. */
  lemma {:induction false} PurgeFar(s: seq<Node>, o: nat, n: nat, time: uint32, best: int)
    requires Near(s, o, n, time) && Ordered(s, CountOf) && best == if n >= 1 then o else -1
    ensures Scan(s, o + n, best, time) == (s[..o + n], Chosen(s, best, time))
    decreases |s|
  {
    if o + n == |s| {
      assert s[..o + n] == s;
    } else {
      NearWithout(s, o, n, time);
      var r := Without(s, o + n);
      assert Scan(s, o + n, best, time) == Scan(r, 1, best, time);
      if n >= 1 {
        WalkNear(r, o, n, time, 1);
      }
      PurgeFar(r, o, n, time, best);
    }
  }

  /** The scan from index 0 or 1 with nothing late ahead of it. */
  lemma {:induction false} NearScan(s: seq<Node>, o: nat, n: nat, time: uint32)
    requires Near(s, o, n, time) && Ordered(s, CountOf)
    ensures Scan(s, o, -1, time) == (s[..o + n], if n >= 1 && IsDue(s[o], time) then o else -1)
  {
    if n >= 1 {
      assert Scan(s, o, -1, time) == Scan(s, o + 1, o, time);
      WalkNear(s, o, n, time, o + 1);
    }
    PurgeFar(s, o, n, time, if n >= 1 then o else -1);
  }

  lemma {:induction false} WithoutSecond(s: seq<Node>, k: nat, time: uint32)
    requires 1 <= k && 1 + k <= |s|
    requires forall j :: 1 <= j < 1 + k ==> Outdated(s[j], time)
    ensures var r := Without(s, 1);
            r[..1] == s[..1] && r[k..] == s[1 + k..] && forall j :: 1 <= j < k ==> Outdated(r[j], time)
  {
    var r := Without(s, 1);
    forall j | 1 <= j < k ensures Outdated(r[j], time) {
      assert r[j] == s[j + 1];
    }
  }

  /** Late packets behind index 0 are purged one after the other. */
  lemma {:induction false} PurgeLate(s: seq<Node>, k: nat, time: uint32)
    requires 1 + k <= |s| && forall j :: 1 <= j < 1 + k ==> Outdated(s[j], time)
    ensures Scan(s, 1, -1, time) == Scan(s[..1] + s[1 + k..], 1, -1, time)
    decreases k
  {
    if k == 0 {
      assert s == s[..1] + s[1..];
    } else {
      WithoutSecond(s, k, time);
      PurgeLate(Without(s, 1), k - 1, time);
    }
  }

  /* ---- The law ---- */

  /** What a peek leaves of a queue that splits at `m` and `m + n`: all plausible packets, and the second of several
      late ones. */
  function Left(s: seq<Node>, m: nat, n: nat): seq<Node>
    requires m + n <= |s|
  {
    (if m >= 2 then [s[1]] else []) + s[m..m + n]
  }

  /** The index it hands over: it looks at the first plausible packet, except that after purging a single late one it
      looks at the second. */
  function HandedOver(s: seq<Node>, m: nat, n: nat, time: uint32): int
    requires m + n <= |s|
  {
    if m == 0 then (if n >= 1 && IsDue(s[0], time) then 0 else -1)
    else if m == 1 then (if n >= 2 && IsDue(s[2], time) then 1 else -1)
    else if n >= 1 && IsDue(s[m], time) then 1 else -1
  }

  lemma {:induction false} NoneLate(s: seq<Node>, n: nat, time: uint32)
    requires Ordered(s, CountOf) && Split(s, 0, n, time) && s != []
    ensures Scan(s, 0, -1, time) == (Left(s, 0, n), HandedOver(s, 0, n, time))
  {
    BehindNone(s, n, time);
    NearScan(s, 0, n, time);
  }

  lemma {:induction false} BehindNone(s: seq<Node>, n: nat, time: uint32)
    requires Split(s, 0, n, time) && s != []
    ensures Near(s, 0, n, time) && Left(s, 0, n) == s[..n]
  {
  }

  lemma {:induction false} BehindOne(s: seq<Node>, n: nat, time: uint32)
    requires Ordered(s, CountOf) && Split(s, 1, n, time) && n >= 1
    ensures Ordered(s[1..], CountOf) && Near(s[1..], 1, n - 1, time) && Left(s, 1, n) == s[1..][..n]
  {
  }

  lemma {:induction false} OneLate(s: seq<Node>, n: nat, time: uint32)
    requires Ordered(s, CountOf) && Split(s, 1, n, time)
    ensures Scan(s, 0, -1, time) == (Left(s, 1, n), HandedOver(s, 1, n, time))
  {
    assert Without(s, 0) == s[1..];
    if n >= 1 {
      BehindOne(s, n, time);
      NearScan(s[1..], 1, n - 1, time);
    } else {
      assert Scan(s[1..], 1, -1, time) == ([], -1) && Left(s, 1, n) == [];
    }
  }

  /** What follows several late packets, once only the second of them is left in front. */
  lemma {:induction false} BehindSeveral(s: seq<Node>, r: seq<Node>, m: nat, n: nat, time: uint32)
    requires Ordered(s, CountOf) && m >= 2 && Split(s, m, n, time) && r == [s[1]] + s[m..]
    ensures Ordered(r, CountOf) && Near(r, 1, n, time) && Left(s, m, n) == r[..1 + n]
  {
    forall j | 1 <= j < |r| ensures r[j] == s[m + j - 1] {
    }
  }

  lemma {:induction false} PurgeSeveral(s: seq<Node>, m: nat, n: nat, time: uint32)
    requires m >= 2 && Split(s, m, n, time)
    ensures Scan(s, 0, -1, time) == Scan([s[1]] + s[m..], 1, -1, time)
  {
    var r := s[1..];
    assert Without(s, 0) == r;
    PurgeLate(r, m - 2, time);
    assert r[..1] + r[m - 1..] == [s[1]] + s[m..];
  }

  lemma {:induction false} SeveralLate(s: seq<Node>, m: nat, n: nat, time: uint32)
    requires Ordered(s, CountOf) && m >= 2 && Split(s, m, n, time)
    ensures Scan(s, 0, -1, time) == (Left(s, m, n), HandedOver(s, m, n, time))
  {
    PurgeSeveral(s, m, n, time);
    BehindSeveral(s, [s[1]] + s[m..], m, n, time);
    NearScan([s[1]] + s[m..], 1, n, time);
  }

  /** The whole effect of a peek on any ordered queue; `SplitExists` says that there is always an `m` and an `n`. */
  lemma {:induction false} PeekExactly(q: Queue, m: nat, n: nat, time: uint32, q': Queue, idx: int)
    requires PeekLoop(q, 0, -1, time, q', idx) && q.nodes != []
    requires Ordered(q.nodes, CountOf) && Split(q.nodes, m, n, time)
    ensures q'.nodes == Left(q.nodes, m, n)
    ensures idx == HandedOver(q.nodes, m, n, time)
  {
    PeekIsScan(q, 0, -1, time, q', idx);
    if m == 0 {
      NoneLate(q.nodes, n, time);
    } else if m == 1 {
      OneLate(q.nodes, n, time);
    } else {
      SeveralLate(q.nodes, m, n, time);
    }
  }

  /** The first plausible packet, when it is due, is handed over if and only if the number of late packets is not one. */
  lemma {:induction false} DueHandedOverIff(q: Queue, m: nat, n: nat, time: uint32, q': Queue, idx: int)
    requires PeekLoop(q, 0, -1, time, q', idx)
    requires Ordered(q.nodes, CountOf) && Split(q.nodes, m, n, time)
    requires n >= 1 && IsDue(q.nodes[m], time)
    ensures (0 <= idx < |q'.nodes| && q'.nodes[idx] == q.nodes[m]) <==> m != 1
  {
    PeekExactly(q, m, n, time, q', idx);
    if m == 1 && n >= 2 {
      assert Sub(CountOf(q.nodes[2]), CountOf(q.nodes[1])) > 0;
    }
  }

  lemma {:induction false} SecondNotClose(s: seq<Node>, i: nat, time: uint32)
    requires Ordered(s, CountOf) && AllSeparated(s) && AllWellFormed(s) && i + 1 < |s|
    requires !s[i].pktType.Beacon? && !s[i + 1].pktType.Beacon?
    requires !Outdated(s[i], time) && !Outdated(s[i + 1], time)
    ensures !IsDue(s[i + 1], time)
  {
    CloserFirst(s, i, i + 1, time);
    assert Separated(s[i], s[i + 1]);
  }

  /** When exactly one packet is late, a peek at separated downlinks hands over nothing, even when the next one is due:
      that one has to wait for the next peek. */
  lemma {:induction false} PurgeHidesNext(q: Queue, n: nat, time: uint32, q': Queue, idx: int)
    requires PeekLoop(q, 0, -1, time, q', idx)
    requires Ordered(q.nodes, CountOf) && AllSeparated(q.nodes) && AllWellFormed(q.nodes)
    requires forall i :: 0 <= i < |q.nodes| ==> !q.nodes[i].pktType.Beacon?
    requires Split(q.nodes, 1, n, time)
    ensures q'.nodes == q.nodes[1..1 + n] && idx == -1
  {
    PeekExactly(q, 1, n, time, q', idx);
    if n >= 2 {
      SecondNotClose(q.nodes, 1, time);
    }
  }

  /** One late packet at 10,000 us hides, at 100,000 us, the packet due 20 ms later. */
  lemma {:induction false} HiddenExample(a: Node, b: Node, q': Queue, idx: int)
    requires CountOf(a) == 10_000 && CountOf(b) == 120_000
    requires PeekLoop(Queue([a, b], 0), 0, -1, 100_000, q', idx)
    ensures q'.nodes == [b] && IsDue(b, 100_000) && idx == -1
  {
    PeekExactly(Queue([a, b], 0), 1, 1, 100_000, q', idx);
  }

  /** With two late packets, at 10,000 and 90,000 us, the second stays queued and the packet due 35 ms later is handed
      over. */
  lemma {:induction false} TwoLateExample(a: Node, b: Node, c: Node, q': Queue, idx: int)
    requires CountOf(a) == 10_000 && CountOf(b) == 90_000 && CountOf(c) == 135_000
    requires PeekLoop(Queue([a, b, c], 0), 0, -1, 100_000, q', idx)
    ensures q'.nodes == [b, c] && Outdated(b, 100_000) && idx == 1
  {
    PeekExactly(Queue([a, b, c], 0), 2, 1, 100_000, q', idx);
  }
}
