/** Removal of duplicate receptions in the HAL (libloragw/src/loragw_hal.c): a restarting double loop over an array, with
    removal by overwriting with the last packet. "Same packet" is not transitive, so what a removed packet has in common
    with the survivor it gave way to is a chain. */
module MergePackets {
  import opened Word32
  import opened CountSort

  const STAT_CRC_BAD: uint8 := 0x11
  const STAT_CRC_OK: uint8 := 0x10

  /** `payload` holds the `size` payload bytes. */
  datatype RxPkt = RxPkt(
    freqHz: uint32,
    freqOffset: int,
    ifChain: uint8,
    status: uint8,
    countUs: uint32,
    rfChain: uint8,
    modemId: uint8,
    modulation: uint8,
    bandwidth: uint8,
    datarate: uint32,
    coderate: uint8,
    rssic: real,
    rssis: real,
    snr: real,
    snrMin: real,
    snrMax: real,
    crc: uint16,
    payload: seq<uint8>,
    ftimeReceived: bool,
    ftime: uint32)

  function CountOf(p: RxPkt): uint32 { p.countUs }

  /** `abs` of the wrapped difference read as an int32_t is at most 24. */
  predicate CloseInTime(c1: uint32, c2: uint32) {
    Sub(c1, c2) <= 24 || Sub(c1, c2) >= TWO32 - 24
  }

  predicate Same(p: RxPkt, q: RxPkt) {
    CloseInTime(p.countUs, q.countUs) && p.ifChain == q.ifChain && p.datarate == q.datarate && p.payload == q.payload
  }

  /** Of two same packets, whether the one met second is the one to delete. */
  predicate DropsSecond(p: RxPkt, q: RxPkt) {
    if p.status == STAT_CRC_OK && q.status == STAT_CRC_BAD then true
    else if p.status == STAT_CRC_BAD && q.status == STAT_CRC_OK then false
    else p.ftimeReceived
  }

  /** `d` is deleted in favour of `e`: they are the same packet, and the preference rule picks `e` in one of the two
      orders in which they can be met. */
  predicate GivesWay(d: RxPkt, e: RxPkt) {
    Same(d, e) && (DropsSecond(e, d) || !DropsSecond(d, e))
  }

  lemma {:induction false} SameSymmetric(p: RxPkt, q: RxPkt)
    ensures Same(p, q) == Same(q, p)
  {
  }

  /** Two receptions of one packet: at most 24 us apart in true time, on the same channel, with the same datarate and
      payload. */
  ghost predicate OneReception(p: RxPkt, q: RxPkt) {
    && (exists t: int, u: int :: Wrap(t) == p.countUs && Wrap(u) == q.countUs && -24 <= t - u <= 24)
    && p.ifChain == q.ifChain && p.datarate == q.datarate && p.payload == q.payload
  }

  /** That is what the comparison of the wrapped counters means, across roll-over too. */
  lemma {:induction false} SameIff(p: RxPkt, q: RxPkt)
    ensures Same(p, q) <==> OneReception(p, q)
  {
    if CloseInTime(p.countUs, q.countUs) {
      var u := q.countUs;
      var d := Sub(p.countUs, q.countUs);
      var t := if d <= 24 then u + d else u + d - TWO32;
      assert Wrap(u) == u;
      assert Wrap(t) == p.countUs;
    }
    if OneReception(p, q) {
      var t: int, u: int :| Wrap(t) == p.countUs && Wrap(u) == q.countUs && -24 <= t - u <= 24;
      if u <= t {
        SubWrap(t, u);
      } else {
        SubWrap(u, t);
      }
    }
  }

  /* ---- Chains ---- */

  ghost predicate IsChain(path: seq<RxPkt>, input: multiset<RxPkt>) {
    && path != []
    && (forall i :: 0 <= i < |path| ==> path[i] in input)
    && forall i :: 0 <= i < |path| - 1 ==> GivesWay(path[i], path[i + 1])
  }

  /** From `x`, through packets of the input each giving way to the next, to `y`. */
  ghost predicate Linked(x: RxPkt, y: RxPkt, input: multiset<RxPkt>) {
    exists path :: IsChain(path, input) && path[0] == x && path[|path| - 1] == y
  }

  /** Every packet of the input is linked to a survivor. */
  ghost predicate AllLinked(input: multiset<RxPkt>, s: seq<RxPkt>) {
    forall x :: x in input ==> exists y :: y in s && Linked(x, y, input)
  }

  ghost predicate NoneSame(s: seq<RxPkt>) {
    forall i, j :: 0 <= i < j < |s| ==> !Same(s[i], s[j])
  }

  lemma {:induction false} LinkedSelf(x: RxPkt, input: multiset<RxPkt>)
    requires x in input
    ensures Linked(x, x, input)
  {
    assert IsChain([x], input);
  }

  lemma {:induction false} LinkedStep(x: RxPkt, d: RxPkt, e: RxPkt, input: multiset<RxPkt>)
    requires Linked(x, d, input) && GivesWay(d, e) && e in input
    ensures Linked(x, e, input)
  {
    var path :| IsChain(path, input) && path[0] == x && path[|path| - 1] == d;
    assert IsChain(path + [e], input);
  }

  /** With only good and bad CRCs, what a packet with a good CRC gives way to has a good CRC as well. */
  lemma {:induction false} ChainKeepsCrc(path: seq<RxPkt>, input: multiset<RxPkt>, i: nat)
    requires IsChain(path, input) && i < |path|
    requires forall x :: x in input ==> x.status == STAT_CRC_OK || x.status == STAT_CRC_BAD
    requires path[0].status == STAT_CRC_OK
    ensures path[i].status == STAT_CRC_OK
  {
    if i > 0 {
      ChainKeepsCrc(path, input, i - 1);
      assert GivesWay(path[i - 1], path[i]);
      assert path[i] in input;
    }
  }

  lemma {:induction false} SurvivorKeepsCrc(x: RxPkt, y: RxPkt, input: multiset<RxPkt>)
    requires Linked(x, y, input)
    requires forall z :: z in input ==> z.status == STAT_CRC_OK || z.status == STAT_CRC_BAD
    requires x.status == STAT_CRC_OK
    ensures y.status == STAT_CRC_OK
  {
    var path :| IsChain(path, input) && path[0] == x && path[|path| - 1] == y;
    ChainKeepsCrc(path, input, |path| - 1);
  }

  /** Every good packet of the input is linked to a good survivor. */
  ghost predicate GoodLinked(input: multiset<RxPkt>, s: seq<RxPkt>) {
    forall x :: x in input && x.status == STAT_CRC_OK ==>
      exists y :: y in s && Linked(x, y, input) && y.status == STAT_CRC_OK
  }

  /** So among what is left, every packet of the input with a good CRC is represented by one with a good CRC. */
  lemma {:induction false} GoodCrcSurvives(s: seq<RxPkt>, input: multiset<RxPkt>)
    requires Represents(s, input)
    requires forall z :: z in input ==> z.status == STAT_CRC_OK || z.status == STAT_CRC_BAD
    ensures GoodLinked(input, s)
  {
    forall x | x in input && x.status == STAT_CRC_OK
      ensures exists y :: y in s && Linked(x, y, input) && y.status == STAT_CRC_OK
    {
      var y :| y in s && Linked(x, y, input);
      SurvivorKeepsCrc(x, y, input);
    }
  }

  /** Where the CRC does not decide, a fine timestamp does: it is never lost along a chain. */
  lemma {:induction false} ChainKeepsFineTime(path: seq<RxPkt>, input: multiset<RxPkt>, i: nat)
    requires IsChain(path, input) && i < |path|
    requires forall x, y :: x in input && y in input ==> x.status == y.status
    requires path[0].ftimeReceived
    ensures path[i].ftimeReceived
  {
    if i > 0 {
      ChainKeepsFineTime(path, input, i - 1);
      assert GivesWay(path[i - 1], path[i]);
      assert path[i - 1] in input && path[i] in input;
    }
  }

  /** The exact step at which a good CRC can be lost: a packet with a good CRC can give way to one without, if and only
      if that one's CRC was not found bad either. */
  lemma {:induction false} GoodGivesWayIff(q: RxPkt)
    requires q.status != STAT_CRC_OK
    ensures (exists p: RxPkt :: p.status == STAT_CRC_OK && GivesWay(p, q)) <==> q.status != STAT_CRC_BAD
  {
    if q.status != STAT_CRC_BAD {
      assert GivesWay(q.(status := STAT_CRC_OK, ftimeReceived := false), q);
    }
  }

  /* ---- One removal ---- */

  /** Packets still held: part of the input, and everything in the input linked to one of them. */
  ghost predicate Represents(s: seq<RxPkt>, input: multiset<RxPkt>) {
    multiset(s) <= input && AllLinked(input, s)
  }

  lemma {:induction false} RemovalMembers(s: seq<RxPkt>, d: nat, e: nat)
    requires d < |s| && e < |s| && d != e
    ensures s[e] in SwapRemove(s, d)
    ensures forall y :: y in s ==> y in SwapRemove(s, d) || y == s[d]
  {
    var r := SwapRemove(s, d);
    forall i | 0 <= i < |s| && i != d ensures s[i] in r {
      assert s[i] == if i == |s| - 1 then r[d] else r[i];
    }
  }

  lemma {:induction false} Relink(x: RxPkt, s: seq<RxPkt>, r: seq<RxPkt>, d: RxPkt, e: RxPkt, input: multiset<RxPkt>)
    requires exists y :: y in s && Linked(x, y, input)
    requires forall y :: y in s ==> y in r || y == d
    requires e in r && e in input && GivesWay(d, e)
    ensures exists y :: y in r && Linked(x, y, input)
  {
    var y :| y in s && Linked(x, y, input);
    if y !in r {
      LinkedStep(x, d, e, input);
    }
  }

  lemma {:induction false} RemovalKeepsLinks(s: seq<RxPkt>, d: nat, e: nat, input: multiset<RxPkt>)
    requires Represents(s, input)
    requires d < |s| && e < |s| && d != e && GivesWay(s[d], s[e])
    ensures Represents(SwapRemove(s, d), input)
  {
    var r := SwapRemove(s, d);
    RemovalMembers(s, d, e);
    assert multiset(r) <= input by {
      SwapRemoveMultiset(s, d);
    }
    assert s[e] in input by {
      assert s[e] in multiset(s);
    }
    RelinkAll(s, r, s[d], s[e], input);
  }

  lemma {:induction false} RelinkAll(s: seq<RxPkt>, r: seq<RxPkt>, d: RxPkt, e: RxPkt, input: multiset<RxPkt>)
    requires AllLinked(input, s)
    requires forall y :: y in s ==> y in r || y == d
    requires e in r && e in input && GivesWay(d, e)
    ensures AllLinked(input, r)
  {
    forall x | x in input ensures exists y :: y in r && Linked(x, y, input) {
      Relink(x, s, r, d, e, input);
    }
  }

  /* ---- The restarting double loop as a function ---- */

  /** The first packet from `k` on that is the same as packet `j`, or the number of packets. */
  function FirstDuplicate(s: seq<RxPkt>, j: nat, k: nat): (r: nat)
    requires j < k <= |s|
    ensures k <= r <= |s|
    ensures forall l :: k <= l < r ==> !Same(s[j], s[l])
    ensures r < |s| ==> Same(s[j], s[r])
    decreases |s| - k
  {
    if k == |s| || Same(s[j], s[k]) then k else FirstDuplicate(s, j, k + 1)
  }

  /** Of the duplicates `j` and `k`, the index the preference rule rejects. */
  function Loser(s: seq<RxPkt>, j: nat, k: nat): nat
    requires j < |s| && k < |s|
  {
    if DropsSecond(s[j], s[k]) then k else j
  }

  /** The search from packet `j` on; every removal starts it again. */
  function DedupFrom(s: seq<RxPkt>, j: nat): seq<RxPkt>
    requires j <= |s|
    decreases |s|, |s| - j
  {
    if j == |s| then s
    else
      var k := FirstDuplicate(s, j, j + 1);
      if k == |s| then DedupFrom(s, j + 1) else DedupFrom(SwapRemove(s, Loser(s, j, k)), 0)
  }

  /** What is left of the packets before they are sorted. */
  function Dedup(s: seq<RxPkt>): seq<RxPkt> {
    DedupFrom(s, 0)
  }

  /** `inv` survives every removal the preference rule can ask for. */
  ghost predicate KeptByRemoval(inv: seq<RxPkt> -> bool) {
    forall s: seq<RxPkt>, d: nat, e: nat {:trigger inv(s), GivesWay(s[d], s[e])} ::
      inv(s) && d < |s| && e < |s| && d != e && GivesWay(s[d], s[e]) ==> inv(SwapRemove(s, d))
  }

  /** The loser gives way to the other of the two. */
  lemma {:induction false} LoserGivesWay(s: seq<RxPkt>, j: nat, k: nat)
    requires j < k < |s| && Same(s[j], s[k])
    ensures Loser(s, j, k) == j || Loser(s, j, k) == k
    ensures GivesWay(s[Loser(s, j, k)], s[j + k - Loser(s, j, k)])
  {
    SameSymmetric(s[j], s[k]);
  }

  /** The loop keeps whatever single removals keep. */
  lemma {:induction false} DedupKeeps(s: seq<RxPkt>, j: nat, inv: seq<RxPkt> -> bool)
    requires j <= |s| && KeptByRemoval(inv) && inv(s)
    ensures inv(DedupFrom(s, j))
    decreases |s|, |s| - j
  {
    if j < |s| {
      var k := FirstDuplicate(s, j, j + 1);
      if k == |s| {
        DedupKeeps(s, j + 1, inv);
      } else {
        LoserGivesWay(s, j, k);
        DedupKeeps(SwapRemove(s, Loser(s, j, k)), 0, inv);
      }
    }
  }

  /** No packet before index `j` is the same as a later one. */
  ghost predicate CleanUpTo(s: seq<RxPkt>, j: nat) {
    forall a, b :: 0 <= a < j && a < b < |s| ==> !Same(s[a], s[b])
  }

  /** It ends with no two same packets. */
  lemma {:induction false} DedupNoneSame(s: seq<RxPkt>, j: nat)
    requires j <= |s| && CleanUpTo(s, j)
    ensures NoneSame(DedupFrom(s, j))
    decreases |s|, |s| - j
  {
    if j < |s| {
      var k := FirstDuplicate(s, j, j + 1);
      if k == |s| {
        assert CleanUpTo(s, j + 1);
        DedupNoneSame(s, j + 1);
      } else {
        DedupNoneSame(SwapRemove(s, Loser(s, j, k)), 0);
      }
    }
  }

  lemma {:induction false} InputRepresented(s: seq<RxPkt>)
    ensures Represents(s, multiset(s))
  {
    forall x | x in multiset(s) ensures exists y :: y in s && Linked(x, y, multiset(s)) {
      LinkedSelf(x, multiset(s));
    }
  }

  /** Every packet of the input is linked to one that is left. */
  lemma {:induction false} DedupRepresents(s: seq<RxPkt>)
    ensures Represents(Dedup(s), multiset(s))
  {
    var input := multiset(s);
    var inv := (r: seq<RxPkt>) => Represents(r, input);
    InputRepresented(s);
    forall r: seq<RxPkt>, d: nat, e: nat | inv(r) && d < |r| && e < |r| && d != e && GivesWay(r[d], r[e])
      ensures inv(SwapRemove(r, d))
    {
      RemovalKeepsLinks(r, d, e, input);
    }
    DedupKeeps(s, 0, inv);
  }

  /** The packet at index `i` has no other reception among `s`. */
  ghost predicate AloneAt(s: seq<RxPkt>, i: nat) {
    i < |s| && forall j :: 0 <= j < |s| && j != i ==> !OneReception(s[i], s[j])
  }

  ghost predicate UniqueAt(s: seq<RxPkt>, i: nat) {
    i < |s| && forall j :: 0 <= j < |s| && j != i ==> !Same(s[i], s[j])
  }

  ghost predicate Unique(s: seq<RxPkt>, x: RxPkt) {
    exists i: nat :: UniqueAt(s, i) && s[i] == x
  }

  /** A removal is always one of two receptions, so it leaves alone what is alone. */
  lemma {:induction false} RemovalKeepsUnique(s: seq<RxPkt>, d: nat, i: nat) returns (k: nat)
    requires UniqueAt(s, i) && d < |s| && d != i
    ensures UniqueAt(SwapRemove(s, d), k) && SwapRemove(s, d)[k] == s[i]
  {
    var r := SwapRemove(s, d);
    k := if i == |s| - 1 then d else i;
    forall j | 0 <= j < |r| && j != k ensures !Same(r[k], r[j]) {
      var j' := if j == d then |s| - 1 else j;
      assert r[j] == s[j'] && j' != i;
    }
  }

  /** A packet received only once is still there. */
  lemma {:induction false} AloneSurvives(s: seq<RxPkt>, i: nat)
    requires AloneAt(s, i)
    ensures s[i] in Dedup(s)
  {
    forall j | 0 <= j < |s| && j != i ensures !Same(s[i], s[j]) {
      SameIff(s[i], s[j]);
    }
    assert UniqueAt(s, i);
    UniqueSurvives(s, s[i]);
  }

  lemma {:induction false} UniqueSurvives(s: seq<RxPkt>, x: RxPkt)
    requires Unique(s, x)
    ensures x in Dedup(s)
  {
    var inv := (r: seq<RxPkt>) => Unique(r, x);
    forall r: seq<RxPkt>, d: nat, e: nat | inv(r) && d < |r| && e < |r| && d != e && GivesWay(r[d], r[e])
      ensures inv(SwapRemove(r, d))
    {
      var i: nat :| UniqueAt(r, i) && r[i] == x;
      var k := RemovalKeepsUnique(r, d, i);
    }
    DedupKeeps(s, 0, inv);
  }

  /* ---- When a good CRC survives ---- */

  /** Of two receptions of one packet a good CRC (0x10) wins over a bad one (0x11); otherwise the first one fetched stays if
      it has a fine timestamp, and gives way to the second one if not. */
  lemma {:induction false} TwoMerged(p: RxPkt, q: RxPkt)
    requires Same(p, q)
    ensures Dedup([p, q]) ==
            [if p.status == 0x10 && q.status == 0x11 then p
             else if p.status == 0x11 && q.status == 0x10 then q
             else if p.ftimeReceived then p else q]
  {
    var s := [p, q];
    assert FirstDuplicate(s, 0, 1) == 1;
    var r := SwapRemove(s, Loser(s, 0, 1));
    assert r == [if DropsSecond(p, q) then p else q];
    assert DedupFrom(r, 0) == DedupFrom(r, 1) == r;
  }

  /** A good reception merged with another: fetched first, it is the fine timestamp of its own that saves it from one
      whose CRC is neither good nor bad; fetched second, the missing fine timestamp of the other. */
  lemma {:induction false} TwoGoodIff(p: RxPkt, q: RxPkt)
    requires Same(p, q) && p.status == 0x10
    ensures |Dedup([p, q])| == |Dedup([q, p])| == 1
    ensures Dedup([p, q])[0].status == 0x10 <==> q.status == 0x10 || q.status == 0x11 || p.ftimeReceived
    ensures Dedup([q, p])[0].status == 0x10 <==> q.status == 0x10 || q.status == 0x11 || !q.ftimeReceived
  {
    SameSymmetric(p, q);
    TwoMerged(p, q);
    TwoMerged(q, p);
  }

  /** The merge represents every good packet by a good one. */
  ghost predicate GoodKept(s: seq<RxPkt>) {
    GoodLinked(multiset(s), Dedup(s))
  }

  ghost predicate StatusesIn(s: seq<RxPkt>, statuses: set<uint8>) {
    forall x :: x in s ==> x.status in statuses
  }

  lemma {:induction false} GoodAndBadKept(s: seq<RxPkt>, statuses: set<uint8>)
    requires StatusesIn(s, statuses) && statuses <= {STAT_CRC_OK, STAT_CRC_BAD}
    ensures GoodKept(s)
  {
    var input := multiset(s);
    forall z | z in input ensures z.status == STAT_CRC_OK || z.status == STAT_CRC_BAD {
      assert z in s && z.status in {STAT_CRC_OK, STAT_CRC_BAD};
    }
    DedupRepresents(s);
    GoodCrcSurvives(Dedup(s), input);
  }

  lemma {:induction false} OtherStatusLoses(p: RxPkt, status: uint8)
    requires p.status == STAT_CRC_OK && !p.ftimeReceived && status != STAT_CRC_OK && status != STAT_CRC_BAD
    ensures !GoodKept([p, p.(status := status)])
  {
    var s := [p, p.(status := status)];
    TwoMerged(s[0], s[1]);
    assert s[0] in multiset(s);
  }

  /** For instance, a good packet is lost to its copy whose CRC was not checked (STAT_NO_CRC). */
  lemma {:induction false} NoCrcLosesGood(p: RxPkt)
    requires p.status == STAT_CRC_OK && !p.ftimeReceived
    ensures Dedup([p, p.(status := 0x01)]) == [p.(status := 0x01)]
  {
    TwoMerged(p, p.(status := 0x01));
  }

  /** The guarantee and its exact condition: for inputs with the given statuses a good CRC always survives the merge, if
      and only if no status other than good and bad is among them. */
  lemma {:induction false} GoodKeptIff(statuses: set<uint8>)
    requires STAT_CRC_OK in statuses
    ensures (forall s :: StatusesIn(s, statuses) ==> GoodKept(s)) <==> statuses <= {STAT_CRC_OK, STAT_CRC_BAD}
  {
    if statuses <= {STAT_CRC_OK, STAT_CRC_BAD} {
      forall s | StatusesIn(s, statuses) ensures GoodKept(s) {
        GoodAndBadKept(s, statuses);
      }
    } else {
      var status :| status in statuses && status != STAT_CRC_OK && status != STAT_CRC_BAD;
      var p := RxPkt(0, 0, 0, STAT_CRC_OK, 0, 0, 0, 0, 0, 0, 0, 0.0, 0.0, 0.0, 0.0, 0.0, 0, [], false, 0);
      OtherStatusLoses(p, status);
      assert StatusesIn([p, p.(status := status)], statuses);
    }
  }

  /* ---- In place ---- */

  /** From index `n` on the array is what it was. */
  ghost predicate SameFrom(p: array<RxPkt>, n: nat, was: seq<RxPkt>)
    reads p
  {
    |was| == p.Length && forall i :: n <= i < p.Length ==> p[i] == was[i]
  }

  /** Removal by overwriting with the last packet; an index past the packets is refused. */
  method RemovePkt(p: array<RxPkt>, nbPkt: uint8, index: uint8) returns (result: int, nbPkt': uint8)
    requires nbPkt <= p.Length
    modifies p
    ensures index >= nbPkt ==> result == -1 && nbPkt' == nbPkt && p[..] == old(p[..])
    ensures index < nbPkt ==>
              result == 0 && nbPkt' == nbPkt - 1 && p[..nbPkt'] == SwapRemove(old(p[..nbPkt]), index)
    ensures SameFrom(p, nbPkt, old(p[..]))
  {
    if index > nbPkt - 1 {
      return -1, nbPkt;
    }
    if index != nbPkt - 1 {
      p[index] := p[nbPkt - 1];
    }
    return 0, nbPkt - 1;
  }

  /** The inner loop. */
  method FindDuplicate(p: array<RxPkt>, n: nat, j: nat) returns (k: nat)
    requires j < n <= p.Length
    ensures k == FirstDuplicate(p[..n], j, j + 1)
  {
    k := j + 1;
    ghost var s := p[..n];
    while k < n && !Same(p[j], p[k])
      invariant j < k <= n
      invariant FirstDuplicate(s, j, j + 1) == FirstDuplicate(s, j, k)
    {
      k := k + 1;
    }
  }

  /** Of the duplicates `j` and `k`, the one the preference rule rejects is removed. */
  method DropDuplicate(p: array<RxPkt>, n: uint8, j: nat, k: nat) returns (n': uint8)
    requires j < k < n <= p.Length
    modifies p
    ensures n' == n - 1 && SameFrom(p, n, old(p[..]))
    ensures p[..n'] == SwapRemove(old(p[..n]), Loser(old(p[..n]), j, k))
  {
    var drop := if DropsSecond(p[j], p[k]) then k else j;
    var result;
    result, n' := RemovePkt(p, n, drop);
  }

  /** The restarting double loop. */
  method RemoveDuplicates(p: array<RxPkt>, nbPkt: uint8) returns (n: uint8)
    requires nbPkt <= p.Length
    modifies p
    ensures n <= nbPkt && SameFrom(p, nbPkt, old(p[..]))
    ensures p[..n] == Dedup(old(p[..nbPkt]))
  {
    n := nbPkt;
    var j := 0;
    while j < n
      invariant 0 <= j <= n <= nbPkt
      invariant SameFrom(p, nbPkt, old(p[..]))
      invariant DedupFrom(p[..n], j) == Dedup(old(p[..nbPkt]))
      decreases n, n - j
    {
      var k := FindDuplicate(p, n, j);
      if k < n {
        n := DropDuplicate(p, n, j, k);
        j := 0;
      } else {
        j := j + 1;
      }
    }
  }

  /** No two packets left are receptions of one packet, and what was received only once is left. */
  ghost predicate ReceivedOnce(s': seq<RxPkt>, s: seq<RxPkt>) {
    && (forall i, j :: 0 <= i < j < |s'| ==> !OneReception(s'[i], s'[j]))
    && (forall i: nat :: AloneAt(s, i) ==> s[i] in s')
  }

  /** What is left is the deduplicated input, sorted. So it is a sub-multiset of the input, in which no two packets are
      receptions of one, with every packet that was received only once, sorted where their timestamps lie within half the counter range; and every packet of the input is linked
      to one that is left. */
  method Merge(p: array<RxPkt>, nbPkt: uint8) returns (n: uint8)
    requires nbPkt <= p.Length
    modifies p
    ensures n <= nbPkt && SameFrom(p, nbPkt, old(p[..]))
    ensures IsSortOf(p[..n], Dedup(old(p[..nbPkt])), CountOf)
    ensures Represents(p[..n], multiset(old(p[..nbPkt])))
    ensures ReceivedOnce(p[..n], old(p[..nbPkt]))
    ensures forall base: uint32 :: HalfRange(p[..n], CountOf, base) ==> SortedFrom(p[..n], CountOf, base)
  {
    n := RemoveDuplicates(p, nbPkt);
    SortPackets(p, n);
    MergedOk(p[..n], old(p[..nbPkt]));
  }

  method SortPackets(p: array<RxPkt>, n: nat)
    requires n <= p.Length
    modifies p
    ensures IsSortOf(p[..n], old(p[..n]), CountOf) && SameFrom(p, n, old(p[..]))
  {
    QSort(p, n, CountOf);
    forall i | n <= i < p.Length ensures p[i] == old(p[i]) {
      assert p[i] == p[n..][i - n] == old(p[n..])[i - n];
    }
  }

  lemma {:induction false} SortedNoneSame(s': seq<RxPkt>, s: seq<RxPkt>)
    requires multiset(s') == multiset(s) && NoneSame(s)
    ensures NoneSame(s')
  {
    forall i, j | 0 <= i < j < |s'| ensures !Same(s'[i], s'[j]) {
      TwoPlaces(s', s, i, j);
      var k, l :| 0 <= k < |s| && 0 <= l < |s| && k != l && s[k] == s'[i] && s[l] == s'[j];
      SameSymmetric(s[k], s[l]);
    }
  }

  lemma {:induction false} MergedOk(s': seq<RxPkt>, s: seq<RxPkt>)
    requires IsSortOf(s', Dedup(s), CountOf)
    ensures ReceivedOnce(s', s) && Represents(s', multiset(s))
    ensures forall base: uint32 :: HalfRange(s', CountOf, base) ==> SortedFrom(s', CountOf, base)
  {
    DedupRepresents(s);
    DedupNoneSame(s, 0);
    SortKeepsMerge(s', Dedup(s), multiset(s));
    LeftOnce(s', s);
  }

  lemma {:induction false} LeftOnce(s': seq<RxPkt>, s: seq<RxPkt>)
    requires NoneSame(s') && multiset(s') == multiset(Dedup(s))
    ensures ReceivedOnce(s', s)
  {
    forall i, j | 0 <= i < j < |s'| ensures !OneReception(s'[i], s'[j]) {
      SameIff(s'[i], s'[j]);
    }
    forall i: nat | AloneAt(s, i) ensures s[i] in s' {
      AloneSurvives(s, i);
      assert s[i] in multiset(s');
    }
  }

  lemma {:induction false} SortKeepsMerge(s': seq<RxPkt>, s: seq<RxPkt>, input: multiset<RxPkt>)
    requires IsSortOf(s', s, CountOf) && NoneSame(s) && Represents(s, input)
    ensures NoneSame(s') && Represents(s', input)
    ensures forall base: uint32 :: HalfRange(s', CountOf, base) ==> SortedFrom(s', CountOf, base)
  {
    SortedNoneSame(s', s);
    forall x | x in input ensures exists y :: y in s' && Linked(x, y, input) {
      var y :| y in s && Linked(x, y, input);
      assert y in multiset(s');
    }
    forall base: uint32 | HalfRange(s', CountOf, base) ensures SortedFrom(s', CountOf, base) {
      HalfRangeSub(s, s', CountOf, base);
    }
  }
}
