/** The `qsort_r` calls of the repository: sorting records by a 32-bit counter with a comparator that returns the
    wrapped difference. That comparator is an order only on records lying within half the counter range. */
module CountSort {
  import opened Word32

  /** All records lie in the half range of the counter that starts at `base`. */
  ghost predicate HalfRange<T(!new)>(s: seq<T>, count: T -> uint32, base: uint32) {
    forall i :: 0 <= i < |s| ==> Sub(count(s[i]), base) < TWO31
  }

  ghost predicate SortedFrom<T(!new)>(s: seq<T>, count: T -> uint32, base: uint32) {
    forall i, j :: 0 <= i < j < |s| ==> Sub(count(s[i]), base) <= Sub(count(s[j]), base)
  }

  /** Every record comes strictly before each later one, going forward less than half the counter range. */
  ghost predicate Ordered<T(!new)>(s: seq<T>, count: T -> uint32) {
    forall i, j :: 0 <= i < j < |s| ==> 0 < Sub(count(s[j]), count(s[i])) < TWO31
  }

  ghost predicate Distinct<T(!new)>(s: seq<T>, count: T -> uint32) {
    forall i, j :: 0 <= i < j < |s| ==> count(s[i]) != count(s[j])
  }

  /** What a sort with that comparator promises: a permutation, in order whenever the comparator is an order. */
  ghost predicate IsSortOf<T(!new)>(s': seq<T>, s: seq<T>, count: T -> uint32) {
    && multiset(s') == multiset(s)
    && forall base: uint32 :: HalfRange(s, count, base) ==> SortedFrom(s', count, base)
  }

  /** The comparator: the sign of the wrapped difference read as an int32_t. */
  predicate After(p: uint32, q: uint32) {
    0 < Sub(p, q) < TWO31
  }

  /** Inside a half range the comparator agrees with the distance from its base. */
  lemma {:induction false} AfterInHalfRange(p: uint32, q: uint32, base: uint32)
    requires Sub(p, base) < TWO31 && Sub(q, base) < TWO31
    ensures After(p, q) <==> Sub(p, base) > Sub(q, base)
  {
  }

  function Insert<T>(x: T, s: seq<T>, count: T -> uint32): (r: seq<T>)
    ensures multiset(r) == multiset(s) + multiset{x}
  {
    if s == [] then [x]
    else if After(count(x), count(s[0])) then
      assert s == [s[0]] + s[1..];
      [s[0]] + Insert(x, s[1..], count)
    else [x] + s
  }

  function InsertionSort<T>(s: seq<T>, count: T -> uint32): (r: seq<T>)
    ensures multiset(r) == multiset(s)
  {
    if s == [] then []
    else
      assert s == [s[0]] + s[1..];
      Insert(s[0], InsertionSort(s[1..], count), count)
  }

  lemma {:induction false} InsertSorted<T(!new)>(x: T, s: seq<T>, count: T -> uint32, base: uint32)
    requires HalfRange(s, count, base) && Sub(count(x), base) < TWO31 && SortedFrom(s, count, base)
    ensures SortedFrom(Insert(x, s, count), count, base)
  {
    if s != [] {
      AfterInHalfRange(count(x), count(s[0]), base);
      if After(count(x), count(s[0])) {
        var t := s[1..];
        InsertSorted(x, t, count, base);
        var r := Insert(x, t, count);
        forall j | 0 <= j < |r| ensures Sub(count(s[0]), base) <= Sub(count(r[j]), base) {
          assert r[j] in multiset(t) + multiset{x};
          assert r[j] == x || r[j] in t;
        }
      }
    }
  }

  lemma {:induction false} InsertionSortSorted<T(!new)>(s: seq<T>, count: T -> uint32, base: uint32)
    requires HalfRange(s, count, base)
    ensures SortedFrom(InsertionSort(s, count), count, base)
  {
    if s != [] {
      var r := InsertionSort(s[1..], count);
      InsertionSortSorted(s[1..], count, base);
      HalfRangeSub(r, s[1..], count, base);
      InsertSorted(s[0], r, count, base);
    }
  }

  lemma {:induction false} HalfRangeSub<T(!new)>(s': seq<T>, s: seq<T>, count: T -> uint32, base: uint32)
    requires HalfRange(s, count, base) && multiset(s') <= multiset(s)
    ensures HalfRange(s', count, base)
  {
    forall i | 0 <= i < |s'| ensures Sub(count(s'[i]), base) < TWO31 {
      assert s'[i] in multiset(s);
    }
  }

  /** Sorts the first `n` records in place; callers rely on its contract alone, which holds of any sort. */
  method QSort<T(!new)>(a: array<T>, n: nat, count: T -> uint32)
    requires n <= a.Length
    modifies a
    ensures IsSortOf(a[..n], old(a[..n]), count)
    ensures a[n..] == old(a[n..])
  {
    var s := a[..n];
    var r := InsertionSort(s, count);
    forall base: uint32 | HalfRange(s, count, base) ensures SortedFrom(r, count, base) {
      InsertionSortSorted(s, count, base);
    }
    assert |r| == |multiset(r)| == |multiset(s)| == n;
    forall i | 0 <= i < n {
      a[i] := r[i];
    }
    assert a[..n] == r;
  }

  /** A sub-multiset of records with distinct counts has distinct counts. */
  lemma {:induction false} DistinctSub<T(!new)>(s': seq<T>, s: seq<T>, count: T -> uint32)
    requires Distinct(s, count) && multiset(s') <= multiset(s)
    ensures Distinct(s', count)
  {
    forall i, j | 0 <= i < j < |s'| ensures count(s'[i]) != count(s'[j]) {
      TwoPlaces(s', s, i, j);
    }
  }

  /** Two places of a sub-multiset are held by two places of the whole. */
  lemma {:induction false} TwoPlaces<T>(s': seq<T>, s: seq<T>, i: nat, j: nat)
    requires multiset(s') <= multiset(s) && i < j < |s'|
    ensures exists k, l :: 0 <= k < |s| && 0 <= l < |s| && k != l && s[k] == s'[i] && s[l] == s'[j]
  {
    assert s'[i] in multiset(s');
    var k :| 0 <= k < |s| && s[k] == s'[i];
    DeleteMultiset(s, k);
    DeleteMultiset(s', i);
    var t, t' := s[..k] + s[k+1..], s'[..i] + s'[i+1..];
    assert t'[j-1] == s'[j];
    assert s'[j] in multiset(t') && multiset(t') <= multiset(t);
    assert s'[j] in multiset(t);
    var m :| 0 <= m < |t| && t[m] == s'[j];
    var l := if m < k then m else m + 1;
    assert s[l] == s'[j];
  }

  lemma {:induction false} DeleteMultiset<T>(s: seq<T>, k: nat)
    requires k < |s|
    ensures multiset(s[..k] + s[k+1..]) == multiset(s) - multiset{s[k]}
  {
    assert s == s[..k] + [s[k]] + s[k+1..];
  }

  /** In a half range, sorted and distinct is the same as ordered. */
  lemma {:induction false} OrderedIffSorted<T(!new)>(s: seq<T>, count: T -> uint32, base: uint32)
    requires HalfRange(s, count, base)
    ensures Ordered(s, count) <==> SortedFrom(s, count, base) && Distinct(s, count)
  {
    forall i, j | 0 <= i < j < |s|
      ensures 0 < Sub(count(s[j]), count(s[i])) < TWO31 <==>
              Sub(count(s[i]), base) <= Sub(count(s[j]), base) && count(s[i]) != count(s[j])
    {
      AfterInHalfRange(count(s[j]), count(s[i]), base);
    }
  }

  /** An ordered sequence lies in the half range that starts at its first record. */
  lemma {:induction false} OrderedHalfRange<T(!new)>(s: seq<T>, count: T -> uint32)
    requires Ordered(s, count) && s != []
    ensures HalfRange(s, count, count(s[0]))
    ensures Distinct(s, count)
  {
  }

  /** Sorting distinct records of a half range gives an ordered sequence. */
  lemma {:induction false} SortOrders<T(!new)>(s': seq<T>, s: seq<T>, count: T -> uint32, base: uint32)
    requires IsSortOf(s', s, count) && HalfRange(s, count, base) && Distinct(s, count)
    ensures Ordered(s', count)
  {
    HalfRangeSub(s', s, count, base);
    DistinctSub(s', s, count);
    OrderedIffSorted(s', count, base);
  }

  lemma {:induction false} SameLength<T>(s: seq<T>, r: seq<T>)
    requires multiset(s) == multiset(r)
    ensures |s| == |r|
  {
    assert |s| == |multiset(s)| == |multiset(r)| == |r|;
  }

  ghost predicate Chain<T(!new)>(s: seq<T>, lt: (T, T) -> bool) {
    forall i, j :: 0 <= i < j < |s| ==> lt(s[i], s[j])
  }

  lemma {:induction false} ChainTail<T(!new)>(s: seq<T>, lt: (T, T) -> bool)
    requires Chain(s, lt) && s != []
    ensures Chain(s[1..], lt) && s == [s[0]] + s[1..] && s[..0] + s[1..] == s[1..]
  {
  }

  lemma {:induction false} SameFirst<T(!new)>(s: seq<T>, r: seq<T>, lt: (T, T) -> bool)
    requires Chain(s, lt) && Chain(r, lt) && multiset(s) == multiset(r) && s != [] && r != []
    requires forall x, y :: lt(x, y) ==> !lt(y, x)
    ensures s[0] == r[0]
  {
    assert s[0] in multiset(r) && r[0] in multiset(s);
    var i :| 0 <= i < |r| && r[i] == s[0];
    var j :| 0 <= j < |s| && s[j] == r[0];
  }

  /** Strictly increasing sequences of the same elements are equal, whatever the asymmetric relation. */
  lemma {:induction false} ChainUnique<T(!new)>(s: seq<T>, r: seq<T>, lt: (T, T) -> bool)
    requires Chain(s, lt) && Chain(r, lt) && multiset(s) == multiset(r)
    requires forall x, y :: lt(x, y) ==> !lt(y, x)
    ensures s == r
  {
    SameLength(s, r);
    if s != [] {
      SameFirst(s, r, lt);
      DeleteMultiset(s, 0);
      DeleteMultiset(r, 0);
      ChainTail(s, lt);
      ChainTail(r, lt);
      ChainUnique(s[1..], r[1..], lt);
    }
  }

  /** Ordered sequences of the same records are equal, so the result of such a sort is unique. */
  lemma {:induction false} OrderedUnique<T(!new)>(s: seq<T>, r: seq<T>, count: T -> uint32)
    requires Ordered(s, count) && Ordered(r, count) && multiset(s) == multiset(r)
    ensures s == r
  {
    ChainUnique(s, r, (x: T, y: T) => After(count(y), count(x)));
  }

  /** Sorting a sub-multiset of an ordered sequence orders it again. */
  lemma {:induction false} SortSubOrders<T(!new)>(s': seq<T>, t: seq<T>, s: seq<T>, count: T -> uint32)
    requires Ordered(s, count) && multiset(t) <= multiset(s) && IsSortOf(s', t, count)
    ensures Ordered(s', count)
  {
    if t == [] {
      assert |s'| == |multiset(s')| == 0;
    } else {
      assert t[0] in multiset(s);
      OrderedHalfRange(s, count);
      HalfRangeSub(t, s, count, count(s[0]));
      DistinctSub(t, s, count);
      SortOrders(s', t, count, count(s[0]));
    }
  }

  lemma {:induction false} RemoveOrdered<T(!new)>(s: seq<T>, k: nat, count: T -> uint32)
    requires Ordered(s, count) && k < |s|
    ensures Ordered(s[..k] + s[k+1..], count)
    ensures multiset(s[..k] + s[k+1..]) == multiset(s) - multiset{s[k]}
  {
    DeleteMultiset(s, k);
    var t := s[..k] + s[k+1..];
    forall i, j | 0 <= i < j < |t| ensures 0 < Sub(count(t[j]), count(t[i])) < TWO31 {
      var i', j' := if i < k then i else i + 1, if j < k then j else j + 1;
      assert t[i] == s[i'] && t[j] == s[j'];
    }
  }

  /** Replacing record `k` by the last one and sorting is the same as deleting it. */
  lemma {:induction false} RemoveSorts<T(!new)>(s': seq<T>, s: seq<T>, k: nat, count: T -> uint32)
    requires Ordered(s, count) && k < |s|
    requires IsSortOf(s', SwapRemove(s, k), count)
    ensures s' == s[..k] + s[k+1..]
    ensures Ordered(s', count)
  {
    SwapRemoveMultiset(s, k);
    RemoveOrdered(s, k, count);
    SortSubOrders(s', SwapRemove(s, k), s, count);
    OrderedUnique(s', s[..k] + s[k+1..], count);
  }

  /** The place of `x` in an ordered sequence: after everything it follows, before everything else. */
  lemma {:induction false} InsertedOrdered<T(!new)>(s: seq<T>, x: T, p: nat, count: T -> uint32)
    requires Ordered(s, count) && p <= |s|
    requires forall i :: 0 <= i < p ==> After(count(x), count(s[i]))
    requires forall i :: p <= i < |s| ==> After(count(s[i]), count(x))
    ensures Ordered(s[..p] + [x] + s[p..], count)
    ensures multiset(s[..p] + [x] + s[p..]) == multiset(s + [x])
  {
    var t := s[..p] + [x] + s[p..];
    assert s == s[..p] + s[p..];
    forall i, j | 0 <= i < j < |t| ensures 0 < Sub(count(t[j]), count(t[i])) < TWO31 {
      if i != p && j != p {
        var i', j' := if i < p then i else i - 1, if j < p then j else j - 1;
        assert t[i] == s[i'] && t[j] == s[j'];
      }
    }
  }

  /** `x` follows exactly a prefix of an ordered sequence, when everything lies in one half range. */
  lemma {:induction false} Place<T(!new)>(s: seq<T>, x: T, count: T -> uint32, base: uint32) returns (p: nat)
    requires Ordered(s, count)
    requires HalfRange(s + [x], count, base) && Distinct(s + [x], count)
    ensures p <= |s|
    ensures forall i :: 0 <= i < p ==> After(count(x), count(s[i]))
    ensures forall i :: p <= i < |s| ==> After(count(s[i]), count(x))
  {
    var u := s + [x];
    assert forall i :: 0 <= i < |s| ==> u[i] == s[i];
    assert u[|s|] == x;
    forall i | 0 <= i < |s|
      ensures Sub(count(s[i]), base) < TWO31 && Sub(count(x), base) < TWO31 && count(s[i]) != count(x)
    {
      assert Sub(count(u[i]), base) < TWO31 && Sub(count(u[|s|]), base) < TWO31;
      assert count(u[i]) != count(u[|s|]);
    }
    p := |s|;
    while p > 0 && After(count(s[p-1]), count(x))
      invariant p <= |s|
      invariant forall i :: p <= i < |s| ==> After(count(s[i]), count(x))
    {
      p := p - 1;
    }
    forall i | 0 <= i < p ensures After(count(x), count(s[i])) {
      AfterInHalfRange(count(x), count(s[i]), base);
      AfterInHalfRange(count(x), count(s[p-1]), base);
      AfterInHalfRange(count(s[p-1]), count(x), base);
      assert i < p - 1 ==> After(count(s[p-1]), count(s[i]));
      AfterInHalfRange(count(s[p-1]), count(s[i]), base);
    }
  }

  /** Appending a record that comes after record `k` and sorting leaves records `0..k` where they are. */
  lemma {:induction false} InsertAfter<T(!new)>(s': seq<T>, s: seq<T>, x: T, k: nat, count: T -> uint32, base: uint32)
    requires Ordered(s, count) && k < |s|
    requires HalfRange(s + [x], count, base) && Distinct(s + [x], count)
    requires IsSortOf(s', s + [x], count)
    requires After(count(x), count(s[k]))
    ensures |s'| == |s| + 1 && s'[..k+1] == s[..k+1]
  {
    var p := Place(s, x, count, base);
    assert k < p;
    InsertedOrdered(s, x, p, count);
    SortOrders(s', s + [x], count, base);
    OrderedUnique(s', s[..p] + [x] + s[p..], count);
  }

  /** Removal as the queues do it: the last record takes the place of record `k`. */
  function SwapRemove<T>(s: seq<T>, k: nat): (r: seq<T>)
    requires k < |s|
    ensures |r| == |s| - 1
  {
    if k == |s| - 1 then s[..k] else s[..|s|-1][k := s[|s|-1]]
  }

  lemma {:induction false} SwapRemoveMultiset<T>(s: seq<T>, k: nat)
    requires k < |s|
    ensures multiset(SwapRemove(s, k)) == multiset(s) - multiset{s[k]}
    ensures multiset(s) == multiset(SwapRemove(s, k)) + multiset{s[k]}
  {
    var n := |s| - 1;
    assert s == s[..n] + [s[n]];
    assert multiset(s) == multiset(s[..n]) + multiset{s[n]};
    if k < n {
      assert s[..n][k] == s[k];
      assert multiset(s[..n][k := s[n]]) == multiset(s[..n]) - multiset{s[k]} + multiset{s[n]};
    }
  }
}
