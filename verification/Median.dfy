/** `median.h`: selection by Wirth's method, in place. */
module Median {

  // ----- order statistics, without an array

  function Below(s: seq<nat>, v: nat): nat {
    if |s| == 0 then 0 else Below(s[..|s| - 1], v) + if s[|s| - 1] < v then 1 else 0
  }

  function UpTo(s: seq<nat>, v: nat): nat {
    if |s| == 0 then 0 else UpTo(s[..|s| - 1], v) + if s[|s| - 1] <= v then 1 else 0
  }

  /** `v` stands at index `k` when the values are sorted. */
  predicate IsKth(s: seq<nat>, k: nat, v: nat) {
    v in s && Below(s, v) <= k < UpTo(s, v)
  }

  predicate Sorted(s: seq<nat>) {
    forall p, q :: 0 <= p < q < |s| ==> s[p] <= s[q]
  }

  /** Everything before index `k` is at most `s[k]`, everything after it at least. */
  predicate SplitAt(s: seq<nat>, k: nat)
    requires k < |s|
  {
    && (forall p :: 0 <= p < k ==> s[p] <= s[k])
    && (forall q :: k < q < |s| ==> s[k] <= s[q])
  }

  lemma {:induction false} CountBounds(s: seq<nat>, v: nat)
    ensures Below(s, v) <= UpTo(s, v) <= |s|
  {
    if |s| > 0 { CountBounds(s[..|s| - 1], v); }
  }

  /** Values at the front that are all at most `v`, and at the back that are all at least `v`. */
  lemma {:induction false} CountSplit(s: seq<nat>, k: nat, v: nat)
    requires k < |s| && s[k] == v
    requires forall p :: 0 <= p < k ==> s[p] <= v
    requires forall q :: k < q < |s| ==> v <= s[q]
    ensures Below(s, v) <= k < UpTo(s, v)
  {
    var t := s[..|s| - 1];
    if k < |t| {
      CountSplit(t, k, v);
    } else {
      AllUpTo(t, v);
      CountBounds(t, v);
    }
  }

  lemma {:induction false} AllUpTo(s: seq<nat>, v: nat)
    requires forall p :: 0 <= p < |s| ==> s[p] <= v
    ensures UpTo(s, v) == |s|
  {
    if |s| > 0 { AllUpTo(s[..|s| - 1], v); }
  }

  lemma SplitIsKth(s: seq<nat>, k: nat)
    requires k < |s| && SplitAt(s, k)
    ensures IsKth(s, k, s[k])
  {
    CountSplit(s, k, s[k]);
  }

  lemma {:induction false} UpToBelow(s: seq<nat>, v: nat, w: nat)
    requires v < w
    ensures UpTo(s, v) <= Below(s, w)
  {
    if |s| > 0 { UpToBelow(s[..|s| - 1], v, w); }
  }

  /** There is one value of each rank. */
  lemma KthUnique(s: seq<nat>, k: nat, v: nat, w: nat)
    requires IsKth(s, k, v) && IsKth(s, k, w)
    ensures v == w
  {
    if v < w { UpToBelow(s, v, w); }
    if w < v { UpToBelow(s, w, v); }
  }

  lemma {:induction false} CountRemove(s: seq<nat>, i: nat, v: nat)
    requires i < |s|
    ensures Below(s, v) == Below(s[..i] + s[i + 1..], v) + if s[i] < v then 1 else 0
    ensures UpTo(s, v) == UpTo(s[..i] + s[i + 1..], v) + if s[i] <= v then 1 else 0
  {
    var t := s[..|s| - 1];
    if i == |t| {
      assert s[..i] + s[i + 1..] == t;
    } else {
      CountRemove(t, i, v);
      var r := s[..i] + s[i + 1..];
      assert r[..|r| - 1] == t[..i] + t[i + 1..];
    }
  }

  lemma {:induction false} CountPermutation(s: seq<nat>, t: seq<nat>, v: nat)
    requires multiset(s) == multiset(t)
    ensures Below(s, v) == Below(t, v) && UpTo(s, v) == UpTo(t, v)
  {
    SameLength(s, t);
    if |s| > 0 {
      hide Below, UpTo;
      var n := |s| - 1;
      assert s[..n] + s[n + 1..] == s[..n];
      var i := Remove(s, t);
      CountPermutation(s[..n], t[..i] + t[i + 1..], v);
      CountRemove(s, n, v);
      CountRemove(t, i, v);
    }
  }

  lemma SameLength(s: seq<nat>, t: seq<nat>)
    requires multiset(s) == multiset(t)
    ensures |s| == |t|
  {
    assert |s| == |multiset(s)| && |multiset(t)| == |t|;
  }

  /** Where the last value of `s` stands in a permutation of it; without it the rest are permutations. */
  lemma Remove(s: seq<nat>, t: seq<nat>) returns (i: nat)
    requires |s| > 0 && multiset(s) == multiset(t)
    ensures i < |t| && t[i] == s[|s| - 1]
    ensures multiset(s[..|s| - 1]) == multiset(t[..i] + t[i + 1..])
  {
    var x := s[|s| - 1];
    assert s == s[..|s| - 1] + [x];
    assert x in multiset(s);
    assert x in t;
    i :| 0 <= i < |t| && t[i] == x;
    assert t == t[..i] + [x] + t[i + 1..];
    var s', t' := s[..|s| - 1], t[..i] + t[i + 1..];
    assert multiset(t) == multiset(t') + multiset{x};
    assert multiset(s) == multiset(s') + multiset{x};
    assert multiset(s') == multiset(s) - multiset{x};
    assert multiset(t') == multiset(t) - multiset{x};
  }

  /** The rank of a value does not depend on the order of the values. */
  lemma KthPermutation(s: seq<nat>, t: seq<nat>, k: nat, v: nat)
    requires multiset(s) == multiset(t)
    ensures IsKth(s, k, v) <==> IsKth(t, k, v)
  {
    CountPermutation(s, t, v);
    assert v in s <==> v in multiset(s);
    assert v in t <==> v in multiset(t);
  }

  /** Selection agrees with sorting: the value of rank `k` is the one at index `k` of the sorted sequence. */
  lemma KthOfSorted(s: seq<nat>, sorted: seq<nat>, k: nat, v: nat)
    requires multiset(s) == multiset(sorted) && Sorted(sorted) && k < |s|
    ensures |sorted| == |s|
    ensures IsKth(s, k, v) <==> v == sorted[k]
  {
    SameLength(s, sorted);
    SplitIsKth(sorted, k);
    KthPermutation(s, sorted, k, sorted[k]);
    if IsKth(s, k, v) { KthUnique(s, k, v, sorted[k]); }
  }

  // ----- the selection

  /** Every value before index `l` is at most every one from it on. */
  predicate Divided(s: seq<nat>, l: int) {
    forall p, q :: 0 <= p < l <= q < |s| ==> s[p] <= s[q]
  }

  function Exchanged(s: seq<nat>, i: nat, j: nat): (t: seq<nat>)
    requires i < |s| && j < |s|
    ensures |t| == |s|
  {
    s[i := s[j]][j := s[i]]
  }

  lemma ExchangeKeeps(s: seq<nat>, i: nat, j: nat)
    requires i < |s| && j < |s|
    ensures multiset(Exchanged(s, i, j)) == multiset(s)
    ensures forall l :: (i < l <==> j < l) && Divided(s, l) ==> Divided(Exchanged(s, i, j), l)
  {
    var t := Exchanged(s, i, j);
    forall l | (i < l <==> j < l) && Divided(s, l)
      ensures Divided(t, l)
    {
      forall p, q | 0 <= p < l <= q < |t|
        ensures t[p] <= t[q]
      {
        var p' := if p == i then j else if p == j then i else p;
        var q' := if q == i then j else if q == j then i else q;
        assert t[p] == s[p'] && t[q] == s[q'];
      }
    }
  }

  /** `ELEM_SWAP` */
  method Swap(a: array<nat>, n: nat, i: nat, j: nat)
    requires i < n <= a.Length && j < n
    modifies a
    ensures a[..n] == Exchanged(old(a[..n]), i, j) && a[n..] == old(a[n..])
  {
    var t := a[i];
    a[i] := a[j];
    a[j] := t;
  }

  /** `kth_smallest` */
  method KthSmallest(a: array<nat>, n: nat, k: nat) returns (r: nat)
    requires k < n <= a.Length
    modifies a
    ensures multiset(a[..n]) == multiset(old(a[..n])) && a[n..] == old(a[n..])
    ensures r == a[k] && SplitAt(a[..n], k)
    ensures IsKth(old(a[..n]), k, r)
  {
    var l, m := 0, n - 1;
    while l < m
      invariant 0 <= l && m < n
      invariant (l <= k <= m) || (l == k + 1 && m == k - 1)
      invariant Divided(a[..n], l) && Divided(a[..n], m + 1)
      invariant multiset(a[..n]) == multiset(old(a[..n])) && a[n..] == old(a[n..])
      decreases m - l
    {
      var i, j := Partition(a, n, k, l, m);
      if j < k { l := i; }
      if k < i { m := j; }
    }
    r := a[k];
    Selected(a[..n], l, m, k);
    SplitIsKth(a[..n], k);
    KthPermutation(a[..n], old(a[..n]), k, r);
  }

  lemma Selected(s: seq<nat>, l: int, m: int, k: nat)
    requires k < |s| && Divided(s, l) && Divided(s, m + 1)
    requires (l == k && m == k) || (l == k + 1 && m == k - 1)
    ensures SplitAt(s, k)
  {
  }

  /** `while (a[i] < x) i++`, stopped at the latest by index `stop`. */
  method Up(a: array<nat>, from: nat, x: nat, ghost stop: nat) returns (i: nat)
    requires from <= stop < a.Length && x <= a[stop]
    ensures from <= i <= stop && x <= a[i]
    ensures forall p :: from <= p < i ==> a[p] < x
  {
    i := from;
    while a[i] < x
      invariant from <= i <= stop
      invariant forall p :: from <= p < i ==> a[p] < x
      decreases stop - i
    {
      i := i + 1;
    }
  }

  /** `while (x < a[j]) j--`, stopped at the latest by index `stop`. */
  method Down(a: array<nat>, from: nat, x: nat, ghost stop: nat) returns (j: nat)
    requires stop <= from < a.Length && a[stop] <= x
    ensures stop <= j <= from && a[j] <= x
    ensures forall q :: j < q <= from ==> x < a[q]
  {
    j := from;
    while x < a[j]
      invariant stop <= j <= from
      invariant forall q :: j < q <= from ==> x < a[q]
      decreases j
    {
      j := j - 1;
    }
  }

  /** The body of the outer loop of `kth_smallest`: one pass around the value at index `k`. */
  method Partition(a: array<nat>, n: nat, k: nat, l: nat, m: nat) returns (i: int, j: int)
    requires l <= k <= m < n <= a.Length
    requires Divided(a[..n], l) && Divided(a[..n], m + 1)
    modifies a
    ensures multiset(a[..n]) == multiset(old(a[..n])) && a[n..] == old(a[n..])
    ensures l < i <= m + 1 && l - 1 <= j < m && (i == j + 1 || i == j + 2)
    ensures Divided(a[..n], l) && Divided(a[..n], m + 1)
    ensures Divided(a[..n], i) && Divided(a[..n], j + 1)
  {
    hide Divided, Exchanged, AtMost, AtLeast;
    var x := a[k];
    Nothing(a[..n], l, m + 1, x);
    i, j := l, m;
    ghost var s := a[..n];
    // where the scans stop at the latest: the pivot, then the values exchanged last
    ghost var high, low := k, k;
    while true
      invariant l <= i <= high <= m && l <= low <= j <= m && i <= j
      invariant (i == l && j == m) || (l < i && j < m)
      invariant s == a[..n] && s[low] <= x <= s[high] && high <= j + 1 && i - 1 <= low
      invariant AtMost(s, l, i, x) && AtLeast(s, j + 1, m + 1, x)
      invariant Divided(s, l) && Divided(s, m + 1)
      invariant multiset(s) == multiset(old(a[..n])) && a[n..] == old(a[n..])
      decreases j - i
    {
      assert a[high] == s[high] && a[low] == s[low];
      var i', j' := i, j;
      i := Up(a, i, x, high);
      j := Down(a, j, x, low);
      Scanned(s, l, i', i, j, j', m, x);
      if i <= j {
        ExchangeKeeps(s, i, j);
        ExchangeSides(s, l, i, j, m, x);
        Swap(a, n, i, j);
        s := Exchanged(s, i, j);
        high, low, i, j := j, i, i + 1, j - 1;
      }
      if i > j { break; }
    }
    assert s == a[..n];
    Parted(s, l, i, j, m, x);
  }

  predicate AtMost(s: seq<nat>, from: int, to: int, x: nat)
    requires 0 <= from && to <= |s|
  {
    forall p :: from <= p < to ==> s[p] <= x
  }

  predicate AtLeast(s: seq<nat>, from: int, to: int, x: nat)
    requires 0 <= from && to <= |s|
  {
    forall p :: from <= p < to ==> x <= s[p]
  }

  lemma Nothing(s: seq<nat>, l: int, m: int, x: nat)
    requires 0 <= l <= |s| && 0 <= m <= |s|
    ensures AtMost(s, l, l, x) && AtLeast(s, m, m, x)
  {
  }

  lemma Scanned(s: seq<nat>, l: int, i: int, i': int, j': int, j: int, m: int, x: nat)
    requires 0 <= l <= i <= i' <= m && l <= j' <= j <= m < |s|
    requires AtMost(s, l, i, x) && AtLeast(s, j + 1, m + 1, x)
    requires forall p :: i <= p < i' ==> s[p] < x
    requires forall q :: j' < q <= j ==> x < s[q]
    requires i - 1 <= j' && i' <= j + 1
    ensures AtMost(s, l, i', x) && AtLeast(s, j' + 1, m + 1, x)
    ensures i' <= j' + 1
  {
    if i < i' { assert s[i' - 1] < x; }
  }

  lemma ExchangeSides(s: seq<nat>, l: int, i: int, j: int, m: int, x: nat)
    requires 0 <= l <= i <= j <= m < |s|
    requires AtMost(s, l, i, x) && AtLeast(s, j + 1, m + 1, x) && s[j] <= x <= s[i]
    ensures AtMost(Exchanged(s, i, j), l, i + 1, x) && AtLeast(Exchanged(s, i, j), j, m + 1, x)
  {
  }

  lemma Parted(s: seq<nat>, l: int, i: int, j: int, m: int, x: nat)
    requires 0 <= l < i <= m + 1 <= |s| && l - 1 <= j < i
    requires AtMost(s, l, i, x) && AtLeast(s, j + 1, m + 1, x)
    requires Divided(s, l) && Divided(s, m + 1)
    ensures Divided(s, i) && Divided(s, j + 1)
  {
  }

  /** Index of the lower median among `n` values. */
  function MedianRank(n: nat): (k: nat)
    requires n > 0
    ensures k < n
    ensures k <= n - 1 - k <= k + 1
  {
    if n % 2 == 1 then n / 2 else n / 2 - 1
  }

  /** `v` is the lower median: the middle one of the sorted values, the lower of the two when their number is
      even. */
  predicate IsMedian(s: seq<nat>, v: nat) {
    |s| > 0 && IsKth(s, MedianRank(|s|), v)
  }

  /** At most half of the values are below the median, and at most half above it. */
  lemma MedianHalves(s: seq<nat>, v: nat)
    requires IsMedian(s, v)
    ensures 2 * Below(s, v) < |s| && 2 * (|s| - UpTo(s, v)) <= |s|
  {
    CountBounds(s, v);
  }

  /** `median` on the first `n` values. */
  method Median(a: array<nat>, n: nat) returns (r: nat)
    requires 0 < n <= a.Length
    modifies a
    ensures IsMedian(old(a[..n]), r)
    ensures multiset(a[..n]) == multiset(old(a[..n])) && a[n..] == old(a[n..])
  {
    r := KthSmallest(a, n, if n % 2 == 1 then n / 2 else n / 2 - 1);
  }
}
