/** The histogram against what it stands for, the sorted list of the recorded samples. `Hist` is the
    mutable part of `struct hdr_histogram`, the functions are the operations on it. */
module Samples {
  import opened Bits
  import opened Buckets
  import Configuration

  datatype Hist = Hist(counts: seq<int>, totalCount: int, minValue: nat, maxValue: nat)

  function Empty(c: BucketConfig): Hist {
    Hist(seq(c.countsLen, _ => 0), 0, INT64_MAX, 0)
  }

  predicate Accepts(c: BucketConfig, value: int)
    requires WellFormed(c)
  {
    value >= 0 && CountsIndexFor(c, value) < c.countsLen
  }

  /** `hdr_record_values` */
  function Record(c: BucketConfig, h: Hist, value: int, count: int): Hist
    requires WellFormed(c) && |h.counts| == c.countsLen
  {
    if !Accepts(c, value) then h else
      var i := CountsIndexFor(c, value);
      Hist(h.counts[i := h.counts[i] + count],
           h.totalCount + count,
           if value < h.minValue && value != 0 then value else h.minValue,
           if value > h.maxValue then value else h.maxValue)
  }

  function HdrMax(c: BucketConfig, h: Hist): nat
    requires WellFormed(c)
  {
    if h.maxValue == 0 then 0 else HighestEquivalentValue(c, h.maxValue)
  }

  function NonZeroMin(c: BucketConfig, h: Hist): nat
    requires WellFormed(c)
  {
    if h.minValue == INT64_MAX then INT64_MAX else LowestEquivalentValue(c, h.minValue)
  }

  function HdrMin(c: BucketConfig, h: Hist): nat
    requires WellFormed(c) && |h.counts| > 0
  {
    if 0 < h.counts[0] then 0 else NonZeroMin(c, h)
  }

  // ----- sorted lists of samples

  ghost predicate Sorted(s: seq<nat>) {
    forall i, j | 0 <= i < j < |s| :: s[i] <= s[j]
  }

  function Insert(s: seq<nat>, v: nat): seq<nat> {
    if s == [] || v <= s[0] then [v] + s else [s[0]] + Insert(s[1..], v)
  }

  function InsertMany(s: seq<nat>, v: nat, count: nat): seq<nat> {
    if count == 0 then s else Insert(InsertMany(s, v, count - 1), v)
  }

  lemma {:induction false} InsertShape(s: seq<nat>, v: nat) returns (k: nat)
    ensures k <= |s| && Insert(s, v) == s[..k] + [v] + s[k..]
    ensures (forall p | 0 <= p < k :: s[p] < v) && (k < |s| ==> v <= s[k])
  {
    if s == [] || v <= s[0] {
      k := 0;
    } else {
      var j := InsertShape(s[1..], v);
      k := j + 1;
      assert s[..k] == [s[0]] + s[1..][..j];
    }
  }

  lemma InsertSorts(s: seq<nat>, v: nat)
    requires Sorted(s)
    ensures Sorted(Insert(s, v))
    ensures multiset(Insert(s, v)) == multiset(s) + multiset{v}
  {
    hide Insert;
    var k := InsertShape(s, v);
    assert s == s[..k] + s[k..];
    SpliceSorted(s, v, k);
  }

  lemma SpliceSorted(s: seq<nat>, v: nat, k: nat)
    requires Sorted(s) && k <= |s|
    requires (forall p | 0 <= p < k :: s[p] < v) && (k < |s| ==> v <= s[k])
    ensures Sorted(s[..k] + [v] + s[k..])
  {
    var t := s[..k] + [v] + s[k..];
    forall i, j | 0 <= i < j < |t|
      ensures t[i] <= t[j]
    {
      assert t[i] == if i < k then s[i] else if i == k then v else s[i - 1];
      assert t[j] == if j < k then s[j] else if j == k then v else s[j - 1];
      assert k < |s| && j > k ==> s[k] <= s[j - 1];
    }
  }

  lemma {:induction false} InsertManySorts(s: seq<nat>, v: nat, count: nat)
    requires Sorted(s)
    ensures Sorted(InsertMany(s, v, count))
    ensures multiset(InsertMany(s, v, count)) == multiset(s)[v := multiset(s)[v] + count]
  {
    if count > 0 {
      InsertManySorts(s, v, count - 1);
      InsertSorts(InsertMany(s, v, count - 1), v);
    }
  }

  // ----- the slots of a list

  /** Samples of `s` counted at index `i`. */
  ghost function CountAt(c: BucketConfig, s: seq<nat>, i: nat): nat
    requires WellFormed(c)
  {
    if s == [] then 0 else (if CountsIndexFor(c, s[0]) == i then 1 else 0) + CountAt(c, s[1..], i)
  }

  /** Samples of `s` counted at an index less than `i`. */
  ghost function CountBelow(c: BucketConfig, s: seq<nat>, i: nat): nat
    requires WellFormed(c)
  {
    if s == [] then 0 else (if CountsIndexFor(c, s[0]) < i then 1 else 0) + CountBelow(c, s[1..], i)
  }

  function SumTo(counts: seq<int>, n: nat): int
    requires n <= |counts|
  {
    if n == 0 then 0 else SumTo(counts, n - 1) + counts[n - 1]
  }

  function SumPositive(counts: seq<int>, n: nat): int
    requires n <= |counts|
  {
    if n == 0 then 0 else SumPositive(counts, n - 1) + Max(0, counts[n - 1])
  }

  ghost function MinNonZero(s: seq<nat>): int {
    if s == [] then INT64_MAX else if s[0] != 0 then s[0] else MinNonZero(s[1..])
  }

  ghost predicate Bounded(s: seq<nat>) {
    forall i | 0 <= i < |s| :: s[i] <= INT64_MAX
  }

  ghost function Greatest(s: seq<nat>): nat {
    if s == [] then 0 else s[|s| - 1]
  }

  /** The counters of `h` are those of the sorted list `s`. */
  ghost predicate Represents(c: BucketConfig, h: Hist, s: seq<nat>)
    requires WellFormed(c)
  {
    && Sorted(s)
    && Bounded(s)
    && (forall v | v in s :: Accepts(c, v))
    && CountsMatch(c, h.counts, s)
    && h.totalCount == |s|
    && h.minValue == MinNonZero(s)
    && h.maxValue == Greatest(s)
  }

  ghost predicate CountsMatch(c: BucketConfig, counts: seq<int>, s: seq<nat>)
    requires WellFormed(c)
  {
    |counts| == c.countsLen && forall i | 0 <= i < |counts| :: counts[i] == CountAt(c, s, i)
  }

  lemma EmptyRepresents(c: BucketConfig)
    requires WellFormed(c)
    ensures Represents(c, Empty(c), [])
  {
  }

  lemma {:induction false} CountAtInsert(c: BucketConfig, s: seq<nat>, v: nat, i: nat)
    requires WellFormed(c)
    ensures CountAt(c, Insert(s, v), i) == CountAt(c, s, i) + if CountsIndexFor(c, v) == i then 1 else 0
  {
    hide CountsIndexFor, WellFormed;
    if s == [] || v <= s[0] {
      assert ([v] + s)[1..] == s;
    } else {
      CountAtInsert(c, s[1..], v, i);
      assert Insert(s, v)[1..] == Insert(s[1..], v);
    }
  }

  lemma {:induction false} MinNonZeroInsert(s: seq<nat>, v: nat)
    requires Sorted(s) && Bounded(s) && v <= INT64_MAX
    ensures MinNonZero(Insert(s, v)) == if v < MinNonZero(s) && v != 0 then v else MinNonZero(s)
  {
    MinNonZeroBound(s);
    if s == [] || v <= s[0] {
      assert ([v] + s)[1..] == s;
    } else {
      MinNonZeroInsert(s[1..], v);
      assert Insert(s, v)[1..] == Insert(s[1..], v);
    }
  }

  lemma {:induction false} MinNonZeroBound(s: seq<nat>)
    requires Sorted(s) && Bounded(s)
    ensures 0 < MinNonZero(s) <= INT64_MAX
    ensures s != [] ==> s[0] <= MinNonZero(s)
  {
    if s != [] { MinNonZeroBound(s[1..]); }
  }

  lemma GreatestInsert(s: seq<nat>, v: nat)
    requires Sorted(s)
    ensures Greatest(Insert(s, v)) == if v > Greatest(s) then v else Greatest(s)
  {
    var k := InsertShape(s, v);
    assert k < |s| ==> s[k] <= s[|s| - 1];
  }

  // ----- recording refines insertion

  /** Recording an accepted value `count` times inserts it `count` times in the list; a value that is
      refused changes nothing. */
  lemma RecordRepresents(c: BucketConfig, h: Hist, s: seq<nat>, value: int, count: nat)
    requires WellFormed(c) && Represents(c, h, s) && count > 0 && value <= INT64_MAX
    ensures Accepts(c, value) ==> Represents(c, Record(c, h, value, count), InsertMany(s, value, count))
    ensures !Accepts(c, value) ==> Represents(c, Record(c, h, value, count), s)
  {
    if Accepts(c, value) {
      InsertManyCounts(c, s, value, count);
      InsertManyFacts(s, value, count);
      InsertManySorts(s, value, count);
      var t := InsertMany(s, value, count);
      forall v | v in t
        ensures Accepts(c, v)
      {
        assert v in multiset(t);
        assert v == value || v in multiset(s);
      }
    }
  }

  lemma {:induction false} InsertManyCounts(c: BucketConfig, s: seq<nat>, v: nat, count: nat)
    requires WellFormed(c)
    ensures forall i: nat :: CountAt(c, InsertMany(s, v, count), i)
                          == CountAt(c, s, i) + if CountsIndexFor(c, v) == i then count else 0
  {
    hide CountsIndexFor, WellFormed, CountAt, Insert;
    if count > 0 {
      InsertManyCounts(c, s, v, count - 1);
      forall i: nat
        ensures CountAt(c, InsertMany(s, v, count), i) == CountAt(c, s, i) + if CountsIndexFor(c, v) == i then count else 0
      {
        CountAtInsert(c, InsertMany(s, v, count - 1), v, i);
      }
    }
  }

  lemma {:induction false} InsertManyFacts(s: seq<nat>, v: nat, count: nat)
    requires Sorted(s) && Bounded(s) && v <= INT64_MAX
    ensures Bounded(InsertMany(s, v, count))
    ensures |InsertMany(s, v, count)| == |s| + count
    ensures count > 0 ==> MinNonZero(InsertMany(s, v, count)) == if v < MinNonZero(s) && v != 0 then v else MinNonZero(s)
    ensures count > 0 ==> Greatest(InsertMany(s, v, count)) == if v > Greatest(s) then v else Greatest(s)
  {
    hide Insert, MinNonZero, Greatest;
    if count > 0 {
      var t := InsertMany(s, v, count - 1);
      InsertManyFacts(s, v, count - 1);
      InsertManySorts(s, v, count - 1);
      MinNonZeroInsert(t, v);
      GreatestInsert(t, v);
      var k := InsertShape(t, v);
    }
  }

  // ----- runs of records

  /** The histogram and the list after a run of `(value, count)` records. */
  function RecordAll(c: BucketConfig, records: seq<(int, nat)>): (h: Hist)
    requires WellFormed(c)
    ensures |h.counts| == c.countsLen
  {
    if records == [] then Empty(c)
    else
      var last := records[|records| - 1];
      Record(c, RecordAll(c, records[..|records| - 1]), last.0, last.1)
  }

  function InsertAll(c: BucketConfig, records: seq<(int, nat)>): seq<nat>
    requires WellFormed(c)
  {
    if records == [] then []
    else
      var last := records[|records| - 1];
      var s := InsertAll(c, records[..|records| - 1]);
      if Accepts(c, last.0) then InsertMany(s, last.0, last.1) else s
  }

  lemma {:induction false} RunRepresents(c: BucketConfig, records: seq<(int, nat)>)
    requires WellFormed(c) && forall r | r in records :: r.0 <= INT64_MAX && r.1 > 0
    ensures Represents(c, RecordAll(c, records), InsertAll(c, records))
  {
    if records != [] {
      var last := records[|records| - 1];
      RunRepresents(c, records[..|records| - 1]);
      RecordRepresents(c, RecordAll(c, records[..|records| - 1]), InsertAll(c, records[..|records| - 1]), last.0, last.1);
    }
  }

  // ----- ranks

  /** Sums of the counters count the samples below an index. */
  lemma {:induction false} SumIsCountBelow(c: BucketConfig, counts: seq<int>, s: seq<nat>, n: nat)
    requires WellFormed(c) && CountsMatch(c, counts, s) && n <= |counts|
    ensures SumTo(counts, n) == CountBelow(c, s, n)
  {
    if n == 0 {
      CountBelowZero(c, s);
    } else {
      SumIsCountBelow(c, counts, s, n - 1);
      CountBelowNext(c, s, n - 1);
    }
  }

  lemma {:induction false} CountBelowZero(c: BucketConfig, s: seq<nat>)
    requires WellFormed(c)
    ensures CountBelow(c, s, 0) == 0
  {
    if s != [] {
      CountBelowZero(c, s[1..]);
      EquivalenceRange(c, s[0]);
    }
  }

  lemma {:induction false} CountBelowNext(c: BucketConfig, s: seq<nat>, i: nat)
    requires WellFormed(c)
    ensures CountBelow(c, s, i + 1) == CountBelow(c, s, i) + CountAt(c, s, i)
  {
    hide CountsIndexFor, WellFormed;
    if s != [] { CountBelowNext(c, s[1..], i); }
  }

  lemma {:induction false} CountBelowAtMost(c: BucketConfig, s: seq<nat>, i: nat, k: nat)
    requires WellFormed(c) && k <= |s|
    requires forall p | k <= p < |s| :: CountsIndexFor(c, s[p]) >= i
    ensures CountBelow(c, s, i) <= k
  {
    hide CountsIndexFor, WellFormed;
    if s != [] { CountBelowAtMost(c, s[1..], i, if k == 0 then 0 else k - 1); }
  }

  lemma {:induction false} CountBelowAtLeast(c: BucketConfig, s: seq<nat>, i: nat, k: nat)
    requires WellFormed(c) && k <= |s|
    requires forall p | 0 <= p < k :: CountsIndexFor(c, s[p]) < i
    ensures CountBelow(c, s, i) >= k
  {
    hide CountsIndexFor, WellFormed;
    if k > 0 { CountBelowAtLeast(c, s[1..], i, k - 1); }
  }

  /** The slot of the sample of rank `k`, 1-based: the first one where the running sum reaches `k`. */
  lemma RankSlot(c: BucketConfig, counts: seq<int>, s: seq<nat>, k: nat)
    requires WellFormed(c) && Sorted(s) && CountsMatch(c, counts, s)
    requires (forall v | v in s :: Accepts(c, v)) && 1 <= k <= |s|
    ensures
      var i := CountsIndexFor(c, s[k - 1]);
      0 <= i < |counts| && SumTo(counts, i) < k <= SumTo(counts, i + 1)
  {
    var i := CountsIndexFor(c, s[k - 1]);
    assert Accepts(c, s[k - 1]);
    forall p | 0 <= p < |s|
      ensures p < k ==> CountsIndexFor(c, s[p]) <= i
      ensures k - 1 <= p ==> CountsIndexFor(c, s[p]) >= i
    {
      if p < k { IndexMonotone(c, s[p], s[k - 1]); }
      if k - 1 <= p { IndexMonotone(c, s[k - 1], s[p]); }
    }
    SumIsCountBelow(c, counts, s, i);
    SumIsCountBelow(c, counts, s, i + 1);
    CountBelowAtMost(c, s, i, k - 1);
    CountBelowAtLeast(c, s, i + 1, k);
  }

  lemma {:induction false} SumMonotone(counts: seq<int>, i: nat, j: nat)
    requires i <= j <= |counts| && forall p | 0 <= p < |counts| :: counts[p] >= 0
    ensures SumTo(counts, i) <= SumTo(counts, j)
  {
    if i < j { SumMonotone(counts, i, j - 1); }
  }

  lemma SumOfAll(c: BucketConfig, counts: seq<int>, s: seq<nat>)
    requires WellFormed(c) && CountsMatch(c, counts, s) && forall v | v in s :: Accepts(c, v)
    ensures SumTo(counts, |counts|) == |s|
    ensures forall i | 0 <= i < |counts| :: counts[i] >= 0
  {
    SumIsCountBelow(c, counts, s, |counts|);
    forall p | 0 <= p < |s|
      ensures CountsIndexFor(c, s[p]) < |counts|
    {
      assert s[p] in s;
    }
    CountBelowAtLeast(c, s, |counts|, |s|);
    CountBelowAtMost(c, s, |counts|, |s|);
  }

  /** The total kept while recording is always the sum of the counters. */
  lemma TotalIsSum(c: BucketConfig, h: Hist, s: seq<nat>)
    requires WellFormed(c) && Represents(c, h, s)
    ensures h.totalCount == SumTo(h.counts, |h.counts|)
    ensures forall i | 0 <= i < |h.counts| :: h.counts[i] >= 0
  {
    SumOfAll(c, h.counts, s);
  }

  /** What the percentile scan computes: the highest equivalent of the value at the first index whose
      running sum reaches the rank, 0 when there is none. */
  ghost predicate IsRankValue(c: BucketConfig, counts: seq<int>, k: int, r: int)
    requires WellFormed(c)
  {
    || (exists i :: 0 <= i < |counts| && RankAt(c, counts, k, i, r))
    || (SumTo(counts, |counts|) < k && r == 0)
  }

  ghost predicate RankAt(c: BucketConfig, counts: seq<int>, k: int, i: nat, r: int)
    requires WellFormed(c) && i < |counts|
  {
    && k <= SumTo(counts, i + 1)
    && (forall j | 0 < j <= i :: SumTo(counts, j) < k)
    && r == HighestEquivalentValue(c, ValueAtIndex(c, i))
  }

  /** The bucketed answer refines the sorted list: for every rank it is the highest equivalent of the
      sample of that rank. */
  lemma RankValueIsSample(c: BucketConfig, h: Hist, s: seq<nat>, k: nat, r: int)
    requires WellFormed(c) && Represents(c, h, s) && 1 <= k <= |s|
    requires IsRankValue(c, h.counts, k, r)
    ensures r == HighestEquivalentValue(c, s[k - 1])
    ensures LowestEquivalentValue(c, s[k - 1]) <= s[k - 1] <= r
  {
    RankSlot(c, h.counts, s, k);
    TotalIsSum(c, h, s);
    var i: nat := CountsIndexFor(c, s[k - 1]);
    SumMonotone(h.counts, i + 1, |h.counts|);
    var j :| 0 <= j < |h.counts| && RankAt(c, h.counts, k, j, r);
    if j < i { SumMonotone(h.counts, j + 1, i); }
    assert i == j;
    IndexOfValueAtIndex(c, i);
    EquivalenceRange(c, s[k - 1]);
    EquivalenceRange(c, ValueAtIndex(c, i));
  }

  // ----- recomputing the counters

  /** Exactly the values from 0 to the end of the range of the layout are accepted. */
  lemma AcceptsIff(c: BucketConfig, value: int)
    requires WellFormed(c)
    ensures Accepts(c, value) <==>
      0 <= value < c.subBucketCount * Pow2(c.unitMagnitude) * Pow2(c.bucketCount - 1)
  {
    if value >= 0 { TrackableIff(c, value); }
    hide WellFormed, Pow2, CountsIndexFor;
  }

  /** `hdr_max` and `hdr_min` of a recorded list: the highest equivalent of the last sample, 0 if that is 0; the lowest
      equivalent of the first one, except for the mark for no minimum, which stands for itself. */
  lemma ExtremesAre(c: BucketConfig, h: Hist, s: seq<nat>)
    requires WellFormed(c) && Represents(c, h, s)
    ensures |h.counts| > 0
    ensures HdrMax(c, h) == if s == [] || s[|s| - 1] == 0 then 0 else HighestEquivalentValue(c, s[|s| - 1])
    ensures HdrMin(c, h) ==
      if s == [] then INT64_MAX
      else if s[0] == INT64_MAX && LowestEquivalentValue(c, s[0]) > 0 then INT64_MAX
      else LowestEquivalentValue(c, s[0])
  {
    LengthPositive(c);
    MinNonZeroBound(s);
    if s != [] {
      CountAtWitness(c, s, 0);
      EquivalenceRange(c, s[0]);
      ValueAtZero(c);
      ZeroIndex(c, s[0]);
      if h.counts[0] == 0 {
        FirstUsedIsLeast(c, h, s);
        ValueOfUsed(c, s, 0);
      } else {
        IndexOfFirst(c, s);
      }
    }
  }

  lemma ValueOfUsed(c: BucketConfig, s: seq<nat>, p: nat)
    requires WellFormed(c) && p < |s| && CountAt(c, s, 0) == 0
    ensures CountsIndexFor(c, s[p]) > 0 && LowestEquivalentValue(c, s[p]) > 0
  {
    hide WellFormed, CountsIndexFor, ValueAtIndex, LowestEquivalentValue, CountAt;
    CountAtWitness(c, s, 0);
    EquivalenceRange(c, s[p]);
    ValueAtZero(c);
    var i: nat := CountsIndexFor(c, s[p]);
    if i > 0 { ValueAtStrict(c, 0, i); }
  }

  lemma IndexOfFirst(c: BucketConfig, s: seq<nat>)
    requires WellFormed(c) && Sorted(s) && s != [] && CountAt(c, s, 0) > 0
    ensures CountsIndexFor(c, s[0]) == 0 && LowestEquivalentValue(c, s[0]) == 0
  {
    hide WellFormed, CountsIndexFor, ValueAtIndex, LowestEquivalentValue, CountAt;
    CountAtWitness(c, s, 0);
    var p :| 0 <= p < |s| && CountsIndexFor(c, s[p]) == 0;
    IndexMonotone(c, s[0], s[p]);
    EquivalenceRange(c, s[0]);
    ValueAtZero(c);
  }

  /** `hdr_reset_internal_counters`: what is recomputed from the counts alone. */
  ghost predicate IsRecomputed(c: BucketConfig, counts: seq<int>, r: Hist)
    requires WellFormed(c) && |counts| == c.countsLen
  {
    && r.counts == counts
    && r.totalCount == SumPositive(counts, |counts|)
    && (forall i | IsLastUsed(counts, i) :: r.maxValue == HighestEquivalentValue(c, ValueAtIndex(c, i)))
    && (forall i | IsFirstUsed(counts, i) :: r.minValue == ValueAtIndex(c, i))
    && ((forall i | 0 <= i < |counts| :: counts[i] <= 0) ==> r.maxValue == 0)
    && ((forall i | 0 < i < |counts| :: counts[i] <= 0) ==> r.minValue == INT64_MAX)
  }

  ghost predicate IsLastUsed(counts: seq<int>, i: nat) {
    i < |counts| && counts[i] > 0 && forall j | i < j < |counts| :: counts[j] <= 0
  }

  /** The first used index other than 0. */
  ghost predicate IsFirstUsed(counts: seq<int>, i: nat) {
    0 < i < |counts| && counts[i] > 0 && forall j | 0 < j < i :: counts[j] <= 0
  }

  lemma {:induction false} SumPositiveIsSum(counts: seq<int>, n: nat)
    requires n <= |counts| && forall i | 0 <= i < |counts| :: counts[i] >= 0
    ensures SumPositive(counts, n) == SumTo(counts, n)
  {
    if n > 0 { SumPositiveIsSum(counts, n - 1); }
  }

  lemma {:induction false} CountAtWitness(c: BucketConfig, s: seq<nat>, i: nat)
    requires WellFormed(c)
    ensures CountAt(c, s, i) > 0 <==> exists p :: 0 <= p < |s| && CountsIndexFor(c, s[p]) == i
  {
    hide CountsIndexFor, WellFormed;
    if s != [] {
      CountAtWitness(c, s[1..], i);
      if p :| 0 <= p < |s| && CountsIndexFor(c, s[p]) == i {
        assert p > 0 ==> s[1..][p - 1] == s[p];
      }
      if q :| 0 <= q < |s[1..]| && CountsIndexFor(c, s[1..][q]) == i {
        assert s[q + 1] == s[1..][q];
      }
    }
  }

  lemma LastUsedIsGreatest(c: BucketConfig, h: Hist, s: seq<nat>)
    requires WellFormed(c) && Represents(c, h, s) && s != []
    ensures IsLastUsed(h.counts, CountsIndexFor(c, Greatest(s)))
  {
    var last := |s| - 1;
    assert s[last] in s;
    var i: nat := CountsIndexFor(c, s[last]);
    CountAtWitness(c, s, i);
    forall j | i < j < |h.counts|
      ensures h.counts[j] <= 0
    {
      CountAtWitness(c, s, j);
      forall p | 0 <= p < |s|
        ensures CountsIndexFor(c, s[p]) != j
      {
        IndexMonotone(c, s[p], s[last]);
      }
    }
  }

  lemma ZeroIndex(c: BucketConfig, v: nat)
    requires WellFormed(c)
    ensures CountsIndexFor(c, 0) == 0
    ensures HighestEquivalentValue(c, 0) == Pow2(c.unitMagnitude) - 1
  {
    ValueAtZero(c);
    IndexOfValueAtIndex(c, 0);
    BucketIndexIs(c, 0);
    DivModUnique(0, Pow2(0 + c.unitMagnitude), 0, 0);
  }

  lemma HighestIdempotent(c: BucketConfig, v: nat)
    requires WellFormed(c)
    ensures v <= HighestEquivalentValue(c, v)
    ensures HighestEquivalentValue(c, HighestEquivalentValue(c, v)) == HighestEquivalentValue(c, v)
    ensures HighestEquivalentValue(c, ValueAtIndex(c, CountsIndexFor(c, v))) == HighestEquivalentValue(c, v)
  {
    EquivalenceRange(c, v);
    var i: nat := CountsIndexFor(c, v);
    IndexIffInRange(c, HighestEquivalentValue(c, v), i);
    IndexOfValueAtIndex(c, i);
    EquivalenceRange(c, HighestEquivalentValue(c, v));
    EquivalenceRange(c, ValueAtIndex(c, i));
  }

  /** The maximum survives recomputation exactly when values are resolved to one unit, or something
      positive was recorded, or nothing was. */
  lemma RecomputedMax(c: BucketConfig, h: Hist, s: seq<nat>, r: Hist)
    requires WellFormed(c) && Represents(c, h, s) && IsRecomputed(c, h.counts, r)
    ensures HdrMax(c, r) == HdrMax(c, h) <==> c.unitMagnitude == 0 || h.totalCount == 0 || h.maxValue > 0
  {
    if s == [] {
    } else {
      LastUsedIsGreatest(c, h, s);
      var m: nat := Greatest(s);
      HighestIdempotent(c, m);
      ZeroIndex(c, m);
      assert r.maxValue == HighestEquivalentValue(c, m);
      assert c.unitMagnitude > 0 ==> Pow2(c.unitMagnitude) >= 2;
    }
  }

  /** What `hdr_init(2, 40, 1)` makes: values are resolved to two units. */
  const COARSE := BucketConfig(2, 40, 1, 1, 4, 16, 62, 32, 1, 32)

  lemma CoarseConfigured()
    ensures Configuration.Configured(COARSE, 2, 40, 1)
    ensures WellFormed(COARSE)
  {
    assert Pow2(0) == 1 && Pow2(1) == 2 && Pow2(2) == 4 && Pow2(4) == 16;
    hide Pow2;
    assert SubBucketMask(32, 1) == 62 && CountsLength(1, 16) == 32;
    assert Configuration.IntPow(10, 1) == 10 && Configuration.RangeEnd(32, 1, 1) == 64;
  }

  /** A concrete failure: of a single sample of value 0 the maximum is 0, and 1 after recomputation. */
  lemma RecomputationRaisesMax(r: Hist)
    ensures WellFormed(COARSE)
    ensures
      var h := Record(COARSE, Empty(COARSE), 0, 1);
      IsRecomputed(COARSE, h.counts, r) ==> HdrMax(COARSE, h) == 0 && HdrMax(COARSE, r) == 1
  {
    CoarseConfigured();
    hide WellFormed, CountsIndexFor, HighestEquivalentValue, ValueAtIndex, Represents;
    var h := Record(COARSE, Empty(COARSE), 0, 1);
    ZeroIndex(COARSE, 0);
    ValueAtZero(COARSE);
    assert IsLastUsed(h.counts, 0);
    assert Pow2(1) == 2;
    HighestIdempotent(COARSE, 0);
  }

  lemma FirstUsedIsLeast(c: BucketConfig, h: Hist, s: seq<nat>)
    requires WellFormed(c) && Represents(c, h, s) && s != []
    requires 0 < |h.counts| && h.counts[0] == 0
    ensures IsFirstUsed(h.counts, CountsIndexFor(c, s[0])) && s[0] > 0
  {
    assert s[0] in s;
    var i: nat := CountsIndexFor(c, s[0]);
    CountAtWitness(c, s, i);
    ZeroIndex(c, s[0]);
    forall j | 0 < j < i
      ensures h.counts[j] <= 0
    {
      CountAtWitness(c, s, j);
      LeastIndex(c, s, j);
    }
  }

  lemma LeastIndex(c: BucketConfig, s: seq<nat>, j: nat)
    requires WellFormed(c) && Sorted(s) && s != [] && j < CountsIndexFor(c, s[0])
    ensures forall p | 0 <= p < |s| :: CountsIndexFor(c, s[p]) != j
  {
    forall p | 0 <= p < |s|
      ensures CountsIndexFor(c, s[p]) != j
    {
      IndexMonotone(c, s[0], s[p]);
    }
  }

  lemma LengthPositive(c: BucketConfig)
    requires WellFormed(c)
    ensures c.countsLen > 0
  {
    MulSign(c.bucketCount + 1, c.subBucketHalfCount);
  }

  /** The total survives, and the minimum does exactly when it is not mistaken for the source's mark for "no
      minimum", the largest 64-bit value. */
  lemma RecomputedMin(c: BucketConfig, h: Hist, s: seq<nat>, r: Hist)
    requires WellFormed(c) && Represents(c, h, s) && IsRecomputed(c, h.counts, r)
    ensures |h.counts| > 0 && r.totalCount == h.totalCount
    ensures HdrMin(c, r) == HdrMin(c, h) <==> MinimumIsReal(c, h)
  {
    LengthPositive(c);
    TotalIsSum(c, h, s);
    SumPositiveIsSum(h.counts, |h.counts|);
    MinNonZeroBound(s);
    FirstUsedExists(h.counts, |h.counts|);
    if s != [] && h.counts[0] == 0 {
      FirstUsedIsLeast(c, h, s);
      var i: nat := CountsIndexFor(c, s[0]);
      EquivalenceRange(c, s[0]);
      IndexOfValueAtIndex(c, i);
      EquivalenceRange(c, ValueAtIndex(c, i));
      assert h.minValue == s[0];
    }
  }

  lemma RecomputedGreatest(c: BucketConfig, h: Hist, s: seq<nat>, r: Hist)
    requires WellFormed(c) && Represents(c, h, s) && IsRecomputed(c, h.counts, r)
    ensures r.maxValue == if s == [] then 0 else HighestEquivalentValue(c, s[|s| - 1])
  {
    if s != [] {
      var m := s[|s| - 1];
      LastUsedIsGreatest(c, h, s);
      HighestIdempotent(c, m);
      hide WellFormed, CountsIndexFor, HighestEquivalentValue, ValueAtIndex, CountAt;
      assert IsLastUsed(h.counts, CountsIndexFor(c, m));
    }
  }

  lemma RecomputedNone(c: BucketConfig, h: Hist, s: seq<nat>, r: Hist)
    requires WellFormed(c) && Represents(c, h, s) && IsRecomputed(c, h.counts, r)
    requires forall p | 0 <= p < |s| :: CountsIndexFor(c, s[p]) == 0
    ensures r.minValue == INT64_MAX
  {
    hide WellFormed, CountsIndexFor, CountAt, HighestEquivalentValue, ValueAtIndex, SumPositive;
    forall i | 0 < i < |h.counts|
      ensures h.counts[i] <= 0
    {
      CountAtWitness(c, s, i);
    }
  }

  /** What the extremes are set to: the upper end of the range of the last sample, and the lower end of the range of
      the first sample that is beyond the first slot. */
  lemma RecomputedAre(c: BucketConfig, h: Hist, s: seq<nat>, r: Hist)
    requires WellFormed(c) && Represents(c, h, s) && IsRecomputed(c, h.counts, r)
    ensures r.maxValue == if s == [] then 0 else HighestEquivalentValue(c, s[|s| - 1])
    ensures forall p | 0 <= p < |s| && CountsIndexFor(c, s[p]) > 0 && (p == 0 || CountsIndexFor(c, s[p - 1]) == 0) ::
      r.minValue == LowestEquivalentValue(c, s[p])
    ensures (forall p | 0 <= p < |s| :: CountsIndexFor(c, s[p]) == 0) ==> r.minValue == INT64_MAX
  {
    RecomputedGreatest(c, h, s, r);
    hide WellFormed, CountsIndexFor, CountAt, HighestEquivalentValue, LowestEquivalentValue, ValueAtIndex, SumPositive,
      MinNonZero;
    forall p | 0 <= p < |s| && CountsIndexFor(c, s[p]) > 0 && (p == 0 || CountsIndexFor(c, s[p - 1]) == 0)
      ensures r.minValue == LowestEquivalentValue(c, s[p])
    {
      FirstBeyond(c, h.counts, s, p);
      EquivalenceRange(c, s[p]);
      assert IsFirstUsed(h.counts, CountsIndexFor(c, s[p]));
    }
    if forall p | 0 <= p < |s| :: CountsIndexFor(c, s[p]) == 0 { RecomputedNone(c, h, s, r); }
  }

  lemma FirstBeyond(c: BucketConfig, counts: seq<int>, s: seq<nat>, p: nat)
    requires WellFormed(c) && Sorted(s) && CountsMatch(c, counts, s) && forall v | v in s :: Accepts(c, v)
    requires p < |s| && CountsIndexFor(c, s[p]) > 0 && (p == 0 || CountsIndexFor(c, s[p - 1]) == 0)
    ensures IsFirstUsed(counts, CountsIndexFor(c, s[p]))
  {
    hide WellFormed, CountsIndexFor, CountAt;
    var i: nat := CountsIndexFor(c, s[p]);
    assert s[p] in s;
    CountAtWitness(c, s, i);
    forall j | 0 < j < i
      ensures counts[j] <= 0
    {
      CountAtWitness(c, s, j);
      forall q | 0 <= q < |s|
        ensures CountsIndexFor(c, s[q]) != j
      {
        if q < p { IndexMonotone(c, s[q], s[p - 1]); } else { IndexMonotone(c, s[p], s[q]); }
      }
    }
  }

  /** Nothing was recorded, or a value in the first slot, or one below the mark, or the mark is alone in its range. */
  predicate MinimumIsReal(c: BucketConfig, h: Hist)
    requires WellFormed(c) && |h.counts| > 0
  {
    h.totalCount == 0 || h.counts[0] > 0 || h.minValue < INT64_MAX || LowestEquivalentValue(c, INT64_MAX) == INT64_MAX
  }

  /** What `hdr_init(1, INT64_MAX, 1)` makes: the last range is 2^58 values wide. */
  const WIDE := BucketConfig(1, INT64_MAX, 1, 0, 4, 16, 31, 32, 59, 960)

  lemma WidePowers()
    ensures Pow2(0) == 1 && Pow2(1) == 2 && Pow2(4) == 16
    ensures Pow2(57) == 0x200_0000_0000_0000 && Pow2(58) == 0x400_0000_0000_0000
    ensures Pow2(62) == 0x4000_0000_0000_0000 && Pow2(63) == 0x8000_0000_0000_0000
  {
    assert Pow2(0) == 1 && Pow2(1) == 2 && Pow2(4) == 16 && Pow2(8) == 256;
    hide Pow2;
    Pow2Add(8, 8);
    assert Pow2(16) == 65536;
    Pow2Add(16, 16);
    assert Pow2(32) == TWO_32;
    Pow2Add(32, 16);
    assert Pow2(48) == 0x1_0000_0000_0000;
    Pow2Add(48, 8);
    assert Pow2(56) == 0x100_0000_0000_0000;
    Pow2Add(56, 1);
    Pow2Add(57, 1);
    Pow2Add(58, 4);
    Pow2Add(62, 1);
  }

  lemma WideConfigured()
    ensures Configuration.Configured(WIDE, 1, INT64_MAX, 1)
    ensures WellFormed(WIDE)
  {
    WidePowers();
    hide Pow2;
    assert SubBucketMask(32, 0) == 31 && CountsLength(59, 16) == 960;
    assert Configuration.IntPow(10, 1) == 10;
    assert Configuration.RangeEnd(32, 0, 59) == 0x8000_0000_0000_0000;
    assert Configuration.RangeEnd(32, 0, 58) == 0x4000_0000_0000_0000;
  }

  lemma WideBucket()
    ensures WellFormed(WIDE) && GetBucketIndex(WIDE, INT64_MAX) == 58
  {
    WideConfigured();
    WidePowers();
    hide Pow2, WellFormed, GetBucketIndex, BitLength;
    BitLengthUnique(INT64_MAX, 62);
    BucketIndexIs(WIDE, INT64_MAX);
  }

  lemma WideRange()
    ensures WellFormed(WIDE) && CountsIndexFor(WIDE, INT64_MAX) == 959
    ensures LowestEquivalentValue(WIDE, INT64_MAX) == 0x7c00_0000_0000_0000
  {
    WideBucket();
    WidePowers();
    hide Pow2, WellFormed, GetBucketIndex, BitLength, CountsIndexFor, Slot;
    var b, s := SlotOfValue(WIDE, INT64_MAX);
    var p := 0x400_0000_0000_0000;
    assert s * p <= INT64_MAX < s * p + p;
    assert s == 31;
    EquivalenceRange(WIDE, INT64_MAX);
    hide LowestEquivalentValue;
    WideValue();
  }

  lemma WideValue()
    requires WellFormed(WIDE)
    ensures ValueAtIndex(WIDE, 959) == 0x7c00_0000_0000_0000
  {
    WidePowers();
    hide Pow2, WellFormed;
    ValueAtQuotient(WIDE, 59, 15, 959);
    hide ValueAtIndex;
  }

  /** A concrete failure: of a single sample of the largest 64-bit integer the minimum is that integer, and the start
      of its range after recomputation. */
  lemma RecomputationLowersMin(r: Hist)
    ensures WellFormed(WIDE) && Accepts(WIDE, INT64_MAX)
    ensures
      var h := Record(WIDE, Empty(WIDE), INT64_MAX, 1);
      IsRecomputed(WIDE, h.counts, r) ==>
        HdrMin(WIDE, h) == INT64_MAX && |r.counts| > 0 && HdrMin(WIDE, r) == 0x7c00_0000_0000_0000
  {
    hide WellFormed, CountsIndexFor, LowestEquivalentValue, ValueAtIndex;
    WideRange();
    WideValue();
    EquivalenceRange(WIDE, INT64_MAX);
    IndexOfValueAtIndex(WIDE, 959);
    EquivalenceRange(WIDE, ValueAtIndex(WIDE, 959));
    var h := Record(WIDE, Empty(WIDE), INT64_MAX, 1);
    assert IsFirstUsed(h.counts, 959);
    assert h.counts[0] == 0;
  }

  lemma {:induction false} FirstUsedExists(counts: seq<int>, n: nat)
    requires n <= |counts|
    ensures (forall i | 0 < i < n :: counts[i] <= 0) || exists i :: IsFirstUsed(counts, i)
  {
    if n > 0 {
      FirstUsedExists(counts, n - 1);
      if (forall i | 0 < i < n - 1 :: counts[i] <= 0) && n - 1 > 0 && counts[n - 1] > 0 {
        assert IsFirstUsed(counts, n - 1);
      }
    }
  }
}
