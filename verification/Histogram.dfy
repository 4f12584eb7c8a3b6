/** `struct hdr_histogram`, its iterators, and the operations that update them in place, each proved
    against the functions of `Samples` and `Merging`. */
module Histogram {
  import opened Bits
  import opened Buckets
  import opened Samples
  import opened Merging

  class Histogram {
    const cfg: BucketConfig
    const counts: array<int>
    var totalCount: int
    var minValue: nat
    var maxValue: nat

    ghost predicate Valid()
      reads this
    {
      WellFormed(cfg) && counts.Length == cfg.countsLen
    }

    ghost function State(): Hist
      reads this, counts
    {
      Hist(counts[..], totalCount, minValue, maxValue)
    }

    constructor (cfg: BucketConfig)
      requires WellFormed(cfg)
      ensures Valid() && fresh(counts) && this.cfg == cfg
      ensures State() == Empty(cfg)
    {
      this.cfg := cfg;
      counts := new int[cfg.countsLen](_ => 0);
      totalCount, minValue, maxValue := 0, INT64_MAX, 0;
      new;
      assert counts[..] == Empty(cfg).counts;
    }

    /** `hdr_reset` */
    method Reset()
      requires Valid()
      modifies this, counts
      ensures Valid() && State() == Empty(cfg)
    {
      totalCount, minValue, maxValue := 0, INT64_MAX, 0;
      for i := 0 to counts.Length
        modifies counts
        invariant forall j | 0 <= j < i :: counts[j] == 0
      {
        counts[i] := 0;
      }
      assert counts[..] == Empty(cfg).counts;
    }

    method CountsInc(index: nat, value: int)
      requires Valid() && index < counts.Length
      modifies this`totalCount, counts
      ensures counts[..] == old(counts[..])[index := old(counts[index]) + value]
      ensures totalCount == old(totalCount) + value
    {
      counts[index] := counts[index] + value;
      totalCount := totalCount + value;
    }

    method UpdateMinMax(value: nat)
      modifies this`minValue, this`maxValue
      ensures minValue == if value < old(minValue) && value != 0 then value else old(minValue)
      ensures maxValue == Max(value, old(maxValue))
    {
      minValue := if value < minValue && value != 0 then value else minValue;
      maxValue := if value > maxValue then value else maxValue;
    }

    /** `hdr_record_values` */
    method RecordValues(value: int, count: int) returns (ok: bool)
      requires Valid()
      modifies this, counts
      ensures Valid() && ok == Accepts(cfg, value)
      ensures State() == Record(cfg, old(State()), value, count)
    {
      if value < 0 {
        return false;
      }
      var countsIndex := CountsIndexFor(cfg, value);
      if countsIndex < 0 || cfg.countsLen <= countsIndex {
        return false;
      }
      CountsInc(countsIndex, count);
      UpdateMinMax(value);
      return true;
    }

    /** `hdr_record_corrected_values`: no backfill step fails once the value itself was accepted. */
    method RecordCorrectedValues(value: int, count: int, expectedInterval: int) returns (ok: bool)
      requires Valid()
      modifies this, counts
      ensures Valid() && ok == Accepts(cfg, value)
      ensures State() == RecordCorrected(cfg, old(State()), value, count, expectedInterval)
    {
      var first := RecordValues(value, count);
      if !first {
        return false;
      }
      if expectedInterval <= 0 || value <= expectedInterval {
        return true;
      }
      ghost var recorded := State();
      var missingValue := value - expectedInterval;
      while missingValue >= expectedInterval
        invariant Valid() && 0 <= missingValue <= value
        invariant Backfill(cfg, State(), missingValue, count, expectedInterval)
               == Backfill(cfg, recorded, value - expectedInterval, count, expectedInterval)
        decreases missingValue
      {
        AcceptsSmaller(cfg, value, missingValue);
        var again := RecordValues(missingValue, count);
        if !again {
          return false;
        }
        missingValue := missingValue - expectedInterval;
      }
      return true;
    }

    /** `hdr_max` */
    method Maximum() returns (r: int)
      requires Valid()
      ensures r == HdrMax(cfg, State())
    {
      if maxValue == 0 {
        return 0;
      }
      return HighestEquivalentValue(cfg, maxValue);
    }

    /** `hdr_min` */
    method Minimum() returns (r: int)
      requires Valid() && counts.Length > 0
      ensures r == HdrMin(cfg, State())
    {
      if 0 < counts[0] {
        return 0;
      }
      if minValue == INT64_MAX {
        return INT64_MAX;
      }
      return LowestEquivalentValue(cfg, minValue);
    }

    /** `hdr_reset_internal_counters` */
    method ResetInternalCounters()
      requires Valid()
      modifies this`totalCount, this`minValue, this`maxValue
      ensures Valid() && IsRecomputed(cfg, counts[..], State())
    {
      hide WellFormed, ValueAtIndex, CountsIndexFor, HighestEquivalentValue, LowestEquivalentValue, MedianEquivalentValue;
      var minNonZeroIndex := -1;
      var maxIndex := -1;
      var observedTotalCount := 0;
      for i := 0 to counts.Length
        invariant -1 <= maxIndex < i && -1 <= minNonZeroIndex < i && minNonZeroIndex != 0
        invariant observedTotalCount == SumPositive(counts[..], i)
        invariant maxIndex >= 0 ==> counts[maxIndex] > 0
        invariant forall j | maxIndex < j < i :: counts[j] <= 0
        invariant minNonZeroIndex > 0 ==> counts[minNonZeroIndex] > 0
        invariant forall j | 0 < j < (if minNonZeroIndex == -1 then i else minNonZeroIndex) :: counts[j] <= 0
      {
        var countAtIndex := counts[i];
        if countAtIndex > 0 {
          observedTotalCount := observedTotalCount + countAtIndex;
          maxIndex := i;
          if minNonZeroIndex == -1 && i != 0 {
            minNonZeroIndex := i;
          }
        }
      }
      if maxIndex == -1 {
        maxValue := 0;
      } else {
        maxValue := HighestEquivalentValue(cfg, ValueAtIndex(cfg, maxIndex));
      }
      if minNonZeroIndex == -1 {
        minValue := INT64_MAX;
      } else {
        minValue := ValueAtIndex(cfg, minNonZeroIndex);
      }
      totalCount := observedTotalCount;
    }

    /** The scan of `hdr_value_at_percentile`, from the rank on. */
    method ValueAtRank(countAtPercentile: int) returns (r: int)
      requires Valid() && countAtPercentile >= 1
      ensures IsRankValue(cfg, counts[..], countAtPercentile, r)
    {
      hide WellFormed, ValueAtIndex, CountsIndexFor, HighestEquivalentValue, LowestEquivalentValue, MedianEquivalentValue;
      var iter := new HistIter(this);
      var total := 0;
      var more := iter.AllValuesNext();
      while more
        invariant iter.h == this && fresh(iter)
        invariant 0 <= iter.countsIndex <= counts.Length && more == (iter.countsIndex < counts.Length)
        invariant total == SumTo(counts[..], iter.countsIndex)
        invariant forall j | 0 < j <= iter.countsIndex :: SumTo(counts[..], j) < countAtPercentile
        invariant more ==> iter.Current()
        decreases counts.Length - iter.countsIndex
      {
        total := total + iter.count;
        if total >= countAtPercentile {
          r := HighestEquivalentValue(cfg, iter.value);
          assert RankAt(cfg, counts[..], countAtPercentile, iter.countsIndex, r);
          return;
        }
        more := iter.AllValuesNext();
      }
      return 0;
    }

    /** `hdr_value_at_percentile`, the percentage taken as an exact number. */
    method ValueAtPercentile(percentile: real) returns (r: int)
      requires Valid()
      ensures forall k | NearestRank(k, percentile, totalCount) :: IsRankValue(cfg, counts[..], k, r)
    {
      hide WellFormed, IsRankValue, Scaled, Truncate, NearestRank;
      OnlyRank(percentile, totalCount);
      var requestedPercentile := if percentile < 100.0 then percentile else 100.0;
      var countAtPercentile := Truncate(Scaled(requestedPercentile, totalCount));
      countAtPercentile := if countAtPercentile > 1 then countAtPercentile else 1;
      r := ValueAtRank(countAtPercentile);
    }

    /** `hdr_add` into a distinct histogram. */
    method Add(from: Histogram) returns (dropped: int)
      requires Valid() && from.Valid() && from != this && from.counts != counts
      requires forall i | 0 <= i < from.counts.Length :: from.counts[i] >= 0
      requires from.totalCount == SumTo(from.counts[..], from.counts.Length)
      modifies this, counts
      ensures Valid()
      ensures State() == AddSlots(cfg, old(State()), from.cfg, from.counts[..], from.counts.Length)
      ensures dropped == DroppedSlots(cfg, from.cfg, from.counts[..], from.counts.Length)
    {
      hide WellFormed, ValueAtIndex, CountsIndexFor, HighestEquivalentValue, LowestEquivalentValue,
        MedianEquivalentValue, SumTo;
      var iter := new HistIter(from);
      dropped := 0;
      ghost var s, slots, n := State(), from.counts[..], 0;
      var more := iter.RecordedNext();
      SkipZeros(cfg, s, from.cfg, slots, 0, if more then iter.countsIndex else from.counts.Length);
      while more
        invariant Valid() && iter.h == from && fresh(iter) && from.counts[..] == slots
        invariant iter.Consistent() && from.Valid()
        invariant more ==> 0 <= iter.countsIndex < from.counts.Length && iter.Current()
        invariant var k := if more then iter.countsIndex else from.counts.Length;
          State() == AddSlots(cfg, s, from.cfg, slots, k) && dropped == DroppedSlots(cfg, from.cfg, slots, k)
        invariant more ==> slots[iter.countsIndex] != 0
        decreases from.counts.Length - iter.countsIndex, more
      {
        n := iter.countsIndex;
        var value, count := iter.value, iter.count;
        var ok := RecordValues(value, count);
        if !ok {
          dropped := dropped + count;
        }
        more := iter.RecordedNext();
        SkipZeros(cfg, s, from.cfg, slots, n + 1, if more then iter.countsIndex else from.counts.Length);
      }
    }
  }

  /** `struct hdr_iter`, with the all-values and the recorded-values step. */
  class HistIter {
    const h: Histogram
    var countsIndex: int
    var count: int
    var cumulativeCount: int
    var value: nat
    var highestEquivalentValue: int
    var lowestEquivalentValue: int
    var medianEquivalentValue: int
    var valueIteratedFrom: int
    var valueIteratedTo: int

    constructor (h: Histogram)
      ensures this.h == h && countsIndex == -1 && cumulativeCount == 0 && count == 0
      ensures Consistent()
    {
      this.h := h;
      countsIndex, count, cumulativeCount, value := -1, 0, 0, 0;
      highestEquivalentValue, lowestEquivalentValue, medianEquivalentValue := 0, 0, 0;
      valueIteratedFrom, valueIteratedTo := 0, 0;
    }

    /** The fields describe the slot the iterator stands on. */
    ghost predicate Current()
      requires h.Valid()
      reads this, h, h.counts
    {
      && 0 <= countsIndex < h.counts.Length
      && count == h.counts[countsIndex]
      && value == ValueAtIndex(h.cfg, countsIndex)
      && highestEquivalentValue == HighestEquivalentValue(h.cfg, value)
      && lowestEquivalentValue == LowestEquivalentValue(h.cfg, value)
      && medianEquivalentValue == MedianEquivalentValue(h.cfg, value)
    }

    /** The running sum is that of the slots passed. */
    ghost predicate Consistent()
      reads this, h, h.counts
    {
      && -1 <= countsIndex < h.counts.Length
      && cumulativeCount == SumTo(h.counts[..], countsIndex + 1)
    }

    method MoveNext() returns (ok: bool)
      requires h.Valid() && -1 <= countsIndex
      modifies this
      ensures countsIndex == old(countsIndex) + 1 && ok == (countsIndex < h.counts.Length)
      ensures ok ==> Current() && cumulativeCount == old(cumulativeCount) + count
      ensures !ok ==> cumulativeCount == old(cumulativeCount) && count == old(count) && value == old(value)
      ensures valueIteratedFrom == old(valueIteratedFrom) && valueIteratedTo == old(valueIteratedTo)
    {
      countsIndex := countsIndex + 1;
      if !(countsIndex < h.cfg.countsLen) {
        return false;
      }
      count := h.counts[countsIndex];
      cumulativeCount := cumulativeCount + count;
      value := ValueAtIndex(h.cfg, countsIndex);
      highestEquivalentValue := HighestEquivalentValue(h.cfg, value);
      lowestEquivalentValue := LowestEquivalentValue(h.cfg, value);
      medianEquivalentValue := MedianEquivalentValue(h.cfg, value);
      return true;
    }

    method UpdateIteratedValues(newValueIteratedTo: int)
      modifies this`valueIteratedFrom, this`valueIteratedTo
      ensures valueIteratedFrom == old(valueIteratedTo) && valueIteratedTo == newValueIteratedTo
    {
      valueIteratedFrom := valueIteratedTo;
      valueIteratedTo := newValueIteratedTo;
    }

    /** `_all_values_iter_next` */
    method AllValuesNext() returns (ok: bool)
      requires h.Valid() && -1 <= countsIndex
      modifies this
      ensures countsIndex == old(countsIndex) + 1 && ok == (countsIndex < h.counts.Length)
      ensures ok ==> Current() && valueIteratedFrom == old(valueIteratedTo) && valueIteratedTo == value
    {
      ok := MoveNext();
      if ok {
        UpdateIteratedValues(value);
      }
    }

    /** `_basic_iter_next`: it stops by the running sum, and ignores whether the move succeeded. */
    method BasicNext() returns (ok: bool)
      requires h.Valid() && Consistent()
      requires h.totalCount == SumTo(h.counts[..], h.counts.Length)
      modifies this
      ensures ok == (old(cumulativeCount) < h.totalCount)
      ensures ok ==> countsIndex == old(countsIndex) + 1 && Consistent() && Current()
      ensures !ok ==> unchanged(this)
      ensures valueIteratedFrom == old(valueIteratedFrom) && valueIteratedTo == old(valueIteratedTo)
    {
      hide WellFormed, ValueAtIndex, CountsIndexFor, HighestEquivalentValue, LowestEquivalentValue, MedianEquivalentValue;
      if !(cumulativeCount < h.totalCount) {
        return false;
      }
      assert countsIndex + 1 < h.counts.Length by {
        assert h.counts[..h.counts.Length] == h.counts[..];
      }
      var moved := MoveNext();
      return true;
    }

    /** `_recorded_iter_next`: to the next slot with a count, each exactly once and in order. */
    method RecordedNext() returns (ok: bool)
      requires h.Valid() && Consistent()
      requires h.totalCount == SumTo(h.counts[..], h.counts.Length)
      requires forall i | 0 <= i < h.counts.Length :: h.counts[i] >= 0
      modifies this
      ensures Consistent() && old(countsIndex) <= countsIndex
      ensures ok ==> old(countsIndex) < countsIndex && Current() && count != 0
      ensures ok ==> valueIteratedFrom == old(valueIteratedTo) && valueIteratedTo == value
      ensures forall i | old(countsIndex) < i < (if ok then countsIndex else h.counts.Length) :: h.counts[i] == 0
    {
      hide WellFormed, ValueAtIndex, CountsIndexFor, HighestEquivalentValue, LowestEquivalentValue, MedianEquivalentValue;
      var more := BasicNext();
      while more
        invariant Consistent() && (more ==> Current() && old(countsIndex) < countsIndex)
        invariant old(countsIndex) <= countsIndex
        invariant forall i | old(countsIndex) < i <= (if more then countsIndex - 1 else countsIndex) :: h.counts[i] == 0
        invariant !more ==> cumulativeCount >= h.totalCount
        invariant valueIteratedFrom == old(valueIteratedFrom) && valueIteratedTo == old(valueIteratedTo)
        decreases h.counts.Length - countsIndex, more
      {
        if count != 0 {
          UpdateIteratedValues(value);
          return true;
        }
        more := BasicNext();
      }
      SumReached(h.counts[..], countsIndex + 1);
      return false;
    }
  }

  /** `(int64_t) x` */
  function Truncate(x: real): int {
    if x >= 0.0 then x.Floor else -(-x).Floor
  }

  function RankOf(percentile: real, total: int): int {
    var p := if percentile < 100.0 then percentile else 100.0;
    Max(1, Truncate(Scaled(p, total)))
  }

  function Scaled(percentile: real, total: int): real {
    percentile / 100.0 * total as real + 0.5
  }

  /** A running sum that has reached the total has only zeros ahead. */
  lemma {:induction false} SumReached(counts: seq<int>, n: nat)
    requires n <= |counts| && forall i | 0 <= i < |counts| :: counts[i] >= 0
    requires SumTo(counts, n) >= SumTo(counts, |counts|)
    ensures forall i | n <= i < |counts| :: counts[i] == 0
    decreases |counts| - n
  {
    if n < |counts| {
      SumMonotone(counts, n + 1, |counts|);
      SumReached(counts, n + 1);
    }
  }

  lemma {:induction false} SkipZeros(c: BucketConfig, h: Hist, cf: BucketConfig, counts: seq<int>, m: nat, n: nat)
    requires WellFormed(c) && WellFormed(cf) && |h.counts| == c.countsLen && m <= n <= |counts|
    requires forall i | m <= i < n :: counts[i] == 0
    ensures AddSlots(c, h, cf, counts, n) == AddSlots(c, h, cf, counts, m)
    ensures DroppedSlots(c, cf, counts, n) == DroppedSlots(c, cf, counts, m)
  {
    if m < n { SkipZeros(c, h, cf, counts, m, n - 1); }
  }

  /** The rank that a percentage asks for: the whole number nearest to that part of the total, halves upwards, at
      least 1; a percentage above 100 counts as 100. */
  predicate NearestRank(k: int, percentile: real, total: int) {
    NearestHundredth(k, (if percentile < 100.0 then percentile else 100.0) * total as real)
  }

  predicate NearestHundredth(k: int, part: real) {
    k >= 1 && 2.0 * part < 100.0 * (2 * k + 1) as real && (k == 1 || 100.0 * (2 * k - 1) as real <= 2.0 * part)
  }

  lemma NearestMono(k: int, l: int, a: real, b: real)
    requires a <= b && NearestHundredth(k, a) && NearestHundredth(l, b)
    ensures k <= l
  {
  }

  lemma TruncateIs(x: real, k: int)
    requires k >= 1
    ensures Max(1, Truncate(x)) == k <==> x < (k + 1) as real && (k == 1 || k as real <= x)
  {
  }

  lemma ScaledIs(p: real, total: int)
    ensures 100.0 * Scaled(p, total) == p * total as real + 50.0
  {
    var t := total as real;
    assert p / 100.0 * t * 100.0 == p * t;
  }

  /** The rank that the code computes is that one. */
  lemma RankIsNearest(percentile: real, total: int, k: int)
    ensures NearestRank(k, percentile, total) <==> k == RankOf(percentile, total)
  {
    var p := if percentile < 100.0 then percentile else 100.0;
    ScaledIs(p, total);
    var x := Scaled(p, total);
    var part := p * total as real;
    if k >= 1 { TruncateIs(x, k); }
    hide Truncate, Scaled;
  }

  lemma OnlyRank(percentile: real, total: int)
    ensures NearestRank(RankOf(percentile, total), percentile, total)
    ensures forall k | NearestRank(k, percentile, total) :: k == RankOf(percentile, total)
  {
    hide NearestRank, RankOf;
    RankIsNearest(percentile, total, RankOf(percentile, total));
    forall k | NearestRank(k, percentile, total)
      ensures k == RankOf(percentile, total)
    {
      RankIsNearest(percentile, total, k);
    }
  }

  lemma PartMono(a: real, b: real, t: real)
    requires a <= b && t >= 0.0
    ensures a * t <= b * t
  {
  }

  /** A requested percentile always names a sample when there is one; 100 names the last one. */
  lemma RankInRange(percentile: real, total: int, k: int)
    requires total >= 1 && NearestRank(k, percentile, total)
    ensures 1 <= k <= total
    ensures percentile >= 100.0 ==> k == total
  {
    var p := if percentile < 100.0 then percentile else 100.0;
    PartMono(p, 100.0, total as real);
  }

  /** A larger percentage never asks for a smaller rank. */
  lemma RankMonotone(p: real, q: real, total: int, k: int, l: int)
    requires p <= q && total >= 0 && NearestRank(k, p, total) && NearestRank(l, q, total)
    ensures k <= l
  {
    hide NearestHundredth;
    var p', q', t := if p < 100.0 then p else 100.0, if q < 100.0 then q else 100.0, total as real;
    PartMono(p', q', t);
    NearestMono(k, l, p' * t, q' * t);
  }

  /** The percentile of the recorded samples: the answer is the highest equivalent of the sample whose
      rank the percentage names. */
  lemma PercentileRefinesSortedList(c: BucketConfig, h: Hist, s: seq<nat>, percentile: real, k: int, r: int)
    requires WellFormed(c) && Represents(c, h, s)
    requires NearestRank(k, percentile, |s|) && IsRankValue(c, h.counts, k, r)
    ensures if s == [] then r == 0 else 1 <= k <= |s| && r == HighestEquivalentValue(c, s[k - 1])
  {
    if s == [] {
      EmptyRankValue(c, h, k, r);
    } else {
      RankInRange(percentile, |s|, k);
      hide NearestRank;
      RankValueIsSample(c, h, s, k, r);
    }
  }

  /** An empty histogram answers 0. */
  lemma EmptyRankValue(c: BucketConfig, h: Hist, k: int, r: int)
    requires WellFormed(c) && Represents(c, h, []) && k >= 1 && IsRankValue(c, h.counts, k, r)
    ensures r == 0
  {
    TotalIsSum(c, h, []);
    forall j | 0 <= j <= |h.counts|
      ensures SumTo(h.counts, j) <= 0
    {
      SumMonotone(h.counts, j, |h.counts|);
    }
  }
}
