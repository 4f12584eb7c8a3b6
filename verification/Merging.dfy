/** `hdr_add` and corrected recording, on the values of the counters. */
module Merging {
  import opened Bits
  import opened Buckets
  import opened Samples

  // ----- hdr_add

  /** Recording into `h` the first `n` slots of a histogram with layout `cf`, each at the lowest value of
      its range. */
  function AddSlots(c: BucketConfig, h: Hist, cf: BucketConfig, counts: seq<int>, n: nat): (r: Hist)
    requires WellFormed(c) && WellFormed(cf) && |h.counts| == c.countsLen && n <= |counts|
    ensures |r.counts| == c.countsLen
  {
    if n == 0 then h
    else
      var prev := AddSlots(c, h, cf, counts, n - 1);
      if counts[n - 1] == 0 then prev else Record(c, prev, ValueAtIndex(cf, n - 1), counts[n - 1])
  }

  function DroppedSlots(c: BucketConfig, cf: BucketConfig, counts: seq<int>, n: nat): int
    requires WellFormed(c) && WellFormed(cf) && n <= |counts|
  {
    if n == 0 then 0
    else DroppedSlots(c, cf, counts, n - 1)
         + if counts[n - 1] != 0 && !Accepts(c, ValueAtIndex(cf, n - 1)) then counts[n - 1] else 0
  }

  /** Whatever the two layouts, no sample is lost from the account: the new total and what was dropped
      make up both old totals. */
  lemma {:induction false} AddConserves(c: BucketConfig, h: Hist, cf: BucketConfig, counts: seq<int>, n: nat)
    requires WellFormed(c) && WellFormed(cf) && |h.counts| == c.countsLen && n <= |counts|
    ensures AddSlots(c, h, cf, counts, n).totalCount + DroppedSlots(c, cf, counts, n)
         == h.totalCount + SumTo(counts, n)
  {
    hide WellFormed, ValueAtIndex, CountsIndexFor;
    if n > 0 { AddConserves(c, h, cf, counts, n - 1); }
  }

  /** With equal layouts nothing is dropped and the counts become the pointwise sum. */
  lemma {:induction false} AddSameLayout(c: BucketConfig, h: Hist, counts: seq<int>, n: nat)
    requires WellFormed(c) && |h.counts| == |counts| == c.countsLen && n <= |counts|
    ensures DroppedSlots(c, c, counts, n) == 0
    ensures forall i | 0 <= i < |counts| ::
      AddSlots(c, h, c, counts, n).counts[i] == h.counts[i] + if i < n then counts[i] else 0
  {
    hide WellFormed, ValueAtIndex, CountsIndexFor;
    if n > 0 {
      AddSameLayout(c, h, counts, n - 1);
      IndexOfValueAtIndex(c, n - 1);
    }
  }

  /** The samples of `t` below index `n`, each lowered to the start of its range in `cf`, that `c` accepts. */
  ghost function Lowered(c: BucketConfig, cf: BucketConfig, t: seq<nat>, n: nat): multiset<nat>
    requires WellFormed(c) && WellFormed(cf)
  {
    if t == [] then multiset{}
    else
      var low := LowestEquivalentValue(cf, t[0]);
      (if CountsIndexFor(cf, t[0]) < n && Accepts(c, low) then multiset{low} else multiset{}) + Lowered(c, cf, t[1..], n)
  }

  ghost function Copies(v: nat, count: nat): multiset<nat> {
    multiset{}[v := count]
  }

  lemma {:induction false} LoweredNext(c: BucketConfig, cf: BucketConfig, t: seq<nat>, n: nat)
    requires WellFormed(c) && WellFormed(cf)
    ensures
      var v := ValueAtIndex(cf, n);
      Lowered(c, cf, t, n + 1) == Lowered(c, cf, t, n) + if Accepts(c, v) then Copies(v, CountAt(cf, t, n)) else multiset{}
  {
    if t != [] {
      LoweredNext(c, cf, t[1..], n);
      EquivalenceRange(cf, t[0]);
      hide WellFormed, ValueAtIndex, CountsIndexFor, LowestEquivalentValue;
      var v := ValueAtIndex(cf, n);
      CopiesAdd(v, CountAt(cf, t[1..], n));
      if CountsIndexFor(cf, t[0]) == n {
        assert LowestEquivalentValue(cf, t[0]) == v;
      }
    }
  }

  lemma CopiesAdd(v: nat, count: nat)
    ensures Copies(v, count + 1) == Copies(v, count) + multiset{v}
  {
  }

  /** The list that the merged counters stand for. */
  function MergedList(c: BucketConfig, s: seq<nat>, cf: BucketConfig, counts: seq<int>, n: nat): seq<nat>
    requires WellFormed(c) && WellFormed(cf) && n <= |counts|
  {
    if n == 0 then s
    else
      var prev := MergedList(c, s, cf, counts, n - 1);
      var v := ValueAtIndex(cf, n - 1);
      if counts[n - 1] > 0 && Accepts(c, v) then InsertMany(prev, v, counts[n - 1]) else prev
  }

  /** A slot in use starts at or below a recorded sample. */
  lemma UsedIsBounded(cf: BucketConfig, counts: seq<int>, t: seq<nat>, i: nat)
    requires WellFormed(cf) && CountsMatch(cf, counts, t) && Bounded(t)
    requires i < |counts| && counts[i] > 0
    ensures ValueAtIndex(cf, i) <= INT64_MAX
  {
    hide WellFormed, ValueAtIndex, CountsIndexFor;
    CountAtWitness(cf, t, i);
    var p :| 0 <= p < |t| && CountsIndexFor(cf, t[p]) == i;
    EquivalenceRange(cf, t[p]);
  }

  lemma {:induction false} MergedRepresents(
      c: BucketConfig, h: Hist, s: seq<nat>, cf: BucketConfig, counts: seq<int>, t: seq<nat>, n: nat)
    requires WellFormed(c) && WellFormed(cf) && Represents(c, h, s)
    requires CountsMatch(cf, counts, t) && Bounded(t)
    requires n <= |counts| && forall i | 0 <= i < |counts| :: counts[i] >= 0
    ensures Represents(c, AddSlots(c, h, cf, counts, n), MergedList(c, s, cf, counts, n))
  {
    if n > 0 {
      MergedRepresents(c, h, s, cf, counts, t, n - 1);
      var v := ValueAtIndex(cf, n - 1);
      var prev, list := AddSlots(c, h, cf, counts, n - 1), MergedList(c, s, cf, counts, n - 1);
      hide Represents, WellFormed, ValueAtIndex, CountsIndexFor;
      if counts[n - 1] > 0 && Accepts(c, v) {
        UsedIsBounded(cf, counts, t, n - 1);
        RecordRepresents(c, prev, list, v, counts[n - 1]);
      }
    }
  }

  lemma InsertCopies(list: seq<nat>, v: nat, count: nat)
    requires Sorted(list)
    ensures multiset(InsertMany(list, v, count)) == multiset(list) + Copies(v, count)
    ensures |Copies(v, count)| == count
  {
    InsertManySorts(list, v, count);
  }

  lemma {:induction false} MergedSamples(
      c: BucketConfig, s: seq<nat>, cf: BucketConfig, counts: seq<int>, t: seq<nat>, n: nat)
    requires WellFormed(c) && WellFormed(cf) && Sorted(s)
    requires CountsMatch(cf, counts, t) && n <= |counts|
    ensures Sorted(MergedList(c, s, cf, counts, n))
    ensures multiset(MergedList(c, s, cf, counts, n)) == multiset(s) + Lowered(c, cf, t, n)
  {
    hide WellFormed, ValueAtIndex, CountsIndexFor, Accepts, Lowered, CountAt, InsertMany, Copies, Sorted;
    if n == 0 {
      LoweredZero(c, cf, t);
    } else {
      MergedSamples(c, s, cf, counts, t, n - 1);
      LoweredNext(c, cf, t, n - 1);
      var v := ValueAtIndex(cf, n - 1);
      var list := MergedList(c, s, cf, counts, n - 1);
      assert counts[n - 1] == CountAt(cf, t, n - 1);
      InsertCopies(list, v, counts[n - 1]);
      InsertManySorts(list, v, counts[n - 1]);
      NoCopies(v);
      hide *;
      SumAssociates(multiset(s), Lowered(c, cf, t, n - 1), Copies(v, counts[n - 1]));
    }
  }

  lemma SumAssociates(a: multiset<nat>, b: multiset<nat>, d: multiset<nat>)
    ensures (a + b) + d == a + (b + d)
  {
  }

  lemma {:induction false} DroppedIsRest(
      c: BucketConfig, cf: BucketConfig, counts: seq<int>, t: seq<nat>, n: nat)
    requires WellFormed(c) && WellFormed(cf) && CountsMatch(cf, counts, t) && n <= |counts|
    ensures DroppedSlots(c, cf, counts, n) == SumTo(counts, n) - |Lowered(c, cf, t, n)|
  {
    hide WellFormed, ValueAtIndex, CountsIndexFor, Accepts, Lowered, CountAt, Copies;
    if n == 0 {
      LoweredZero(c, cf, t);
    } else {
      DroppedIsRest(c, cf, counts, t, n - 1);
      LoweredNext(c, cf, t, n - 1);
      assert counts[n - 1] == CountAt(cf, t, n - 1);
      CopiesSize(ValueAtIndex(cf, n - 1), counts[n - 1]);
    }
  }

  lemma CopiesSize(v: nat, count: nat)
    ensures |Copies(v, count)| == count
  {
  }

  lemma NoCopies(v: nat)
    ensures Copies(v, 0) == multiset{}
  {
  }

  /** Merging is inserting every sample of the other list, lowered to the start of its range, unless it
      is beyond this histogram's range; those are counted as dropped. */
  lemma AddRepresents(c: BucketConfig, h: Hist, s: seq<nat>, cf: BucketConfig, counts: seq<int>, t: seq<nat>)
      returns (m: seq<nat>)
    requires WellFormed(c) && WellFormed(cf) && Represents(c, h, s)
    requires CountsMatch(cf, counts, t) && Bounded(t) && forall v | v in t :: Accepts(cf, v)
    ensures Represents(c, AddSlots(c, h, cf, counts, |counts|), m)
    ensures multiset(m) == multiset(s) + Lowered(c, cf, t, |counts|)
    ensures DroppedSlots(c, cf, counts, |counts|) == |t| - |Lowered(c, cf, t, |counts|)|
  {
    SumOfAll(cf, counts, t);
    m := MergedList(c, s, cf, counts, |counts|);
    MergedRepresents(c, h, s, cf, counts, t, |counts|);
    MergedSamples(c, s, cf, counts, t, |counts|);
    DroppedIsRest(c, cf, counts, t, |counts|);
  }

  /** With equal layouts every sample arrives, lowered to the start of its range. */
  lemma {:induction false} LoweredAll(c: BucketConfig, t: seq<nat>, n: nat)
    requires WellFormed(c) && n == c.countsLen && forall i | 0 <= i < |t| :: Accepts(c, t[i])
    ensures Lowered(c, c, t, n) == multiset(seq(|t|, i requires 0 <= i < |t| => LowestEquivalentValue(c, t[i])))
  {
    var lows := seq(|t|, i requires 0 <= i < |t| => LowestEquivalentValue(c, t[i]));
    if t != [] {
      var rest := t[1..];
      LoweredAll(c, rest, n);
      EquivalenceRange(c, t[0]);
      AcceptsSmaller(c, t[0], LowestEquivalentValue(c, t[0]));
      assert lows == [lows[0]] + seq(|rest|, i requires 0 <= i < |rest| => LowestEquivalentValue(c, rest[i]));
    }
  }

  lemma {:induction false} LoweredZero(c: BucketConfig, cf: BucketConfig, t: seq<nat>)
    requires WellFormed(c) && WellFormed(cf)
    ensures Lowered(c, cf, t, 0) == multiset{}
  {
    if t != [] { LoweredZero(c, cf, t[1..]); }
  }

  // ----- hdr_record_corrected_values

  /** The backfill loop, from the missing value `v` downwards. */
  function Backfill(c: BucketConfig, h: Hist, v: int, count: int, interval: int): (r: Hist)
    requires WellFormed(c) && |h.counts| == c.countsLen && interval > 0
    ensures |r.counts| == c.countsLen
    decreases v
  {
    if v < interval then h else Backfill(c, Record(c, h, v, count), v - interval, count, interval)
  }

  function RecordCorrected(c: BucketConfig, h: Hist, v: int, count: int, interval: int): Hist
    requires WellFormed(c) && |h.counts| == c.countsLen
  {
    if !Accepts(c, v) then h
    else if interval <= 0 || v <= interval then Record(c, h, v, count)
    else Backfill(c, Record(c, h, v, count), v - interval, count, interval)
  }

  lemma AcceptsSmaller(c: BucketConfig, v: int, w: int)
    requires WellFormed(c) && Accepts(c, v) && 0 <= w <= v
    ensures Accepts(c, w)
  {
    IndexMonotone(c, w, v);
  }

  lemma {:induction false} BackfillTotal(c: BucketConfig, h: Hist, v: int, count: int, interval: int)
    requires WellFormed(c) && |h.counts| == c.countsLen && interval > 0 && Accepts(c, v)
    ensures Backfill(c, h, v, count, interval).totalCount == h.totalCount + count * (v / interval)
    decreases v
  {
    if v < interval {
      DivModUnique(v, interval, 0, v);
    } else {
      AcceptsSmaller(c, v, v - interval);
      BackfillTotal(c, Record(c, h, v, count), v - interval, count, interval);
      hide *;
      DivLess(v, interval);
      OneMoreTime(count, v / interval);
    }
  }

  lemma OneMoreTime(count: int, q: int)
    ensures count * q == count + count * (q - 1)
  {
  }

  lemma DivLess(v: int, d: int)
    requires 0 < d <= v
    ensures (v - d) / d == v / d - 1
  {
    assert v == v / d * d + v % d;
    assert v - d == (v / d - 1) * d + v % d;
    DivModUnique(v - d, d, v / d - 1, v % d);
  }

  /** Corrected recording is all or nothing, and adds `count` samples for each whole interval in the value,
      at least once. */
  lemma CorrectedTotal(c: BucketConfig, h: Hist, v: int, count: int, interval: int)
    requires WellFormed(c) && |h.counts| == c.countsLen && interval > 0
    ensures RecordCorrected(c, h, v, count, interval).totalCount
         == h.totalCount + if Accepts(c, v) then count * Max(1, v / interval) else 0
  {
    if Accepts(c, v) && v > interval {
      AcceptsSmaller(c, v, v - interval);
      BackfillTotal(c, Record(c, h, v, count), v - interval, count, interval);
      DivLess(v, interval);
      QuotientAbove(v, interval, 1);
      OneMoreTime(count, v / interval);
    } else if Accepts(c, v) {
      if v == interval { DivModUnique(v, interval, 1, 0); } else { DivModUnique(v, interval, 0, v); }
    }
  }

  /** The list after the backfill: the values one, two, ... intervals below, as long as they are not below
      one interval. */
  function BackfillList(s: seq<nat>, v: int, count: nat, interval: int): seq<nat>
    requires interval > 0
    decreases v
  {
    if v < interval then s else BackfillList(InsertMany(s, v, count), v - interval, count, interval)
  }

  lemma {:induction false} BackfillRepresents(c: BucketConfig, h: Hist, s: seq<nat>, v: int, count: nat, interval: int)
    requires WellFormed(c) && Represents(c, h, s) && count > 0 && interval > 0
    requires Accepts(c, v) && v <= INT64_MAX
    ensures Represents(c, Backfill(c, h, v, count, interval), BackfillList(s, v, count, interval))
    decreases v
  {
    hide WellFormed, CountsIndexFor, Record;
    if v >= interval {
      RecordRepresents(c, h, s, v, count);
      AcceptsSmaller(c, v, v - interval);
      BackfillRepresents(c, Record(c, h, v, count), InsertMany(s, v, count), v - interval, count, interval);
    }
  }

  /** How often corrected recording of `v` adds the value `u`: `v` itself, and every value a number of whole intervals
      below it that is not below one interval. */
  function Corrections(u: nat, v: int, count: nat, interval: int): nat {
    (if u == v then count else 0) +
    (if interval > 0 && interval <= u < v && (v - u) % interval == 0 then count else 0)
  }

  lemma {:induction false} BackfillSamples(s: seq<nat>, v: int, count: nat, interval: int, u: nat)
    requires interval > 0 && v >= 0 && Sorted(s)
    ensures Sorted(BackfillList(s, v, count, interval))
    ensures multiset(BackfillList(s, v, count, interval))[u]
      == multiset(s)[u] + if interval <= u <= v && (v - u) % interval == 0 then count else 0
    decreases v
  {
    hide Sorted;
    if v >= interval {
      InsertManySorts(s, v, count);
      BackfillSamples(InsertMany(s, v, count), v - interval, count, interval, u);
      hide InsertMany;
      WholeIntervals(u, v, interval);
    }
  }

  lemma WholeIntervals(u: nat, v: int, d: int)
    requires d > 0 && v >= 0
    ensures u < v ==> ((v - u) % d == 0 <==> u <= v - d && (v - d - u) % d == 0)
    ensures (v - v) % d == 0
  {
    DivModUnique(0, d, 0, 0);
    if u < v {
      var q, r := (v - u) / d, (v - u) % d;
      assert v - u == q * d + r;
      assert v - d - u == (q - 1) * d + r;
      DivModUnique(v - d - u, d, q - 1, r);
      if v - d < u { DivModUnique(v - u, d, 0, v - u); }
    }
  }

  /** Corrected recording keeps the counters those of a list: the old one with these samples added, or the old one
      when the value is refused. */
  lemma CorrectedRepresents(c: BucketConfig, h: Hist, s: seq<nat>, v: int, count: nat, interval: int)
      returns (m: seq<nat>)
    requires WellFormed(c) && Represents(c, h, s) && count > 0 && v <= INT64_MAX
    ensures Represents(c, RecordCorrected(c, h, v, count, interval), m)
    ensures forall u: nat ::
      multiset(m)[u] == multiset(s)[u] + if Accepts(c, v) then Corrections(u, v, count, interval) else 0
  {
    hide WellFormed, Represents, CountsIndexFor, Record, InsertMany;
    m := s;
    ShapeOf(c, h, s);
    if Accepts(c, v) {
      RecordRepresents(c, h, s, v, count);
      InsertManySorts(s, v, count);
      m := InsertMany(s, v, count);
      if interval > 0 && v > interval {
        AcceptsSmaller(c, v, v - interval);
        BackfillRepresents(c, Record(c, h, v, count), m, v - interval, count, interval);
        var list := m;
        m := BackfillList(list, v - interval, count, interval);
        forall u: nat
          ensures multiset(m)[u] == multiset(s)[u] + Corrections(u, v, count, interval)
        {
          BackfillSamples(list, v - interval, count, interval, u);
          WholeIntervals(u, v, interval);
        }
      }
    }
  }

  lemma ShapeOf(c: BucketConfig, h: Hist, s: seq<nat>)
    requires WellFormed(c) && Represents(c, h, s)
    ensures Sorted(s) && |h.counts| == c.countsLen
  {
  }
}
