/** Index and value arithmetic of `hdr_histogram.c`: buckets of doubling width, each cut into
    `subBucketCount` equal slots of which only the upper half is new. */
module Buckets {
  import opened Bits

  /** `struct hdr_histogram_bucket_config`. */
  datatype BucketConfig = BucketConfig(
    lowestTrackableValue: int,
    highestTrackableValue: int,
    significantFigures: int,
    unitMagnitude: nat,
    subBucketHalfCountMagnitude: nat,
    subBucketHalfCount: nat,
    subBucketMask: nat,
    subBucketCount: nat,
    bucketCount: nat,
    countsLen: nat)

  function SubBucketMask(subBucketCount: nat, unitMagnitude: nat): int {
    (subBucketCount - 1) * Pow2(unitMagnitude)
  }

  function CountsLength(bucketCount: nat, subBucketHalfCount: nat): nat {
    MulNat(bucketCount + 1, subBucketHalfCount);
    (bucketCount + 1) * subBucketHalfCount
  }

  ghost predicate WellFormed(c: BucketConfig) {
    && c.subBucketHalfCount == Pow2(c.subBucketHalfCountMagnitude)
    && c.subBucketCount == 2 * c.subBucketHalfCount
    && c.subBucketMask == SubBucketMask(c.subBucketCount, c.unitMagnitude)
    && c.bucketCount >= 1
    && c.countsLen == CountsLength(c.bucketCount, c.subBucketHalfCount)
  }

  // ----- the functions of the source

  function GetBucketIndex(c: BucketConfig, value: nat): int {
    BitLength(Or(value, c.subBucketMask)) - c.unitMagnitude - (c.subBucketHalfCountMagnitude + 1)
  }

  function GetSubBucketIndex(value: nat, bucketIndex: nat, unitMagnitude: nat): nat {
    DivBounds(value, Pow2(bucketIndex + unitMagnitude));
    value / Pow2(bucketIndex + unitMagnitude)
  }

  function CountsIndex(c: BucketConfig, bucketIndex: int, subBucketIndex: int): int {
    var bucketBaseIndex := (bucketIndex + 1) * Pow2(c.subBucketHalfCountMagnitude);
    var offsetInBucket := subBucketIndex - c.subBucketHalfCount;
    bucketBaseIndex + offsetInBucket
  }

  function ValueFromIndex(bucketIndex: nat, subBucketIndex: nat, unitMagnitude: nat): nat {
    MulNat(subBucketIndex, Pow2(bucketIndex + unitMagnitude));
    subBucketIndex * Pow2(bucketIndex + unitMagnitude)
  }

  function CountsIndexFor(c: BucketConfig, value: nat): nat
    requires WellFormed(c)
  {
    BucketIndexIs(c, value);
    MulSign(GetBucketIndex(c, value) + 1, c.subBucketHalfCount);
    var bucketIndex := GetBucketIndex(c, value);
    var subBucketIndex := GetSubBucketIndex(value, bucketIndex, c.unitMagnitude);
    CountsIndex(c, bucketIndex, subBucketIndex)
  }

  function ValueAtIndex(c: BucketConfig, index: nat): nat
    requires WellFormed(c)
  {
    var bucketIndex := index / Pow2(c.subBucketHalfCountMagnitude) - 1;
    var subBucketIndex := And(index, c.subBucketHalfCount - 1) + c.subBucketHalfCount;
    if bucketIndex < 0
    then ValueFromIndex(0, subBucketIndex - c.subBucketHalfCount, c.unitMagnitude)
    else ValueFromIndex(bucketIndex, subBucketIndex, c.unitMagnitude)
  }

  function SizeOfEquivalentValueRange(c: BucketConfig, value: nat): (size: nat)
    requires WellFormed(c)
    ensures size >= 1
  {
    BucketIndexIs(c, value);
    var bucketIndex := GetBucketIndex(c, value);
    var subBucketIndex := GetSubBucketIndex(value, bucketIndex, c.unitMagnitude);
    var adjustedBucket: nat := if subBucketIndex >= c.subBucketCount then bucketIndex + 1 else bucketIndex;
    Pow2(c.unitMagnitude + adjustedBucket)
  }

  function LowestEquivalentValue(c: BucketConfig, value: nat): nat
    requires WellFormed(c)
  {
    BucketIndexIs(c, value);
    var bucketIndex := GetBucketIndex(c, value);
    var subBucketIndex := GetSubBucketIndex(value, bucketIndex, c.unitMagnitude);
    ValueFromIndex(bucketIndex, subBucketIndex, c.unitMagnitude)
  }

  function NextNonEquivalentValue(c: BucketConfig, value: nat): (next: nat)
    requires WellFormed(c)
    ensures next >= 1
  {
    LowestEquivalentValue(c, value) + SizeOfEquivalentValueRange(c, value)
  }

  function HighestEquivalentValue(c: BucketConfig, value: nat): nat
    requires WellFormed(c)
  {
    NextNonEquivalentValue(c, value) - 1
  }

  function MedianEquivalentValue(c: BucketConfig, value: nat): nat
    requires WellFormed(c)
  {
    LowestEquivalentValue(c, value) + SizeOfEquivalentValueRange(c, value) / 2
  }

  // ----- what they compute

  lemma MaskBitLength(c: BucketConfig)
    requires WellFormed(c)
    ensures BitLength(c.subBucketMask) == c.unitMagnitude + c.subBucketHalfCountMagnitude + 1
  {
    var u, m := c.unitMagnitude, c.subBucketHalfCountMagnitude;
    Pow2Add(m, u);
    assert Pow2(m + u + 1) == 2 * Pow2(m + u);
    hide Pow2;
    MaskBounds(Pow2(m), Pow2(u));
    BitLengthUnique(c.subBucketMask, m + u);
  }

  lemma MaskBounds(h: int, p: int)
    requires h >= 1 && p >= 1
    ensures h * p <= (2 * h - 1) * p < 2 * (h * p)
  {
    MulSign(h, p);
    assert (2 * h - 1) * p == h * p + h * p - p;
  }

  lemma BucketIndexIs(c: BucketConfig, value: nat)
    requires WellFormed(c)
    ensures GetBucketIndex(c, value) ==
      Max(0, BitLength(value) - (c.unitMagnitude + c.subBucketHalfCountMagnitude + 1))
  {
    MaskBitLength(c);
    OrBitLength(value, c.subBucketMask);
  }

  /** A slot: bucket `b` and sub-bucket `s`, the lower half of the sub-buckets only in bucket 0. */
  predicate Slot(c: BucketConfig, b: nat, s: nat) {
    s < 2 * c.subBucketHalfCount && (b == 0 || c.subBucketHalfCount <= s)
  }

  /** The bucket of a value: it is below the end of the bucket and, past bucket 0, in its upper half. */
  lemma BucketBounds(c: BucketConfig, value: nat, b: nat)
    requires WellFormed(c) && b == GetBucketIndex(c, value)
    ensures value < c.subBucketCount * Pow2(b + c.unitMagnitude)
    ensures b > 0 ==> c.subBucketHalfCount * Pow2(b + c.unitMagnitude) <= value
  {
    var u, m := c.unitMagnitude, c.subBucketHalfCountMagnitude;
    BucketIndexIs(c, value);
    assert Pow2(m + 1) == c.subBucketCount;
    hide Pow2, Or, GetBucketIndex, SubBucketMask, CountsLength;
    Pow2Add(m + 1, b + u);
    Pow2Add(m, b + u);
    BitLengthAround(value, m + (b + u), b > 0);
  }

  lemma BitLengthAround(value: nat, n: nat, full: bool)
    requires if full then BitLength(value) == n + 1 else BitLength(value) <= n + 1
    ensures value < Pow2(n + 1)
    ensures full ==> Pow2(n) <= value
  {
    if value > 0 {
      BitLengthBounds(value);
      Pow2Mono(BitLength(value), n + 1);
    }
  }

  lemma QuotientAbove(value: nat, p: int, k: nat)
    requires p > 0 && k * p <= value
    ensures k <= value / p
  {
    DivMono(k * p, value, p);
    DivModUnique(k * p, p, k, 0);
  }

  lemma QuotientBelow(value: nat, p: int, k: nat)
    requires p > 0 && value < k * p
    ensures value / p < k
  {
    DivBounds(value, p);
    if k <= value / p { MulMono(k, value / p, p); }
  }

  /** Every value falls in a slot; in particular the sub-bucket index fits its 32-bit field. */
  lemma SlotOfValue(c: BucketConfig, value: nat) returns (b: nat, s: nat)
    requires WellFormed(c)
    ensures b == GetBucketIndex(c, value) && s == GetSubBucketIndex(value, b, c.unitMagnitude)
    ensures Slot(c, b, s)
    ensures CountsIndexFor(c, value) == b * c.subBucketHalfCount + s
    ensures s * Pow2(b + c.unitMagnitude) <= value < s * Pow2(b + c.unitMagnitude) + Pow2(b + c.unitMagnitude)
  {
    BucketIndexIs(c, value);
    b := GetBucketIndex(c, value);
    var p, h := Pow2(b + c.unitMagnitude), c.subBucketHalfCount;
    s := GetSubBucketIndex(value, b, c.unitMagnitude);
    BucketBounds(c, value, b);
    DivBounds(value, p);
    QuotientBelow(value, p, c.subBucketCount);
    if b > 0 { QuotientAbove(value, p, h); }
    IndexOfSlot(b, h, s);
  }

  lemma IndexOfSlot(b: nat, h: int, s: int)
    ensures (b + 1) * h + (s - h) == b * h + s
  {
  }

  /** The value at an index, by the quotient and remainder of the index. */
  lemma ValueAtQuotient(c: BucketConfig, q: nat, r: nat, i: nat)
    requires WellFormed(c) && r < c.subBucketHalfCount && i == q * c.subBucketHalfCount + r
    ensures ValueAtIndex(c, i) ==
      if q == 0 then r * Pow2(c.unitMagnitude) else (r + c.subBucketHalfCount) * Pow2(q - 1 + c.unitMagnitude)
  {
    AndMask(i, c.subBucketHalfCountMagnitude);
    DivModUnique(i, c.subBucketHalfCount, q, r);
  }

  /** The value at a slot's index is the lower end of the slot; the upper end is the next index. */
  lemma ValueAtSlot(c: BucketConfig, b: nat, s: nat, i: int)
    requires WellFormed(c) && (Slot(c, b, s) || s == 2 * c.subBucketHalfCount)
    requires i == b * c.subBucketHalfCount + s
    ensures i >= 0 && ValueAtIndex(c, i) == s * Pow2(b + c.unitMagnitude)
  {
    var h := c.subBucketHalfCount;
    MulNat(b, h);
    if b == 0 && s < h {
      assert i == s;
      ValueAtQuotient(c, 0, s, i);
    } else if s < 2 * h {
      IndexOfSlot(b, h, s);
      ValueAtQuotient(c, b + 1, s - h, i);
    } else {
      IndexOfSlot(b, h, s);
      IndexOfSlot(b + 1, h, s - h);
      ValueAtQuotient(c, b + 2, 0, i);
      Doubling(h, Pow2(b + c.unitMagnitude));
    }
  }

  lemma Doubling(h: int, p: int)
    ensures h * (2 * p) == (2 * h) * p
  {
  }

  /** Every index is the index of a slot. */
  lemma SlotOfIndex(c: BucketConfig, i: nat) returns (b: nat, s: nat)
    requires WellFormed(c)
    ensures Slot(c, b, s) && i == b * c.subBucketHalfCount + s
  {
    var h := c.subBucketHalfCount;
    if i < h {
      b, s := 0, i;
    } else {
      QuotientAbove(i, h, 1);
      b, s := i / h - 1, i % h + h;
      assert i == i / h * h + i % h;
      IndexOfSlot(b, h, s);
    }
  }

  /** Neighbouring indices: strictly increasing values, one range size apart. */
  lemma ValueAtNext(c: BucketConfig, i: nat, b: nat, s: nat)
    requires WellFormed(c) && Slot(c, b, s) && i == b * c.subBucketHalfCount + s
    ensures ValueAtIndex(c, i) == s * Pow2(b + c.unitMagnitude)
    ensures ValueAtIndex(c, i + 1) == ValueAtIndex(c, i) + Pow2(b + c.unitMagnitude)
  {
    ValueAtSlot(c, b, s, i);
    ValueAtSlot(c, b, s + 1, i + 1);
    var p := Pow2(b + c.unitMagnitude);
    MulNext(s, p);
    MulNat(s, p);
  }

  lemma {:induction false} ValueAtStrict(c: BucketConfig, i: nat, j: nat)
    requires WellFormed(c) && i < j
    ensures ValueAtIndex(c, i) < ValueAtIndex(c, j)
    decreases j - i
  {
    var b, s := SlotOfIndex(c, i);
    ValueAtNext(c, i, b, s);
    if i + 1 < j { ValueAtStrict(c, i + 1, j); }
  }

  lemma ValueAtZero(c: BucketConfig)
    requires WellFormed(c)
    ensures ValueAtIndex(c, 0) == 0
  {
    ValueAtSlot(c, 0, 0, 0);
  }

  /** The equivalence range of a value: it starts at the value of its index and ends where the next
      index starts. */
  lemma EquivalenceRange(c: BucketConfig, value: nat)
    requires WellFormed(c)
    ensures
      var i := CountsIndexFor(c, value);
      && LowestEquivalentValue(c, value) == ValueAtIndex(c, i)
      && NextNonEquivalentValue(c, value) == ValueAtIndex(c, i + 1)
      && ValueAtIndex(c, i) <= value < ValueAtIndex(c, i + 1)
  {
    hide Pow2, CountsLength, SubBucketMask, CountsIndexFor, ValueAtIndex, GetBucketIndex, GetSubBucketIndex;
    var b, s := SlotOfValue(c, value);
    MulNat(b, c.subBucketHalfCount);
    ValueAtNext(c, CountsIndexFor(c, value), b, s);
  }

  /** The ranges partition the values: a value has index `i` exactly when it lies in the range of `i`. */
  lemma IndexIffInRange(c: BucketConfig, value: nat, i: nat)
    requires WellFormed(c)
    ensures CountsIndexFor(c, value) == i <==> ValueAtIndex(c, i) <= value < ValueAtIndex(c, i + 1)
  {
    EquivalenceRange(c, value);
    var j := CountsIndexFor(c, value);
    if i + 1 < j { ValueAtStrict(c, i + 1, j); }
    if j + 1 < i { ValueAtStrict(c, j + 1, i); }
  }

  /** The two maps are inverse on indices. */
  lemma IndexOfValueAtIndex(c: BucketConfig, i: nat)
    requires WellFormed(c)
    ensures CountsIndexFor(c, ValueAtIndex(c, i)) == i
  {
    ValueAtStrict(c, i, i + 1);
    IndexIffInRange(c, ValueAtIndex(c, i), i);
  }

  lemma IndexMonotone(c: BucketConfig, v: nat, w: nat)
    requires WellFormed(c) && v <= w
    ensures CountsIndexFor(c, v) <= CountsIndexFor(c, w)
  {
    EquivalenceRange(c, v);
    EquivalenceRange(c, w);
    var i, j := CountsIndexFor(c, v), CountsIndexFor(c, w);
    if j + 1 < i { ValueAtStrict(c, j + 1, i); }
  }

  /** The median equivalent is the middle of the range, and the highest equivalent its last value. */
  lemma MiddleAndEnd(c: BucketConfig, value: nat)
    requires WellFormed(c)
    ensures
      var i := CountsIndexFor(c, value);
      var low, next := ValueAtIndex(c, i), ValueAtIndex(c, i + 1);
      && HighestEquivalentValue(c, value) == next - 1
      && 2 * (MedianEquivalentValue(c, value) - low) <= next - low <= 2 * (MedianEquivalentValue(c, value) - low) + 1
  {
    EquivalenceRange(c, value);
    hide WellFormed, CountsIndexFor, ValueAtIndex, SizeOfEquivalentValueRange, LowestEquivalentValue;
  }

  /** Two values with equal lowest equivalent are counted in the same slot, and conversely. */
  lemma EquivalentIffSameIndex(c: BucketConfig, v: nat, w: nat)
    requires WellFormed(c)
    ensures LowestEquivalentValue(c, v) == LowestEquivalentValue(c, w) <==> CountsIndexFor(c, v) == CountsIndexFor(c, w)
  {
    EquivalenceRange(c, v);
    EquivalenceRange(c, w);
    var i, j := CountsIndexFor(c, v), CountsIndexFor(c, w);
    if i < j { ValueAtStrict(c, i, j); }
    if j < i { ValueAtStrict(c, j, i); }
  }

  /** Exactly the values below `(subBucketCount << unitMagnitude) * 2^(bucketCount - 1)` have a slot. */
  lemma TrackableIff(c: BucketConfig, value: nat)
    requires WellFormed(c)
    ensures CountsIndexFor(c, value) < c.countsLen
       <==> value < c.subBucketCount * Pow2(c.unitMagnitude) * Pow2(c.bucketCount - 1)
  {
    ValueAtEnd(c);
    EquivalenceRange(c, value);
    var i := CountsIndexFor(c, value);
    if i + 1 < c.countsLen { ValueAtStrict(c, i + 1, c.countsLen); }
    if c.countsLen < i { ValueAtStrict(c, c.countsLen, i); }
  }

  lemma ValueAtEnd(c: BucketConfig)
    requires WellFormed(c)
    ensures ValueAtIndex(c, c.countsLen) == c.subBucketCount * Pow2(c.unitMagnitude) * Pow2(c.bucketCount - 1)
  {
    var h, u, n := c.subBucketHalfCount, c.unitMagnitude, c.bucketCount;
    MulNext(n, h);
    ValueAtSlot(c, n, h, c.countsLen);
    Pow2Add(u, n - 1);
    var p, q := Pow2(u), Pow2(n - 1);
    assert Pow2(n + u) == 2 * (p * q);
    Regroup(h, p, q);
  }

  lemma Regroup(h: int, p: int, q: int)
    ensures h * (2 * (p * q)) == 2 * h * p * q
  {
    assert h * (2 * (p * q)) == 2 * (h * (p * q));
    assert h * (p * q) == (h * p) * q;
  }

  /** Precision: a range is one unit wide, or narrower than the value by the significant figures. */
  lemma RangePrecision(c: BucketConfig, value: nat, tenPower: nat)
    requires WellFormed(c) && tenPower <= c.subBucketHalfCount
    ensures
      var size := SizeOfEquivalentValueRange(c, value);
      size == Pow2(c.unitMagnitude) || size * tenPower <= value
  {
    var b, s := SlotOfValue(c, value);
    var p := Pow2(b + c.unitMagnitude);
    if b > 0 {
      MulMono(tenPower, s, p);
      assert p * tenPower == tenPower * p;
    }
  }
}
