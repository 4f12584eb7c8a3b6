/** `hdr_calculate_bucket_config`: the layout of a histogram from the requested range and precision.
    The logarithms, which the source takes in floating point, are exact here. */
module Configuration {
  import opened Bits
  import opened Buckets

  datatype Result<+T> = Ok(value: T) | Einval

  function IntPow(base: int, exp: nat): int {
    if exp == 0 then 1 else base * IntPow(base, exp - 1)
  }

  /** `floor(log2(x))` */
  function FloorLog2(x: nat): (l: nat)
    requires x >= 1
    ensures Pow2(l) <= x < Pow2(l + 1)
  {
    BitLengthBounds(x);
    BitLength(x) - 1
  }

  /** `ceil(log2(x))` */
  function CeilLog2(x: nat): (l: nat)
    requires x >= 1
    ensures x <= Pow2(l) && (l > 0 ==> Pow2(l - 1) < x)
  {
    if x == 1 then 0 else
      BitLengthBounds(x - 1);
      BitLength(x - 1)
  }

  method Power(base: int, exp: nat) returns (result: int)
    ensures result == IntPow(base, exp)
  {
    result := 1;
    var e := exp;
    while e != 0
      invariant 0 <= e <= exp && result == IntPow(base, exp - e)
    {
      result, e := base * result, e - 1;
    }
  }

  /** End of the range covered by `buckets` buckets. */
  function RangeEnd(subBucketCount: nat, unitMagnitude: nat, buckets: nat): int
    requires buckets >= 1
  {
    subBucketCount * Pow2(unitMagnitude) * Pow2(buckets - 1)
  }

  /** The least number of buckets whose range goes beyond `value`, also where the next doubling would
      overflow. */
  method BucketsNeededToCoverValue(value: int, subBucketCount: nat, unitMagnitude: nat) returns (bucketsNeeded: nat)
    requires value <= INT64_MAX && 1 <= subBucketCount * Pow2(unitMagnitude) <= INT64_MAX
    ensures bucketsNeeded >= 1
    ensures value < RangeEnd(subBucketCount, unitMagnitude, bucketsNeeded)
    ensures forall b | 1 <= b < bucketsNeeded :: RangeEnd(subBucketCount, unitMagnitude, b) <= value
  {
    var smallestUntrackableValue := subBucketCount * Pow2(unitMagnitude);
    bucketsNeeded := 1;
    while smallestUntrackableValue <= value
      invariant bucketsNeeded >= 1
      invariant smallestUntrackableValue == RangeEnd(subBucketCount, unitMagnitude, bucketsNeeded) >= 1
      invariant forall b | 1 <= b < bucketsNeeded :: RangeEnd(subBucketCount, unitMagnitude, b) <= value
      decreases value - smallestUntrackableValue
    {
      RangeEndDoubles(subBucketCount, unitMagnitude, bucketsNeeded);
      if smallestUntrackableValue > INT64_MAX / 2 {
        return bucketsNeeded + 1;
      }
      smallestUntrackableValue := smallestUntrackableValue * 2;
      bucketsNeeded := bucketsNeeded + 1;
    }
  }

  lemma RangeEndDoubles(subBucketCount: nat, unitMagnitude: nat, b: nat)
    requires b >= 1
    ensures RangeEnd(subBucketCount, unitMagnitude, b + 1) == 2 * RangeEnd(subBucketCount, unitMagnitude, b)
  {
    var x, p := subBucketCount * Pow2(unitMagnitude), Pow2(b - 1);
    assert x * (2 * p) == 2 * (x * p);
  }

  predicate ValidArguments(lowest: int, highest: int, significantFigures: int) {
    1 <= lowest && 1 <= significantFigures <= 5 && lowest * 2 <= highest
  }

  /** Least number of sub-buckets, a power of two, that resolves `2 * 10^significantFigures` units. */
  function SubBucketCountMagnitude(significantFigures: nat): nat {
    TenPowerPositive(significantFigures);
    CeilLog2(2 * IntPow(10, significantFigures))
  }

  lemma {:induction false} TenPowerPositive(n: nat)
    ensures IntPow(10, n) >= 1 && (n > 0 ==> IntPow(10, n) >= 10)
  {
    if n > 0 { TenPowerPositive(n - 1); }
  }

  /** The end of the first bucket fits in 64 bits. */
  predicate Representable(lowest: int, highest: int, significantFigures: int) {
    ValidArguments(lowest, highest, significantFigures) ==>
      Pow2(SubBucketCountMagnitude(significantFigures)) * Pow2(FloorLog2(lowest)) <= INT64_MAX
  }

  lemma TenPowers()
    ensures IntPow(10, 1) == 10 && IntPow(10, 2) == 100 && IntPow(10, 3) == 1_000
    ensures IntPow(10, 4) == 10_000 && IntPow(10, 5) == 100_000
  {
  }

  /** The layout is consistent, its unit is the largest power of two up to the lowest value, it resolves
      `significantFigures` decimal digits with the least number of sub-buckets, and covers the highest value with the
      least number of buckets. */
  ghost predicate Configured(c: BucketConfig, lowest: int, highest: int, significantFigures: nat) {
    && WellFormed(c)
    && c.lowestTrackableValue == lowest && c.highestTrackableValue == highest
    && c.significantFigures == significantFigures
    && Pow2(c.unitMagnitude) <= lowest < Pow2(c.unitMagnitude + 1)
    && c.subBucketHalfCount < 2 * IntPow(10, significantFigures) <= c.subBucketCount
    && highest < RangeEnd(c.subBucketCount, c.unitMagnitude, c.bucketCount)
    && (c.bucketCount > 1 ==> RangeEnd(c.subBucketCount, c.unitMagnitude, c.bucketCount - 1) <= highest)
  }

  lemma {:induction false} RangeEndMono(subBucketCount: nat, unitMagnitude: nat, a: nat, b: nat)
    requires 1 <= a <= b
    ensures RangeEnd(subBucketCount, unitMagnitude, a) <= RangeEnd(subBucketCount, unitMagnitude, b)
    decreases b - a
  {
    if a < b {
      RangeEndDoubles(subBucketCount, unitMagnitude, b - 1);
      RangeEndMono(subBucketCount, unitMagnitude, a, b - 1);
      RangeEndNat(subBucketCount, unitMagnitude, b - 1);
      hide RangeEnd;
    }
  }

  lemma RangeEndNat(subBucketCount: nat, unitMagnitude: nat, b: nat)
    requires b >= 1
    ensures RangeEnd(subBucketCount, unitMagnitude, b) >= 0
  {
    MulNat(subBucketCount, Pow2(unitMagnitude));
    MulNat(subBucketCount * Pow2(unitMagnitude), Pow2(b - 1));
    hide Pow2;
  }

  lemma MagnitudeUnique(c: BucketConfig, figures: nat)
    requires WellFormed(c) && c.subBucketHalfCount < 2 * IntPow(10, figures) <= c.subBucketCount
    ensures 2 * IntPow(10, figures) >= 2
    ensures BitLength(2 * IntPow(10, figures) - 1) == c.subBucketHalfCountMagnitude + 1
  {
    TenPowerPositive(figures);
    BitLengthUnique(2 * IntPow(10, figures) - 1, c.subBucketHalfCountMagnitude);
    hide BitLength, IntPow;
  }

  /** There is only one such layout. */
  lemma LayoutUnique(c: BucketConfig, e: BucketConfig, lowest: int, highest: int, figures: nat)
    requires Configured(c, lowest, highest, figures) && Configured(e, lowest, highest, figures)
    ensures c == e
  {
    BitLengthUnique(lowest, c.unitMagnitude);
    BitLengthUnique(lowest, e.unitMagnitude);
    MagnitudeUnique(c, figures);
    MagnitudeUnique(e, figures);
    hide Pow2, BitLength, IntPow, RangeEnd;
    assert c.subBucketCount == e.subBucketCount;
    if c.bucketCount < e.bucketCount {
      RangeEndMono(c.subBucketCount, c.unitMagnitude, c.bucketCount, e.bucketCount - 1);
    } else if e.bucketCount < c.bucketCount {
      RangeEndMono(c.subBucketCount, c.unitMagnitude, e.bucketCount, c.bucketCount - 1);
    }
  }

  /** Exactly the valid arguments have a layout, and it is the one above. */
  method CalculateBucketConfig(lowest: int, highest: int, significantFigures: int) returns (r: Result<BucketConfig>)
    requires highest <= INT64_MAX && Representable(lowest, highest, significantFigures)
    ensures r.Ok? <==> ValidArguments(lowest, highest, significantFigures)
    ensures r.Ok? ==> Configured(r.value, lowest, highest, significantFigures)
  {
    if lowest < 1 || significantFigures < 1 || 5 < significantFigures {
      return Einval;
    } else if lowest * 2 > highest {
      return Einval;
    }
    hide Pow2, RangeEnd, IntPow, FloorLog2, CeilLog2, BitLength, SubBucketMask, CountsLength;
    var power := Power(10, significantFigures);
    TenPowerPositive(significantFigures);
    var largestValueWithSingleUnitResolution := 2 * power;
    var subBucketCountMagnitude := CeilLog2(largestValueWithSingleUnitResolution);
    SubBucketCounts(subBucketCountMagnitude);
    var subBucketHalfCountMagnitude := (if subBucketCountMagnitude > 1 then subBucketCountMagnitude else 1) - 1;
    var unitMagnitude := FloorLog2(lowest);
    var subBucketCount := Pow2(subBucketHalfCountMagnitude + 1);
    var subBucketHalfCount := subBucketCount / 2;
    MaskNonNegative(subBucketCount, unitMagnitude);
    var subBucketMask: nat := SubBucketMask(subBucketCount, unitMagnitude);
    var bucketCount := BucketsNeededToCoverValue(highest, subBucketCount, unitMagnitude);
    hide Configured, Representable;
    var countsLen := CountsLength(bucketCount, subBucketHalfCount);
    r := Ok(BucketConfig(lowest, highest, significantFigures, unitMagnitude, subBucketHalfCountMagnitude,
                         subBucketHalfCount, subBucketMask, subBucketCount, bucketCount, countsLen));
    IsConfigured(r.value, significantFigures);
  }

  lemma IsConfigured(c: BucketConfig, significantFigures: nat)
    requires WellFormed(c) && c.significantFigures == significantFigures
    requires Pow2(c.unitMagnitude) <= c.lowestTrackableValue < Pow2(c.unitMagnitude + 1)
    requires c.subBucketHalfCount < 2 * IntPow(10, significantFigures) <= c.subBucketCount
    requires c.highestTrackableValue < RangeEnd(c.subBucketCount, c.unitMagnitude, c.bucketCount)
    requires c.bucketCount > 1 ==>
      RangeEnd(c.subBucketCount, c.unitMagnitude, c.bucketCount - 1) <= c.highestTrackableValue
    ensures Configured(c, c.lowestTrackableValue, c.highestTrackableValue, significantFigures)
  {
    hide WellFormed, Pow2, IntPow, RangeEnd;
  }

  lemma MaskNonNegative(subBucketCount: nat, unitMagnitude: nat)
    requires subBucketCount >= 1
    ensures SubBucketMask(subBucketCount, unitMagnitude) >= 0
    ensures subBucketCount * Pow2(unitMagnitude) >= 1
  {
    MulNat(subBucketCount - 1, Pow2(unitMagnitude));
    MulSign(subBucketCount, Pow2(unitMagnitude));
  }

  lemma SubBucketCounts(magnitude: nat)
    ensures Pow2(magnitude) > 2 ==> magnitude > 1
    ensures magnitude > 0 ==> Pow2(magnitude) == 2 * Pow2(magnitude - 1)
  {
  }

  /** The configured precision: every value lies in a range one unit wide or at most `10^-figures` of it. */
  lemma ConfiguredPrecision(c: BucketConfig, value: nat)
    requires WellFormed(c) && c.significantFigures >= 0
    requires 2 * IntPow(10, c.significantFigures) <= c.subBucketCount
    ensures
      var size := SizeOfEquivalentValueRange(c, value);
      && HighestEquivalentValue(c, value) - LowestEquivalentValue(c, value) + 1 == size
      && (size == Pow2(c.unitMagnitude) || size * IntPow(10, c.significantFigures) <= value)
  {
    TenPowerPositive(c.significantFigures);
    RangePrecision(c, value, IntPow(10, c.significantFigures));
  }
}
