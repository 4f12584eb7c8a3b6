/** Saving and restoring a histogram: `hdr_encode_compressed` and `hdr_decode_compressed_v2`. The
    compression in between is taken to return its input. */
module HistogramLog {
  import opened Bits
  import opened Buckets
  import Configuration
  import opened Samples
  import opened Merging
  import opened Histogram
  import opened ZigZag
  import opened CountsCodec

  /** Slots written: up to the one of the maximum. */
  function CountsLimit(c: BucketConfig, h: Hist): nat
    requires WellFormed(c)
  {
    Min(CountsIndexFor(c, h.maxValue) + 1, c.countsLen)
  }

  /** The slots up to the one whose range the maximum is in, or all of them when it is beyond. */
  ghost predicate LimitAt(c: BucketConfig, h: Hist, n: nat)
    requires WellFormed(c)
  {
    && 1 <= n <= c.countsLen && ValueAtIndex(c, n - 1) <= h.maxValue
    && (n < c.countsLen ==> h.maxValue < ValueAtIndex(c, n))
  }

  /** The slots up to the last one in use, at least one. */
  ghost predicate UsedSlots(counts: seq<int>, n: nat) {
    && 1 <= n <= |counts| && (n > 1 ==> counts[n - 1] > 0)
    && forall i :: n <= i < |counts| ==> counts[i] <= 0
  }

  lemma LimitIsAt(c: BucketConfig, h: Hist, n: nat)
    requires WellFormed(c)
    ensures LimitAt(c, h, n) <==> n == CountsLimit(c, h)
  {
    hide WellFormed, CountsIndexFor, ValueAtIndex;
    LengthPositive(c);
    var i: nat := CountsIndexFor(c, h.maxValue);
    IndexIffInRange(c, h.maxValue, i);
    LowerBound(c, h.maxValue, c.countsLen - 1, i);
    if n >= 1 {
      IndexIffInRange(c, h.maxValue, n - 1);
      LowerBound(c, h.maxValue, n - 1, i);
    }
  }

  lemma LowerBound(c: BucketConfig, v: nat, n: nat, i: nat)
    requires WellFormed(c) && i == CountsIndexFor(c, v)
    ensures ValueAtIndex(c, n) <= v <==> n <= i
  {
    hide WellFormed, ValueAtIndex, CountsIndexFor;
    EquivalenceRange(c, v);
    if n < i { ValueAtStrict(c, n, i); }
    if n > i + 1 { ValueAtStrict(c, i + 1, n); }
  }

  /** For a recorded histogram these are the slots in use. */
  lemma LimitIsUsed(c: BucketConfig, h: Hist, s: seq<nat>, n: nat)
    requires WellFormed(c) && Represents(c, h, s)
    ensures UsedSlots(h.counts, n) <==> LimitAt(c, h, n)
  {
    LimitIsAt(c, h, n);
    LimitCovers(c, h, s);
    LengthPositive(c);
    if s == [] {
      ZeroIndex(c, 0);
      hide WellFormed, CountsIndexFor, LimitAt;
    } else {
      LastUsedIsGreatest(c, h, s);
      hide WellFormed, CountsIndexFor, LimitAt;
      assert IsLastUsed(h.counts, CountsLimit(c, h) - 1);
    }
  }

  const V2_ENCODING_COOKIE: int := 0x1c849303

  /** The fields of `_encoding_flyweight_v1` in front of the counts, without index offset and conversion ratio. */
  datatype Header = Header(cookie: int, payloadLen: nat, significantFigures: int, lowest: int, highest: int)

  /** `cookie & ~0xf0` */
  function CookieBase(cookie: int): int {
    cookie - cookie / 16 % 16 * 16
  }

  /** The cookies that pass: the second nibble may be anything. */
  lemma CookieIs(cookie: int)
    ensures CookieBase(cookie) == V2_ENCODING_COOKIE <==>
      0 <= cookie - V2_ENCODING_COOKIE <= 0xF0 && (cookie - V2_ENCODING_COOKIE) % 16 == 0
  {
    hide CookieBase;
    var high, middle, low := CookieParts(cookie);
    if low >= 3 {
      DivModUnique(cookie - V2_ENCODING_COOKIE, 16, 16 * (high - 0x1c8493) + middle, low - 3);
    } else {
      DivModUnique(cookie - V2_ENCODING_COOKIE, 16, 16 * (high - 0x1c8493) + middle - 1, low + 13);
    }
  }

  lemma CookieParts(cookie: int) returns (high: int, middle: int, low: int)
    ensures cookie == 256 * high + 16 * middle + low && 0 <= middle < 16 && 0 <= low < 16
    ensures CookieBase(cookie) == 256 * high + low
  {
    high, middle, low := cookie / 16 / 16, cookie / 16 % 16, cookie % 16;
  }

  lemma WrittenCookie()
    ensures CookieBase(V2_ENCODING_COOKIE + 0x10) == V2_ENCODING_COOKIE
  {
  }

  /** The header and the encoded counts; the payload length that the header announces includes the header. */
  method EncodeCompressed(h: Histogram) returns (header: Header, encoded: seq<byte>)
    requires h.Valid() && Counts(h.counts[..])
    ensures forall n: nat | LimitAt(h.cfg, h.State(), n) :: encoded == EncodeFrom(h.counts[..n], 0)
    ensures header == Header(V2_ENCODING_COOKIE + 0x10, 40 + |encoded|, h.cfg.significantFigures,
                             h.cfg.lowestTrackableValue, h.cfg.highestTrackableValue)
    ensures CookieBase(header.cookie) == V2_ENCODING_COOKIE
  {
    hide EncodeFrom, CountsIndexFor, CookieBase, LimitAt, WellFormed;
    WrittenCookie();
    forall n: nat | LimitAt(h.cfg, h.State(), n)
      ensures n == CountsLimit(h.cfg, h.State())
    {
      LimitIsAt(h.cfg, h.State(), n);
    }
    var lenToMax := CountsIndexFor(h.cfg, h.maxValue) + 1;
    var countsLimit := if lenToMax < h.counts.Length then lenToMax else h.counts.Length;
    var buffer := new byte[9 * countsLimit](_ => 0);
    assert h.counts[..countsLimit] == h.counts[..][..countsLimit];
    var dataIndex := EncodeCounts(h.counts, countsLimit, buffer);
    encoded := buffer[..dataIndex];
    header := Header(V2_ENCODING_COOKIE + 0x10, HEADER_SIZE + dataIndex, h.cfg.significantFigures,
                     h.cfg.lowestTrackableValue, h.cfg.highestTrackableValue);
  }

  datatype DecodeStatus = Decoded | CookieMismatch | OutOfMemory | InflateFail | Rejected(why: CountsCodec.Status)

  /** The layouts that the header asks for; there is at most one. */
  ghost predicate Layout(c: BucketConfig, header: Header) {
    header.significantFigures >= 0
    && Configuration.Configured(c, header.lowest, header.highest, header.significantFigures)
  }

  predicate Acceptable(header: Header) {
    && CookieBase(header.cookie) == V2_ENCODING_COOKIE
    && Configuration.ValidArguments(header.lowest, header.highest, header.significantFigures)
  }

  /** `hdr_decode_compressed_v2`. `inflated` is what is left of the stream once the header has been read. The
      result is a new histogram, or is merged into the one given. */
  method DecodeCompressedV2(header: Header, inflated: seq<byte>, given: Histogram?)
    returns (status: DecodeStatus, h: Histogram?)
    requires header.highest <= INT64_MAX
    requires Configuration.Representable(header.lowest, header.highest, header.significantFigures)
    requires given != null ==> given.Valid()
    modifies given, if given == null then {} else {given.counts}
    ensures CookieBase(header.cookie) != V2_ENCODING_COOKIE ==> status == CookieMismatch
    ensures CookieBase(header.cookie) == V2_ENCODING_COOKIE && !Acceptable(header) ==> status == OutOfMemory
    ensures forall c | Acceptable(header) && Layout(c, header) ::
      status == DecodeOutcome(c, header.payloadLen, inflated).0
    ensures !status.Decoded? ==> h == given && (given != null ==> given.Valid() && given.State() == old(given.State()))
    ensures status.Decoded? ==> Acceptable(header) && h != null && h.Valid()
    ensures status.Decoded? && given == null ==>
      && fresh(h) && Layout(h.cfg, header)
      && IsRecomputed(h.cfg, DecodeOutcome(h.cfg, header.payloadLen, inflated).1, h.State())
    ensures status.Decoded? && given != null ==>
      && h == given
      && forall c | Layout(c, header) ::
           given.State() == AddSlots(given.cfg, old(given.State()), c,
                                     DecodeOutcome(c, header.payloadLen, inflated).1, c.countsLen)
  {
    hide WellFormed, Apply;
    if CookieBase(header.cookie) != V2_ENCODING_COOKIE {
      return CookieMismatch, given;
    }
    var config := Configuration.CalculateBucketConfig(header.lowest, header.highest, header.significantFigures);
    if config.Einval? {
      return OutOfMemory, given;
    }
    ghost var c := config.value;
    OnlyLayout(c, header);
    var r, restored := DecodeCounts(config.value, header.payloadLen, inflated);
    if r != Decoded {
      return r, given;
    }
    if given == null {
      return Decoded, restored;
    }
    CountsStayNatural(Padded(header.payloadLen, inflated), header.payloadLen, 0, 0, Zeros(c.countsLen));
    SumPositiveIsSum(restored.counts[..], restored.counts.Length);
    var dropped := given.Add(restored);
    return Decoded, given;
  }

  lemma OnlyLayout(c: BucketConfig, header: Header)
    requires Layout(c, header)
    ensures forall e | Layout(e, header) :: e == c
  {
    forall e | Layout(e, header)
      ensures e == c
    {
      Configuration.LayoutUnique(c, e, header.lowest, header.highest, header.significantFigures);
    }
  }

  /** From `hdr_init` on, with the layout of the header. */
  method DecodeCounts(cfg: BucketConfig, payloadLen: nat, inflated: seq<byte>)
    returns (status: DecodeStatus, h: Histogram)
    requires WellFormed(cfg)
    ensures fresh(h) && fresh(h.counts) && h.Valid() && h.cfg == cfg
    ensures status == DecodeOutcome(cfg, payloadLen, inflated).0
    ensures status.Decoded? ==> IsRecomputed(cfg, DecodeOutcome(cfg, payloadLen, inflated).1, h.State())
  {
    h := new Histogram(cfg);
    if |inflated| > payloadLen {
      return InflateFail, h;
    }
    var countsArray := new byte[payloadLen + 9](i => if 0 <= i < |inflated| then inflated[i] else 0);
    assert countsArray[..] == Padded(payloadLen, inflated);
    assert h.counts[..] == Zeros(cfg.countsLen);
    var r := ApplyToCounts(h.counts, countsArray, payloadLen);
    if r != Done {
      return Rejected(r), h;
    }
    h.ResetInternalCounters();
    return Decoded, h;
  }

  /** A negative token is a run, so that no count that is read is negative. */
  lemma {:induction false} CountsStayNatural(data: seq<byte>, limit: nat, at: nat, i: nat, counts: seq<int>)
    requires limit + 8 <= |data| && i <= |counts| && forall j | 0 <= j < |counts| :: counts[j] >= 0
    ensures forall j | 0 <= j < |counts| :: Apply(data, limit, at, i, counts).1[j] >= 0
    decreases |data| - at
  {
    hide Decode, Complete;
    if at < limit && i < |counts| {
      NineAreComplete(data[at..], 0);
      var (value, read) := Decode(data[at..]);
      if value >= 0 {
        CountsStayNatural(data, limit, at + read, i + 1, counts[i := value]);
      } else if INT32_MIN < value && i - value <= |counts| {
        CountsStayNatural(data, limit, at + read, i - value, counts);
      }
    }
  }

  /** The zero-filled buffer with the inflated bytes at its start. */
  function Padded(payloadLen: nat, inflated: seq<byte>): seq<byte>
    requires |inflated| <= payloadLen
  {
    inflated + seq(payloadLen + 9 - |inflated|, _ => 0)
  }

  function DecodeOutcome(c: BucketConfig, payloadLen: nat, inflated: seq<byte>): (r: (DecodeStatus, seq<int>))
    ensures |r.1| == c.countsLen
  {
    if |inflated| > payloadLen then (InflateFail, Zeros(c.countsLen))
    else
      var r := Apply(Padded(payloadLen, inflated), payloadLen, 0, 0, Zeros(c.countsLen));
      (if r.0 == Done then Decoded else Rejected(r.0), r.1)
  }

  /** Bytes beyond the announced length are the only failure of the inflation; otherwise the decoder decides, on the
      inflated bytes followed by zeros. */
  lemma OutcomeIs(c: BucketConfig, payloadLen: nat, inflated: seq<byte>)
    ensures
      var outcome := DecodeOutcome(c, payloadLen, inflated);
      if |inflated| > payloadLen then outcome.0 == InflateFail
      else exists zeros: seq<byte> ::
        && |inflated + zeros| == payloadLen + 9 && (forall k | 0 <= k < |zeros| :: zeros[k] == 0)
        && var (status, counts) := Apply(inflated + zeros, payloadLen, 0, 0, Zeros(c.countsLen));
           outcome == (if status == Done then Decoded else Rejected(status), counts)
  {
    hide Apply;
    if |inflated| <= payloadLen {
      var zeros: seq<byte> := seq(payloadLen + 9 - |inflated|, _ => 0);
      assert Padded(payloadLen, inflated) == inflated + zeros;
    }
  }

  /** Nothing is counted beyond the slot of the maximum. */
  lemma LimitCovers(c: BucketConfig, h: Hist, s: seq<nat>)
    requires WellFormed(c) && Represents(c, h, s)
    ensures CountsLimit(c, h) <= |h.counts|
    ensures forall i | CountsLimit(c, h) <= i < |h.counts| :: h.counts[i] == 0
  {
    TotalIsSum(c, h, s);
    if s == [] {
    } else {
      LastUsedIsGreatest(c, h, s);
    }
  }

  /** Saving and restoring a recorded histogram that uses `n` slots. The decoder succeeds exactly when at least 40
      slots lie beyond them, because the announced length includes the header; it is then given every count back, so
      the totals, the minimum and every percentile are as before. */
  lemma SavedHistogramRestores(c: BucketConfig, h: Hist, s: seq<nat>, n: nat, encoded: seq<byte>)
    requires WellFormed(c) && Represents(c, h, s) && Counts(h.counts)
    requires UsedSlots(h.counts, n) && encoded == EncodeFrom(h.counts[..n], 0)
    ensures
      var (status, counts) := DecodeOutcome(c, 40 + |encoded|, encoded);
      && (status.Decoded? <==> n + 40 <= c.countsLen)
      && (!status.Decoded? ==> status == Rejected(EncodedInputTooLong))
      && counts == h.counts
  {
    hide Apply, EncodeFrom, WellFormed;
    ShapeOf(c, h, s);
    var prefix := h.counts[..n];
    assert prefix + Zeros(c.countsLen - n) == h.counts;
    var zeros: seq<byte> := seq(HEADER_SIZE + 9, _ => 0);
    assert Padded(HEADER_SIZE + |encoded|, encoded) == encoded + zeros;
    PayloadDecodes(prefix, c.countsLen, zeros);
  }

  /** A layout that `hdr_init` makes. */
  ghost predicate FromInit(c: BucketConfig) {
    && c.significantFigures >= 0 && c.highestTrackableValue <= INT64_MAX
    && Configuration.ValidArguments(c.lowestTrackableValue, c.highestTrackableValue, c.significantFigures)
    && Configuration.Representable(c.lowestTrackableValue, c.highestTrackableValue, c.significantFigures)
    && Configuration.Configured(c, c.lowestTrackableValue, c.highestTrackableValue, c.significantFigures)
  }

  /** Saving a recorded histogram and restoring it from its own bytes: the same layout and the same counts, or nothing,
      by the same condition on the slots it uses. */
  method SaveThenRestore(h: Histogram, ghost s: seq<nat>) returns (status: DecodeStatus, r: Histogram?)
    requires h.Valid() && Represents(h.cfg, h.State(), s) && Counts(h.counts[..])
    requires FromInit(h.cfg)
    ensures forall n: nat | UsedSlots(h.counts[..], n) :: status.Decoded? <==> n + 40 <= h.cfg.countsLen
    ensures !status.Decoded? ==> status == Rejected(EncodedInputTooLong) && r == null
    ensures status.Decoded? ==>
      && r != null && fresh(r) && r.cfg == h.cfg && r.counts[..] == h.counts[..]
      && IsRecomputed(h.cfg, h.counts[..], r.State())
  {
    hide WellFormed, Apply, EncodeFrom, CountsLimit, Represents, DecodeOutcome, IsRecomputed, CookieBase, UsedSlots,
      LimitAt, Configuration.Configured, Configuration.Representable;
    var header, encoded := EncodeCompressed(h);
    assert Layout(h.cfg, header);
    OnlyLayout(h.cfg, header);
    ghost var n := UsedOnce(h.cfg, h.State(), s);
    SavedHistogramRestores(h.cfg, h.State(), s, n, encoded);
    status, r := DecodeCompressedV2(header, encoded, null);
    if status.Decoded? {
      RecomputedCounts(h.cfg, h.counts[..], r.State());
    }
  }

  lemma UsedOnce(c: BucketConfig, h: Hist, s: seq<nat>) returns (n: nat)
    requires WellFormed(c) && Represents(c, h, s)
    ensures UsedSlots(h.counts, n) && LimitAt(c, h, n)
    ensures forall m: nat | UsedSlots(h.counts, m) :: m == n
  {
    hide WellFormed, Represents, CountsLimit, UsedSlots, LimitAt;
    n := CountsLimit(c, h);
    LimitIsAt(c, h, n);
    LimitIsUsed(c, h, s, n);
    forall m: nat | UsedSlots(h.counts, m)
      ensures m == n
    {
      LimitIsUsed(c, h, s, m);
      LimitIsAt(c, h, m);
    }
  }

  lemma RecomputedCounts(c: BucketConfig, counts: seq<int>, r: Hist)
    requires WellFormed(c) && |counts| == c.countsLen && IsRecomputed(c, counts, r)
    ensures r.counts == counts
  {
  }

  /** What the restored histogram answers. */
  lemma RestoredAnswers(c: BucketConfig, h: Hist, s: seq<nat>, r: Hist)
    requires WellFormed(c) && Represents(c, h, s) && IsRecomputed(c, h.counts, r)
    ensures r.counts == h.counts && r.totalCount == h.totalCount && |h.counts| > 0
    ensures HdrMin(c, r) == HdrMin(c, h) <==> MinimumIsReal(c, h)
    ensures HdrMax(c, r) == HdrMax(c, h) <==> c.unitMagnitude == 0 || h.totalCount == 0 || h.maxValue > 0
  {
    hide WellFormed, Represents, HdrMin, HdrMax, MinimumIsReal;
    RecomputedMin(c, h, s, r);
    RecomputedMax(c, h, s, r);
  }

  /** What `hdr_init(1, 20, 1)` makes: 32 slots. */
  const SMALLEST := BucketConfig(1, 20, 1, 0, 4, 16, 31, 32, 1, 32)

  lemma SmallestConfigured()
    ensures Configuration.Configured(SMALLEST, 1, 20, 1)
    ensures WellFormed(SMALLEST)
  {
    assert Pow2(4) == 16 && Pow2(1) == 2 && Pow2(0) == 1;
    hide Pow2;
    assert SubBucketMask(32, 0) == 31 && CountsLength(1, 16) == 32;
    assert Configuration.IntPow(10, 1) == 10 && Configuration.RangeEnd(32, 0, 1) == 32;
  }

  /** A concrete failure: this histogram, empty, is written as its first slot and cannot be read back from that. */
  lemma SmallestDoesNotRestore(encoded: seq<byte>)
    requires encoded == EncodeFrom([0], 0)
    ensures WellFormed(SMALLEST) && LimitAt(SMALLEST, Empty(SMALLEST), 1) && Empty(SMALLEST).counts[..1] == [0]
    ensures DecodeOutcome(SMALLEST, 40 + |encoded|, encoded).0 == Rejected(EncodedInputTooLong)
  {
    hide EncodeFrom, Apply, WellFormed, LimitAt;
    SmallestConfigured();
    EmptyRepresents(SMALLEST);
    assert UsedSlots(Empty(SMALLEST).counts, 1);
    LimitIsUsed(SMALLEST, Empty(SMALLEST), [], 1);
    assert Empty(SMALLEST).counts[..1] == [0];
    SavedHistogramRestores(SMALLEST, Empty(SMALLEST), [], 1, encoded);
  }
}
