/** The counts of a histogram as a byte string: a count is a positive number, a run of zeros a negative
    one, each in zig-zag LEB128 (`hdr_encode_compressed` and `_apply_to_counts_zz`). */
module CountsCodec {
  import opened Bits
  import opened ZigZag

  // ----- the encoder

  /** Length of the run of zeros at `i`. */
  function ZeroRun(counts: seq<int>, i: nat): (z: int)
    requires i <= |counts|
    ensures 0 <= z <= |counts| - i
    ensures i < |counts| && counts[i] == 0 ==> z >= 1
    decreases |counts| - i
  {
    if i < |counts| && counts[i] == 0 then 1 + ZeroRun(counts, i + 1) else 0
  }

  predicate Counts(counts: seq<int>) {
    |counts| < -INT32_MIN && forall i | 0 <= i < |counts| :: 0 <= counts[i] <= INT64_MAX
  }

  function EncodeFrom(counts: seq<int>, i: nat): seq<byte>
    requires Counts(counts) && i <= |counts|
    decreases |counts| - i
  {
    if i == |counts| then []
    else if counts[i] == 0 then Encode(-ZeroRun(counts, i)) + EncodeFrom(counts, i + ZeroRun(counts, i))
    else Encode(counts[i]) + EncodeFrom(counts, i + 1)
  }

  /** At most nine bytes a slot. */
  lemma {:induction false} EncodedSize(counts: seq<int>, i: nat)
    requires Counts(counts) && i <= |counts|
    ensures |EncodeFrom(counts, i)| <= 9 * (|counts| - i)
    decreases |counts| - i
  {
    hide Encode;
    if i < |counts| {
      EncodedSize(counts, i + if counts[i] == 0 then ZeroRun(counts, i) else 1);
    }
  }

  lemma EncodeEnd(c: seq<int>)
    requires Counts(c)
    ensures EncodeFrom(c, |c|) == []
  {
  }

  /** `next` is the end of the run of zeros at `i`. */
  predicate RunOfZeros(c: seq<int>, i: nat, next: nat) {
    && i < next <= |c| && (forall j :: i <= j < next ==> c[j] == 0)
    && (next < |c| ==> c[next] != 0)
  }

  lemma {:induction false} ZeroRunIs(c: seq<int>, i: nat, next: nat)
    requires RunOfZeros(c, i, next)
    ensures ZeroRun(c, i) == next - i
    decreases next - i
  {
    if i + 1 < next { ZeroRunIs(c, i + 1, next); }
  }

  /** The format: every count other than zero is a token of its own, every run of zeros as long as it is one token. */
  lemma TokensAre(c: seq<int>, i: nat, next: nat)
    requires Counts(c) && i < |c|
    requires if c[i] == 0 then RunOfZeros(c, i, next) else next == i + 1
    ensures Int64(if c[i] == 0 then i - next else c[i])
    ensures EncodeFrom(c, i) == Encode(if c[i] == 0 then i - next else c[i]) + EncodeFrom(c, next)
  {
    hide Encode;
    if c[i] == 0 { ZeroRunIs(c, i, next); }
  }

  lemma EncodeStep(c: seq<int>, i: nat, next: nat, v: int, done: seq<byte>)
    requires Counts(c) && i < |c| && next <= |c|
    requires if c[i] == 0 then v == -(next - i) && next - i == ZeroRun(c, i) else v == c[i] && next == i + 1
    ensures Int64(v) && done + Encode(v) + EncodeFrom(c, next) == done + EncodeFrom(c, i)
  {
    hide Encode;
    assert done + Encode(v) + EncodeFrom(c, next) == done + (Encode(v) + EncodeFrom(c, next));
  }

  /** The loop of `hdr_encode_compressed` over the first `countsLimit` counts. */
  method EncodeCounts(counts: array<int>, countsLimit: nat, buffer: array<byte>) returns (dataIndex: nat)
    requires countsLimit <= counts.Length && Counts(counts[..countsLimit])
    requires 9 * countsLimit <= buffer.Length
    modifies buffer
    ensures dataIndex <= buffer.Length && buffer[..dataIndex] == EncodeFrom(counts[..countsLimit], 0)
    ensures forall i | dataIndex <= i < buffer.Length :: buffer[i] == old(buffer[i])
  {
    hide Encode, EncodeFrom;
    ghost var c := counts[..countsLimit];
    EncodeEnd(c);
    dataIndex := 0;
    var i := 0;
    while i < countsLimit
      invariant 0 <= i <= countsLimit && dataIndex <= 9 * i
      invariant buffer[..dataIndex] + EncodeFrom(c, i) == EncodeFrom(c, 0)
      invariant forall j | dataIndex <= j < buffer.Length :: buffer[j] == old(buffer[j])
    {
      ghost var start, done := i, buffer[..dataIndex];
      var value := counts[i];
      i := i + 1;
      if value == 0 {
        var zeros := 1;
        while i < countsLimit && 0 == counts[i]
          invariant start < i <= countsLimit && zeros == i - start
          invariant ZeroRun(c, start) == zeros + ZeroRun(c, i)
          invariant value == 0
        {
          zeros := zeros + 1;
          i := i + 1;
        }
        value := -zeros;
      }
      EncodeStep(c, start, i, value, done);
      var written := EncodeInPlace(buffer, dataIndex, value);
      assert buffer[..dataIndex + written] == done + Encode(value);
      dataIndex := dataIndex + written;
    }
  }

  // ----- the decoder

  datatype Status = Done | TrailingZerosInvalid | ValueTruncated | EncodedInputTooLong

  /** `_apply_to_counts_zz` from a given point of its loop on. */
  function Apply(data: seq<byte>, limit: nat, dataIndex: nat, countsIndex: nat, counts: seq<int>): (r: (Status, seq<int>))
    requires limit + 8 <= |data| && countsIndex <= |counts|
    ensures |r.1| == |counts|
    decreases |data| - dataIndex
  {
    if dataIndex < limit && countsIndex < |counts| then
      NineAreComplete(data[dataIndex..], 0);
      var (value, read) := Decode(data[dataIndex..]);
      if value < 0 then
        if value <= INT32_MIN || countsIndex + -value > |counts| then (TrailingZerosInvalid, counts)
        else Apply(data, limit, dataIndex + read, countsIndex + -value, counts)
      else Apply(data, limit, dataIndex + read, countsIndex + 1, counts[countsIndex := value])
    else if dataIndex > limit then (ValueTruncated, counts)
    else if dataIndex < limit then (EncodedInputTooLong, counts)
    else (Done, counts)
  }

  /** On arbitrary bytes it terminates, writes only inside `counts` and reads no byte beyond the eighth
      after its limit. */
  method ApplyToCounts(counts: array<int>, data: array<byte>, limit: nat) returns (status: Status)
    requires limit + 8 <= data.Length
    modifies counts
    ensures (status, counts[..]) == Apply(data[..], limit, 0, 0, old(counts[..]))
  {
    hide Decode;
    var dataIndex, countsIndex := 0, 0;
    while dataIndex < limit && countsIndex < counts.Length
      invariant 0 <= countsIndex <= counts.Length && 0 <= dataIndex <= data.Length
      invariant Apply(data[..], limit, dataIndex, countsIndex, counts[..]) == Apply(data[..], limit, 0, 0, old(counts[..]))
      decreases data.Length - dataIndex
    {
      assert data[..][dataIndex..] == data[dataIndex..];
      NineAreComplete(data[dataIndex..], 0);
      var value, read := DecodeInPlace(data, dataIndex);
      dataIndex := dataIndex + read;
      if value < 0 {
        var zeros := -value;
        if value <= INT32_MIN || countsIndex + zeros > counts.Length {
          return TrailingZerosInvalid;
        }
        countsIndex := countsIndex + zeros;
      } else {
        ghost var before := counts[..];
        counts[countsIndex] := value;
        assert counts[..] == before[countsIndex := value];
        countsIndex := countsIndex + 1;
      }
    }
    if dataIndex > limit {
      return ValueTruncated;
    } else if dataIndex < limit {
      return EncodedInputTooLong;
    }
    return Done;
  }

  // ----- what the decoder does with the encoder's bytes

  /** The slots from `i` on filled in from `c`. */
  function Fill(target: seq<int>, c: seq<int>, i: nat): seq<int>
    requires i <= |c| <= |target|
  {
    target[..i] + c[i..] + target[|c|..]
  }

  lemma ApplyToken(data: seq<byte>, limit: nat, at: nat, i: nat, counts: seq<int>, v: int)
    requires limit + 8 <= |data| && at < limit && i < |counts| && Int64(v)
    requires at + |Encode(v)| <= limit && data[at..at + |Encode(v)|] == Encode(v)
    requires v < 0 ==> INT32_MIN < v && i - v <= |counts|
    ensures Apply(data, limit, at, i, counts) ==
      if v < 0 then Apply(data, limit, at + |Encode(v)|, i - v, counts)
      else Apply(data, limit, at + |Encode(v)|, i + 1, counts[i := v])
  {
    hide Encode, Decode, Apply, Complete;
    var rest := data[at + |Encode(v)|..];
    assert data[at..] == Encode(v) + rest;
    RoundTrip(v, rest);
    ApplyUnfold(data, limit, at, i, counts);
  }

  lemma ApplyUnfold(data: seq<byte>, limit: nat, at: nat, i: nat, counts: seq<int>)
    requires limit + 8 <= |data| && at < limit && i < |counts| && Complete(data[at..], 0)
    requires var v := Decode(data[at..]).0; v < 0 ==> INT32_MIN < v && i - v <= |counts|
    ensures
      var (v, read) := Decode(data[at..]);
      Apply(data, limit, at, i, counts) ==
        if v < 0 then Apply(data, limit, at + read, i - v, counts)
        else Apply(data, limit, at + read, i + 1, counts[i := v])
  {
    hide Decode, Complete;
  }

  lemma {:induction false} RunIsZero(counts: seq<int>, i: nat)
    requires i <= |counts|
    ensures forall j | i <= j < i + ZeroRun(counts, i) :: counts[j] == 0
    decreases |counts| - i
  {
    if i < |counts| && counts[i] == 0 { RunIsZero(counts, i + 1); }
  }

  /** Reading the tokens from slot `i` on fills those slots. */
  lemma {:induction false} ApplyEncoded(data: seq<byte>, limit: nat, at: nat, c: seq<int>, i: nat, counts: seq<int>)
    requires Counts(c) && i <= |c| <= |counts| && limit + 8 <= |data|
    requires at + |EncodeFrom(c, i)| <= limit && data[at..at + |EncodeFrom(c, i)|] == EncodeFrom(c, i)
    requires forall j | i <= j < |c| :: counts[j] == 0
    ensures Apply(data, limit, at, i, counts)
         == Apply(data, limit, at + |EncodeFrom(c, i)|, |c|, Fill(counts, c, i))
    decreases |c| - i
  {
    hide Encode, Apply;
    if i == |c| {
      assert Fill(counts, c, i) == counts;
    } else {
      var zeros := c[i] == 0;
      var v := if zeros then -ZeroRun(c, i) else c[i];
      var j := if zeros then i + ZeroRun(c, i) else i + 1;
      var e := Encode(v);
      assert EncodeFrom(c, i) == e + EncodeFrom(c, j);
      TokenThere(data, at, e, EncodeFrom(c, j));
      ApplyToken(data, limit, at, i, counts, v);
      var next := if zeros then counts else counts[i := v];
      ApplyEncoded(data, limit, at + |e|, c, j, next);
      RunIsZero(c, i);
      assert Fill(next, c, j) == Fill(counts, c, i);
    }
  }

  lemma TokenThere(data: seq<byte>, at: nat, e: seq<byte>, rest: seq<byte>)
    requires at + |e + rest| <= |data| && data[at..at + |e + rest|] == e + rest
    ensures data[at..at + |e|] == e
    ensures data[at + |e|..at + |e| + |rest|] == rest
  {
    assert data[at..at + |e|] == data[at..at + |e + rest|][..|e|];
    assert data[at + |e|..at + |e| + |rest|] == data[at..at + |e + rest|][|e|..];
  }

  function Zeros(n: nat): (z: seq<int>)
    ensures |z| == n && forall i | 0 <= i < n :: z[i] == 0
  {
    seq(n, _ => 0)
  }

  /** Decoding exactly the encoder's bytes into a cleared array of the same length gives every count
      back. */
  lemma CountsRoundTrip(c: seq<int>, beyond: seq<byte>)
    requires Counts(c) && |beyond| >= 8
    ensures Apply(EncodeFrom(c, 0) + beyond, |EncodeFrom(c, 0)|, 0, 0, Zeros(|c|)) == (Done, c)
  {
    var e := EncodeFrom(c, 0);
    var data := e + beyond;
    assert data[0..0 + |e|] == e;
    ApplyEncoded(data, |e|, 0, c, 0, Zeros(|c|));
    assert Fill(Zeros(|c|), c, 0) == c;
  }

  /** A zero byte is a count of zero. */
  lemma DecodeZeroByte(b: seq<byte>)
    requires Complete(b, 0) && b[0] == 0
    ensures Decode(b) == (0, 1)
  {
    UnZigZagIs(0);
  }

  /** Zero bytes up to the limit take one slot each; the decoder complains when the slots run out. */
  lemma {:induction false} ApplyZeroBytes(data: seq<byte>, limit: nat, at: nat, i: nat, counts: seq<int>)
    requires limit + 8 <= |data| && at <= limit && i <= |counts|
    requires forall j | at <= j < limit :: data[j] == 0
    requires forall j | i <= j < |counts| :: counts[j] == 0
    ensures Apply(data, limit, at, i, counts) ==
      (if limit - at <= |counts| - i then Done else EncodedInputTooLong, counts)
    decreases limit - at
  {
    hide Decode;
    if at < limit && i < |counts| {
      NineAreComplete(data[at..], 0);
      DecodeZeroByte(data[at..]);
      assert counts[i := 0] == counts;
      ApplyZeroBytes(data, limit, at + 1, i + 1, counts);
    }
  }

  const HEADER_SIZE: nat := 40

  /** The way `hdr_decode_compressed_v2` calls the decoder: the limit is the payload length of the header,
      which counts the header itself, over a buffer that is zero after the encoded counts. It succeeds
      exactly when the histogram has that many slots to spare. */
  lemma PayloadDecodes(c: seq<int>, countsLen: nat, zeros: seq<byte>)
    requires Counts(c) && |c| <= countsLen
    requires |zeros| == HEADER_SIZE + 9 && forall i | 0 <= i < |zeros| :: zeros[i] == 0
    ensures
      var e := EncodeFrom(c, 0);
      Apply(e + zeros, |e| + HEADER_SIZE, 0, 0, Zeros(countsLen)) ==
        (if |c| + HEADER_SIZE <= countsLen then Done else EncodedInputTooLong, c + Zeros(countsLen - |c|))
  {
    hide Encode, Apply, EncodeFrom;
    var e := EncodeFrom(c, 0);
    var data, limit := e + zeros, |e| + HEADER_SIZE;
    assert data[0..0 + |e|] == e;
    ApplyEncoded(data, limit, 0, c, 0, Zeros(countsLen));
    var filled := Fill(Zeros(countsLen), c, 0);
    assert filled == c + Zeros(countsLen - |c|);
    ApplyZeroBytes(data, limit, |e|, |c|, filled);
  }

  // ----- the decoder on arbitrary bytes

  /** The numbers that stand in `data` from `at` to `end`, each starting in front of the limit. */
  ghost predicate Parses(data: seq<byte>, limit: nat, at: nat, end: nat, values: seq<int>)
    requires limit + 8 <= |data|
    decreases |values|
  {
    if values == [] then at == end
    else
      && at < limit && Complete(data[at..], 0)
      && Decode(data[at..]).0 == values[0]
      && Parses(data, limit, at + Decode(data[at..]).1, end, values[1..])
  }

  /** Slots that numbers take: a run, or one. */
  function Slots(values: seq<int>): nat {
    if values == [] then 0 else (if values[0] < 0 then -values[0] else 1) + Slots(values[1..])
  }

  /** The counts once the numbers have been written from slot `i` on, runs left as they are. */
  function Written(counts: seq<int>, i: nat, values: seq<int>): seq<int>
    requires i + Slots(values) <= |counts|
    decreases |values|
  {
    if values == [] then counts
    else if values[0] < 0 then Written(counts, i - values[0], values[1..])
    else Written(counts[i := values[0]], i + 1, values[1..])
  }

  /** A number that cannot be the next run: it is beyond 32 bits, or beyond the slots that are left. */
  predicate Overlong(v: int, left: nat) {
    v < 0 && (v <= INT32_MIN || -v > left)
  }

  /** Status and counts for any bytes. The numbers are read up to the limit, the last slot, or an overlong run; the
      last number may have been cut off by the limit. */
  lemma {:induction false} ApplyIs(data: seq<byte>, limit: nat, at: nat, i: nat, counts: seq<int>)
      returns (values: seq<int>, end: nat)
    requires limit + 8 <= |data| && i <= |counts|
    ensures Parses(data, limit, at, end, values) && i + Slots(values) <= |counts|
    ensures Apply(data, limit, at, i, counts).1 == Written(counts, i, values)
    ensures
      var status, left := Apply(data, limit, at, i, counts).0, |counts| - i - Slots(values);
      if end > limit then status == ValueTruncated
      else if end == limit then status == Done
      else if left == 0 then status == EncodedInputTooLong
      else status == TrailingZerosInvalid && Complete(data[end..], 0) && Overlong(Decode(data[end..]).0, left)
    decreases |data| - at
  {
    hide Decode, Complete;
    values, end := [], at;
    if at < limit && i < |counts| {
      NineAreComplete(data[at..], 0);
      var (v, read) := Decode(data[at..]);
      if !Overlong(v, |counts| - i) {
        var rest: seq<int>;
        if v < 0 {
          rest, end := ApplyIs(data, limit, at + read, i - v, counts);
        } else {
          rest, end := ApplyIs(data, limit, at + read, i + 1, counts[i := v]);
        }
        values := [v] + rest;
        assert values[1..] == rest;
      }
    }
  }
}
