/** `zig_zag_encode_i64` and `zig_zag_decode_i64` of `hdr_encoding.c`: signed 64-bit integers as zig-zag
    LEB128, seven bits a byte and eight in the ninth. */
module ZigZag {
  import opened Bits

  predicate Int64(v: int) {
    INT64_MIN <= v <= INT64_MAX
  }

  /** The 64-bit integer of a bit pattern. */
  function Signed(u: nat): int
    requires u < TWO_64
  {
    if u <= INT64_MAX then u else u - TWO_64
  }

  /** `(value << 1) ^ (value >> 63)`, as a bit pattern. */
  function ZigZag(v: int): nat
    requires Int64(v)
  {
    Xor((2 * v) % TWO_64, if v < 0 then TWO_64 - 1 else 0)
  }

  /** `(value >> 1) ^ (-(value & 1))`, as a signed number. */
  function UnZigZag(u: nat): int
    requires u < TWO_64
  {
    var x := Xor(u / 2, if u % 2 == 1 then TWO_64 - 1 else 0);
    UnZigZagRange(u);
    Signed(x)
  }

  lemma Pow64()
    ensures Pow2(64) == TWO_64
    ensures Pow2(32) == TWO_32
  {
    SmallPowers();
    hide Pow2;
    Pow2Add(8, 8);
    Pow2Add(16, 16);
    Pow2Add(32, 32);
  }

  lemma ZigZagIs(v: int)
    requires Int64(v)
    ensures ZigZag(v) == if v >= 0 then 2 * v else -2 * v - 1
  {
    if v >= 0 {
      XorZero(2 * v);
    } else {
      Pow64();
      XorOnes(2 * v + TWO_64, 64);
    }
  }

  lemma UnZigZagRange(u: nat)
    requires u < TWO_64
    ensures Xor(u / 2, if u % 2 == 1 then TWO_64 - 1 else 0) == if u % 2 == 0 then u / 2 else TWO_64 - 1 - u / 2
  {
    XorZero(u / 2);
    Pow64();
    XorOnes(u / 2, 64);
  }

  lemma UnZigZagOfZigZag(v: int)
    requires Int64(v)
    ensures ZigZag(v) < TWO_64 && UnZigZag(ZigZag(v)) == v
  {
    ZigZagIs(v);
    UnZigZagRange(ZigZag(v));
  }

  lemma UnZigZagIs(u: nat)
    requires u < TWO_64
    ensures UnZigZag(u) == if u % 2 == 0 then u / 2 else -(u / 2) - 1
    ensures Int64(UnZigZag(u))
  {
    UnZigZagRange(u);
  }

  // ----- bytes

  /** The bytes of `u`, of which `k` have been written already; the ninth byte takes all that is left. */
  function Leb(u: nat, k: nat): (b: seq<byte>)
    requires k <= 8
    ensures 1 <= |b| <= 9 - k
    decreases 8 - k
  {
    if k == 8 then [u % 256]
    else if u < 128 then [u]
    else [u % 128 + 128] + Leb(u / 128, k + 1)
  }

  /** The bytes that a decoder standing on byte `k` of a number reads are all there. */
  predicate Complete(b: seq<byte>, k: nat)
    requires k <= 8
    decreases 8 - k
  {
    |b| > 0 && (k == 8 || b[0] < 128 || Complete(b[1..], k + 1))
  }

  /** The number that starts at byte `k`, and how many bytes it takes. */
  function LebDecode(b: seq<byte>, k: nat): (r: (nat, nat))
    requires k <= 8 && Complete(b, k)
    ensures 1 <= r.1 <= 9 - k && r.1 <= |b|
    decreases 8 - k
  {
    if k == 8 || b[0] < 128 then (b[0], 1)
    else
      var rest := LebDecode(b[1..], k + 1);
      (b[0] % 128 + 128 * rest.0, 1 + rest.1)
  }

  function Encode(v: int): (b: seq<byte>)
    requires Int64(v)
    ensures 1 <= |b| <= 9
  {
    Leb(ZigZag(v), 0)
  }

  function Decode(b: seq<byte>): (r: (int, nat))
    requires Complete(b, 0)
    ensures Int64(r.0) && 1 <= r.1 <= 9 && r.1 <= |b|
  {
    LebDecodeRange(b, 0);
    Pow64();
    UnZigZagIs(LebDecode(b, 0).0);
    (UnZigZag(LebDecode(b, 0).0), LebDecode(b, 0).1)
  }

  lemma {:induction false} LebDecodeRange(b: seq<byte>, k: nat)
    requires k <= 8 && Complete(b, k)
    ensures LebDecode(b, k).0 < Pow2(64 - 7 * k)
    decreases 8 - k
  {
    SmallPowers();
    hide Pow2;
    if k < 8 {
      Pow256(57 - 7 * k);
      if b[0] >= 128 {
        LebDecodeRange(b[1..], k + 1);
      }
    }
  }

  lemma FlaggedByte(u: nat, b: seq<byte>, tail: seq<byte>)
    requires b == [u % 128 + 128] + tail
    ensures b[0] >= 128 && b[0] % 128 + 128 * (u / 128) == u && b[1..] == tail
  {
  }

  lemma {:induction false} LebRoundTrip(u: nat, k: nat, rest: seq<byte>)
    requires k <= 8 && u < Pow2(64 - 7 * k)
    ensures Complete(Leb(u, k) + rest, k)
    ensures LebDecode(Leb(u, k) + rest, k) == (u, |Leb(u, k)|)
    decreases 8 - k
  {
    var b := Leb(u, k) + rest;
    SmallPowers();
    hide Pow2;
    assert k < 8 && u >= 128 ==> b == [u % 128 + 128] + (Leb(u / 128, k + 1) + rest);
    if k < 8 && u >= 128 {
      Pow256(57 - 7 * k);
      assert u / 128 < Pow2(57 - 7 * k);
      LebRoundTrip(u / 128, k + 1, rest);
      FlaggedByte(u, b, Leb(u / 128, k + 1) + rest);
    }
  }

  /** Decoding an encoded integer, whatever follows it, gives it back and consumes exactly its bytes. */
  lemma RoundTrip(v: int, rest: seq<byte>)
    requires Int64(v)
    ensures Complete(Encode(v) + rest, 0)
    ensures Decode(Encode(v) + rest) == (v, |Encode(v)|)
  {
    UnZigZagOfZigZag(v);
    Pow64();
    LebRoundTrip(ZigZag(v), 0, rest);
  }

  lemma {:induction false} NineAreComplete(b: seq<byte>, k: nat)
    requires k <= 8 && |b| >= 9 - k
    ensures Complete(b, k)
    decreases 8 - k
  {
    if k < 8 { NineAreComplete(b[1..], k + 1); }
  }

  // ----- the two procedures of the source, in place

  /** Bits from bit `7 * k` on. */
  function Drop7(u: nat, k: nat): nat {
    DivBounds(u, Pow2(7 * k));
    u / Pow2(7 * k)
  }

  /** `value >> n`, arithmetic */
  function Shr(value: int, n: nat): int {
    value / Pow2(n)
  }

  /** `(uint8_t) (x | 0x80)` */
  function FlagByte(x: int): (b: byte)
    ensures b == x % 128 + 128
  {
    FlagByteIs(x);
    Or(x % 256, 128)
  }

  lemma FlagByteIs(x: int)
    ensures Or(x % 256, 128) == x % 128 + 128
  {
    SmallPowers();
    hide Or, Pow2;
    OrTopBit(x % 256, 7);
    ModShift(x % 256, x / 256);
  }

  lemma {:induction false} OrTopBit(a: nat, n: nat)
    requires a < Pow2(n + 1)
    ensures Or(a, Pow2(n)) == a % Pow2(n) + Pow2(n)
  {
    if n > 0 {
      var p := Pow2(n - 1);
      OrTopBit(a / 2, n - 1);
      ModTwice(a, p);
      assert (2 * p) / 2 == p && (2 * p) % 2 == 0;
    }
  }

  /** What the source tests and stores, read off the bit pattern. */
  lemma ShiftFacts(u: nat, k: nat)
    requires u < TWO_64 && k <= 8
    ensures k < 8 ==> (Shr(Signed(u), 7 * (k + 1)) == 0 <==> Drop7(u, k) < 128)
    ensures k < 8 ==> Drop7(u, k + 1) == Drop7(u, k) / 128
    ensures k < 8 ==> Shr(Signed(u), 7 * k) % 128 == Drop7(u, k) % 128
    ensures Shr(Signed(u), 7 * k) % 256 == Drop7(u, k) % 256
    ensures k == 8 ==> Drop7(u, k) < 256
  {
    Pow64();
    SmallPowers();
    hide Pow2, Shr;
    ShiftSigned(u, 7 * k);
    if k < 8 {
      DivPow2Pow2(u, 7 * k, 7);
      ShiftZero(u, 7 * k + 7);
    } else {
      Pow256(56);
      QuotientBelow64(u, Pow2(56));
    }
  }

  lemma QuotientBelow64(u: nat, p: int)
    requires p > 0 && u < 256 * p
    ensures u / p < 256
  {
    DivBounds(u, p);
    if u / p >= 256 { MulSign(u / p - 255, p); }
  }

  lemma SmallPowers()
    ensures Pow2(7) == 128 && Pow2(8) == 256
  {
  }

  lemma ModShift(a: int, r: int)
    ensures (a + 256 * r) % 256 == a % 256
    ensures (a + 256 * r) % 128 == a % 128
  {
    DivModUnique(a + 256 * r, 256, a / 256 + r, a % 256);
    DivModUnique(a + 256 * r, 128, a / 128 + 2 * r, a % 128);
  }

  /** A negative number shifted keeps its low bits. */
  lemma ShiftSigned(u: nat, n: nat)
    requires u < TWO_64 && n <= 56
    ensures Shr(Signed(u), n) % 256 == u / Pow2(n) % 256
    ensures Shr(Signed(u), n) % 128 == u / Pow2(n) % 128
  {
    if u > INT64_MAX {
      var p, q, r: int := Pow2(n), Pow2(64 - n), Pow2(56 - n);
      Pow64();
      Pow2Add(n, 64 - n);
      Pow256(56 - n);
      hide Pow2;
      DivShift(u, p, q);
      ModShift(u / p, 0 - r);
    }
  }

  lemma DivShift(u: int, p: int, q: int)
    requires p > 0
    ensures (u - p * q) / p == u / p - q
  {
    assert u == u / p * p + u % p;
    assert u - p * q == (u / p - q) * p + u % p;
    DivModUnique(u - p * q, p, u / p - q, u % p);
  }

  lemma ShiftZero(u: nat, n: nat)
    requires u < TWO_64 && n <= 56
    ensures Shr(Signed(u), n) == 0 <==> u / Pow2(n) == 0
  {
    var p := Pow2(n);
    if u > INT64_MAX {
      PowBelow(n);
      hide Pow2;
      DivMono(Signed(u), -1, p);
      DivModUnique(-1, p, -1, p - 1);
      DivMono(p, u, p);
      DivModUnique(p, p, 1, 0);
    }
  }

  lemma PowBelow(n: nat)
    requires n <= 56
    ensures Pow2(n) <= INT64_MAX
  {
    Pow2Mono(n, 56);
    Pow64();
    Pow256(56);
  }

  lemma Pow256(n: nat)
    ensures Pow2(n + 8) == 256 * Pow2(n)
    ensures Pow2(n + 7) == 128 * Pow2(n)
  {
    SmallPowers();
    Pow2Add(n, 8);
    Pow2Add(n, 7);
  }

  lemma LebUnfold(u: nat, k: nat)
    requires k <= 8
    ensures Leb(u, k) ==
      if k == 8 then [u % 256] else if u < 128 then [u] else [u % 128 + 128] + Leb(u / 128, k + 1)
  {
  }

  /** One level of the nesting: what the source writes for byte `k`, and what is left after it. */
  lemma EncodeLevel(u: nat, k: nat)
    requires u < TWO_64 && k <= 8
    ensures k == 8 || Shr(Signed(u), 7 * (k + 1)) == 0 ==> Leb(Drop7(u, k), k) == [Shr(Signed(u), 7 * k) % 256]
    ensures k < 8 && Shr(Signed(u), 7 * (k + 1)) != 0 ==>
      Leb(Drop7(u, k), k) == [FlagByte(Shr(Signed(u), 7 * k))] + Leb(Drop7(u, k + 1), k + 1)
  {
    ShiftFacts(u, k);
    hide Shr, Drop7, Signed, Leb, FlagByte;
    LebUnfold(Drop7(u, k), k);
    SmallMod(Drop7(u, k));
  }

  lemma SmallMod(d: nat)
    ensures d < 256 ==> d % 256 == d
    ensures d < 128 ==> d % 128 == d
  {
  }

  /** The nesting from byte 6 on. */
  method EncodeFrom6(buffer: array<byte>, off: nat, value: int, ghost u: nat) returns (bytesWritten: nat)
    requires u < TWO_64 && value == Signed(u)
    requires off + 6 + |Leb(Drop7(u, 6), 6)| <= buffer.Length
    modifies buffer
    ensures bytesWritten == 6 + |Leb(Drop7(u, 6), 6)|
    ensures buffer[off + 6..off + bytesWritten] == Leb(Drop7(u, 6), 6)
    ensures forall i | 0 <= i < off + 6 || off + bytesWritten <= i < buffer.Length :: buffer[i] == old(buffer[i])
  {
    hide Shr, Drop7, Leb, Signed, FlagByte;
    EncodeLevel(u, 6);
    if Shr(value, 49) == 0 {
      buffer[off + 6] := Shr(value, 42) % 256;
      bytesWritten := 7;
    } else {
      buffer[off + 6] := FlagByte(Shr(value, 42));
      EncodeLevel(u, 7);
      if Shr(value, 56) == 0 {
        buffer[off + 7] := Shr(value, 49) % 256;
        bytesWritten := 8;
      } else {
        buffer[off + 7] := FlagByte(Shr(value, 49));
        EncodeLevel(u, 8);
        buffer[off + 8] := Shr(value, 56) % 256;
        bytesWritten := 9;
      }
    }
  }

  /** The nesting from byte 3 on. */
  method EncodeFrom3(buffer: array<byte>, off: nat, value: int, ghost u: nat) returns (bytesWritten: nat)
    requires u < TWO_64 && value == Signed(u)
    requires off + 3 + |Leb(Drop7(u, 3), 3)| <= buffer.Length
    modifies buffer
    ensures bytesWritten == 3 + |Leb(Drop7(u, 3), 3)|
    ensures buffer[off + 3..off + bytesWritten] == Leb(Drop7(u, 3), 3)
    ensures forall i | 0 <= i < off + 3 || off + bytesWritten <= i < buffer.Length :: buffer[i] == old(buffer[i])
  {
    hide Shr, Drop7, Leb, Signed, FlagByte;
    EncodeLevel(u, 3);
    if Shr(value, 28) == 0 {
      buffer[off + 3] := Shr(value, 21) % 256;
      bytesWritten := 4;
    } else {
      buffer[off + 3] := FlagByte(Shr(value, 21));
      EncodeLevel(u, 4);
      if Shr(value, 35) == 0 {
        buffer[off + 4] := Shr(value, 28) % 256;
        bytesWritten := 5;
      } else {
        buffer[off + 4] := FlagByte(Shr(value, 28));
        EncodeLevel(u, 5);
        if Shr(value, 42) == 0 {
          buffer[off + 5] := Shr(value, 35) % 256;
          bytesWritten := 6;
        } else {
          buffer[off + 5] := FlagByte(Shr(value, 35));
          bytesWritten := EncodeFrom6(buffer, off, value, u);
        }
      }
    }
  }

  /** `zig_zag_encode_i64` at `buffer + off` */
  method EncodeInPlace(buffer: array<byte>, off: nat, signedValue: int) returns (bytesWritten: nat)
    requires Int64(signedValue) && off + |Encode(signedValue)| <= buffer.Length
    modifies buffer
    ensures bytesWritten == |Encode(signedValue)|
    ensures buffer[off..off + bytesWritten] == Encode(signedValue)
    ensures forall i | 0 <= i < off || off + bytesWritten <= i < buffer.Length :: buffer[i] == old(buffer[i])
  {
    hide Shr, Drop7, Leb, Signed, ZigZag, FlagByte;
    ghost var u := ZigZag(signedValue);
    UnZigZagOfZigZag(signedValue);
    EncodeStart(u);
    var value := Signed(ZigZag(signedValue));
    EncodeLevel(u, 0);
    if Shr(value, 7) == 0 {
      buffer[off + 0] := value % 256;
      bytesWritten := 1;
    } else {
      buffer[off + 0] := FlagByte(value % 128);
      EncodeLevel(u, 1);
      if Shr(value, 14) == 0 {
        buffer[off + 1] := Shr(value, 7) % 256;
        bytesWritten := 2;
      } else {
        buffer[off + 1] := FlagByte(Shr(value, 7));
        EncodeLevel(u, 2);
        if Shr(value, 21) == 0 {
          buffer[off + 2] := Shr(value, 14) % 256;
          bytesWritten := 3;
        } else {
          buffer[off + 2] := FlagByte(Shr(value, 14));
          bytesWritten := EncodeFrom3(buffer, off, value, u);
        }
      }
    }
  }

  lemma EncodeStart(u: nat)
    requires u < TWO_64
    ensures Drop7(u, 0) == u
    ensures Shr(Signed(u), 0) == Signed(u)
    ensures FlagByte(Signed(u) % 128) == FlagByte(Signed(u))
  {
    SmallMod(Signed(u) % 128);
    hide FlagByte, Signed;
  }

  /** `v & 0x7F`, `v & 0x80` */
  lemma ByteMasks(v: byte)
    ensures And(v, 0x7F) == v % 128
    ensures And(v, 0x80) != 0 <==> v >= 128
  {
    SmallPowers();
    AndMask(v, 7);
    hide And, Pow2;
    AndTopBit(v, 7);
  }

  lemma {:induction false} AndTopBit(a: nat, n: nat)
    requires a < Pow2(n + 1)
    ensures And(a, Pow2(n)) != 0 <==> a >= Pow2(n)
  {
    if n > 0 {
      var p := Pow2(n - 1);
      AndTopBit(a / 2, n - 1);
      assert (2 * p) / 2 == p && (2 * p) % 2 == 0;
    }
  }

  /** `d << 7 * k` */
  function Shl7(d: nat, k: nat): nat {
    MulNat(d, Pow2(7 * k));
    d * Pow2(7 * k)
  }

  /** The number that results when the bytes from byte `k` on are added to the bits below. */
  ghost function Completed(value: nat, b: seq<byte>, k: nat): nat
    requires k <= 8 && Complete(b, k)
  {
    value + Shl7(LebDecode(b, k).0, k)
  }

  lemma OrShl7(value: nat, d: nat, k: nat)
    requires value < Pow2(7 * k)
    ensures Or(value, Shl7(d, k)) == value + Shl7(d, k)
    ensures d < 128 ==> value + Shl7(d, k) < Pow2(7 * (k + 1))
  {
    OrDisjoint(value, d, 7 * k);
    Pow256(7 * k);
    hide Pow2, Or;
    if d < 128 { DigitBound(value, d, Pow2(7 * k)); }
    assert 7 * (k + 1) == 7 * k + 7;
  }

  lemma DigitBound(value: nat, d: nat, p: nat)
    requires value < p && d < 128
    ensures value + d * p < 128 * p
  {
    assert (127 - d) * p >= 0;
  }

  lemma Shl7Horner(d: nat, rest: nat, k: nat)
    ensures Shl7(d + 128 * rest, k) == Shl7(d, k) + Shl7(rest, k + 1)
  {
    Pow256(7 * k);
    hide Pow2;
    var p := Pow2(7 * k);
    assert Pow2(7 * (k + 1)) == 128 * p;
    assert rest * (128 * p) == 128 * rest * p;
  }

  lemma LebDecodeUnfold(b: seq<byte>, k: nat)
    requires k < 8 && Complete(b, k)
    ensures b[0] < 128 ==> LebDecode(b, k).0 == b[0] % 128
    ensures b[0] >= 128 ==> LebDecode(b, k).0 == b[0] % 128 + 128 * LebDecode(b[1..], k + 1).0
    ensures LebDecode(b, k).1 == if b[0] < 128 then 1 else 1 + LebDecode(b[1..], k + 1).1
  {
    SmallMod(b[0]);
  }

  /** One level of the nesting: the bits taken from byte `k`, and what is still to come after it. */
  lemma DecodeLevel(value: nat, b: seq<byte>, k: nat) returns (next: nat)
    requires k < 8 && value < Pow2(7 * k) && Complete(b, k)
    ensures next == Or(value, Shl7(And(b[0], 0x7F), k)) < Pow2(7 * (k + 1))
    ensures b[0] < 128 ==> Completed(value, b, k) == next
    ensures b[0] >= 128 ==> Completed(value, b, k) == Completed(next, b[1..], k + 1)
    ensures LebDecode(b, k).1 == if b[0] < 128 then 1 else 1 + LebDecode(b[1..], k + 1).1
  {
    hide And, Or, Pow2, Shl7, LebDecode;
    ByteMasks(b[0]);
    var d := b[0] % 128;
    OrShl7(value, d, k);
    LebDecodeUnfold(b, k);
    next := Or(value, Shl7(And(b[0], 0x7F), k));
    if b[0] >= 128 {
      Shl7Horner(d, LebDecode(b[1..], k + 1).0, k);
    }
  }

  lemma DecodeLast(value: nat, b: seq<byte>)
    requires value < Pow2(56) && Complete(b, 8)
    ensures Completed(value, b, 8) == Or(value, Shl7(b[0], 8))
    ensures LebDecode(b, 8).1 == 1
  {
    hide Or, Pow2, Shl7;
    OrShl7(value, b[0], 8);
  }

  /** The nesting from byte 6 on. */
  method DecodeFrom6(buffer: array<byte>, off: nat, below: nat) returns (value: nat, bytesRead: nat)
    requires off + 6 <= buffer.Length && Complete(buffer[off + 6..], 6) && below < Pow2(42)
    ensures value == Completed(below, buffer[off + 6..], 6)
    ensures bytesRead == 6 + LebDecode(buffer[off + 6..], 6).1
  {
    hide Or, And, Pow2, Shl7, Completed, LebDecode;
    value := below;
    bytesRead := 7;
    var v := buffer[off + 6];
    ghost var next;
    next := DecodeLevel(value, buffer[off + 6..], 6);
    value := Or(value, Shl7(And(v, 0x7F), 6));
    ByteMasks(v);
    if And(v, 0x80) != 0 {
      assert buffer[off + 6..][1..] == buffer[off + 7..];
      bytesRead := 8;
      v := buffer[off + 7];
      next := DecodeLevel(value, buffer[off + 7..], 7);
      value := Or(value, Shl7(And(v, 0x7F), 7));
      ByteMasks(v);
      if And(v, 0x80) != 0 {
        assert buffer[off + 7..][1..] == buffer[off + 8..];
        bytesRead := 9;
        v := buffer[off + 8];
        DecodeLast(value, buffer[off + 8..]);
        value := Or(value, Shl7(v, 8));
      }
    }
  }

  /** The nesting from byte 3 on. */
  method DecodeFrom3(buffer: array<byte>, off: nat, below: nat) returns (value: nat, bytesRead: nat)
    requires off + 3 <= buffer.Length && Complete(buffer[off + 3..], 3) && below < Pow2(21)
    ensures value == Completed(below, buffer[off + 3..], 3)
    ensures bytesRead == 3 + LebDecode(buffer[off + 3..], 3).1
  {
    hide Or, And, Pow2, Shl7, Completed, LebDecode;
    value := below;
    bytesRead := 4;
    var v := buffer[off + 3];
    ghost var next;
    next := DecodeLevel(value, buffer[off + 3..], 3);
    value := Or(value, Shl7(And(v, 0x7F), 3));
    ByteMasks(v);
    if And(v, 0x80) != 0 {
      assert buffer[off + 3..][1..] == buffer[off + 4..];
      bytesRead := 5;
      v := buffer[off + 4];
      next := DecodeLevel(value, buffer[off + 4..], 4);
      value := Or(value, Shl7(And(v, 0x7F), 4));
      ByteMasks(v);
      if And(v, 0x80) != 0 {
        assert buffer[off + 4..][1..] == buffer[off + 5..];
        bytesRead := 6;
        v := buffer[off + 5];
        next := DecodeLevel(value, buffer[off + 5..], 5);
        value := Or(value, Shl7(And(v, 0x7F), 5));
        ByteMasks(v);
        if And(v, 0x80) != 0 {
          assert buffer[off + 5..][1..] == buffer[off + 6..];
          value, bytesRead := DecodeFrom6(buffer, off, value);
        }
      }
    }
  }

  /** `zig_zag_decode_i64` at `buffer + off`: it reads only the bytes of the number. */
  method DecodeInPlace(buffer: array<byte>, off: nat) returns (retVal: int, bytesRead: nat)
    requires off <= buffer.Length && Complete(buffer[off..], 0)
    ensures (retVal, bytesRead) == Decode(buffer[off..])
  {
    hide Or, And, Pow2, Shl7, Completed, LebDecode;
    CompletedStart(buffer[off..]);
    bytesRead := 1;
    var v := buffer[off];
    var value: nat := 0;
    ghost var next;
    next := DecodeLevel(value, buffer[off + 0..], 0);
    value := And(v, 0x7F);
    ByteMasks(v);
    if And(v, 0x80) != 0 {
      assert buffer[off + 0..][1..] == buffer[off + 1..];
      bytesRead := 2;
      v := buffer[off + 1];
      next := DecodeLevel(value, buffer[off + 1..], 1);
      value := Or(value, Shl7(And(v, 0x7F), 1));
      ByteMasks(v);
      if And(v, 0x80) != 0 {
        assert buffer[off + 1..][1..] == buffer[off + 2..];
        bytesRead := 3;
        v := buffer[off + 2];
        next := DecodeLevel(value, buffer[off + 2..], 2);
        value := Or(value, Shl7(And(v, 0x7F), 2));
        ByteMasks(v);
        if And(v, 0x80) != 0 {
          assert buffer[off + 2..][1..] == buffer[off + 3..];
          value, bytesRead := DecodeFrom3(buffer, off, value);
        }
      }
    }
    LebDecodeRange(buffer[off..], 0);
    Pow64();
    retVal := UnZigZag(value);
  }

  lemma CompletedStart(b: seq<byte>)
    requires Complete(b, 0)
    ensures 0 < Pow2(0) && Completed(0, b, 0) == LebDecode(b, 0).0
    ensures Or(0, Shl7(And(b[0], 0x7F), 0)) == And(b[0], 0x7F)
  {
    assert Pow2(0) == 1;
    hide Or, And, LebDecode;
    OrZeroLeft(And(b[0], 0x7F));
  }

  /** Little-endian base 128: byte `i` has the seven bits from bit `7 * i` on and a flag unless it is the last one;
      there are no more bytes than the number needs, and the ninth has eight bits. */
  lemma {:induction false} LebBytes(u: nat, k: nat, i: nat)
    requires u < TWO_64 && k <= 8 && i < |Leb(Drop7(u, k), k)|
    ensures
      var b := Leb(Drop7(u, k), k);
      && b[i] == (if i == |b| - 1 then Drop7(u, k + i) else Drop7(u, k + i) % 128 + 128)
      && (|b| == 9 - k || Drop7(u, k + |b|) == 0)
      && (|b| > 1 ==> Drop7(u, k + |b| - 1) > 0)
    decreases 8 - k
  {
    hide Drop7, Shr, Signed, Leb, Pow2;
    ShiftFacts(u, k);
    LebUnfold(Drop7(u, k), k);
    if k < 8 && Drop7(u, k) >= 128 {
      LebBytes(u, k + 1, if i > 0 then i - 1 else 0);
    } else {
      SmallMod(Drop7(u, k));
    }
  }

  /** The bytes of an encoded integer. */
  lemma EncodingIs(v: int, i: nat)
    requires Int64(v) && i < |Encode(v)|
    ensures
      var b, u := Encode(v), if v >= 0 then 2 * v else -2 * v - 1;
      && b[i] == (if i == |b| - 1 then u / Pow2(7 * i) else u / Pow2(7 * i) % 128 + 128)
      && (|b| == 9 || u / Pow2(7 * |b|) == 0)
      && (|b| > 1 ==> u / Pow2(7 * (|b| - 1)) > 0)
  {
    ZigZagIs(v);
    UnZigZagOfZigZag(v);
    var u := ZigZag(v);
    EncodeStart(u);
    LebBytes(u, 0, i);
    hide ZigZag, Leb, Pow2;
  }

  lemma LebDecodeStep(b: seq<byte>, k: nat)
    requires k <= 8 && Complete(b, k)
    ensures
      var r := LebDecode(b, k);
      if k == 8 || b[0] < 128 then r == (b[0] as nat, 1)
      else (
        && Complete(b[1..], k + 1) && r.1 == 1 + LebDecode(b[1..], k + 1).1
        && r.0 / 128 == LebDecode(b[1..], k + 1).0 && r.0 % 128 == b[0] % 128)
  {
  }

  /** Decoding of any bytes, canonical or not: the number ends at the first byte without a flag, or with the ninth, and
      byte `i` gives the seven bits from bit `7 * i` on, the ninth eight bits. */
  lemma {:induction false} LebDigits(b: seq<byte>, k: nat, i: nat)
    requires k <= 8 && Complete(b, k) && i < LebDecode(b, k).1
    ensures
      var (u, n) := LebDecode(b, k);
      && (i < n - 1 ==> b[i] >= 128 && u / Pow2(7 * i) % 128 == b[i] % 128)
      && (i == n - 1 ==> u / Pow2(7 * i) == b[i] && (n == 9 - k || b[i] < 128))
    decreases i
  {
    LebDecodeStep(b, k);
    assert Pow2(0) == 1 && Pow2(7) == 128;
    hide Pow2, LebDecode, Complete;
    if i > 0 {
      LebDigits(b[1..], k + 1, i - 1);
      DivPow2Pow2(LebDecode(b, k).0, 7, 7 * (i - 1));
    }
  }

  lemma DecodingIs(b: seq<byte>, i: nat)
    requires Complete(b, 0) && i < Decode(b).1
    ensures
      var (v, n) := Decode(b);
      var u := if v >= 0 then 2 * v else -2 * v - 1;
      && (i < n - 1 ==> b[i] >= 128 && u / Pow2(7 * i) % 128 == b[i] % 128)
      && (i == n - 1 ==> u / Pow2(7 * i) == b[i] && (n == 9 || b[i] < 128))
  {
    hide Pow2, LebDecode, Complete, UnZigZag;
    LebDecodeRange(b, 0);
    Pow64();
    LebDigits(b, 0, i);
    UnZigZagIs(LebDecode(b, 0).0);
  }
}
