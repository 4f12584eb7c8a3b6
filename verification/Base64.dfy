/** Base64 of `hdr_encoding.c`: blocks of three bytes through a 24-bit number, with padding. `Encoded` and
    `Decoded` state the encoding of section 4 of RFC 4648 by groups of six bits. */
module Base64 {
  import opened Bits

  const UPPER := "ABCDEFGHIJKLMNOPQRSTUVWXYZ"
  const LOWER := "abcdefghijklmnopqrstuvwxyz"
  const NUMERALS := "0123456789+/"
  const TABLE := UPPER + LOWER + NUMERALS

  const EINVAL := 22

  /** `from_base_64`: a character outside the alphabet is not reported, it counts as 22. */
  function FromBase64(c: char): (v: nat)
    ensures v < 64
  {
    var x := c as int;
    if 'A' as int <= x <= 'Z' as int then x - 'A' as int
    else if 'a' as int <= x <= 'z' as int then x - 'a' as int + 26
    else if '0' as int <= x <= '9' as int then x - '0' as int + 52
    else if c == '+' then 62
    else if c == '/' then 63
    else if c == '=' then 0
    else EINVAL
  }

  /** The alphabet. */
  function Digit(i: nat): char
    requires i < 64
  {
    TABLE[i]
  }

  lemma FromUpper(i: nat)
    requires i < 26
    ensures FromBase64(UPPER[i]) == i
  {
    assert UPPER[i] as int == 'A' as int + i;
  }

  lemma FromLower(i: nat)
    requires i < 26
    ensures FromBase64(LOWER[i]) == i + 26
  {
    assert LOWER[i] as int == 'a' as int + i;
  }

  lemma FromNumeral(i: nat)
    requires i < 12
    ensures FromBase64(NUMERALS[i]) == i + 52
  {
  }

  lemma DigitSplit(i: nat)
    requires i < 64
    ensures Digit(i) == if i < 26 then UPPER[i] else if i < 52 then LOWER[i - 26] else NUMERALS[i - 52]
  {
  }

  /** The alphabet and its inverse. */
  lemma FromDigit(i: nat)
    requires i < 64
    ensures FromBase64(Digit(i)) == i
  {
    hide Digit, FromBase64;
    DigitSplit(i);
    if i < 26 {
      FromUpper(i);
    } else if i < 52 {
      FromLower(i - 26);
    } else {
      FromNumeral(i - 52);
    }
  }

  /** Table 1 of RFC 4648. */
  lemma Alphabet(i: nat)
    requires i < 64
    ensures Digit(i) as int ==
      if i < 26 then 'A' as int + i else if i < 52 then 'a' as int + i - 26
      else if i < 62 then '0' as int + i - 52 else if i == 62 then '+' as int else '/' as int
  {
    hide Digit, FromBase64;
    DigitSplit(i);
    if i < 26 { UpperIs(i); } else if i < 52 { LowerIs(i - 26); }
  }

  lemma UpperIs(i: nat)
    requires i < 26
    ensures UPPER[i] as int == 'A' as int + i
  {
  }

  lemma LowerIs(i: nat)
    requires i < 26
    ensures LOWER[i] as int == 'a' as int + i
  {
  }

  // ----- the encoding, by groups of six bits

  /** Characters of the first one to three bytes. */
  function Block(s: seq<byte>): (t: seq<char>)
    requires 1 <= |s|
    ensures |t| == 4
  {
    hide Digit;
    if |s| == 1 then [Digit(s[0] / 4), Digit(s[0] % 4 * 16), '=', '=']
    else if |s| == 2 then [Digit(s[0] / 4), Digit(s[0] % 4 * 16 + s[1] / 16), Digit(s[1] % 16 * 4), '=']
    else [Digit(s[0] / 4), Digit(s[0] % 4 * 16 + s[1] / 16), Digit(s[1] % 16 * 4 + s[2] / 64), Digit(s[2] % 64)]
  }

  function Encoded(s: seq<byte>): seq<char> {
    if |s| == 0 then [] else Block(s) + if |s| > 3 then Encoded(s[3..]) else []
  }

  /** `hdr_base64_encoded_len`, without going through floating point. */
  function EncodedLen(n: nat): nat {
    (n + 2) / 3 * 4
  }

  /** `hdr_base64_decoded_len` */
  function DecodedLen(n: nat): nat {
    n / 4 * 3
  }

  lemma {:induction false} EncodedSize(s: seq<byte>)
    ensures |Encoded(s)| == EncodedLen(|s|)
  {
    hide Block;
    if |s| > 3 { EncodedSize(s[3..]); }
  }

  /** Bytes of four characters. */
  function Unblock(t: seq<char>): (s: seq<byte>)
    requires |t| >= 4
    ensures |s| == 3
  {
    hide FromBase64;
    var a, b, c, d := FromBase64(t[0]), FromBase64(t[1]), FromBase64(t[2]), FromBase64(t[3]);
    [a * 4 + b / 16, b % 16 * 16 + c / 4, c % 4 * 64 + d]
  }

  function Decoded(t: seq<char>): seq<byte> {
    if |t| < 4 then [] else Unblock(t) + Decoded(t[4..])
  }

  /** Regrouping three octets as four groups of six bits, and back. */
  lemma Regroup(a: byte, b: byte, c: byte)
    ensures a / 4 < 64 && a % 4 * 16 + b / 16 < 64 && b % 16 * 4 + c / 64 < 64
    ensures a / 4 * 4 + (a % 4 * 16 + b / 16) / 16 == a
    ensures (a % 4 * 16 + b / 16) % 16 * 16 + (b % 16 * 4 + c / 64) / 4 == b
    ensures (b % 16 * 4 + c / 64) % 4 * 64 + c % 64 == c
  {
    DivModUnique(a % 4 * 16 + b / 16, 16, a % 4, b / 16);
    DivModUnique(b % 16 * 4 + c / 64, 4, b % 16, c / 64);
  }

  lemma EqualsSign()
    ensures FromBase64('=') == 0
  {
  }

  lemma UnblockDigits(t: seq<char>, w: nat, x: nat, y: nat, z: nat)
    requires |t| == 4
    requires FromBase64(t[0]) == w && FromBase64(t[1]) == x && FromBase64(t[2]) == y && FromBase64(t[3]) == z
    ensures Unblock(t) == [w * 4 + x / 16, x % 16 * 16 + y / 4, y % 4 * 64 + z]
  {
    hide FromBase64;
  }

  /** One block: what is missing at its end comes back as zero. */
  lemma UnblockBlock(s: seq<byte>)
    requires 1 <= |s|
    ensures Unblock(Block(s)) ==
      [s[0], if |s| > 1 then s[1] else 0, if |s| > 2 then s[2] else 0]
  {
    hide FromBase64, Digit, Unblock;
    var a, b, c := s[0], if |s| > 1 then s[1] else 0, if |s| > 2 then s[2] else 0;
    Regroup(a, b, c);
    FromDigit(a / 4);
    FromDigit(a % 4 * 16 + b / 16);
    FromDigit(b % 16 * 4 + c / 64);
    FromDigit(c % 64);
    EqualsSign();
    UnblockDigits(Block(s), a / 4, a % 4 * 16 + b / 16, b % 16 * 4 + c / 64, c % 64);
  }

  function Padding(n: nat): nat {
    (3 - n % 3) % 3
  }

  function Zeros(n: nat): seq<byte> {
    seq(n, _ => 0)
  }

  lemma UnblockPrefix(t: seq<char>, rest: seq<char>)
    requires |t| == 4
    ensures Unblock(t + rest) == Unblock(t)
  {
    hide FromBase64;
  }

  lemma DecodedBlock(t: seq<char>, rest: seq<char>)
    requires |t| == 4
    ensures Decoded(t + rest) == Unblock(t) + Decoded(rest)
  {
    UnblockPrefix(t, rest);
    hide Unblock;
    assert (t + rest)[4..] == rest;
  }

  /** Decoding an encoded string gives it back, followed by the zero bytes of the padding. */
  lemma {:induction false} RoundTrip(s: seq<byte>)
    ensures Decoded(Encoded(s)) == s + Zeros(Padding(|s|))
  {
    hide Block, Unblock, Encoded, Decoded;
    if |s| == 0 {
      EncodedShort(s);
      DecodedShort([]);
    } else if |s| <= 3 {
      EncodedShort(s);
      UnblockBlock(s);
      assert Block(s) == Block(s) + [];
      DecodedBlock(Block(s), []);
      DecodedShort([]);
    } else {
      EncodedLong(s);
      UnblockBlock(s);
      DecodedBlock(Block(s), Encoded(s[3..]));
      RoundTrip(s[3..]);
      assert Padding(|s|) == Padding(|s[3..]|);
      hide Padding, Zeros;
      assert s == [s[0], s[1], s[2]] + s[3..];
    }
  }

  lemma EncodedShort(t: seq<byte>)
    requires |t| <= 3
    ensures Encoded(t) == if |t| == 0 then [] else Block(t)
  {
    hide Block;
  }

  lemma EncodedLong(s: seq<byte>)
    requires |s| > 3
    ensures Encoded(s) == Block(s) + Encoded(s[3..])
  {
    hide Block;
  }

  // ----- the procedures of the source, in place

  /** `get_base_64` */
  function GetBase64(value: nat, shift: nat): char {
    hide Digit, And, Pow2;
    And63(value / Pow2(shift));
    Digit(And(0x3F, value / Pow2(shift)))
  }

  lemma And63(x: nat)
    ensures And(0x3F, x) == x % 64
  {
    assert Pow2(6) == 64;
    AndMask(x, 6);
    AndSymmetric(0x3F, x);
  }

  lemma {:induction false} AndSymmetric(a: nat, b: nat)
    ensures And(a, b) == And(b, a)
  {
    if a != 0 && b != 0 { AndSymmetric(a / 2, b / 2); }
  }

  lemma {:induction false} OrSymmetric(a: nat, b: nat)
    ensures Or(a, b) == Or(b, a)
    decreases a + b
  {
    if a != 0 || b != 0 { OrSymmetric(a / 2, b / 2); }
  }

  lemma Shifts()
    ensures Pow2(18) == 262144 && Pow2(12) == 4096 && Pow2(6) == 64 && Pow2(0) == 1
    ensures Pow2(16) == 65536 && Pow2(8) == 256
  {
    assert Pow2(6) == 64 && Pow2(8) == 256;
    hide Pow2;
    Pow2Add(6, 6);
    Pow2Add(12, 6);
    Pow2Add(8, 8);
  }

  lemma CutIs(value: nat, shift: nat, unit: nat, digit: nat)
    requires Pow2(shift) == unit && value / unit % 64 == digit
    ensures GetBase64(value, shift) == Digit(digit)
  {
    hide And, Pow2, Digit;
    And63(value / unit);
  }

  /** The four characters cut out of the 24-bit number. */
  lemma SextetsOf(a: byte, b: byte, c: byte)
    ensures
      var v := a * 65536 + b * 256 + c;
      && GetBase64(v, 18) == Digit(a / 4)
      && GetBase64(v, 12) == Digit(a % 4 * 16 + b / 16)
      && GetBase64(v, 6) == Digit(b % 16 * 4 + c / 64)
      && GetBase64(v, 0) == Digit(c % 64)
  {
    var v := a * 65536 + b * 256 + c;
    Shifts();
    hide GetBase64, Pow2, Digit;
    DivModUnique(v, 262144, a / 4, a % 4 * 65536 + b * 256 + c);
    CutIs(v, 18, 262144, a / 4);
    DivModUnique(v, 4096, a * 16 + b / 16, b % 16 * 256 + c);
    DivModUnique(a * 16 + b / 16, 64, a / 4, a % 4 * 16 + b / 16);
    CutIs(v, 12, 4096, a % 4 * 16 + b / 16);
    DivModUnique(v, 64, a * 1024 + b * 4 + c / 64, c % 64);
    DivModUnique(a * 1024 + b * 4 + c / 64, 64, a * 16 + b / 16, b % 16 * 4 + c / 64);
    CutIs(v, 6, 64, b % 16 * 4 + c / 64);
    CutIs(v, 0, 1, c % 64);
  }

  /** The number the source cuts up. */
  function Joined(s: seq<byte>): nat
    requires 1 <= |s|
  {
    s[0] as int * 65536 + (if |s| > 1 then s[1] as int * 256 else 0) + (if |s| > 2 then s[2] else 0)
  }

  lemma BlockOf(s: seq<byte>)
    requires 1 <= |s|
    ensures
      var v := Joined(s);
      Block(s) == [GetBase64(v, 18), GetBase64(v, 12), if |s| > 1 then GetBase64(v, 6) else '=',
                   if |s| > 2 then GetBase64(v, 0) else '=']
  {
    hide GetBase64, Digit;
    SextetsOf(s[0], if |s| > 1 then s[1] else 0, if |s| > 2 then s[2] else 0);
  }

  /** `hdr_base64_encode_block` */
  method EncodeBlock(input: array<byte>, i: nat, output: array<char>, j: nat)
    requires i + 3 <= input.Length && j + 4 <= output.Length
    modifies output
    ensures output[..] == old(output[..j]) + Block(input[i..i + 3]) + old(output[j + 4..])
  {
    hide GetBase64, Pow2, Block;
    ghost var before := output[..];
    Shifts();
    BlockOf(input[i..i + 3]);
    var value := input[i] * Pow2(16) + input[i + 1] * Pow2(8) + input[i + 2];
    output[j] := GetBase64(value, 18);
    output[j + 1] := GetBase64(value, 12);
    output[j + 2] := GetBase64(value, 6);
    output[j + 3] := GetBase64(value, 0);
    assert output[j..j + 4] == Block(input[i..i + 3]);
    assert output[..] == before[..j] + output[j..j + 4] + before[j + 4..];
  }

  /** `hdr_base64_encode_block_pad` */
  method EncodeBlockPad(input: array<byte>, i: nat, output: array<char>, j: nat, pad: nat)
    requires pad <= 2 && i + pad <= input.Length && (pad > 0 ==> j + 4 <= output.Length)
    modifies output
    ensures pad == 0 ==> output[..] == old(output[..])
    ensures pad > 0 ==> output[..] == old(output[..j]) + Block(input[i..i + pad]) + old(output[j + 4..])
  {
    hide GetBase64, Pow2, Block;
    Shifts();
    if pad > 0 { BlockOf(input[i..i + pad]); }
    if pad == 2 {
      var value := input[i] * Pow2(16) + input[i + 1] * Pow2(8);
      output[j] := GetBase64(value, 18);
      output[j + 1] := GetBase64(value, 12);
      output[j + 2] := GetBase64(value, 6);
      output[j + 3] := '=';
      assert output[j..j + 4] == Block(input[i..i + 2]);
    } else if pad == 1 {
      var value := input[i] * Pow2(16);
      output[j] := GetBase64(value, 18);
      output[j + 1] := GetBase64(value, 12);
      output[j + 2] := '=';
      output[j + 3] := '=';
      assert output[j..j + 4] == Block(input[i..i + 1]);
    }
  }

  /** `hdr_base64_encode` */
  method EncodeInPlace(input: array<byte>, output: array<char>) returns (r: int)
    modifies output
    ensures r == if output.Length == EncodedLen(input.Length) then 0 else EINVAL
    ensures output[..] == if r == 0 then Encoded(input[..]) else old(output[..])
  {
    hide Block, Encoded, EncodedLen;
    if EncodedLen(input.Length) != output.Length {
      return EINVAL;
    }
    ghost var blocks := Blocks(input.Length);
    ghost var s := input[..];
    var i, j := 0, 0;
    ghost var k := 0;
    EncodedStart(s);
    hide EncodedUpTo;
    while input.Length - i >= 3 && j < output.Length
      invariant i == 3 * k <= input.Length && j == 4 * k
      invariant EncodedUpTo(s, i, output[..j])
      decreases input.Length - i
    {
      ghost var done := output[..j];
      EncodedSplit(s, i, done);
      EncodeBlock(input, i, output, j);
      assert output[..j + 4] == done + Block(s[i..i + 3]);
      i, j, k := i + 3, j + 4, k + 1;
    }
    var remaining := input.Length - i;
    EncodedEnd(s, i, output[..j]);
    EncodeBlockPad(input, i, output, j, remaining);
    assert input[i..i + remaining] == s[i..];
    return 0;
  }

  /** The characters written for the first `i` bytes. */
  predicate EncodedUpTo(s: seq<byte>, i: nat, done: seq<char>)
    requires i <= |s|
  {
    done + Encoded(s[i..]) == Encoded(s)
  }

  lemma Blocks(n: nat) returns (blocks: nat)
    ensures EncodedLen(n) == 4 * blocks && 3 * blocks - 2 <= n <= 3 * blocks
  {
    blocks := (n + 2) / 3;
  }

  lemma EncodedStart(s: seq<byte>)
    ensures EncodedUpTo(s, 0, [])
  {
    hide Encoded;
    assert s[0..] == s;
  }

  lemma EncodedSplit(s: seq<byte>, i: nat, done: seq<char>)
    requires i + 3 <= |s| && EncodedUpTo(s, i, done)
    ensures EncodedUpTo(s, i + 3, done + Block(s[i..i + 3]))
  {
    var t := s[i..];
    BlockPrefix(t);
    hide Block;
    assert s[i..i + 3] == t[..3] && s[i + 3..] == t[3..];
    assert Encoded(t) == Block(t[..3]) + Encoded(t[3..]);
  }

  lemma EncodedEnd(s: seq<byte>, i: nat, done: seq<char>)
    requires i <= |s| <= i + 2 && EncodedUpTo(s, i, done)
    ensures Encoded(s) == done + if i == |s| then [] else Block(s[i..])
  {
    hide Encoded, Block;
    EncodedShort(s[i..]);
  }

  lemma BlockPrefix(t: seq<byte>)
    requires |t| >= 3
    ensures Block(t) == Block(t[..3])
  {
    hide Digit;
  }

  /** The number the source puts together from four digits. */
  function Pack(a: nat, b: nat, c: nat, d: nat): nat {
    hide Or, Pow2;
    Or(Or(Or(Or(0, a * Pow2(18)), b * Pow2(12)), c * Pow2(6)), d)
  }

  /** The bits of the four digits do not overlap. */
  lemma Join(a: nat, b: nat, c: nat, d: nat)
    requires a < 64 && b < 64 && c < 64 && d < 64
    ensures Pack(a, b, c, d) == a * 262144 + b * 4096 + c * 64 + d
  {
    Shifts();
    hide Pow2, Or;
    OrZeroLeft(a * 262144);
    var x := a * 64 + b;
    OrDisjoint(b * 4096, a, 18);
    OrSymmetric(a * 262144, b * 4096);
    OrDisjoint(c * 64, x, 12);
    OrSymmetric(x * 4096, c * 64);
    OrDisjoint(d, x * 64 + c, 6);
    OrSymmetric((x * 64 + c) * 64, d);
  }

  lemma Octets(a: nat, b: nat, c: nat, d: nat)
    requires a < 64 && b < 64 && c < 64 && d < 64
    ensures
      var v := a * 262144 + b * 4096 + c * 64 + d;
      && Octet(v, 16) == a * 4 + b / 16
      && Octet(v, 8) == b % 16 * 16 + c / 4
      && Octet(v, 0) == c % 4 * 64 + d
  {
    var v := a * 262144 + b * 4096 + c * 64 + d;
    Shifts();
    hide Pow2, And;
    AndMask(v / 65536, 8);
    AndMask(v / 256, 8);
    AndMask(v, 8);
    DivModUnique(v, 65536, a * 4 + b / 16, b % 16 * 4096 + c * 64 + d);
    DivModUnique(v, 256, a * 1024 + b * 16 + c / 4, c % 4 * 64 + d);
    DivModUnique(a * 1024 + b * 16 + c / 4, 256, a * 4 + b / 16, b % 16 * 16 + c / 4);
  }

  /** Octet of a 24-bit number at a shift. */
  function Octet(v: nat, shift: nat): nat {
    hide And, Pow2;
    And(v / Pow2(shift), 0xFF)
  }

  lemma UnblockOf(t: seq<char>, v: nat)
    requires |t| == 4
    requires v == Pack(FromBase64(t[0]), FromBase64(t[1]), FromBase64(t[2]), FromBase64(t[3]))
    ensures Unblock(t) == [Octet(v, 16), Octet(v, 8), Octet(v, 0)]
  {
    hide Pow2, FromBase64, And, Or, Pack, Octet;
    var a, b, c, d := FromBase64(t[0]), FromBase64(t[1]), FromBase64(t[2]), FromBase64(t[3]);
    Join(a, b, c, d);
    Octets(a, b, c, d);
    UnblockDigits(t, a, b, c, d);
    hide Unblock;
  }

  /** `hdr_base64_decode_block` */
  method DecodeBlock(input: array<char>, i: nat, output: array<byte>, j: nat)
    requires i + 4 <= input.Length && j + 3 <= output.Length
    modifies output
    ensures output[..] == old(output[..j]) + Unblock(input[i..i + 4]) + old(output[j + 3..])
  {
    hide Pow2, FromBase64, Or, Unblock, Octet;
    var value := 0;
    value := Or(value, FromBase64(input[i]) * Pow2(18));
    value := Or(value, FromBase64(input[i + 1]) * Pow2(12));
    value := Or(value, FromBase64(input[i + 2]) * Pow2(6));
    value := Or(value, FromBase64(input[i + 3]));
    UnblockOf(input[i..i + 4], value);
    ghost var bytes := Unblock(input[i..i + 4]);
    var high, middle, low := Octet(value, 16), Octet(value, 8), Octet(value, 0);
    assert high == bytes[0] && middle == bytes[1] && low == bytes[2];
    output[j] := high;
    output[j + 1] := middle;
    output[j + 2] := low;
    assert output[j..j + 3] == bytes;
  }

  /** `hdr_base64_decode`: rejects by length only. */
  method DecodeInPlace(input: array<char>, output: array<byte>) returns (r: int)
    modifies output
    ensures r == if input.Length >= 4 && input.Length % 4 == 0 && output.Length == DecodedLen(input.Length)
      then 0 else EINVAL
    ensures output[..] == if r == 0 then Decoded(input[..]) else old(output[..])
  {
    if input.Length < 4 || input.Length % 4 != 0 || DecodedLen(input.Length) != output.Length {
      return EINVAL;
    }
    ghost var blocks := input.Length / 4;
    assert input.Length == 4 * blocks && output.Length == 3 * blocks;
    hide Unblock, Decoded, DecodedLen;
    ghost var t := input[..];
    var i, j := 0, 0;
    ghost var k := 0;
    assert t[0..] == t && output[..0] == [];
    while i < input.Length
      invariant i == 4 * k <= input.Length && j == 3 * k
      invariant output[..j] + Decoded(t[i..]) == Decoded(t)
    {
      ghost var done := output[..j];
      DecodedSplit(t, i, done);
      DecodeBlock(input, i, output, j);
      assert t[i..i + 4] == input[i..i + 4];
      assert output[..j + 3] == done + Unblock(t[i..i + 4]);
      i, j, k := i + 4, j + 3, k + 1;
    }
    DecodedShort(t[i..]);
    return 0;
  }

  lemma DecodedSplit(t: seq<char>, i: nat, done: seq<byte>)
    requires i + 4 <= |t|
    ensures done + Decoded(t[i..]) == (done + Unblock(t[i..i + 4])) + Decoded(t[i + 4..])
  {
    var u := t[i..];
    assert u == u[..4] + u[4..] && t[i..i + 4] == u[..4] && t[i + 4..] == u[4..];
    UnblockPrefix(u[..4], u[4..]);
    hide Unblock;
    assert Decoded(u) == Unblock(u[..4]) + Decoded(u[4..]);
  }

  lemma DecodedShort(t: seq<char>)
    requires |t| < 4
    ensures Decoded(t) == []
  {
  }

  lemma Lengths(n: nat)
    ensures EncodedLen(n) % 4 == 0 && (EncodedLen(n) >= 4 <==> n > 0)
  {
  }

  /** Both procedures one after the other, on buffers of the lengths they ask for: every non-empty byte string
      comes back, and the padding shows as zero bytes. */
  method EncodeThenDecode(input: array<byte>) returns (output: array<byte>, r: int)
    ensures r == if input.Length == 0 then EINVAL else 0
    ensures input.Length > 0 ==> output[..] == input[..] + Zeros(Padding(input.Length))
  {
    var text := new char[EncodedLen(input.Length)];
    r := EncodeInPlace(input, text);
    Lengths(input.Length);
    hide Encoded, Decoded, EncodedLen, DecodedLen, Padding, Zeros;
    RoundTrip(input[..]);
    output := new byte[DecodedLen(text.Length)](_ => 0);
    r := DecodeInPlace(text, output);
  }

  /** A block is its bytes, missing ones taken as zero, as a number in base 64; what is missing shows as `=`. */
  lemma BlockIsNumber(s: seq<byte>, w: nat, x: nat, y: nat, z: nat)
    requires 1 <= |s| && w < 64 && x < 64 && y < 64 && z < 64
    requires ((w * 64 + x) * 64 + y) * 64 + z == Joined(s)
    ensures Block(s) == [Digit(w), Digit(x), if |s| > 1 then Digit(y) else '=', if |s| > 2 then Digit(z) else '=']
  {
    hide Digit;
    Groups(s[0], if |s| > 1 then s[1] else 0, if |s| > 2 then s[2] else 0, w, x, y, z);
  }

  lemma Groups(a: byte, b: byte, c: byte, w: nat, x: nat, y: nat, z: nat)
    requires w < 64 && x < 64 && y < 64 && z < 64
    requires ((w * 64 + x) * 64 + y) * 64 + z == a as int * 65536 + b as int * 256 + c as int
    ensures w == a / 4 && x == a % 4 * 16 + b / 16 && y == b % 16 * 4 + c / 64 && z == c % 64
  {
    var v := a as int * 65536 + b as int * 256 + c as int;
    var low, high := x * 4096 + y * 64 + z, a % 4 * 65536 + b as int * 256 + c as int;
    DivModUnique(v, 262144, w, low);
    DivModUnique(v, 262144, a / 4, high);
    DivModUnique(low, 4096, x, y * 64 + z);
    DivModUnique(low, 4096, a % 4 * 16 + b / 16, b % 16 * 256 + c as int);
    DivModUnique(y * 64 + z, 64, y, z);
    DivModUnique(y * 64 + z, 64, b % 16 * 4 + c / 64, c % 64);
  }

  /** Four characters are three bytes with the same number. */
  lemma UnblockIsNumber(t: seq<char>)
    requires |t| == 4
    ensures
      var (w, x, y, z) := (FromBase64(t[0]), FromBase64(t[1]), FromBase64(t[2]), FromBase64(t[3]));
      Joined(Unblock(t)) == ((w * 64 + x) * 64 + y) * 64 + z
  {
    hide FromBase64;
  }

  /** What stands for no digit counts as zero if it is the padding, and as 22 otherwise. */
  lemma NoDigit(c: char)
    requires forall i :: 0 <= i < 64 ==> Digit(i) != c
    ensures FromBase64(c) == if c == '=' then 0 else 22
  {
    hide Digit, FromBase64;
    var x := c as int;
    if 'A' as int <= x <= 'Z' as int {
      SameCharacter(c, x - 'A' as int);
    } else if 'a' as int <= x <= 'z' as int {
      SameCharacter(c, x - 'a' as int + 26);
    } else if '0' as int <= x <= '9' as int {
      SameCharacter(c, x - '0' as int + 52);
    }
    SameCharacter(c, 62);
    SameCharacter(c, 63);
    NotInAlphabet(c);
  }

  lemma SameCharacter(c: char, i: nat)
    requires i < 64 && Digit(i) != c
    ensures c as int !=
      if i < 26 then 'A' as int + i else if i < 52 then 'a' as int + i - 26
      else if i < 62 then '0' as int + i - 52 else if i == 62 then '+' as int else '/' as int
  {
    Alphabet(i);
    hide Digit;
  }

  lemma NotInAlphabet(c: char)
    requires !('A' as int <= c as int <= 'Z' as int) && !('a' as int <= c as int <= 'z' as int)
    requires !('0' as int <= c as int <= '9' as int) && c as int != '+' as int && c as int != '/' as int
    ensures FromBase64(c) == if c == '=' then 0 else 22
  {
  }
}
