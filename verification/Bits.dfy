/** Two's complement and shift arithmetic of C, stated over unbounded integers.
    A left shift by `n` is multiplication by `Pow2(n)`, an arithmetic right shift is division by it;
    the bitwise operators are defined bit by bit and characterised by the lemmas below. */
module Bits {

  const INT64_MAX: int := 0x7fff_ffff_ffff_ffff
  const INT64_MIN: int := -0x8000_0000_0000_0000
  const INT32_MIN: int := -0x8000_0000
  const TWO_32: int := 0x1_0000_0000
  const TWO_64: int := 0x1_0000_0000_0000_0000

  type byte = x: int | 0 <= x < 256

  function Pow2(n: nat): (p: nat)
    ensures p >= 1
  {
    if n == 0 then 1 else 2 * Pow2(n - 1)
  }

  /** Number of significant bits: `64 - __builtin_clzll(x)` for a positive 64-bit `x`. */
  function BitLength(x: nat): nat {
    if x == 0 then 0 else 1 + BitLength(x / 2)
  }

  function And(a: nat, b: nat): nat {
    if a == 0 || b == 0 then 0
    else (if a % 2 == 1 && b % 2 == 1 then 1 else 0) + 2 * And(a / 2, b / 2)
  }

  function Or(a: nat, b: nat): nat
    decreases a + b
  {
    if a == 0 && b == 0 then 0
    else (if a % 2 == 1 || b % 2 == 1 then 1 else 0) + 2 * Or(a / 2, b / 2)
  }

  function Xor(a: nat, b: nat): nat
    decreases a + b
  {
    if a == 0 && b == 0 then 0
    else (if a % 2 != b % 2 then 1 else 0) + 2 * Xor(a / 2, b / 2)
  }

  function Max(a: int, b: int): int {
    if a < b then b else a
  }

  function Min(a: int, b: int): int {
    if a < b then a else b
  }

  // ----- arithmetic

  lemma MulSign(e: int, d: int)
    requires d > 0
    ensures e > 0 ==> e * d >= d && e * d >= e
    ensures e < 0 ==> e * d <= -d
  {
    if e > 0 {
      assert (e - 1) * d >= 0 && e * (d - 1) >= 0;
    } else if e < 0 {
      assert (-e - 1) * d >= 0;
    }
  }

  lemma MulMono(a: int, b: int, p: nat)
    requires a <= b
    ensures a * p <= b * p
  {
  }

  lemma MulNext(a: int, p: int)
    ensures (a + 1) * p == a * p + p
  {
  }

  lemma MulNat(a: nat, b: nat)
    ensures a * b >= 0
  {
  }

  lemma DivModUnique(x: int, d: int, q: int, r: int)
    requires d > 0 && 0 <= r < d && x == q * d + r
    ensures x / d == q && x % d == r
  {
    var e := x / d - q;
    assert x == x / d * d + x % d;
    assert e * d == x / d * d - q * d;
    MulSign(e, d);
  }

  lemma {:induction false} Pow2Add(a: nat, b: nat)
    ensures Pow2(a + b) == Pow2(a) * Pow2(b)
  {
    if a > 0 {
      Pow2Add(a - 1, b);
      assert Pow2(a + b) == 2 * Pow2(a - 1 + b);
    }
  }

  lemma {:induction false} Pow2Mono(a: nat, b: nat)
    requires a <= b
    ensures Pow2(a) <= Pow2(b)
    decreases b - a
  {
    if a < b { Pow2Mono(a + 1, b); }
  }

  lemma MulSubstitute(y: int, z: int, s: int, p: int, q: int)
    requires y == z * q + s
    ensures y * p == z * (p * q) + s * p
  {
    assert y * p == (z * q) * p + s * p;
    assert (z * q) * p == z * (q * p);
  }

  lemma MulBelow(s: int, p: int, q: int)
    requires 0 <= s < q && p > 0
    ensures 0 <= s * p <= p * q - p
  {
    assert (q - 1 - s) * p >= 0;
    assert (q - 1 - s) * p == p * q - p - s * p;
  }

  lemma DivDiv(x: nat, p: int, q: int)
    requires p > 0 && q > 0
    ensures p * q > 0 && x / p / q == x / (p * q)
  {
    var y, r := x / p, x % p;
    var z, s := y / q, y % q;
    MulSubstitute(y, z, s, p, q);
    MulBelow(s, p, q);
    MulSign(p, q);
    var d, t := p * q, s * p + r;
    assert x == z * d + t;
    DivModUnique(x, d, z, t);
  }

  /** Dividing twice by powers of two is dividing once by their product. */
  lemma DivPow2Pow2(x: nat, a: nat, b: nat)
    ensures x / Pow2(a) / Pow2(b) == x / Pow2(a + b)
  {
    Pow2Add(a, b);
    DivDiv(x, Pow2(a), Pow2(b));
  }

  lemma DivMono(a: int, b: int, d: int)
    requires a <= b && d > 0
    ensures a / d <= b / d
  {
    var e := a / d - b / d;
    assert a == a / d * d + a % d && b == b / d * d + b % d;
    assert e * d == a / d * d - b / d * d;
    MulSign(e, d);
  }

  lemma DivBounds(x: nat, d: int)
    requires d > 0
    ensures x / d * d <= x < x / d * d + d
    ensures 0 <= x / d <= x
  {
    var q, r := x / d, x % d;
    assert x == q * d + r;
    MulSign(q, d);
  }

  // ----- bit length

  lemma {:induction false} BitLengthBounds(x: nat)
    requires x > 0
    ensures BitLength(x) >= 1
    ensures Pow2(BitLength(x) - 1) <= x < Pow2(BitLength(x))
  {
    if x > 1 { BitLengthBounds(x / 2); }
  }

  /** The bit length is determined by the two powers of two around the number. */
  lemma BitLengthUnique(x: nat, n: nat)
    requires Pow2(n) <= x < Pow2(n + 1)
    ensures BitLength(x) == n + 1
  {
    BitLengthBounds(x);
    var l := BitLength(x);
    if l < n + 1 { Pow2Mono(l, n); }
    if l > n + 1 { Pow2Mono(n + 1, l - 1); }
  }

  lemma {:induction false} BitLengthMono(x: nat, y: nat)
    requires x <= y
    ensures BitLength(x) <= BitLength(y)
  {
    if x > 0 { BitLengthMono(x / 2, y / 2); }
  }

  // ----- bitwise operators

  lemma {:induction false} OrBitLength(a: nat, b: nat)
    ensures BitLength(Or(a, b)) == Max(BitLength(a), BitLength(b))
    decreases a + b
  {
    if a != 0 || b != 0 {
      OrBitLength(a / 2, b / 2);
      var o := Or(a, b);
      assert o / 2 == Or(a / 2, b / 2);
      OrZero(a / 2, b / 2);
    }
  }

  lemma {:induction false} OrZero(a: nat, b: nat)
    ensures Or(a, b) == 0 <==> a == 0 && b == 0
    decreases a + b
  {
    if a != 0 || b != 0 { OrZero(a / 2, b / 2); }
  }

  /** Masking with `2^n - 1` keeps the remainder modulo `2^n`. */
  lemma {:induction false} AndMask(x: nat, n: nat)
    ensures And(x, Pow2(n) - 1) == x % Pow2(n)
  {
    if n == 0 {
    } else if x == 0 {
    } else {
      var p := Pow2(n - 1);
      AndMask(x / 2, n - 1);
      ModTwice(x, p);
      assert (2 * p - 1) / 2 == p - 1 && (2 * p - 1) % 2 == 1;
    }
  }

  lemma ModTwice(x: nat, p: nat)
    requires p > 0
    ensures x % (2 * p) == x % 2 + 2 * (x / 2 % p)
  {
    var y := x / 2;
    var r := x % 2 + 2 * (y % p);
    assert x == 2 * (y / p * p + y % p) + x % 2;
    assert 2 * (y / p * p) == y / p * (2 * p);
    DivModUnique(x, 2 * p, y / p, r);
  }

  /** Bits that do not overlap: `a | (b << n)` is a sum when `a` has at most `n` bits. */
  lemma {:induction false} OrDisjoint(a: nat, b: nat, n: nat)
    requires a < Pow2(n)
    ensures Or(a, b * Pow2(n)) == a + b * Pow2(n)
  {
    if n == 0 {
      OrZeroLeft(b);
    } else {
      var p := Pow2(n - 1);
      assert b * Pow2(n) == 2 * (b * p);
      OrDisjoint(a / 2, b, n - 1);
      var c := 2 * (b * p);
      assert c / 2 == b * p && c % 2 == 0;
    }
  }

  lemma {:induction false} OrZeroLeft(b: nat)
    ensures Or(0, b) == b
  {
    if b > 0 { OrZeroLeft(b / 2); }
  }

  lemma {:induction false} XorZero(a: nat)
    ensures Xor(a, 0) == a
  {
    if a > 0 { XorZero(a / 2); }
  }

  /** Exclusive or with all ones is the complement. */
  lemma {:induction false} XorOnes(a: nat, n: nat)
    requires a < Pow2(n)
    ensures Xor(a, Pow2(n) - 1) == Pow2(n) - 1 - a
  {
    if n > 0 {
      var p := Pow2(n - 1);
      XorOnes(a / 2, n - 1);
      assert (2 * p - 1) / 2 == p - 1 && (2 * p - 1) % 2 == 1;
    }
  }
}
