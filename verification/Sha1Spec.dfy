/** The Secure Hash Algorithm of FIPS 180-4, written down as the standard does. */
module Sha1Spec {
  import opened Bits

  type word = bv32

  /** The five words of a hash value, or the five working variables. */
  datatype Regs = Regs(a: word, b: word, c: word, d: word, e: word)

  /** The initial hash value, section 5.3.1. */
  const INITIAL := Regs(0x67452301, 0xEFCDAB89, 0x98BADCFE, 0x10325476, 0xC3D2E1F0)

  /** ROTL of section 3.2 */
  function Rotl(x: word, n: bv6): word
    requires 0 < n < 32
  {
    (x << n) | (x >> (32 - n))
  }

  /** Section 4.1.1 */
  function F(t: nat, x: word, y: word, z: word): word {
    if t < 20 then (x & y) ^ (!x & z)
    else if t < 40 then x ^ y ^ z
    else if t < 60 then (x & y) ^ (x & z) ^ (y & z)
    else x ^ y ^ z
  }

  /** Section 4.2.1 */
  function K(t: nat): word {
    if t < 20 then 0x5A827999 else if t < 40 then 0x6ED9EBA1 else if t < 60 then 0x8F1BBCDC else 0xCA62C1D6
  }

  /** Four bytes as a word, the most significant first. */
  function BigEndian(p: bv8, q: bv8, r: bv8, s: bv8): word {
    ((p as word) << 24) | ((q as word) << 16) | ((r as word) << 8) | (s as word)
  }

  /** Word `t` of the message schedule, section 6.1.2 step 1. */
  function W(m: seq<bv8>, t: nat): word
    requires |m| == 64
  {
    if t < 16 then BigEndian(m[4 * t], m[4 * t + 1], m[4 * t + 2], m[4 * t + 3])
    else Rotl(W(m, t - 3) ^ W(m, t - 8) ^ W(m, t - 14) ^ W(m, t - 16), 1)
  }

  /** The sum `T` of section 6.1.2 step 3. */
  function T(rotated: word, f: word, e: word, k: word, w: word): word {
    rotated + f + e + k + w
  }

  /** Section 6.1.2 step 3, for one `t` */
  function Round(r: Regs, t: nat, w: word): Regs {
    Regs(T(Rotl(r.a, 5), F(t, r.b, r.c, r.d), r.e, K(t), w), r.a, Rotl(r.b, 30), r.c, r.d)
  }

  function Rounds(h: Regs, m: seq<bv8>, t: nat): Regs
    requires |m| == 64
  {
    if t == 0 then h else Round(Rounds(h, m, t - 1), t - 1, W(m, t - 1))
  }

  /** The hash value after a block, section 6.1.2 step 4. */
  function Compress(h: Regs, m: seq<bv8>): Regs
    requires |m| == 64
  {
    Added(h, Rounds(h, m, 80))
  }

  function Added(h: Regs, r: Regs): Regs {
    Regs(Plus(h.a, r.a), Plus(h.b, r.b), Plus(h.c, r.c), Plus(h.d, r.d), Plus(h.e, r.e))
  }

  /** Addition modulo 2^32 */
  function Plus(x: word, y: word): word {
    x + y
  }

  /** The hash value after the complete blocks of a message. */
  function Absorb(h: Regs, msg: seq<bv8>): Regs
    decreases |msg|
  {
    if |msg| < 64 then h else Absorb(Compress(h, msg[..64]), msg[64..])
  }

  /** The bytes of a number, the most significant first. */
  function Bytes(x: nat, n: nat): (b: seq<bv8>)
    ensures |b| == n
  {
    if n == 0 then [] else Bytes(x / 256, n - 1) + [Octet(x % 256)]
  }

  function Octet(x: nat): bv8
    requires x < 256
  {
    x as bv8
  }

  function Zeros(n: nat): (z: seq<bv8>)
    ensures |z| == n
  {
    seq(n, _ => 0 as bv8)
  }

  /** Number of zero bytes between the bit `1` and the length, for a message of `n` bytes. */
  function ZeroCount(n: nat): (k: nat)
    ensures (n + 1 + k) % 64 == 56 && k < 64
  {
    (119 - n % 64) % 64
  }

  /** Padding of section 5.1.1, of a whole number of bytes, with the length written as `bits`. */
  function Padded(msg: seq<bv8>, bits: nat): (p: seq<bv8>)
    ensures |p| % 64 == 0
  {
    msg + [0x80] + Zeros(ZeroCount(|msg|)) + Bytes(bits, 8)
  }

  /** The four bytes of a word, the most significant first. */
  function WordBytes(w: word): (b: seq<bv8>)
    ensures |b| == 4
  {
    [(w >> 24) as bv8, ((w >> 16) & 0xFF) as bv8, ((w >> 8) & 0xFF) as bv8, (w & 0xFF) as bv8]
  }

  function Digest(h: Regs): (b: seq<bv8>)
    ensures |b| == 20
  {
    WordBytes(h.a) + WordBytes(h.b) + WordBytes(h.c) + WordBytes(h.d) + WordBytes(h.e)
  }

  /** The message digest. The standard defines it for messages of less than 2^64 bits. */
  function Hash(msg: seq<bv8>): (b: seq<bv8>)
    ensures |b| == 20
  {
    Digest(Absorb(INITIAL, Padded(msg, 8 * |msg|)))
  }

  /** Complete blocks may be absorbed one part of a message after the other. */
  lemma {:induction false} AbsorbConcat(h: Regs, s: seq<bv8>, t: seq<bv8>)
    requires |s| % 64 == 0
    ensures Absorb(h, s + t) == Absorb(Absorb(h, s), t)
    decreases |s|
  {
    hide Compress;
    if |s| >= 64 {
      assert (s + t)[..64] == s[..64] && (s + t)[64..] == s[64..] + t;
      AbsorbConcat(Compress(h, s[..64]), s[64..], t);
    } else {
      assert s + t == t;
    }
  }
}
