/** `SHA1_Init`, `SHA1_Update` and `SHA1_Final`: the hash of a message that arrives in pieces. */
module Sha1 {
  import opened Bits
  import opened Sha1Spec
  import opened Sha1Transform

  type uint32 = x: int | 0 <= x < 0x1_0000_0000

  // ----- messages in pieces

  /** What follows the last complete block. */
  function Tail(msg: seq<bv8>): (t: seq<bv8>)
    ensures |t| == |msg| % 64
  {
    msg[|msg| / 64 * 64..]
  }

  lemma AbsorbBlock(h: Regs, s: seq<bv8>, b: seq<bv8>)
    requires |s| % 64 == 0 && |b| == 64
    ensures Absorb(h, s + b) == Compress(Absorb(h, s), b)
  {
    hide Compress;
    AbsorbConcat(h, s, b);
    assert b[..64] == b;
  }

  lemma AbsorbTail(h: Regs, s: seq<bv8>, t: seq<bv8>)
    requires |s| % 64 == 0 && |t| < 64
    ensures Absorb(h, s + t) == Absorb(h, s) && Tail(s + t) == t
  {
    hide Compress;
    AbsorbConcat(h, s, t);
  }

  lemma MessageSplit(msg: seq<bv8>) returns (s: seq<bv8>, t: seq<bv8>)
    ensures |s| % 64 == 0 && msg == s + t && t == Tail(msg)
  {
    s, t := msg[..|msg| / 64 * 64], Tail(msg);
  }

  lemma TailEmpty(msg: seq<bv8>)
    requires |msg| % 64 == 0
    ensures Tail(msg) == []
  {
  }

  /** Bytes that complete the block at the end of a message. */
  lemma AppendFill(h: Regs, msg: seq<bv8>, d: seq<bv8>)
    requires |msg| % 64 + |d| == 64
    ensures Absorb(h, msg + d) == Compress(Absorb(h, msg), Tail(msg) + d)
    ensures |msg + d| % 64 == 0
  {
    hide Compress, Absorb, Tail;
    var s, t := MessageSplit(msg);
    AbsorbTail(h, s, t);
    AbsorbBlock(h, s, t + d);
    assert msg + d == s + (t + d);
  }

  /** Bytes that leave it incomplete. */
  lemma AppendShort(h: Regs, msg: seq<bv8>, d: seq<bv8>)
    requires |msg| % 64 + |d| < 64
    ensures Absorb(h, msg + d) == Absorb(h, msg)
    ensures Tail(msg + d) == Tail(msg) + d
  {
    hide Absorb, Tail;
    var s, t := MessageSplit(msg);
    AbsorbTail(h, s, t);
    AbsorbTail(h, s, t + d);
    assert msg + d == s + (t + d);
  }

  lemma NothingYet(h: Regs)
    ensures Absorb(h, []) == h && Tail([]) == []
  {
  }

  /** The low half of the bit count tells where the buffer is filled up to. */
  lemma FillOf(n: nat)
    ensures 8 * n % TWO_32 / 8 % 64 == n % 64
  {
    var q, r := n / 0x2000_0000, n % 0x2000_0000;
    DivModUnique(8 * n, TWO_32, q, 8 * r);
    DivModUnique(n, 64, q * 0x80_0000 + r / 64, r % 64);
  }

  // ----- the bit count, as a pair of 32-bit numbers

  datatype Count = Count(lo: uint32, hi: uint32)

  function Value(c: Count): nat {
    c.hi as int * TWO_32 + c.lo as int
  }

  /** The test after which `SHA1_Update` increments the high half. */
  predicate Carries(lo: uint32, len: nat) {
    (lo as int + 8 * len) % TWO_32 < 8 * len
  }

  /** What `SHA1_Update` makes of the count. */
  function Counted(c: Count, len: nat): Count {
    var hi := if Carries(c.lo, len) then (c.hi + 1) % TWO_32 else c.hi;
    Count((c.lo as int + 8 * len) % TWO_32, (hi + len / 0x2000_0000) % TWO_32)
  }

  /** The length of the piece does not overflow the low half, or the low half carries all the same. */
  predicate CarryIsDue(lo: uint32, len: nat) {
    len < 0x2000_0000 || lo as int + 8 * (len % 0x2000_0000) >= TWO_32
  }

  lemma LowHalf(c: Count, n: nat, len: nat)
    requires c.lo as int == 8 * n % TWO_32
    ensures Counted(c, len).lo as int == 8 * (n + len) % TWO_32
  {
    ModShift(8 * n, 8 * len, TWO_32);
  }

  lemma CarryIs(lo: uint32, len: nat)
    ensures Carries(lo, len) <==> len >= 0x2000_0000 || lo as int + 8 * (len % 0x2000_0000) >= TWO_32
    ensures (lo as int + 8 * len) / TWO_32
      == len / 0x2000_0000 + if lo as int + 8 * (len % 0x2000_0000) >= TWO_32 then 1 else 0
  {
    var q, r := len / 0x2000_0000, len % 0x2000_0000;
    var x := lo as int + 8 * r;
    if x >= TWO_32 {
      DivModUnique(lo as int + 8 * len, TWO_32, q + 1, x - TWO_32);
    } else {
      DivModUnique(lo as int + 8 * len, TWO_32, q, x);
    }
  }

  /** The pair counts too much by 2^32 exactly when a piece of 2^29 bytes or more does not carry by itself. */
  lemma CountIs(c: Count, len: nat)
    ensures Value(Counted(c, len))
      == (Value(c) + 8 * len + if CarryIsDue(c.lo, len) then 0 else TWO_32) % TWO_64
  {
    CarryIs(c.lo, len);
    var s := c.lo as int + 8 * len;
    var d := if CarryIsDue(c.lo, len) then 0 else 1;
    var carry := if Carries(c.lo, len) then 1 else 0;
    assert s / TWO_32 + d == len / 0x2000_0000 + carry;
    var high := c.hi as int + s / TWO_32 + d;
    assert Counted(c, len).hi == high % TWO_32;
    DivModUnique(Value(c) + 8 * len + d * TWO_32, TWO_64, high / TWO_32, high % TWO_32 * TWO_32 + s % TWO_32);
  }

  /** The pair is the number of bits, modulo 2^64, exactly when the condition holds. */
  lemma CountExact(c: Count, len: nat)
    ensures Value(Counted(c, len)) == (Value(c) + 8 * len) % TWO_64 <==> CarryIsDue(c.lo, len)
  {
    CountIs(c, len);
    var v := Value(c) + 8 * len;
    if !CarryIsDue(c.lo, len) {
      var q, r := v / TWO_64, v % TWO_64;
      if r + TWO_32 < TWO_64 {
        DivModUnique(v + TWO_32, TWO_64, q, r + TWO_32);
      } else {
        DivModUnique(v + TWO_32, TWO_64, q + 1, r + TWO_32 - TWO_64);
      }
    }
  }

  /** A concrete failure: 2^29 bytes are 2^32 bits, and are counted as twice as many. */
  lemma LongPieceMiscounted()
    ensures Value(Counted(Count(0, 0), 0x2000_0000)) == 2 * TWO_32 != 8 * 0x2000_0000
  {
    CountIs(Count(0, 0), 0x2000_0000);
  }

  function CountedAll(lens: seq<nat>): Count {
    if |lens| == 0 then Count(0, 0) else Counted(CountedAll(lens[..|lens| - 1]), lens[|lens| - 1])
  }

  function TotalLength(lens: seq<nat>): nat {
    if |lens| == 0 then 0 else TotalLength(lens[..|lens| - 1]) + lens[|lens| - 1]
  }

  /** Number of carries that are not due. */
  function Undue(lens: seq<nat>): nat {
    if |lens| == 0 then 0
    else
      var c := CountedAll(lens[..|lens| - 1]);
      Undue(lens[..|lens| - 1]) + if CarryIsDue(c.lo, lens[|lens| - 1]) then 0 else 1
  }

  lemma OneMorePiece(lens: seq<nat>, len: nat)
    ensures CountedAll(lens + [len]) == Counted(CountedAll(lens), len)
    ensures TotalLength(lens + [len]) == TotalLength(lens) + len
    ensures Undue(lens + [len]) == Undue(lens) + if CarryIsDue(CountedAll(lens).lo, len) then 0 else 1
  {
    hide Counted, CarryIsDue;
    assert (lens + [len])[..|lens|] == lens;
  }

  lemma ModShift(x: nat, y: nat, m: nat)
    requires m > 0
    ensures (x % m + y) % m == (x + y) % m
  {
    var q, r := (x % m + y) / m, (x % m + y) % m;
    assert x + y == x / m * m + q * m + r;
    assert (x / m + q) * m == x / m * m + q * m;
    DivModUnique(x + y, m, x / m + q, r);
  }

  /** The count after any run of updates. */
  lemma {:induction false} CountOfRun(lens: seq<nat>)
    ensures Value(CountedAll(lens)) == (8 * TotalLength(lens) + TWO_32 * Undue(lens)) % TWO_64
  {
    if |lens| > 0 {
      var front, len := lens[..|lens| - 1], lens[|lens| - 1];
      CountOfRun(front);
      hide Counted, CarryIsDue, Value;
      CountIs(CountedAll(front), len);
      var d := if CarryIsDue(CountedAll(front).lo, len) then 0 else TWO_32;
      ModShift(8 * TotalLength(front) + TWO_32 * Undue(front), 8 * len + d, TWO_64);
    }
  }

  /** Pieces of less than 2^29 bytes are counted right, whatever their number. */
  lemma {:induction false} ShortPieces(lens: seq<nat>)
    requires forall p :: 0 <= p < |lens| ==> lens[p] < 0x2000_0000
    ensures Undue(lens) == 0 && Value(CountedAll(lens)) == 8 * TotalLength(lens) % TWO_64
  {
    if |lens| > 0 { ShortPieces(lens[..|lens| - 1]); }
    CountOfRun(lens);
  }

  // ----- what SHA1_Final writes

  /** `(count >> shift) & 255` */
  function CountByte(c: uint32, shift: nat): bv8 {
    hide Octet, And, Pow2;
    CountByteFits(c as int / Pow2(shift));
    Octet(And(c as int / Pow2(shift), 255))
  }

  lemma CountByteFits(x: nat)
    ensures And(x, 255) == x % 256
  {
    assert Pow2(8) == 256;
    AndMask(x, 8);
  }

  lemma BytePowers()
    ensures Pow2(0) == 1 && Pow2(8) == 256 && Pow2(16) == 65536 && Pow2(24) == 0x1000000
  {
    assert Pow2(8) == 256;
    hide Pow2;
    Pow2Add(8, 8);
    Pow2Add(8, 16);
  }

  lemma CountByteIs(c: uint32, i: nat)
    requires i < 4
    ensures Bytes(c as int, 4)[i] == CountByte(c, (3 - i) * 8)
  {
    hide And, Pow2, Bytes, Octet;
    BytePowers();
    CountByteFits(c as int / Pow2((3 - i) * 8));
    BytesOfWord(c as int);
  }

  lemma BytesUnfold(x: nat, n: nat)
    requires n > 0
    ensures Bytes(x, n) == Bytes(x / 256, n - 1) + [Octet(x % 256)]
    ensures Bytes(x, 0) == []
  {
    hide Octet;
  }

  lemma BytesOfWord(x: nat)
    ensures Bytes(x, 4) ==
      [Octet(x / 0x1000000 % 256), Octet(x / 65536 % 256), Octet(x / 256 % 256), Octet(x % 256)]
  {
    hide Bytes, Octet;
    BytesUnfold(x, 4);
    BytesUnfold(x / 256, 3);
    BytesUnfold(x / 65536, 2);
    BytesUnfold(x / 0x1000000, 1);
    DivDiv(x, 256, 256);
    DivDiv(x, 65536, 256);
  }

  /** The bytes of a pair of halves. */
  lemma BytesOfPair(hi: nat, lo: uint32)
    ensures Bytes(hi * TWO_32 + lo as int, 8) == Bytes(hi, 4) + Bytes(lo as int, 4)
  {
    hide Bytes, Octet;
    var x := hi * TWO_32 + lo as int;
    var l1, l2, l3 := lo as int / 256, lo as int / 65536, lo as int / 0x1000000;
    DivModUnique(x, 256, hi * 0x1000000 + l1, lo as int % 256);
    DivModUnique(hi * 0x1000000 + l1, 256, hi * 65536 + l2, l1 % 256);
    DivModUnique(hi * 65536 + l2, 256, hi * 256 + l3, l2 % 256);
    DivModUnique(hi * 256 + l3, 256, hi, l3);
    BytesUnfold(x, 8);
    BytesUnfold(hi * 0x1000000 + l1, 7);
    BytesUnfold(hi * 65536 + l2, 6);
    BytesUnfold(hi * 256 + l3, 5);
    BytesOfWord(lo as int);
  }

  lemma CountBytes(c: Count, b: seq<bv8>)
    requires |b| == 8
    requires forall i :: 0 <= i < 8 ==> b[i] == CountByte(if i >= 4 then c.lo else c.hi, (3 - i % 4) * 8)
    ensures b == Bytes(Value(c), 8)
  {
    hide Bytes, CountByte;
    BytesOfPair(c.hi as int, c.lo);
    var r := Bytes(c.hi as int, 4) + Bytes(c.lo as int, 4);
    forall i | 0 <= i < 8
      ensures b[i] == r[i]
    {
      CountByteIs(if i >= 4 then c.lo else c.hi, i % 4);
    }
  }

  lemma {:induction false} AndDouble(x: nat, y: nat)
    ensures And(x, 2 * y) == 2 * And(x / 2, y)
  {
  }

  /** The mask 504 takes out the number of bytes in the buffer. */
  lemma Mask504(c: nat)
    ensures And(c, 504) == 8 * (c / 8 % 64)
  {
    hide And;
    AndDouble(c, 252);
    AndDouble(c / 2, 126);
    AndDouble(c / 4, 63);
    assert Pow2(6) == 64;
    AndMask(c / 8, 6);
  }

  /** Where the zeros of the padding stop. */
  lemma ZeroStop(n: nat, k: nat, c: nat)
    requires k <= ZeroCount(n) && c == 8 * (n + 1 + k) % TWO_32
    ensures And(c, 504) == 448 <==> k == ZeroCount(n)
  {
    hide And;
    Mask504(c);
    FillOf(n + 1 + k);
    ZeroCountLeast(n, k);
    hide ZeroCount;
  }

  lemma ZeroCountLeast(n: nat, k: nat)
    requires k <= ZeroCount(n)
    ensures (n + 1 + k) % 64 == 56 <==> k == ZeroCount(n)
  {
  }

  lemma OneMoreZero(k: nat)
    ensures Zeros(k + 1) == Zeros(k) + [0] && Zeros(0) == []
  {
  }

  /** A short piece that does not reach a second block is not written to. */
  lemma NothingOverwritten(n: nat, len: nat)
    requires n % 64 + len < 128
    ensures forall p :: !Overwritten(n, len, p)
  {
  }

  /** `(w >> shift) & 255` */
  function ByteOf(w: word, shift: nat): bv8
    requires shift < 32
  {
    ((w >> shift) & 0xFF) as bv8
  }

  function Register(h: Regs, i: nat): word
    requires i < 5
  {
    match i
    case 0 => h.a
    case 1 => h.b
    case 2 => h.c
    case 3 => h.d
    case 4 => h.e
  }

  lemma WordBytesAre(w: word)
    ensures WordBytes(w) == [ByteOf(w, 24), ByteOf(w, 16), ByteOf(w, 8), ByteOf(w, 0)]
  {
    TopByte(w);
    MiddleBytes(w);
    LowByte(w);
    hide ByteOf;
  }

  lemma TopByte(w: word)
    ensures (w >> 24) as bv8 == ByteOf(w, 24)
  {
  }

  lemma MiddleBytes(w: word)
    ensures ((w >> 16) & 0xFF) as bv8 == ByteOf(w, 16)
    ensures ((w >> 8) & 0xFF) as bv8 == ByteOf(w, 8)
  {
  }

  lemma LowByte(w: word)
    ensures (w & 0xFF) as bv8 == ByteOf(w, 0)
  {
  }

  lemma DigestByteIs(h: Regs, i: nat)
    requires i < 20
    ensures Digest(h)[i] == ByteOf(Register(h, i / 4), (3 - i % 4) * 8)
  {
    hide ByteOf, WordBytes;
    var w := Register(h, i / 4);
    WordBytesAre(w);
    DigestIs(h, i);
  }

  lemma DigestIs(h: Regs, i: nat)
    requires i < 20
    ensures Digest(h)[i] == WordBytes(Register(h, i / 4))[i % 4]
  {
    hide WordBytes;
  }

  // ----- the context

  /** `memcpy` */
  method Copy(dst: array<bv8>, to: nat, src: array<bv8>, from: nat, n: nat)
    requires dst != src && to + n <= dst.Length && from + n <= src.Length
    modifies dst
    ensures dst[..] == old(dst[..to]) + src[from..from + n] + old(dst[to + n..])
  {
    forall p | 0 <= p < n {
      dst[to + p] := src[from + p];
    }
  }

  /** The loop of `SHA1_Update`: complete blocks, hashed where they are. */
  method HashBlocks(state: array<word>, data: array<bv8>, from: nat, len: nat, ghost h: Regs,
                    ghost s: seq<bv8>) returns (i: nat)
    requires state.Length == 5 && from <= len <= data.Length
    requires |s| % 64 == 0 && StateOf(state) == Absorb(h, s)
    modifies state, data
    ensures i == from + (len - from) / 64 * 64
    ensures StateOf(state) == Absorb(h, s + old(data[from..i]))
    ensures data[..from] == old(data[..from]) && data[i..] == old(data[i..])
  {
    hide Absorb, Compress, Window;
    ghost var d := data[..];
    i := from;
    ghost var k := 0;
    assert s + d[from..from] == s;
    while i + 63 < len
      invariant i == from + 64 * k <= len
      invariant StateOf(state) == Absorb(h, s + d[from..i])
      invariant data[..from] == d[..from] && data[i..] == d[i..]
      decreases len - i
    {
      assert data[i..i + 64] == d[i..i + 64];
      AbsorbBlock(h, s + d[from..i], d[i..i + 64]);
      assert s + d[from..i + 64] == s + d[from..i] + d[i..i + 64];
      Transform(state, data, i);
      i, k := i + 64, k + 1;
    }
  }

  /** Bytes of a piece that are part of a complete block, after a message of `n` bytes. */
  function Consumed(n: nat, len: nat): (i: nat)
    ensures i <= len
  {
    if n % 64 + len > 63 then 64 - n % 64 + (n % 64 + len - 64) / 64 * 64 else 0
  }

  /** The bytes of a piece that end up inside a block that is hashed in place, and are overwritten there. */
  predicate Overwritten(n: nat, len: nat, p: int) {
    64 - n % 64 <= p < Consumed(n, len)
  }

  lemma BlocksOnly(n: nat, len: nat, first: nat)
    requires first == 64 - n % 64 <= len
    ensures (n + first) % 64 == 0 && (n + first + (len - first) / 64 * 64) % 64 == 0
    ensures (len - first) / 64 * 64 <= len - first < (len - first) / 64 * 64 + 64
    ensures first + (len - first) / 64 * 64 == 64 - n % 64 + (n % 64 + len - 64) / 64 * 64
    ensures (n + len) % 64 == (len - first) % 64
  {
  }

  /** `SHA1_Update` when the piece completes a block: that block, then the complete blocks of the piece. */
  method HashComplete(state: array<word>, buffer: array<bv8>, data: array<bv8>, len: nat, j: nat,
                      ghost h: Regs,
                      ghost msg: seq<bv8>) returns (i: nat)
    requires state.Length == 5 && buffer.Length == 64 && data != buffer && len <= data.Length
    requires j == |msg| % 64 && j + len > 63
    requires StateOf(state) == Absorb(h, msg) && buffer[..j] == Tail(msg)
    modifies state, buffer, data
    ensures i == 64 - j + (j + len - 64) / 64 * 64 <= len < i + 64
    ensures StateOf(state) == Absorb(h, msg + old(data[..i])) && (|msg| + i) % 64 == 0
    ensures data[..64 - j] == old(data[..64 - j]) && data[i..] == old(data[i..])
  {
    hide Absorb, Compress, Tail, Window;
    ghost var d := data[..];
    var first := 64 - j;
    Copy(buffer, j, data, 0, first);
    ghost var s := msg + d[..first];
    AppendFill(h, msg, d[..first]);
    assert buffer[0..64] == Tail(msg) + d[..first];
    Transform(state, buffer, 0);
    assert StateOf(state) == Absorb(h, s) && data[..] == d;
    i := HashBlocks(state, data, first, len, h, s);
    BlocksOnly(|msg|, len, first);
    assert msg + d[..i] == s + d[first..i];
  }

  /** The end of `SHA1_Update`: bytes that do not complete a block. */
  method KeepTail(state: array<word>, buffer: array<bv8>, data: array<bv8>, j: nat, from: nat, len: nat,
                  ghost h: Regs, ghost s: seq<bv8>)
    requires state.Length == 5 && buffer.Length == 64 && data != buffer && from <= len <= data.Length
    requires j == |s| % 64 && j + (len - from) < 64
    requires StateOf(state) == Absorb(h, s) && buffer[..j] == Tail(s)
    modifies buffer
    ensures StateOf(state) == Absorb(h, s + data[from..len])
    ensures buffer[..(|s| + (len - from)) % 64] == Tail(s + data[from..len])
  {
    hide Absorb, Tail;
    AppendShort(h, s, data[from..len]);
    Copy(buffer, j, data, from, len - from);
    ShortEnd(|s|, len - from);
    assert buffer[..j + (len - from)] == Tail(s) + data[from..len];
  }

  lemma ShortEnd(n: nat, len: nat)
    requires n % 64 + len < 64
    ensures (n + len) % 64 == n % 64 + len
  {
  }

  /** `SHA1_Update` without the count; `j` is where the buffer is filled up to. */
  method Append(state: array<word>, buffer: array<bv8>, data: array<bv8>, len: nat, j: nat,
                ghost h: Regs, ghost msg: seq<bv8>) returns (i: nat)
    requires state.Length == 5 && buffer.Length == 64 && data != buffer && len <= data.Length
    requires j == |msg| % 64
    requires StateOf(state) == Absorb(h, msg) && buffer[..j] == Tail(msg)
    modifies state, buffer, data
    ensures i == Consumed(|msg|, len)
    ensures StateOf(state) == Absorb(h, msg + old(data[..len]))
    ensures buffer[..(|msg| + len) % 64] == Tail(msg + old(data[..len]))
    ensures i > 0 ==> data[..64 - j] == old(data[..64 - j])
    ensures data[i..] == old(data[i..])
  {
    hide Absorb, Tail;
    ghost var whole := data[..];
    i := 0;
    if j + len > 63 {
      i := HashComplete(state, buffer, data, len, j, h, msg);
      ghost var s := msg + whole[..i];
      TailEmpty(s);
      Regrouped(msg, whole, data[..], i, len);
      KeepTail(state, buffer, data, 0, i, len, h, s);
    } else {
      KeepTail(state, buffer, data, j, 0, len, h, msg);
    }
  }

  lemma Regrouped(msg: seq<bv8>, before: seq<bv8>, after: seq<bv8>, i: nat, len: nat)
    requires i <= len <= |before| == |after| && before[i..] == after[i..]
    ensures msg + before[..len] == msg + before[..i] + after[i..len]
  {
    assert after[i..len] == after[i..][..len - i] == before[i..len];
  }

  /** What `Append` leaves alone, byte by byte. */
  lemma KeptBytes(before: seq<bv8>, after: seq<bv8>, n: nat, len: nat, j: nat)
    requires |before| == |after| && len <= |before| && j == n % 64
    requires after[Consumed(n, len)..] == before[Consumed(n, len)..]
    requires Consumed(n, len) > 0 ==> 64 - j <= len && after[..64 - j] == before[..64 - j]
    ensures forall p :: 0 <= p < |after| && !Overwritten(n, len, p) ==> after[p] == before[p]
  {
    hide Consumed;
    forall p | 0 <= p < |after| && !Overwritten(n, len, p)
      ensures after[p] == before[p]
    {
      var i := Consumed(n, len);
      if p >= i {
        assert after[i..][p - i] == before[i..][p - i];
      } else {
        assert after[..64 - j][p] == before[..64 - j][p];
      }
    }
  }

  class Context {
    const state: array<word>
    const buffer: array<bv8>
    var count0: uint32
    var count1: uint32
    /** All the bytes given to `Update` so far. */
    ghost var message: seq<bv8>
    /** The lengths of the pieces they came in. */
    ghost var pieces: seq<nat>

    ghost predicate Valid()
      reads this, state, buffer
    {
      && state.Length == 5 && buffer.Length == 64
      && StateOf(state) == Absorb(INITIAL, message)
      && buffer[..|message| % 64] == Tail(message)
      && count0 as int == 8 * |message| % TWO_32
      && CountPair() == CountedAll(pieces) && |message| == TotalLength(pieces)
    }

    function CountPair(): Count
      reads this
    {
      Count(count0, count1)
    }

    /** `SHA1_Init` */
    constructor ()
      ensures Valid() && message == [] && pieces == []
      ensures fresh(state) && fresh(buffer)
    {
      hide Absorb, Tail, Compress;
      state := new word[] [0x67452301, 0xEFCDAB89, 0x98BADCFE, 0x10325476, 0xC3D2E1F0];
      buffer := new bv8[64];
      count0, count1 := 0, 0;
      message, pieces := [], [];
      NothingYet(INITIAL);
    }

    /** The count at the head of `SHA1_Update`. */
    method AddToCount(len: nat)
      requires 8 * len < TWO_64
      modifies this`count0, this`count1
      ensures CountPair() == Counted(old(CountPair()), len)
    {
      count0 := (count0 + 8 * len) % TWO_32;
      if count0 < 8 * len {
        count1 := (count1 + 1) % TWO_32;
      }
      count1 := (count1 + len / 0x2000_0000) % TWO_32;
    }

    /** `SHA1_Update` */
    method Update(data: array<bv8>, len: nat)
      requires Valid() && len <= data.Length && 8 * len < TWO_64 && data != buffer
      modifies this, state, buffer, data
      ensures Valid() && message == old(message) + old(data[..len])
      ensures pieces == old(pieces) + [len] && CountPair() == Counted(old(CountPair()), len)
      ensures forall p :: 0 <= p < data.Length && !Overwritten(old(|message|), len, p) ==> data[p] == old(data[p])
    {
      hide Absorb, Compress, Tail, Counted, CountedAll, TotalLength, Overwritten;
      var j := count0 / 8 % 64;
      FillOf(|message|);
      LowHalf(CountPair(), |message|, len);
      AddToCount(len);
      ghost var d, before := data[..len], data[..];
      var i := Append(state, buffer, data, len, j, INITIAL, message);
      KeptBytes(before, data[..], |message|, len, j);
      OneMorePiece(pieces, len);
      message, pieces := message + d, pieces + [len];
    }

    /** The first loop of `SHA1_Final`. */
    method CountOctets() returns (finalcount: array<bv8>)
      ensures fresh(finalcount) && finalcount[..] == Bytes(Value(CountPair()), 8)
    {
      hide Bytes, CountByte;
      finalcount := new bv8[8];
      for i := 0 to 8
        invariant forall p :: 0 <= p < i ==>
          finalcount[p] == CountByte(if p >= 4 then count0 else count1, (3 - p % 4) * 8)
      {
        finalcount[i] := CountByte(if i >= 4 then count0 else count1, (3 - i % 4) * 8);
      }
      CountBytes(CountPair(), finalcount[..]);
    }

    /** `SHA1_Update` with a literal of one byte, which is left as it is. */
    method UpdateByte(b: bv8)
      requires Valid()
      modifies this, state, buffer
      ensures Valid() && message == old(message) + [b]
    {
      hide Absorb, Tail, Counted, Overwritten, Valid;
      var literal := new bv8[] [b];
      assert literal[..1] == [b];
      NothingOverwritten(|message|, 1);
      Update(literal, 1);
      assert literal[0] == b;
    }

    lemma BufferFill(n: nat, k: nat)
      requires Valid() && |message| == n + 1 + k && k <= ZeroCount(n)
      ensures And(count0, 504) == 448 <==> k == ZeroCount(n)
    {
      hide Absorb, Tail, And, CountedAll, TotalLength;
      ZeroStop(n, k, count0);
    }

    /** The padding of `SHA1_Final`: a bit, zeros until eight bytes are missing from a block, and the count. */
    method Pad()
      requires Valid()
      modifies this, state, buffer
      ensures Valid() && message == Padded(old(message), Value(old(CountPair())))
    {
      hide Absorb, Tail, Bytes, Zeros, Counted, Value, And, Overwritten, ZeroCount, Valid;
      ghost var msg, bits := message, Value(CountPair());
      var finalcount := CountOctets();
      UpdateByte(0x80);
      ghost var k := 0;
      OneMoreZero(0);
      assert msg + [0x80] == msg + [0x80] + Zeros(0);
      BufferFill(|msg|, 0);
      while And(count0, 504) != 448
        invariant Valid() && k <= ZeroCount(|msg|) && message == msg + [0x80] + Zeros(k)
        invariant And(count0, 504) == 448 <==> k == ZeroCount(|msg|)
        invariant finalcount[..] == Bytes(bits, 8)
        decreases ZeroCount(|msg|) - k
      {
        OneMoreZero(k);
        UpdateByte(0);
        assert msg + [0x80] + Zeros(k) + [0] == msg + [0x80] + Zeros(k + 1);
        k := k + 1;
        BufferFill(|msg|, k);
      }
      assert finalcount[..8] == finalcount[..];
      Update(finalcount, 8);
    }

    /** `SHA1_Final`: the digest of the message padded with the count as it stands, and a wiped context. */
    method Final(digest: array<bv8>)
      requires Valid() && digest.Length == 20 && digest != buffer
      modifies this, state, buffer, digest
      ensures digest[..] == Digest(Absorb(INITIAL, Padded(old(message), Value(old(CountPair())))))
      ensures Undue(old(pieces)) == 0 && 8 * |old(message)| < TWO_64 ==> digest[..] == Hash(old(message))
      ensures Forall(state[..], 0) && Forall(buffer[..], 0) && CountPair() == Count(0, 0)
    {
      hide Absorb, Tail, Padded, Value, Undue, Digest, ByteOf;
      CountRight(pieces);
      Pad();
      ghost var h := StateOf(state);
      AbsorbedAll();
      for i := 0 to 20
        invariant StateOf(state) == h
        invariant forall p :: 0 <= p < i ==> digest[p] == Digest(h)[p]
      {
        DigestByteIs(h, i);
        digest[i] := ByteOf(state[i / 4], (3 - i % 4) * 8);
      }
      assert digest[..] == Digest(h);
      Wipe();
    }

    lemma AbsorbedAll()
      requires Valid()
      ensures StateOf(state) == Absorb(INITIAL, message)
    {
    }

    /** The end of `SHA1_Final`. */
    method Wipe()
      requires state.Length == 5 && buffer.Length == 64
      modifies this, state, buffer
      ensures Forall(state[..], 0) && Forall(buffer[..], 0) && CountPair() == Count(0, 0)
    {
      forall p | 0 <= p < 64 { buffer[p] := 0; }
      forall p | 0 <= p < 5 { state[p] := 0; }
      count0, count1 := 0, 0;
    }
  }

  predicate Forall<X(==)>(s: seq<X>, x: X) {
    forall p :: 0 <= p < |s| ==> s[p] == x
  }

  /** With every carry due, the count is the number of bits of a message that the standard covers. */
  lemma CountRight(lens: seq<nat>)
    ensures Undue(lens) == 0 && 8 * TotalLength(lens) < TWO_64 ==> Value(CountedAll(lens)) == 8 * TotalLength(lens)
  {
    hide CountedAll, TotalLength, Undue, Value;
    CountOfRun(lens);
  }

  /** The three calls on one message, as `system_id.c` makes them: the standard's digest for every message of less
      than 2^29 bytes, the same message with a length field too big by 2^32 for longer ones. */
  method HashOf(src: array<bv8>, len: nat, digest: array<bv8>)
    requires len <= src.Length && 8 * len < TWO_64 && digest.Length == 20 && digest != src
    modifies src, digest
    ensures len < 0x2000_0000 ==> digest[..] == Hash(old(src[..len]))
    ensures digest[..] == Digest(Absorb(INITIAL, Padded(old(src[..len]),
      (8 * len + if len < 0x2000_0000 then 0 else TWO_32) % TWO_64)))
  {
    hide Absorb, Tail, Padded, Value, Digest, Overwritten, Hash, Counted, CountedAll, TotalLength, Undue;
    ghost var msg := src[..len];
    var context := new Context();
    OnePiece(len);
    context.Update(src, len);
    assert context.message == [] + msg == msg && context.pieces == [len];
    context.Final(digest);
  }

  lemma OnePiece(len: nat)
    ensures Undue([len]) == (if len < 0x2000_0000 then 0 else 1)
    ensures Value(CountedAll([len])) == (8 * len + if len < 0x2000_0000 then 0 else TWO_32) % TWO_64
  {
    assert [] + [len] == [len];
    OneMorePiece([], len);
    CountOfRun([len]);
  }
}
