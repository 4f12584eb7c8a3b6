/** The compression of `sha1.c`: a sixteen-word circular schedule kept in the block itself, and registers that
    change roles instead of values. */
module Sha1Transform {
  import opened Bits
  import opened Sha1Spec

  // ----- the block as words, as a little-endian machine sees it

  function Load(p: bv8, q: bv8, r: bv8, s: bv8): word {
    (p as word) | ((q as word) << 8) | ((r as word) << 16) | ((s as word) << 24)
  }

  function Byte0(w: word): bv8 { (w & 0xFF) as bv8 }
  function Byte1(w: word): bv8 { ((w >> 8) & 0xFF) as bv8 }
  function Byte2(w: word): bv8 { ((w >> 16) & 0xFF) as bv8 }
  function Byte3(w: word): bv8 { (w >> 24) as bv8 }

  lemma LoadBytes(w: word)
    ensures Load(Byte0(w), Byte1(w), Byte2(w), Byte3(w)) == w
  {
  }

  /** The byte swap of `blk0`. */
  function Swapped(l: word): word {
    (Rotl(l, 24) & 0xFF00FF00) | (Rotl(l, 8) & 0x00FF00FF)
  }

  lemma SwapReverses(p: bv8, q: bv8, r: bv8, s: bv8)
    ensures Swapped(Load(p, q, r, s)) == BigEndian(p, q, r, s)
  {
    var l := Load(p, q, r, s);
    Rotate24(l);
    Rotate8(l);
    hide Rotl;
    SwapMasks(p as word, q as word, r as word, s as word);
  }

  lemma Rotate24(x: word)
    ensures Rotl(x, 24) == (x << 24) | (x >> 8)
  {
  }

  lemma Rotate8(x: word)
    ensures Rotl(x, 8) == (x << 8) | (x >> 24)
  {
  }

  lemma SwapMasks(p: word, q: word, r: word, s: word)
    requires p < 256 && q < 256 && r < 256 && s < 256
    ensures
      var l := p | (q << 8) | (r << 16) | (s << 24);
      (((l << 24) | (l >> 8)) & 0xFF00FF00) | (((l << 8) | (l >> 24)) & 0x00FF00FF)
        == (p << 24) | (q << 16) | (r << 8) | s
  {
  }

  /** The three functions in the forms of `R0` to `R4`. */
  function Choose(w: word, x: word, y: word): word {
    (w & (x ^ y)) ^ y
  }

  function Parity(w: word, x: word, y: word): word {
    w ^ x ^ y
  }

  function Majority(w: word, x: word, y: word): word {
    ((w | x) & y) | (w & x)
  }

  /** The new value of the last register. */
  function Sum(z: word, f: word, l: word, k: word, r: word): word {
    z + f + l + k + r
  }

  /** The expansion of `blk`. */
  function Mix(p: word, q: word, r: word, s: word): word {
    Rotl(p ^ q ^ r ^ s, 1)
  }

  lemma ChooseForm(w: word, x: word, y: word)
    ensures Choose(w, x, y) == (w & x) ^ (!w & y)
  {
  }

  lemma MajorityForm(w: word, x: word, y: word)
    ensures Majority(w, x, y) == (w & x) ^ (w & y) ^ (x & y)
  {
  }

  lemma ChooseIs(t: nat, w: word, x: word, y: word)
    requires t < 20
    ensures Choose(w, x, y) == F(t, w, x, y) && K(t) == 0x5A827999
  {
    hide Choose;
    ChooseForm(w, x, y);
  }

  lemma MajorityIs(t: nat, w: word, x: word, y: word)
    requires 40 <= t < 60
    ensures Majority(w, x, y) == F(t, w, x, y) && K(t) == 0x8F1BBCDC
  {
    hide Majority;
    MajorityForm(w, x, y);
  }

  lemma ParityIs(t: nat, w: word, x: word, y: word)
    requires 20 <= t < 40 || 60 <= t < 80
    ensures Parity(w, x, y) == F(t, w, x, y) && K(t) == if t < 40 then 0x6ED9EBA1 else 0xCA62C1D6
  {
  }

  // ----- the circular schedule

  function WordAt(s: seq<bv8>, j: nat): word
    requires |s| == 64 && j < 16
  {
    Load(s[4 * j], s[4 * j + 1], s[4 * j + 2], s[4 * j + 3])
  }

  /** What place `j` holds before round `t`: the word of the block not reached yet, or the latest word of the
      schedule whose number is `j` modulo 16. */
  function Slot(m: seq<bv8>, t: nat, j: nat): word
    requires |m| == 64 && j < 16
  {
    if t <= j then WordAt(m, j) else W(m, j + 16 * ((t - 1 - j) / 16))
  }

  ghost predicate Window(s: seq<bv8>, m: seq<bv8>, t: nat)
    requires |s| == 64 && |m| == 64
  {
    forall j :: 0 <= j < 16 ==> WordAt(s, j) == Slot(m, t, j)
  }

  function WithWord(s: seq<bv8>, j: nat, w: word): (r: seq<bv8>)
    requires |s| == 64 && j < 16
    ensures |r| == 64
  {
    s[..4 * j] + [Byte0(w), Byte1(w), Byte2(w), Byte3(w)] + s[4 * j + 4..]
  }

  lemma WordAtWithWord(s: seq<bv8>, j: nat, w: word, k: nat)
    requires |s| == 64 && j < 16 && k < 16
    ensures WordAt(WithWord(s, j, w), k) == if j == k then w else WordAt(s, k)
  {
    LoadBytes(w);
    hide Load, Byte0, Byte1, Byte2, Byte3;
    var r := WithWord(s, j, w);
    if k != j {
      assert r[4 * k] == s[4 * k] && r[4 * k + 1] == s[4 * k + 1];
      assert r[4 * k + 2] == s[4 * k + 2] && r[4 * k + 3] == s[4 * k + 3];
    }
  }

  lemma SlotSame(m: seq<bv8>, t: nat, j: nat)
    requires |m| == 64 && j < 16 && j != t % 16
    ensures Slot(m, t + 1, j) == Slot(m, t, j)
  {
    hide W, WordAt;
    if j < t {
      assert (t - j) / 16 == (t - 1 - j) / 16;
    }
  }

  lemma SlotNew(m: seq<bv8>, t: nat)
    requires |m| == 64
    ensures Slot(m, t + 1, t % 16) == W(m, t)
  {
    hide W, WordAt;
    assert t % 16 + 16 * ((t - t % 16) / 16) == t;
  }

  /** The place that is read for the word `k` back. */
  lemma WordBack(s: seq<bv8>, m: seq<bv8>, t: nat, k: nat)
    requires |s| == 64 && |m| == 64 && t >= 16 && 1 <= k <= 16 && Window(s, m, t)
    ensures WordAt(s, (t + 16 - k) % 16) == W(m, t - k)
  {
    hide W, WordAt;
    var j := (t + 16 - k) % 16;
    assert WordAt(s, j) == Slot(m, t, j);
    assert j + 16 * ((t - k) / 16) == t - k;
    assert (t - 1 - j) / 16 == (t - k) / 16;
  }

  /** Writing the word of round `t` in its place moves the window on. */
  lemma WindowMoves(s: seq<bv8>, m: seq<bv8>, t: nat, w: word)
    requires |s| == 64 && |m| == 64 && Window(s, m, t) && w == W(m, t)
    ensures Window(WithWord(s, t % 16, w), m, t + 1)
  {
    hide W, WordAt, WithWord, Slot;
    var r := WithWord(s, t % 16, w);
    forall j | 0 <= j < 16
      ensures WordAt(r, j) == Slot(m, t + 1, j)
    {
      WordAtWithWord(s, t % 16, w, j);
      if j == t % 16 { SlotNew(m, t); } else { SlotSame(m, t, j); }
    }
  }

  /** The value of `blk0` is the word of the block with its most significant byte first. */
  lemma FreshWord(s: seq<bv8>, m: seq<bv8>, t: nat)
    requires |s| == 64 && |m| == 64 && t < 16 && Window(s, m, t)
    ensures Swapped(WordAt(s, t)) == W(m, t)
  {
    assert WordAt(s, t) == Slot(m, t, t) == WordAt(m, t);
    SwapReverses(m[4 * t], m[4 * t + 1], m[4 * t + 2], m[4 * t + 3]);
    hide Swapped, Load, BigEndian;
  }

  /** The value of `blk` is the next word of the schedule. */
  lemma ExpandedWord(s: seq<bv8>, m: seq<bv8>, t: nat)
    requires |s| == 64 && |m| == 64 && t >= 16 && Window(s, m, t)
    ensures Mix(WordAt(s, (t + 13) % 16), WordAt(s, (t + 8) % 16), WordAt(s, (t + 2) % 16), WordAt(s, t % 16))
      == W(m, t)
  {
    hide W, WordAt, Slot, Mix, Window;
    ExpandedIs(m, t);
    WordBack(s, m, t, 3);
    WordBack(s, m, t, 8);
    WordBack(s, m, t, 14);
    WordBack(s, m, t, 16);
  }

  lemma ExpandedIs(m: seq<bv8>, t: nat)
    requires |m| == 64 && t >= 16
    ensures W(m, t) == Mix(W(m, t - 3), W(m, t - 8), W(m, t - 14), W(m, t - 16))
  {
    hide Rotl;
  }

  // ----- one block

  /** Before round `t` of the block that stood at `at`: the window in its place, nothing else touched, and the
      registers, in the roles they have by now, are the working variables. */
  ghost predicate Stage(h: Regs, block: array<bv8>, at: nat, before: seq<bv8>, t: nat, r: Regs)
    reads block
  {
    && |before| == block.Length && at + 64 <= block.Length
    && block[..at] == before[..at] && block[at + 64..] == before[at + 64..]
    && Window(block[at..at + 64], before[at..at + 64], t)
    && r == Rounds(h, before[at..at + 64], t)
  }

  function GetWord(block: array<bv8>, at: nat, j: nat): word
    requires at + 64 <= block.Length && j < 16
    reads block
  {
    Load(block[at + 4 * j], block[at + 4 * j + 1], block[at + 4 * j + 2], block[at + 4 * j + 3])
  }

  method SetWord(block: array<bv8>, at: nat, j: nat, w: word)
    requires at + 64 <= block.Length && j < 16
    modifies block
    ensures block[at..at + 64] == WithWord(old(block[at..at + 64]), j, w)
    ensures block[..at] == old(block[..at]) && block[at + 64..] == old(block[at + 64..])
  {
    hide Byte0, Byte1, Byte2, Byte3;
    block[at + 4 * j] := Byte0(w);
    block[at + 4 * j + 1] := Byte1(w);
    block[at + 4 * j + 2] := Byte2(w);
    block[at + 4 * j + 3] := Byte3(w);
  }

  /** `blk0` */
  method Blk0(i: nat, block: array<bv8>, at: nat, ghost h: Regs, ghost before: seq<bv8>, ghost r: Regs)
    returns (l: word)
    requires i < 16 && Stage(h, block, at, before, i, r)
    modifies block
    ensures l == W(before[at..at + 64], i)
    ensures Stage(h, block, at, before, i + 1, Round(r, i, l))
  {
    hide Window, Swapped, W, Load, WithWord, Round;
    ghost var s, m := block[at..at + 64], before[at..at + 64];
    assert GetWord(block, at, i) == WordAt(s, i);
    FreshWord(s, m, i);
    l := Swapped(GetWord(block, at, i));
    WindowMoves(s, m, i, l);
    SetWord(block, at, i, l);
  }

  /** `blk` */
  method Blk(i: nat, block: array<bv8>, at: nat, ghost h: Regs, ghost before: seq<bv8>, ghost r: Regs)
    returns (l: word)
    requires i >= 16 && Stage(h, block, at, before, i, r)
    modifies block
    ensures l == W(before[at..at + 64], i)
    ensures Stage(h, block, at, before, i + 1, Round(r, i, l))
  {
    hide Window, W, Load, WithWord, Mix, Round;
    ghost var s, m := block[at..at + 64], before[at..at + 64];
    ExpandedWord(s, m, i);
    assert forall j :: 0 <= j < 16 ==> GetWord(block, at, j) == WordAt(s, j);
    l := Mix(GetWord(block, at, (i + 13) % 16), GetWord(block, at, (i + 8) % 16),
             GetWord(block, at, (i + 2) % 16), GetWord(block, at, i % 16));
    WindowMoves(s, m, i, l);
    SetWord(block, at, i % 16, l);
  }

  /** One round in the source's order of additions, once its function and constant are the standard's. */
  lemma RoundIs(v: word, w: word, x: word, y: word, z: word, i: nat, l: word)
    ensures Round(Regs(v, w, x, y, z), i, l)
      == Regs(Sum(z, F(i, w, x, y), l, K(i), Rotl(v, 5)), v, Rotl(w, 30), x, y)
  {
    hide F, K, Rotl, Sum, T;
    SumOrder(z, F(i, w, x, y), l, K(i), Rotl(v, 5));
  }

  lemma SumOrder(z: word, f: word, l: word, k: word, r: word)
    ensures Sum(z, f, l, k, r) == T(r, f, z, k, l)
  {
  }

  /** The macros `R0` to `R4`. They write two registers only; the roles of all five move on by one. */
  method R0(v: word, w: word, x: word, y: word, z: word, i: nat, block: array<bv8>, at: nat,
            ghost h: Regs, ghost before: seq<bv8>) returns (z': word, w': word)
    requires i < 16 && Stage(h, block, at, before, i, Regs(v, w, x, y, z))
    modifies block
    ensures Stage(h, block, at, before, i + 1, Regs(z', v, w', x, y))
  {
    hide Stage, W, Rotl, F, K, Round, Choose, Sum;
    var l := Blk0(i, block, at, h, before, Regs(v, w, x, y, z));
    ChooseIs(i, w, x, y);
    RoundIs(v, w, x, y, z, i, l);
    z' := Sum(z, Choose(w, x, y), l, 0x5A827999, Rotl(v, 5));
    w' := Rotl(w, 30);
  }

  method R1(v: word, w: word, x: word, y: word, z: word, i: nat, block: array<bv8>, at: nat,
            ghost h: Regs, ghost before: seq<bv8>) returns (z': word, w': word)
    requires 16 <= i < 20 && Stage(h, block, at, before, i, Regs(v, w, x, y, z))
    modifies block
    ensures Stage(h, block, at, before, i + 1, Regs(z', v, w', x, y))
  {
    hide Stage, W, Rotl, F, K, Round, Choose, Sum;
    var l := Blk(i, block, at, h, before, Regs(v, w, x, y, z));
    ChooseIs(i, w, x, y);
    RoundIs(v, w, x, y, z, i, l);
    z' := Sum(z, Choose(w, x, y), l, 0x5A827999, Rotl(v, 5));
    w' := Rotl(w, 30);
  }

  method R2(v: word, w: word, x: word, y: word, z: word, i: nat, block: array<bv8>, at: nat,
            ghost h: Regs, ghost before: seq<bv8>) returns (z': word, w': word)
    requires 20 <= i < 40 && Stage(h, block, at, before, i, Regs(v, w, x, y, z))
    modifies block
    ensures Stage(h, block, at, before, i + 1, Regs(z', v, w', x, y))
  {
    hide Stage, W, Rotl, F, K, Round, Parity, Sum;
    var l := Blk(i, block, at, h, before, Regs(v, w, x, y, z));
    ParityIs(i, w, x, y);
    RoundIs(v, w, x, y, z, i, l);
    z' := Sum(z, Parity(w, x, y), l, 0x6ED9EBA1, Rotl(v, 5));
    w' := Rotl(w, 30);
  }

  method R3(v: word, w: word, x: word, y: word, z: word, i: nat, block: array<bv8>, at: nat,
            ghost h: Regs, ghost before: seq<bv8>) returns (z': word, w': word)
    requires 40 <= i < 60 && Stage(h, block, at, before, i, Regs(v, w, x, y, z))
    modifies block
    ensures Stage(h, block, at, before, i + 1, Regs(z', v, w', x, y))
  {
    hide Stage, W, Rotl, F, K, Round, Majority, Sum;
    var l := Blk(i, block, at, h, before, Regs(v, w, x, y, z));
    MajorityIs(i, w, x, y);
    RoundIs(v, w, x, y, z, i, l);
    z' := Sum(z, Majority(w, x, y), l, 0x8F1BBCDC, Rotl(v, 5));
    w' := Rotl(w, 30);
  }

  method R4(v: word, w: word, x: word, y: word, z: word, i: nat, block: array<bv8>, at: nat,
            ghost h: Regs, ghost before: seq<bv8>) returns (z': word, w': word)
    requires 60 <= i < 80 && Stage(h, block, at, before, i, Regs(v, w, x, y, z))
    modifies block
    ensures Stage(h, block, at, before, i + 1, Regs(z', v, w', x, y))
  {
    hide Stage, W, Rotl, F, K, Round, Parity, Sum;
    var l := Blk(i, block, at, h, before, Regs(v, w, x, y, z));
    ParityIs(i, w, x, y);
    RoundIs(v, w, x, y, z, i, l);
    z' := Sum(z, Parity(w, x, y), l, 0xCA62C1D6, Rotl(v, 5));
    w' := Rotl(w, 30);
  }

  /** Rounds 0 to 19. */
  method FirstTwenty(r: Regs, block: array<bv8>, at: nat, ghost h: Regs, ghost before: seq<bv8>) returns (r': Regs)
    requires Stage(h, block, at, before, 0, r)
    modifies block
    ensures Stage(h, block, at, before, 20, r')
  {
    hide Stage;
    var Regs(a, b, c, d, e) := r;
    e, b := R0(a, b, c, d, e, 0, block, at, h, before);
    d, a := R0(e, a, b, c, d, 1, block, at, h, before);
    c, e := R0(d, e, a, b, c, 2, block, at, h, before);
    b, d := R0(c, d, e, a, b, 3, block, at, h, before);
    a, c := R0(b, c, d, e, a, 4, block, at, h, before);
    e, b := R0(a, b, c, d, e, 5, block, at, h, before);
    d, a := R0(e, a, b, c, d, 6, block, at, h, before);
    c, e := R0(d, e, a, b, c, 7, block, at, h, before);
    b, d := R0(c, d, e, a, b, 8, block, at, h, before);
    a, c := R0(b, c, d, e, a, 9, block, at, h, before);
    e, b := R0(a, b, c, d, e, 10, block, at, h, before);
    d, a := R0(e, a, b, c, d, 11, block, at, h, before);
    c, e := R0(d, e, a, b, c, 12, block, at, h, before);
    b, d := R0(c, d, e, a, b, 13, block, at, h, before);
    a, c := R0(b, c, d, e, a, 14, block, at, h, before);
    e, b := R0(a, b, c, d, e, 15, block, at, h, before);
    d, a := R1(e, a, b, c, d, 16, block, at, h, before);
    c, e := R1(d, e, a, b, c, 17, block, at, h, before);
    b, d := R1(c, d, e, a, b, 18, block, at, h, before);
    a, c := R1(b, c, d, e, a, 19, block, at, h, before);
    r' := Regs(a, b, c, d, e);
  }

  /** Rounds 20 to 39. */
  method SecondTwenty(r: Regs, block: array<bv8>, at: nat, ghost h: Regs, ghost before: seq<bv8>) returns (r': Regs)
    requires Stage(h, block, at, before, 20, r)
    modifies block
    ensures Stage(h, block, at, before, 40, r')
  {
    hide Stage;
    var Regs(a, b, c, d, e) := r;
    e, b := R2(a, b, c, d, e, 20, block, at, h, before);
    d, a := R2(e, a, b, c, d, 21, block, at, h, before);
    c, e := R2(d, e, a, b, c, 22, block, at, h, before);
    b, d := R2(c, d, e, a, b, 23, block, at, h, before);
    a, c := R2(b, c, d, e, a, 24, block, at, h, before);
    e, b := R2(a, b, c, d, e, 25, block, at, h, before);
    d, a := R2(e, a, b, c, d, 26, block, at, h, before);
    c, e := R2(d, e, a, b, c, 27, block, at, h, before);
    b, d := R2(c, d, e, a, b, 28, block, at, h, before);
    a, c := R2(b, c, d, e, a, 29, block, at, h, before);
    e, b := R2(a, b, c, d, e, 30, block, at, h, before);
    d, a := R2(e, a, b, c, d, 31, block, at, h, before);
    c, e := R2(d, e, a, b, c, 32, block, at, h, before);
    b, d := R2(c, d, e, a, b, 33, block, at, h, before);
    a, c := R2(b, c, d, e, a, 34, block, at, h, before);
    e, b := R2(a, b, c, d, e, 35, block, at, h, before);
    d, a := R2(e, a, b, c, d, 36, block, at, h, before);
    c, e := R2(d, e, a, b, c, 37, block, at, h, before);
    b, d := R2(c, d, e, a, b, 38, block, at, h, before);
    a, c := R2(b, c, d, e, a, 39, block, at, h, before);
    r' := Regs(a, b, c, d, e);
  }

  /** Rounds 40 to 59. */
  method ThirdTwenty(r: Regs, block: array<bv8>, at: nat, ghost h: Regs, ghost before: seq<bv8>) returns (r': Regs)
    requires Stage(h, block, at, before, 40, r)
    modifies block
    ensures Stage(h, block, at, before, 60, r')
  {
    hide Stage;
    var Regs(a, b, c, d, e) := r;
    e, b := R3(a, b, c, d, e, 40, block, at, h, before);
    d, a := R3(e, a, b, c, d, 41, block, at, h, before);
    c, e := R3(d, e, a, b, c, 42, block, at, h, before);
    b, d := R3(c, d, e, a, b, 43, block, at, h, before);
    a, c := R3(b, c, d, e, a, 44, block, at, h, before);
    e, b := R3(a, b, c, d, e, 45, block, at, h, before);
    d, a := R3(e, a, b, c, d, 46, block, at, h, before);
    c, e := R3(d, e, a, b, c, 47, block, at, h, before);
    b, d := R3(c, d, e, a, b, 48, block, at, h, before);
    a, c := R3(b, c, d, e, a, 49, block, at, h, before);
    e, b := R3(a, b, c, d, e, 50, block, at, h, before);
    d, a := R3(e, a, b, c, d, 51, block, at, h, before);
    c, e := R3(d, e, a, b, c, 52, block, at, h, before);
    b, d := R3(c, d, e, a, b, 53, block, at, h, before);
    a, c := R3(b, c, d, e, a, 54, block, at, h, before);
    e, b := R3(a, b, c, d, e, 55, block, at, h, before);
    d, a := R3(e, a, b, c, d, 56, block, at, h, before);
    c, e := R3(d, e, a, b, c, 57, block, at, h, before);
    b, d := R3(c, d, e, a, b, 58, block, at, h, before);
    a, c := R3(b, c, d, e, a, 59, block, at, h, before);
    r' := Regs(a, b, c, d, e);
  }

  /** Rounds 60 to 79. */
  method FourthTwenty(r: Regs, block: array<bv8>, at: nat, ghost h: Regs, ghost before: seq<bv8>) returns (r': Regs)
    requires Stage(h, block, at, before, 60, r)
    modifies block
    ensures Stage(h, block, at, before, 80, r')
  {
    hide Stage;
    var Regs(a, b, c, d, e) := r;
    e, b := R4(a, b, c, d, e, 60, block, at, h, before);
    d, a := R4(e, a, b, c, d, 61, block, at, h, before);
    c, e := R4(d, e, a, b, c, 62, block, at, h, before);
    b, d := R4(c, d, e, a, b, 63, block, at, h, before);
    a, c := R4(b, c, d, e, a, 64, block, at, h, before);
    e, b := R4(a, b, c, d, e, 65, block, at, h, before);
    d, a := R4(e, a, b, c, d, 66, block, at, h, before);
    c, e := R4(d, e, a, b, c, 67, block, at, h, before);
    b, d := R4(c, d, e, a, b, 68, block, at, h, before);
    a, c := R4(b, c, d, e, a, 69, block, at, h, before);
    e, b := R4(a, b, c, d, e, 70, block, at, h, before);
    d, a := R4(e, a, b, c, d, 71, block, at, h, before);
    c, e := R4(d, e, a, b, c, 72, block, at, h, before);
    b, d := R4(c, d, e, a, b, 73, block, at, h, before);
    a, c := R4(b, c, d, e, a, 74, block, at, h, before);
    e, b := R4(a, b, c, d, e, 75, block, at, h, before);
    d, a := R4(e, a, b, c, d, 76, block, at, h, before);
    c, e := R4(d, e, a, b, c, 77, block, at, h, before);
    b, d := R4(c, d, e, a, b, 78, block, at, h, before);
    a, c := R4(b, c, d, e, a, 79, block, at, h, before);
    r' := Regs(a, b, c, d, e);
  }

  function StateOf(state: array<word>): Regs
    requires state.Length == 5
    reads state
  {
    Regs(state[0], state[1], state[2], state[3], state[4])
  }

  /** `SHA1_Transform`: one block of the standard's computation. The block is left holding the last sixteen words
      of its schedule. */
  method Transform(state: array<word>, block: array<bv8>, at: nat)
    requires state.Length == 5 && at + 64 <= block.Length
    modifies state, block
    ensures StateOf(state) == Compress(old(StateOf(state)), old(block[at..at + 64]))
    ensures Window(block[at..at + 64], old(block[at..at + 64]), 80)
    ensures block[..at] == old(block[..at]) && block[at + 64..] == old(block[at + 64..])
  {
    hide Window, Rounds, Stage, Compress, Added;
    ghost var h, before, m := StateOf(state), block[..], block[at..at + 64];
    var r := Regs(state[0], state[1], state[2], state[3], state[4]);
    StageStart(h, block, at);
    r := FirstTwenty(r, block, at, h, before);
    r := SecondTwenty(r, block, at, h, before);
    r := ThirdTwenty(r, block, at, h, before);
    r := FourthTwenty(r, block, at, h, before);
    StageEnd(h, block, at, before, r);
    CompressIs(h, m, r);
    AddBack(state, r);
  }

  /** The end of `SHA1_Transform`. */
  method AddBack(state: array<word>, r: Regs)
    requires state.Length == 5
    modifies state
    ensures StateOf(state) == Added(old(StateOf(state)), r)
  {
    hide Plus;
    state[0] := Plus(state[0], r.a);
    state[1] := Plus(state[1], r.b);
    state[2] := Plus(state[2], r.c);
    state[3] := Plus(state[3], r.d);
    state[4] := Plus(state[4], r.e);
  }

  lemma CompressIs(h: Regs, m: seq<bv8>, r: Regs)
    requires |m| == 64 && r == Rounds(h, m, 80)
    ensures Compress(h, m) == Added(h, r)
  {
    hide Rounds, Added;
  }

  lemma StageStart(h: Regs, block: array<bv8>, at: nat)
    requires at + 64 <= block.Length
    ensures Stage(h, block, at, block[..], 0, h)
    ensures block[..][at..at + 64] == block[at..at + 64]
  {
    hide W, WordAt;
    assert block[..][at..at + 64] == block[at..at + 64];
  }

  lemma StageEnd(h: Regs, block: array<bv8>, at: nat, before: seq<bv8>, r: Regs)
    requires at + 64 <= |before| && Stage(h, block, at, before, 80, r)
    ensures r == Rounds(h, before[at..at + 64], 80)
    ensures |before| == block.Length && Window(block[at..at + 64], before[at..at + 64], 80)
    ensures block[..at] == before[..at] && block[at + 64..] == before[at + 64..]
  {
    hide Window, Rounds;
  }
}
