/** The first test vector in the head of `sha1.c`, the message "abc", worked out round by round on the definitions of
    `Sha1Spec`. */
module Sha1Vector {
  import opened Sha1Spec

  const ABC: seq<bv8> := [0x61, 0x62, 0x63]

  /** The message padded to one block. */
  const BLOCK: seq<bv8> := [0x61, 0x62, 0x63, 0x80] + Zeros(59) + [24]

  lemma FirstWords(m: seq<bv8>)
    requires m == BLOCK
    ensures |m| == 64 && W(m, 0) == 0x61626380 && W(m, 15) == 0x00000018
    ensures forall t :: 1 <= t < 15 ==> W(m, t) == 0
  {
    FourBytes();
    hide BigEndian;
  }

  lemma FourBytes()
    ensures BigEndian(0x61, 0x62, 0x63, 0x80) == 0x61626380
    ensures BigEndian(0, 0, 0, 0) == 0 && BigEndian(0, 0, 0, 24) == 0x18
  {
  }

  lemma Expand(m: seq<bv8>, t: nat, w: word)
    requires |m| == 64 && t >= 16
    requires w == Rotl(W(m, t - 3) ^ W(m, t - 8) ^ W(m, t - 14) ^ W(m, t - 16), 1)
    ensures W(m, t) == w
  {
    hide Rotl;
  }

  lemma Words16(m: seq<bv8>)
    requires m == BLOCK
    ensures W(m, 16) == 0xc2c4c700 && W(m, 17) == 0x00000000 && W(m, 18) == 0x00000030 && W(m, 19) == 0x85898e01
    ensures W(m, 20) == 0x00000000 && W(m, 21) == 0x00000060 && W(m, 22) == 0x0b131c03 && W(m, 23) == 0x00000030
    ensures W(m, 24) == 0x85898ec1 && W(m, 25) == 0x16263806 && W(m, 26) == 0x00000000 && W(m, 27) == 0x00000180
    ensures W(m, 28) == 0x2c4c700c && W(m, 29) == 0x000000f0 && W(m, 30) == 0x93afb507 && W(m, 31) == 0x5898e048
  {
    hide W;
    FirstWords(m);
    Expand(m, 16, 0xc2c4c700); Expand(m, 17, 0x00000000); Expand(m, 18, 0x00000030); Expand(m, 19, 0x85898e01);
    Expand(m, 20, 0x00000000); Expand(m, 21, 0x00000060); Expand(m, 22, 0x0b131c03); Expand(m, 23, 0x00000030);
    Expand(m, 24, 0x85898ec1); Expand(m, 25, 0x16263806); Expand(m, 26, 0x00000000); Expand(m, 27, 0x00000180);
    Expand(m, 28, 0x2c4c700c); Expand(m, 29, 0x000000f0); Expand(m, 30, 0x93afb507); Expand(m, 31, 0x5898e048);
  }

  lemma Words32(m: seq<bv8>)
    requires m == BLOCK
    ensures W(m, 32) == 0x8e9a9202 && W(m, 33) == 0x00000600 && W(m, 34) == 0xb131c0f0 && W(m, 35) == 0x16263bc6
    ensures W(m, 36) == 0x4ebed41e && W(m, 37) == 0x626380a1 && W(m, 38) == 0x16263806 && W(m, 39) == 0x000018c0
    ensures W(m, 40) == 0xd2e138c4 && W(m, 41) == 0x00000f00 && W(m, 42) == 0x3afb5079 && W(m, 43) == 0x898e04e5
    ensures W(m, 44) == 0xe2ba3c2b && W(m, 45) == 0x000060c0 && W(m, 46) == 0x053a37cd && W(m, 47) == 0x74458547
  {
    hide W;
    Words16(m);
    Expand(m, 32, 0x8e9a9202); Expand(m, 33, 0x00000600); Expand(m, 34, 0xb131c0f0); Expand(m, 35, 0x16263bc6);
    Expand(m, 36, 0x4ebed41e); Expand(m, 37, 0x626380a1); Expand(m, 38, 0x16263806); Expand(m, 39, 0x000018c0);
    Expand(m, 40, 0xd2e138c4); Expand(m, 41, 0x00000f00); Expand(m, 42, 0x3afb5079); Expand(m, 43, 0x898e04e5);
    Expand(m, 44, 0xe2ba3c2b); Expand(m, 45, 0x000060c0); Expand(m, 46, 0x053a37cd); Expand(m, 47, 0x74458547);
  }

  lemma Words48(m: seq<bv8>)
    requires m == BLOCK
    ensures W(m, 48) == 0xda9415ed && W(m, 49) == 0x26380a16 && W(m, 50) == 0x626383a1 && W(m, 51) == 0x4ebf54de
    ensures W(m, 52) == 0x3835b44b && W(m, 53) == 0x0000f600 && W(m, 54) == 0x1e84c7a3 && W(m, 55) == 0x98e04d98
    ensures W(m, 56) == 0x651d16a0 && W(m, 57) == 0x62658ca1 && W(m, 58) == 0x458544d6 && W(m, 59) == 0x44584cb7
    ensures W(m, 60) == 0x7ba06619 && W(m, 61) == 0x6380aea2 && W(m, 62) == 0x0ae55269 && W(m, 63) == 0x627b49a1
  {
    hide W;
    Words32(m);
    Expand(m, 48, 0xda9415ed); Expand(m, 49, 0x26380a16); Expand(m, 50, 0x626383a1); Expand(m, 51, 0x4ebf54de);
    Expand(m, 52, 0x3835b44b); Expand(m, 53, 0x0000f600); Expand(m, 54, 0x1e84c7a3); Expand(m, 55, 0x98e04d98);
    Expand(m, 56, 0x651d16a0); Expand(m, 57, 0x62658ca1); Expand(m, 58, 0x458544d6); Expand(m, 59, 0x44584cb7);
    Expand(m, 60, 0x7ba06619); Expand(m, 61, 0x6380aea2); Expand(m, 62, 0x0ae55269); Expand(m, 63, 0x627b49a1);
  }

  lemma Words64(m: seq<bv8>)
    requires m == BLOCK
    ensures W(m, 64) == 0x7cd45c9d && W(m, 65) == 0x000f0000 && W(m, 66) == 0xfb50753a && W(m, 67) == 0xec6765e8
    ensures W(m, 68) == 0xba3c2be2 && W(m, 69) == 0x0060c000 && W(m, 70) == 0x3a37cd05 && W(m, 71) == 0x458546f4
    ensures W(m, 72) == 0xb8599dd6 && W(m, 73) == 0x380a1a26 && W(m, 74) == 0x01e02203 && W(m, 75) == 0xe7cc3456
    ensures W(m, 76) == 0xe6e60b69 && W(m, 77) == 0x00f60a00 && W(m, 78) == 0x5795ef4f && W(m, 79) == 0x822e0879
  {
    hide W;
    Words48(m);
    Expand(m, 64, 0x7cd45c9d); Expand(m, 65, 0x000f0000); Expand(m, 66, 0xfb50753a); Expand(m, 67, 0xec6765e8);
    Expand(m, 68, 0xba3c2be2); Expand(m, 69, 0x0060c000); Expand(m, 70, 0x3a37cd05); Expand(m, 71, 0x458546f4);
    Expand(m, 72, 0xb8599dd6); Expand(m, 73, 0x380a1a26); Expand(m, 74, 0x01e02203); Expand(m, 75, 0xe7cc3456);
    Expand(m, 76, 0xe6e60b69); Expand(m, 77, 0x00f60a00); Expand(m, 78, 0x5795ef4f); Expand(m, 79, 0x822e0879);
  }

  lemma NoRounds(m: seq<bv8>)
    requires |m| == 64
    ensures Rounds(INITIAL, m, 0) == INITIAL
  {
  }

  lemma Go(m: seq<bv8>, t: nat, r: Regs, w: word, a: word, c: word) returns (r': Regs)
    requires |m| == 64 && Rounds(INITIAL, m, t) == r && W(m, t) == w
    requires a == T(Rotl(r.a, 5), F(t, r.b, r.c, r.d), r.e, K(t), w) && c == Rotl(r.b, 30)
    ensures r' == Regs(a, r.a, c, r.c, r.d) == Rounds(INITIAL, m, t + 1)
  {
    hide W, T, F, K, Rotl;
    r' := Regs(a, r.a, c, r.c, r.d);
  }

  lemma Rounds0(m: seq<bv8>)
    requires m == BLOCK
    ensures Rounds(INITIAL, m, 20) == Regs(0xfd9e1d7d, 0xdc64901d, 0x20aa99ca, 0xd3a49608, 0xc82f758b)
  {
    hide W, Rounds;
    NoRounds(m);
    FirstWords(m); Words16(m);
    var r := Regs(0x67452301, 0xefcdab89, 0x98badcfe, 0x10325476, 0xc3d2e1f0);
    r := Go(m, 0, r, 0x61626380, 0x0116fc33, 0x7bf36ae2);
    r := Go(m, 1, r, 0x00000000, 0x8990536d, 0x59d148c0);
    r := Go(m, 2, r, 0x00000000, 0xa1390f08, 0xc045bf0c);
    r := Go(m, 3, r, 0x00000000, 0xcdd8e11b, 0x626414db);
    r := Go(m, 4, r, 0x00000000, 0xcfd499de, 0x284e43c2);
    r := Go(m, 5, r, 0x00000000, 0x3fc7ca40, 0xf3763846);
    r := Go(m, 6, r, 0x00000000, 0x993e30c1, 0xb3f52677);
    r := Go(m, 7, r, 0x00000000, 0x9e8c07d4, 0x0ff1f290);
    r := Go(m, 8, r, 0x00000000, 0x4b6ae328, 0x664f8c30);
    r := Go(m, 9, r, 0x00000000, 0x8351f929, 0x27a301f5);
    r := Go(m, 10, r, 0x00000000, 0xfbda9e89, 0x12dab8ca);
    r := Go(m, 11, r, 0x00000000, 0x63188fe4, 0x60d47e4a);
    r := Go(m, 12, r, 0x00000000, 0x4607b664, 0x7ef6a7a2);
    r := Go(m, 13, r, 0x00000000, 0x9128f695, 0x18c623f9);
    r := Go(m, 14, r, 0x00000000, 0x196bee77, 0x1181ed99);
    r := Go(m, 15, r, 0x00000018, 0x20bdd62f, 0x644a3da5);
    r := Go(m, 16, r, 0xc2c4c700, 0x4e925823, 0xc65afb9d);
    r := Go(m, 17, r, 0x00000000, 0x82aa6728, 0xc82f758b);
    r := Go(m, 18, r, 0x00000030, 0xdc64901d, 0xd3a49608);
    r := Go(m, 19, r, 0x85898e01, 0xfd9e1d7d, 0x20aa99ca);
  }

  lemma Rounds20(m: seq<bv8>)
    requires m == BLOCK
    ensures Rounds(INITIAL, m, 40) == Regs(0x32de1cba, 0x4c986405, 0xf718e5cf, 0x03d447f6, 0xf72eec32)
  {
    hide W, Rounds;
    Rounds0(m); Words16(m); Words32(m);
    var r := Regs(0xfd9e1d7d, 0xdc64901d, 0x20aa99ca, 0xd3a49608, 0xc82f758b);
    r := Go(m, 20, r, 0x00000000, 0x1a37b0ca, 0x77192407);
    r := Go(m, 21, r, 0x00000060, 0x33a23bfc, 0x7f67875f);
    r := Go(m, 22, r, 0x0b131c03, 0x21283486, 0x868dec32);
    r := Go(m, 23, r, 0x00000030, 0xd541f12d, 0x0ce88eff);
    r := Go(m, 24, r, 0x85898ec1, 0xc7567dc6, 0x884a0d21);
    r := Go(m, 25, r, 0x16263806, 0x48413ba4, 0x75507c4b);
    r := Go(m, 26, r, 0x00000000, 0xbe35fbd5, 0xb1d59f71);
    r := Go(m, 27, r, 0x00000180, 0x4aa84d97, 0x12104ee9);
    r := Go(m, 28, r, 0x2c4c700c, 0x8370b52e, 0x6f8d7ef5);
    r := Go(m, 29, r, 0x000000f0, 0xc5fbaf5d, 0xd2aa1365);
    r := Go(m, 30, r, 0x93afb507, 0x1267b407, 0xa0dc2d4b);
    r := Go(m, 31, r, 0x5898e048, 0x3b845d33, 0x717eebd7);
    r := Go(m, 32, r, 0x8e9a9202, 0x046faa0a, 0xc499ed01);
    r := Go(m, 33, r, 0x00000600, 0x2c0ebc11, 0xcee1174c);
    r := Go(m, 34, r, 0xb131c0f0, 0x21796ad4, 0x811bea82);
    r := Go(m, 35, r, 0x16263bc6, 0xdcbbb0cb, 0x4b03af04);
    r := Go(m, 36, r, 0x4ebed41e, 0x0f511fd8, 0x085e5ab5);
    r := Go(m, 37, r, 0x626380a1, 0xdc63973f, 0xf72eec32);
    r := Go(m, 38, r, 0x16263806, 0x4c986405, 0x03d447f6);
    r := Go(m, 39, r, 0x000018c0, 0x32de1cba, 0xf718e5cf);
  }

  lemma Rounds40(m: seq<bv8>)
    requires m == BLOCK
    ensures Rounds(INITIAL, m, 60) == Regs(0x3f52de5a, 0x09d785fd, 0x3498bfd4, 0xf211824f, 0xd79915ab)
  {
    hide W, Rounds;
    Rounds20(m); Words32(m); Words48(m);
    var r := Regs(0x32de1cba, 0x4c986405, 0xf718e5cf, 0x03d447f6, 0xf72eec32);
    r := Go(m, 40, r, 0xd2e138c4, 0xfc87dedf, 0x53261901);
    r := Go(m, 41, r, 0x00000f00, 0x970a0d5c, 0x8cb7872e);
    r := Go(m, 42, r, 0x3afb5079, 0x7f193dc5, 0xff21f7b7);
    r := Go(m, 43, r, 0x898e04e5, 0xee1b1aaf, 0x25c28357);
    r := Go(m, 44, r, 0xe2ba3c2b, 0x40f28e09, 0x5fc64f71);
    r := Go(m, 45, r, 0x000060c0, 0x1c51e1f2, 0xfb86c6ab);
    r := Go(m, 46, r, 0x053a37cd, 0xa01b846c, 0x503ca382);
    r := Go(m, 47, r, 0x74458547, 0xbead02ca, 0x8714787c);
    r := Go(m, 48, r, 0xda9415ed, 0xbaf39337, 0x2806e11b);
    r := Go(m, 49, r, 0x26380a16, 0x120731c5, 0xafab40b2);
    r := Go(m, 50, r, 0x626383a1, 0x641db2ce, 0xeebce4cd);
    r := Go(m, 51, r, 0x4ebf54de, 0x3847ad66, 0x4481cc71);
    r := Go(m, 52, r, 0x3835b44b, 0xe490436d, 0x99076cb3);
    r := Go(m, 53, r, 0x0000f600, 0x27e9f1d8, 0x8e11eb59);
    r := Go(m, 54, r, 0x1e84c7a3, 0x7b71f76d, 0x792410db);
    r := Go(m, 55, r, 0x98e04d98, 0x5e6456af, 0x09fa7c76);
    r := Go(m, 56, r, 0x651d16a0, 0xc846093f, 0x5edc7ddb);
    r := Go(m, 57, r, 0x62658ca1, 0xd262ff50, 0xd79915ab);
    r := Go(m, 58, r, 0x458544d6, 0x09d785fd, 0xf211824f);
    r := Go(m, 59, r, 0x44584cb7, 0x3f52de5a, 0x3498bfd4);
  }

  lemma Rounds60(m: seq<bv8>)
    requires m == BLOCK
    ensures Rounds(INITIAL, m, 80) == Regs(0x42541b35, 0x5738d5e1, 0x21834873, 0x681e6df6, 0xd8fdf6ad)
  {
    hide W, Rounds;
    Rounds40(m); Words48(m); Words64(m);
    var r := Regs(0x3f52de5a, 0x09d785fd, 0x3498bfd4, 0xf211824f, 0xd79915ab);
    r := Go(m, 60, r, 0x7ba06619, 0xd756c147, 0x4275e17f);
    r := Go(m, 61, r, 0x6380aea2, 0x548c9cb2, 0x8fd4b796);
    r := Go(m, 62, r, 0x0ae55269, 0xb66c020b, 0xf5d5b051);
    r := Go(m, 63, r, 0x627b49a1, 0x6b61c9e1, 0x9523272c);
    r := Go(m, 64, r, 0x7cd45c9d, 0x19dfa7ac, 0xed9b0082);
    r := Go(m, 65, r, 0x000f0000, 0x101655f9, 0x5ad87278);
    r := Go(m, 66, r, 0xfb50753a, 0x0c3df2b4, 0x0677e9eb);
    r := Go(m, 67, r, 0xec6765e8, 0x78dd4d2b, 0x4405957e);
    r := Go(m, 68, r, 0xba3c2be2, 0x497093c0, 0x030f7cad);
    r := Go(m, 69, r, 0x0060c000, 0x3f2588c2, 0xde37534a);
    r := Go(m, 70, r, 0x3a37cd05, 0xc199f8c7, 0x125c24f0);
    r := Go(m, 71, r, 0x458546f4, 0x39859de7, 0x8fc96230);
    r := Go(m, 72, r, 0xb8599dd6, 0xedb42de4, 0xf0667e31);
    r := Go(m, 73, r, 0x380a1a26, 0x11793f6f, 0xce616779);
    r := Go(m, 74, r, 0x01e02203, 0x5ee76897, 0x3b6d0b79);
    r := Go(m, 75, r, 0xe7cc3456, 0x63f7dab7, 0xc45e4fdb);
    r := Go(m, 76, r, 0xe6e60b69, 0xa079b7d9, 0xd7b9da25);
    r := Go(m, 77, r, 0x00f60a00, 0x860d21cc, 0xd8fdf6ad);
    r := Go(m, 78, r, 0x5795ef4f, 0x5738d5e1, 0x681e6df6);
    r := Go(m, 79, r, 0x822e0879, 0x42541b35, 0x21834873);
  }

  lemma Sums()
    ensures Added(INITIAL, Regs(0x42541b35, 0x5738d5e1, 0x21834873, 0x681e6df6, 0xd8fdf6ad))
      == Regs(0xa9993e36, 0x4706816a, 0xba3e2571, 0x7850c26c, 0x9cd0d89d)
  {
  }

  lemma DigestBytes()
    ensures WordBytes(0xa9993e36) == [0xa9, 0x99, 0x3e, 0x36]
    ensures WordBytes(0x4706816a) == [0x47, 0x06, 0x81, 0x6a]
    ensures WordBytes(0xba3e2571) == [0xba, 0x3e, 0x25, 0x71]
    ensures WordBytes(0x7850c26c) == [0x78, 0x50, 0xc2, 0x6c]
    ensures WordBytes(0x9cd0d89d) == [0x9c, 0xd0, 0xd8, 0x9d]
  {
  }

  lemma LengthBytes()
    ensures Bytes(24, 8) == Zeros(7) + [24]
  {
    assert Octet(24) == 24 && Octet(0) == 0;
    hide Octet;
    assert Bytes(0, 0) == [] && Bytes(0, 1) == [0] && Bytes(0, 2) == [0, 0] && Bytes(0, 3) == [0, 0, 0];
    assert Bytes(0, 4) == [0, 0, 0, 0] && Bytes(0, 5) == [0, 0, 0, 0, 0];
    assert Bytes(0, 6) == [0, 0, 0, 0, 0, 0] && Bytes(0, 7) == [0, 0, 0, 0, 0, 0, 0];
  }

  lemma PaddedAbc()
    ensures Padded(ABC, 24) == BLOCK && |BLOCK| == 64
  {
    LengthBytes();
    hide Bytes;
  }

  lemma OneBlock(m: seq<bv8>)
    requires |m| == 64
    ensures Absorb(INITIAL, m) == Compress(INITIAL, m)
  {
    hide Compress;
    assert m[..64] == m;
  }

  /** "abc" hashes to A9993E36 4706816A BA3E2571 7850C26C 9CD0D89D. */
  lemma AbcDigest()
    ensures Hash(ABC) ==
      [0xa9, 0x99, 0x3e, 0x36, 0x47, 0x06, 0x81, 0x6a, 0xba, 0x3e, 0x25, 0x71,
       0x78, 0x50, 0xc2, 0x6c, 0x9c, 0xd0, 0xd8, 0x9d]
  {
    hide Compress, Absorb, Padded, Rounds, Added, WordBytes;
    PaddedAbc();
    OneBlock(BLOCK);
    Compressed(BLOCK);
    DigestBytes();
  }

  lemma Compressed(m: seq<bv8>)
    requires m == BLOCK && |m| == 64
    ensures Compress(INITIAL, m)
      == Regs(0xa9993e36, 0x4706816a, 0xba3e2571, 0x7850c26c, 0x9cd0d89d)
  {
    hide Rounds, Added;
    Rounds60(m);
    Sums();
  }
}
