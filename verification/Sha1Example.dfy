/** A known digest, that of "abc", which settles every constant and every rotation. */
module Sha1Example {
  import opened Sha1

  /** The padded message, one block. */
  ghost predicate IsBlock(block: seq<Octet>) {
    && |block| == 64 && block[0] == 0x61 && block[1] == 0x62 && block[2] == 0x63 && block[3] == 0x80
    && (forall k | 4 <= k < 63 :: block[k] == 0) && block[63] == 0x18
  }

  lemma NextWord(block: seq<Octet>, t: nat, p: Word, q: Word, r: Word, s: Word, w: Word)
    requires |block| == 64 && t >= 16 && W(block, t - 3) == p && W(block, t - 8) == q
    requires W(block, t - 14) == r && W(block, t - 16) == s && Rol(p ^ q ^ r ^ s, 1) == w
    ensures W(block, t) == w
  {
  }

  lemma OneRound(block: seq<Octet>, t: nat, r: Registers, w: Word, a: Word, c: Word)
    returns (next: Registers)
    requires |block| == 64 && Rounds(INITIAL, block, t) == r && W(block, t) == w
    requires Temp(r, t, w) == a && Rol(r.b, 30) == c
    ensures Rounds(INITIAL, block, t + 1) == next == Registers(a, r.a, c, r.c, r.d)
  {
    next := Registers(a, r.a, c, r.c, r.d);
    hide W, Temp, Rol, INITIAL;
  }

  lemma Words0(block: seq<Octet>)
    requires IsBlock(block)
    ensures |block| == 64 && W(block, 0) == 0x61626380 && W(block, 15) == 0x00000018
    ensures forall t | 0 < t < 15 :: W(block, t) == 0x00000000
  {
    forall t | 0 < t < 15
      ensures W(block, t) == 0x00000000
    {
      assert block[4 * t] == 0 && block[4 * t + 1] == 0 && block[4 * t + 2] == 0 && block[4 * t + 3] == 0;
    }
  }

  lemma Words16(block: seq<Octet>)
    requires IsBlock(block)
    ensures |block| == 64
    ensures W(block, 16) == 0xc2c4c700 && W(block, 17) == 0x00000000 && W(block, 18) == 0x00000030
    ensures W(block, 19) == 0x85898e01 && W(block, 20) == 0x00000000 && W(block, 21) == 0x00000060
    ensures W(block, 22) == 0x0b131c03 && W(block, 23) == 0x00000030 && W(block, 24) == 0x85898ec1
    ensures W(block, 25) == 0x16263806 && W(block, 26) == 0x00000000 && W(block, 27) == 0x00000180
    ensures W(block, 28) == 0x2c4c700c && W(block, 29) == 0x000000f0 && W(block, 30) == 0x93afb507
    ensures W(block, 31) == 0x5898e048
  {
    hide W, IsBlock;
    Words0(block);
    NextWord(block, 16, 0x00000000, 0x00000000, 0x00000000, 0x61626380, 0xc2c4c700);
    NextWord(block, 17, 0x00000000, 0x00000000, 0x00000000, 0x00000000, 0x00000000);
    NextWord(block, 18, 0x00000018, 0x00000000, 0x00000000, 0x00000000, 0x00000030);
    NextWord(block, 19, 0xc2c4c700, 0x00000000, 0x00000000, 0x00000000, 0x85898e01);
    NextWord(block, 20, 0x00000000, 0x00000000, 0x00000000, 0x00000000, 0x00000000);
    NextWord(block, 21, 0x00000030, 0x00000000, 0x00000000, 0x00000000, 0x00000060);
    NextWord(block, 22, 0x85898e01, 0x00000000, 0x00000000, 0x00000000, 0x0b131c03);
    NextWord(block, 23, 0x00000000, 0x00000018, 0x00000000, 0x00000000, 0x00000030);
    NextWord(block, 24, 0x00000060, 0xc2c4c700, 0x00000000, 0x00000000, 0x85898ec1);
    NextWord(block, 25, 0x0b131c03, 0x00000000, 0x00000000, 0x00000000, 0x16263806);
    NextWord(block, 26, 0x00000030, 0x00000030, 0x00000000, 0x00000000, 0x00000000);
    NextWord(block, 27, 0x85898ec1, 0x85898e01, 0x00000000, 0x00000000, 0x00000180);
    NextWord(block, 28, 0x16263806, 0x00000000, 0x00000000, 0x00000000, 0x2c4c700c);
    NextWord(block, 29, 0x00000000, 0x00000060, 0x00000018, 0x00000000, 0x000000f0);
    NextWord(block, 30, 0x00000180, 0x0b131c03, 0xc2c4c700, 0x00000000, 0x93afb507);
    NextWord(block, 31, 0x2c4c700c, 0x00000030, 0x00000000, 0x00000018, 0x5898e048);
  }

  lemma Words32(block: seq<Octet>)
    requires IsBlock(block)
    ensures |block| == 64
    ensures W(block, 32) == 0x8e9a9202 && W(block, 33) == 0x00000600 && W(block, 34) == 0xb131c0f0
    ensures W(block, 35) == 0x16263bc6 && W(block, 36) == 0x4ebed41e && W(block, 37) == 0x626380a1
    ensures W(block, 38) == 0x16263806 && W(block, 39) == 0x000018c0 && W(block, 40) == 0xd2e138c4
    ensures W(block, 41) == 0x00000f00 && W(block, 42) == 0x3afb5079 && W(block, 43) == 0x898e04e5
    ensures W(block, 44) == 0xe2ba3c2b && W(block, 45) == 0x000060c0 && W(block, 46) == 0x053a37cd
    ensures W(block, 47) == 0x74458547
  {
    hide W, IsBlock;
    Words16(block);
    NextWord(block, 32, 0x000000f0, 0x85898ec1, 0x00000030, 0xc2c4c700, 0x8e9a9202);
    NextWord(block, 33, 0x93afb507, 0x16263806, 0x85898e01, 0x00000000, 0x00000600);
    NextWord(block, 34, 0x5898e048, 0x00000000, 0x00000000, 0x00000030, 0xb131c0f0);
    NextWord(block, 35, 0x8e9a9202, 0x00000180, 0x00000060, 0x85898e01, 0x16263bc6);
    NextWord(block, 36, 0x00000600, 0x2c4c700c, 0x0b131c03, 0x00000000, 0x4ebed41e);
    NextWord(block, 37, 0xb131c0f0, 0x000000f0, 0x00000030, 0x00000060, 0x626380a1);
    NextWord(block, 38, 0x16263bc6, 0x93afb507, 0x85898ec1, 0x0b131c03, 0x16263806);
    NextWord(block, 39, 0x4ebed41e, 0x5898e048, 0x16263806, 0x00000030, 0x000018c0);
    NextWord(block, 40, 0x626380a1, 0x8e9a9202, 0x00000000, 0x85898ec1, 0xd2e138c4);
    NextWord(block, 41, 0x16263806, 0x00000600, 0x00000180, 0x16263806, 0x00000f00);
    NextWord(block, 42, 0x000018c0, 0xb131c0f0, 0x2c4c700c, 0x00000000, 0x3afb5079);
    NextWord(block, 43, 0xd2e138c4, 0x16263bc6, 0x000000f0, 0x00000180, 0x898e04e5);
    NextWord(block, 44, 0x00000f00, 0x4ebed41e, 0x93afb507, 0x2c4c700c, 0xe2ba3c2b);
    NextWord(block, 45, 0x3afb5079, 0x626380a1, 0x5898e048, 0x000000f0, 0x000060c0);
    NextWord(block, 46, 0x898e04e5, 0x16263806, 0x8e9a9202, 0x93afb507, 0x053a37cd);
    NextWord(block, 47, 0xe2ba3c2b, 0x000018c0, 0x00000600, 0x5898e048, 0x74458547);
  }

  lemma Words48(block: seq<Octet>)
    requires IsBlock(block)
    ensures |block| == 64
    ensures W(block, 48) == 0xda9415ed && W(block, 49) == 0x26380a16 && W(block, 50) == 0x626383a1
    ensures W(block, 51) == 0x4ebf54de && W(block, 52) == 0x3835b44b && W(block, 53) == 0x0000f600
    ensures W(block, 54) == 0x1e84c7a3 && W(block, 55) == 0x98e04d98 && W(block, 56) == 0x651d16a0
    ensures W(block, 57) == 0x62658ca1 && W(block, 58) == 0x458544d6 && W(block, 59) == 0x44584cb7
    ensures W(block, 60) == 0x7ba06619 && W(block, 61) == 0x6380aea2 && W(block, 62) == 0x0ae55269
    ensures W(block, 63) == 0x627b49a1
  {
    hide W, IsBlock;
    Words32(block);
    NextWord(block, 48, 0x000060c0, 0xd2e138c4, 0xb131c0f0, 0x8e9a9202, 0xda9415ed);
    NextWord(block, 49, 0x053a37cd, 0x00000f00, 0x16263bc6, 0x00000600, 0x26380a16);
    NextWord(block, 50, 0x74458547, 0x3afb5079, 0x4ebed41e, 0xb131c0f0, 0x626383a1);
    NextWord(block, 51, 0xda9415ed, 0x898e04e5, 0x626380a1, 0x16263bc6, 0x4ebf54de);
    NextWord(block, 52, 0x26380a16, 0xe2ba3c2b, 0x16263806, 0x4ebed41e, 0x3835b44b);
    NextWord(block, 53, 0x626383a1, 0x000060c0, 0x000018c0, 0x626380a1, 0x0000f600);
    NextWord(block, 54, 0x4ebf54de, 0x053a37cd, 0xd2e138c4, 0x16263806, 0x1e84c7a3);
    NextWord(block, 55, 0x3835b44b, 0x74458547, 0x00000f00, 0x000018c0, 0x98e04d98);
    NextWord(block, 56, 0x0000f600, 0xda9415ed, 0x3afb5079, 0xd2e138c4, 0x651d16a0);
    NextWord(block, 57, 0x1e84c7a3, 0x26380a16, 0x898e04e5, 0x00000f00, 0x62658ca1);
    NextWord(block, 58, 0x98e04d98, 0x626383a1, 0xe2ba3c2b, 0x3afb5079, 0x458544d6);
    NextWord(block, 59, 0x651d16a0, 0x4ebf54de, 0x000060c0, 0x898e04e5, 0x44584cb7);
    NextWord(block, 60, 0x62658ca1, 0x3835b44b, 0x053a37cd, 0xe2ba3c2b, 0x7ba06619);
    NextWord(block, 61, 0x458544d6, 0x0000f600, 0x74458547, 0x000060c0, 0x6380aea2);
    NextWord(block, 62, 0x44584cb7, 0x1e84c7a3, 0xda9415ed, 0x053a37cd, 0x0ae55269);
    NextWord(block, 63, 0x7ba06619, 0x98e04d98, 0x26380a16, 0x74458547, 0x627b49a1);
  }

  lemma Words64(block: seq<Octet>)
    requires IsBlock(block)
    ensures |block| == 64
    ensures W(block, 64) == 0x7cd45c9d && W(block, 65) == 0x000f0000 && W(block, 66) == 0xfb50753a
    ensures W(block, 67) == 0xec6765e8 && W(block, 68) == 0xba3c2be2 && W(block, 69) == 0x0060c000
    ensures W(block, 70) == 0x3a37cd05 && W(block, 71) == 0x458546f4 && W(block, 72) == 0xb8599dd6
    ensures W(block, 73) == 0x380a1a26 && W(block, 74) == 0x01e02203 && W(block, 75) == 0xe7cc3456
    ensures W(block, 76) == 0xe6e60b69 && W(block, 77) == 0x00f60a00 && W(block, 78) == 0x5795ef4f
    ensures W(block, 79) == 0x822e0879
  {
    hide W, IsBlock;
    Words48(block);
    NextWord(block, 64, 0x6380aea2, 0x651d16a0, 0x626383a1, 0xda9415ed, 0x7cd45c9d);
    NextWord(block, 65, 0x0ae55269, 0x62658ca1, 0x4ebf54de, 0x26380a16, 0x000f0000);
    NextWord(block, 66, 0x627b49a1, 0x458544d6, 0x3835b44b, 0x626383a1, 0xfb50753a);
    NextWord(block, 67, 0x7cd45c9d, 0x44584cb7, 0x0000f600, 0x4ebf54de, 0xec6765e8);
    NextWord(block, 68, 0x000f0000, 0x7ba06619, 0x1e84c7a3, 0x3835b44b, 0xba3c2be2);
    NextWord(block, 69, 0xfb50753a, 0x6380aea2, 0x98e04d98, 0x0000f600, 0x0060c000);
    NextWord(block, 70, 0xec6765e8, 0x0ae55269, 0x651d16a0, 0x1e84c7a3, 0x3a37cd05);
    NextWord(block, 71, 0xba3c2be2, 0x627b49a1, 0x62658ca1, 0x98e04d98, 0x458546f4);
    NextWord(block, 72, 0x0060c000, 0x7cd45c9d, 0x458544d6, 0x651d16a0, 0xb8599dd6);
    NextWord(block, 73, 0x3a37cd05, 0x000f0000, 0x44584cb7, 0x62658ca1, 0x380a1a26);
    NextWord(block, 74, 0x458546f4, 0xfb50753a, 0x7ba06619, 0x458544d6, 0x01e02203);
    NextWord(block, 75, 0xb8599dd6, 0xec6765e8, 0x6380aea2, 0x44584cb7, 0xe7cc3456);
    NextWord(block, 76, 0x380a1a26, 0xba3c2be2, 0x0ae55269, 0x7ba06619, 0xe6e60b69);
    NextWord(block, 77, 0x01e02203, 0x0060c000, 0x627b49a1, 0x6380aea2, 0x00f60a00);
    NextWord(block, 78, 0xe7cc3456, 0x3a37cd05, 0x7cd45c9d, 0x0ae55269, 0x5795ef4f);
    NextWord(block, 79, 0xe6e60b69, 0x458546f4, 0x000f0000, 0x627b49a1, 0x822e0879);
  }

  lemma NoRounds(block: seq<Octet>)
    requires |block| == 64
    ensures Rounds(INITIAL, block, 0) == INITIAL
  {
  }

  lemma Rounds0(block: seq<Octet>)
    requires IsBlock(block)
    ensures Rounds(INITIAL, block, 16)
         == Registers(0x20bdd62f, 0x196bee77, 0x644a3da5, 0x1181ed99, 0x18c623f9)
  {
    hide W, IsBlock, Rounds;
    Words0(block);
    var r := Registers(0x67452301, 0xefcdab89, 0x98badcfe, 0x10325476, 0xc3d2e1f0);
    NoRounds(block);
    r := OneRound(block, 0, r, 0x61626380, 0x0116fc33, 0x7bf36ae2);
    r := OneRound(block, 1, r, 0x00000000, 0x8990536d, 0x59d148c0);
    r := OneRound(block, 2, r, 0x00000000, 0xa1390f08, 0xc045bf0c);
    r := OneRound(block, 3, r, 0x00000000, 0xcdd8e11b, 0x626414db);
    r := OneRound(block, 4, r, 0x00000000, 0xcfd499de, 0x284e43c2);
    r := OneRound(block, 5, r, 0x00000000, 0x3fc7ca40, 0xf3763846);
    r := OneRound(block, 6, r, 0x00000000, 0x993e30c1, 0xb3f52677);
    r := OneRound(block, 7, r, 0x00000000, 0x9e8c07d4, 0x0ff1f290);
    r := OneRound(block, 8, r, 0x00000000, 0x4b6ae328, 0x664f8c30);
    r := OneRound(block, 9, r, 0x00000000, 0x8351f929, 0x27a301f5);
    r := OneRound(block, 10, r, 0x00000000, 0xfbda9e89, 0x12dab8ca);
    r := OneRound(block, 11, r, 0x00000000, 0x63188fe4, 0x60d47e4a);
    r := OneRound(block, 12, r, 0x00000000, 0x4607b664, 0x7ef6a7a2);
    r := OneRound(block, 13, r, 0x00000000, 0x9128f695, 0x18c623f9);
    r := OneRound(block, 14, r, 0x00000000, 0x196bee77, 0x1181ed99);
    r := OneRound(block, 15, r, 0x00000018, 0x20bdd62f, 0x644a3da5);
  }

  lemma Rounds16(block: seq<Octet>)
    requires IsBlock(block)
    requires Rounds(INITIAL, block, 16)
          == Registers(0x20bdd62f, 0x196bee77, 0x644a3da5, 0x1181ed99, 0x18c623f9)
    ensures Rounds(INITIAL, block, 32)
         == Registers(0x3b845d33, 0x1267b407, 0x717eebd7, 0xa0dc2d4b, 0xd2aa1365)
  {
    hide W, IsBlock, Rounds;
    Words16(block);
    var r := Registers(0x20bdd62f, 0x196bee77, 0x644a3da5, 0x1181ed99, 0x18c623f9);
    r := OneRound(block, 16, r, 0xc2c4c700, 0x4e925823, 0xc65afb9d);
    r := OneRound(block, 17, r, 0x00000000, 0x82aa6728, 0xc82f758b);
    r := OneRound(block, 18, r, 0x00000030, 0xdc64901d, 0xd3a49608);
    r := OneRound(block, 19, r, 0x85898e01, 0xfd9e1d7d, 0x20aa99ca);
    r := OneRound(block, 20, r, 0x00000000, 0x1a37b0ca, 0x77192407);
    r := OneRound(block, 21, r, 0x00000060, 0x33a23bfc, 0x7f67875f);
    r := OneRound(block, 22, r, 0x0b131c03, 0x21283486, 0x868dec32);
    r := OneRound(block, 23, r, 0x00000030, 0xd541f12d, 0x0ce88eff);
    r := OneRound(block, 24, r, 0x85898ec1, 0xc7567dc6, 0x884a0d21);
    r := OneRound(block, 25, r, 0x16263806, 0x48413ba4, 0x75507c4b);
    r := OneRound(block, 26, r, 0x00000000, 0xbe35fbd5, 0xb1d59f71);
    r := OneRound(block, 27, r, 0x00000180, 0x4aa84d97, 0x12104ee9);
    r := OneRound(block, 28, r, 0x2c4c700c, 0x8370b52e, 0x6f8d7ef5);
    r := OneRound(block, 29, r, 0x000000f0, 0xc5fbaf5d, 0xd2aa1365);
    r := OneRound(block, 30, r, 0x93afb507, 0x1267b407, 0xa0dc2d4b);
    r := OneRound(block, 31, r, 0x5898e048, 0x3b845d33, 0x717eebd7);
  }

  lemma Rounds32(block: seq<Octet>)
    requires IsBlock(block)
    requires Rounds(INITIAL, block, 32)
          == Registers(0x3b845d33, 0x1267b407, 0x717eebd7, 0xa0dc2d4b, 0xd2aa1365)
    ensures Rounds(INITIAL, block, 48)
         == Registers(0xbead02ca, 0xa01b846c, 0x8714787c, 0x503ca382, 0xfb86c6ab)
  {
    hide W, IsBlock, Rounds;
    Words32(block);
    var r := Registers(0x3b845d33, 0x1267b407, 0x717eebd7, 0xa0dc2d4b, 0xd2aa1365);
    r := OneRound(block, 32, r, 0x8e9a9202, 0x046faa0a, 0xc499ed01);
    r := OneRound(block, 33, r, 0x00000600, 0x2c0ebc11, 0xcee1174c);
    r := OneRound(block, 34, r, 0xb131c0f0, 0x21796ad4, 0x811bea82);
    r := OneRound(block, 35, r, 0x16263bc6, 0xdcbbb0cb, 0x4b03af04);
    r := OneRound(block, 36, r, 0x4ebed41e, 0x0f511fd8, 0x085e5ab5);
    r := OneRound(block, 37, r, 0x626380a1, 0xdc63973f, 0xf72eec32);
    r := OneRound(block, 38, r, 0x16263806, 0x4c986405, 0x03d447f6);
    r := OneRound(block, 39, r, 0x000018c0, 0x32de1cba, 0xf718e5cf);
    r := OneRound(block, 40, r, 0xd2e138c4, 0xfc87dedf, 0x53261901);
    r := OneRound(block, 41, r, 0x00000f00, 0x970a0d5c, 0x8cb7872e);
    r := OneRound(block, 42, r, 0x3afb5079, 0x7f193dc5, 0xff21f7b7);
    r := OneRound(block, 43, r, 0x898e04e5, 0xee1b1aaf, 0x25c28357);
    r := OneRound(block, 44, r, 0xe2ba3c2b, 0x40f28e09, 0x5fc64f71);
    r := OneRound(block, 45, r, 0x000060c0, 0x1c51e1f2, 0xfb86c6ab);
    r := OneRound(block, 46, r, 0x053a37cd, 0xa01b846c, 0x503ca382);
    r := OneRound(block, 47, r, 0x74458547, 0xbead02ca, 0x8714787c);
  }

  lemma Rounds48(block: seq<Octet>)
    requires IsBlock(block)
    requires Rounds(INITIAL, block, 48)
          == Registers(0xbead02ca, 0xa01b846c, 0x8714787c, 0x503ca382, 0xfb86c6ab)
    ensures Rounds(INITIAL, block, 64)
         == Registers(0x6b61c9e1, 0xb66c020b, 0x9523272c, 0xf5d5b051, 0x8fd4b796)
  {
    hide W, IsBlock, Rounds;
    Words48(block);
    var r := Registers(0xbead02ca, 0xa01b846c, 0x8714787c, 0x503ca382, 0xfb86c6ab);
    r := OneRound(block, 48, r, 0xda9415ed, 0xbaf39337, 0x2806e11b);
    r := OneRound(block, 49, r, 0x26380a16, 0x120731c5, 0xafab40b2);
    r := OneRound(block, 50, r, 0x626383a1, 0x641db2ce, 0xeebce4cd);
    r := OneRound(block, 51, r, 0x4ebf54de, 0x3847ad66, 0x4481cc71);
    r := OneRound(block, 52, r, 0x3835b44b, 0xe490436d, 0x99076cb3);
    r := OneRound(block, 53, r, 0x0000f600, 0x27e9f1d8, 0x8e11eb59);
    r := OneRound(block, 54, r, 0x1e84c7a3, 0x7b71f76d, 0x792410db);
    r := OneRound(block, 55, r, 0x98e04d98, 0x5e6456af, 0x09fa7c76);
    r := OneRound(block, 56, r, 0x651d16a0, 0xc846093f, 0x5edc7ddb);
    r := OneRound(block, 57, r, 0x62658ca1, 0xd262ff50, 0xd79915ab);
    r := OneRound(block, 58, r, 0x458544d6, 0x09d785fd, 0xf211824f);
    r := OneRound(block, 59, r, 0x44584cb7, 0x3f52de5a, 0x3498bfd4);
    r := OneRound(block, 60, r, 0x7ba06619, 0xd756c147, 0x4275e17f);
    r := OneRound(block, 61, r, 0x6380aea2, 0x548c9cb2, 0x8fd4b796);
    r := OneRound(block, 62, r, 0x0ae55269, 0xb66c020b, 0xf5d5b051);
    r := OneRound(block, 63, r, 0x627b49a1, 0x6b61c9e1, 0x9523272c);
  }

  lemma Rounds64(block: seq<Octet>)
    requires IsBlock(block)
    requires Rounds(INITIAL, block, 64)
          == Registers(0x6b61c9e1, 0xb66c020b, 0x9523272c, 0xf5d5b051, 0x8fd4b796)
    ensures Rounds(INITIAL, block, 80)
         == Registers(0x42541b35, 0x5738d5e1, 0x21834873, 0x681e6df6, 0xd8fdf6ad)
  {
    hide W, IsBlock, Rounds;
    Words64(block);
    var r := Registers(0x6b61c9e1, 0xb66c020b, 0x9523272c, 0xf5d5b051, 0x8fd4b796);
    r := OneRound(block, 64, r, 0x7cd45c9d, 0x19dfa7ac, 0xed9b0082);
    r := OneRound(block, 65, r, 0x000f0000, 0x101655f9, 0x5ad87278);
    r := OneRound(block, 66, r, 0xfb50753a, 0x0c3df2b4, 0x0677e9eb);
    r := OneRound(block, 67, r, 0xec6765e8, 0x78dd4d2b, 0x4405957e);
    r := OneRound(block, 68, r, 0xba3c2be2, 0x497093c0, 0x030f7cad);
    r := OneRound(block, 69, r, 0x0060c000, 0x3f2588c2, 0xde37534a);
    r := OneRound(block, 70, r, 0x3a37cd05, 0xc199f8c7, 0x125c24f0);
    r := OneRound(block, 71, r, 0x458546f4, 0x39859de7, 0x8fc96230);
    r := OneRound(block, 72, r, 0xb8599dd6, 0xedb42de4, 0xf0667e31);
    r := OneRound(block, 73, r, 0x380a1a26, 0x11793f6f, 0xce616779);
    r := OneRound(block, 74, r, 0x01e02203, 0x5ee76897, 0x3b6d0b79);
    r := OneRound(block, 75, r, 0xe7cc3456, 0x63f7dab7, 0xc45e4fdb);
    r := OneRound(block, 76, r, 0xe6e60b69, 0xa079b7d9, 0xd7b9da25);
    r := OneRound(block, 77, r, 0x00f60a00, 0x860d21cc, 0xd8fdf6ad);
    r := OneRound(block, 78, r, 0x5795ef4f, 0x5738d5e1, 0x681e6df6);
    r := OneRound(block, 79, r, 0x822e0879, 0x42541b35, 0x21834873);
  }

  lemma LengthOctets()
    ensures Octets64(24) == [0, 0, 0, 0, 0, 0, 0, 0x18]
  {
    assert Low(0) == 0 && Low(24) == 0x18;
    hide Low;
  }

  lemma AbcIsBlock(message: seq<Octet>)
    requires message == [0x61, 0x62, 0x63]
    ensures IsBlock(message + Padding(3))
  {
    LengthOctets();
    assert ZeroCount(3) == 52;
    hide Octets64, ZeroCount;
    var padding := Padding(3);
    assert padding == [0x80] + Zeros(52) + [0, 0, 0, 0, 0, 0, 0, 0x18];
    assert padding[0] == 0x80 && forall k | 1 <= k < 60 :: padding[k] == 0;
  }

  lemma AllRounds(block: seq<Octet>)
    requires IsBlock(block)
    ensures |block| == 64 && Rounds(INITIAL, block, 80)
         == Registers(0x42541b35, 0x5738d5e1, 0x21834873, 0x681e6df6, 0xd8fdf6ad)
  {
    hide *;
    Words0(block);
    Rounds0(block);
    Rounds16(block);
    Rounds32(block);
    Rounds48(block);
    Rounds64(block);
  }

  lemma CompressedAbc(block: seq<Octet>)
    requires IsBlock(block)
    ensures |block| == 64
    ensures Compress(INITIAL, block) == Registers(0xa9993e36, 0x4706816a, 0xba3e2571, 0x7850c26c, 0x9cd0d89d)
  {
    hide Rounds, IsBlock;
    AllRounds(block);
  }

  /** The digest of "abc". */
  lemma DigestOfAbc()
    ensures Digest([0x61, 0x62, 0x63]) == Registers(0xa9993e36, 0x4706816a, 0xba3e2571, 0x7850c26c, 0x9cd0d89d)
  {
    hide Compress, Padding, IsBlock, Absorb;
    var message: seq<Octet> := [0x61, 0x62, 0x63];
    AbcIsBlock(message);
    CompressedAbc(message + Padding(3));
    AbsorbBlock(INITIAL, message + Padding(3));
  }
}
