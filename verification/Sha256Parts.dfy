/**
 * What the parts of SHA-256 are, apart from how they are computed: sections 4.1.2, 4.2.2 and 5.3.3 of FIPS 180-4 bit by bit
 * and by integer inequalities.
 */
module Sha256Parts {
  import opened Bytes
  import opened Sha256

  // ---- Words and bytes ----

  /** The byte of a word that starts `shift` bits up, and four of them put together. */
  function Low(w: Word, shift: nat): Word
    requires shift <= 24
  {
    (w >> shift) & 0xff
  }

  function Together(x0: Word, x1: Word, x2: Word, x3: Word): Word { (x0 << 24) | (x1 << 16) | (x2 << 8) | x3 }

  /** A word is the four bytes of its digest, most significant first. */
  lemma WordOfBytes(w: Word)
    ensures BigEndian(WordBytes(w)[0], WordBytes(w)[1], WordBytes(w)[2], WordBytes(w)[3]) == w
  {
    hide ByteOf, BigEndian, Low, Together;
    ByteIsLow(w, 24);
    ByteIsLow(w, 16);
    ByteIsLow(w, 8);
    ByteIsLow(w, 0);
    BigEndianOf(ByteOf(w, 24), ByteOf(w, 16), ByteOf(w, 8), ByteOf(w, 0), Low(w, 24), Low(w, 16), Low(w, 8), Low(w, 0));
    Reassembled(w);
  }

  lemma BigEndianOf(b0: Byte, b1: Byte, b2: Byte, b3: Byte, x0: Word, x1: Word, x2: Word, x3: Word)
    requires b0 as bv8 as Word == x0 && b1 as bv8 as Word == x1 && b2 as bv8 as Word == x2 && b3 as bv8 as Word == x3
    ensures BigEndian(b0, b1, b2, b3) == Together(x0, x1, x2, x3)
  {
  }

  lemma ByteIsLow(w: Word, shift: nat)
    requires shift <= 24
    ensures ByteOf(w, shift) as bv8 as Word == Low(w, shift)
  {
    SmallByte(Low(w, shift));
  }

  lemma SmallByte(low: Word)
    requires low < 0x100
    ensures (low as bv8) as int as bv8 as Word == low
  {
    ThereAndBack(low as bv8);
  }

  lemma ThereAndBack(b: bv8)
    ensures b as int as bv8 == b
  {
  }

  lemma Reassembled(w: Word)
    ensures Together(Low(w, 24), Low(w, 16), Low(w, 8), Low(w, 0)) == w
  {
  }

  // ---- The logical functions ----

  /** Every bit of a choice is that of the second word where the first has one, else that of the third; `mask` selects bits. */
  lemma ChooseBits(x: Word, y: Word, z: Word, mask: Word)
    ensures x & mask == mask ==> Choose(x, y, z) & mask == y & mask
    ensures x & mask == 0 ==> Choose(x, y, z) & mask == z & mask
  {
  }

  /** Every bit of a majority is that on which two of the words agree. */
  lemma MajorityBits(x: Word, y: Word, z: Word, mask: Word)
    ensures x & mask == y & mask ==> Majority(x, y, z) & mask == x & mask
    ensures x & mask == z & mask ==> Majority(x, y, z) & mask == x & mask
    ensures y & mask == z & mask ==> Majority(x, y, z) & mask == y & mask
  {
    AgreeingBits(x, y, z, mask);
    AgreeingBits(x, z, y, mask);
    AgreeingBits(y, z, x, mask);
    assert Majority(x, z, y) == Majority(x, y, z) && Majority(y, z, x) == Majority(x, y, z);
    hide Majority;
  }

  lemma AgreeingBits(x: Word, y: Word, z: Word, mask: Word)
    ensures x & mask == y & mask ==> Majority(x, y, z) & mask == x & mask
  {
  }

  /** The low 32 bits of two copies of a word, shifted right: what leaves on the right comes back on the left. */
  function Doubled(v: Word): bv64 { ((v as bv64) << 32) | (v as bv64) }

  lemma Rotation2(v: Word)
    ensures RotateRight(v, 2) as bv64 == ((Doubled(v) >> 2) & 0xffff_ffff)
  {
  }

  lemma Rotation6(v: Word)
    ensures RotateRight(v, 6) as bv64 == ((Doubled(v) >> 6) & 0xffff_ffff)
  {
  }

  lemma Rotation7(v: Word)
    ensures RotateRight(v, 7) as bv64 == ((Doubled(v) >> 7) & 0xffff_ffff)
  {
  }

  lemma Rotation11(v: Word)
    ensures RotateRight(v, 11) as bv64 == ((Doubled(v) >> 11) & 0xffff_ffff)
  {
  }

  lemma Rotation13(v: Word)
    ensures RotateRight(v, 13) as bv64 == ((Doubled(v) >> 13) & 0xffff_ffff)
  {
  }

  lemma Rotation17(v: Word)
    ensures RotateRight(v, 17) as bv64 == ((Doubled(v) >> 17) & 0xffff_ffff)
  {
  }

  lemma Rotation18(v: Word)
    ensures RotateRight(v, 18) as bv64 == ((Doubled(v) >> 18) & 0xffff_ffff)
  {
  }

  lemma Rotation19(v: Word)
    ensures RotateRight(v, 19) as bv64 == ((Doubled(v) >> 19) & 0xffff_ffff)
  {
  }

  lemma Rotation22(v: Word)
    ensures RotateRight(v, 22) as bv64 == ((Doubled(v) >> 22) & 0xffff_ffff)
  {
  }

  lemma Rotation25(v: Word)
    ensures RotateRight(v, 25) as bv64 == ((Doubled(v) >> 25) & 0xffff_ffff)
  {
  }

  lemma Narrowed(x: Word, y: Word)
    requires x as bv64 == y as bv64
    ensures x == y
  {
  }

  function Xor(x: Word, y: Word, z: Word): Word { x ^ y ^ z }

  /** The Sigmas are the exclusive or of three rotations. */
  lemma Sigma0Rotates(v: Word, x: Word, y: Word, z: Word)
    requires x as bv64 == (Doubled(v) >> 2) & 0xffff_ffff && y as bv64 == (Doubled(v) >> 13) & 0xffff_ffff && z as bv64 == (Doubled(v) >> 22) & 0xffff_ffff
    ensures Sigma0(v) == Xor(x, y, z)
  {
    hide RotateRight, Doubled, Xor, Sigma0;
    Rotation2(v);
    Narrowed(x, RotateRight(v, 2));
    Rotation13(v);
    Narrowed(y, RotateRight(v, 13));
    Rotation22(v);
    Narrowed(z, RotateRight(v, 22));
    Sigma0Parts(v, x, y, z);
  }

  lemma Sigma0Parts(v: Word, x: Word, y: Word, z: Word)
    requires x == RotateRight(v, 2) && y == RotateRight(v, 13) && z == RotateRight(v, 22)
    ensures Sigma0(v) == Xor(x, y, z)
  {
    hide RotateRight;
  }

  lemma Sigma1Rotates(v: Word, x: Word, y: Word, z: Word)
    requires x as bv64 == (Doubled(v) >> 6) & 0xffff_ffff && y as bv64 == (Doubled(v) >> 11) & 0xffff_ffff && z as bv64 == (Doubled(v) >> 25) & 0xffff_ffff
    ensures Sigma1(v) == Xor(x, y, z)
  {
    hide RotateRight, Doubled, Xor, Sigma1;
    Rotation6(v);
    Narrowed(x, RotateRight(v, 6));
    Rotation11(v);
    Narrowed(y, RotateRight(v, 11));
    Rotation25(v);
    Narrowed(z, RotateRight(v, 25));
    Sigma1Parts(v, x, y, z);
  }

  lemma Sigma1Parts(v: Word, x: Word, y: Word, z: Word)
    requires x == RotateRight(v, 6) && y == RotateRight(v, 11) && z == RotateRight(v, 25)
    ensures Sigma1(v) == Xor(x, y, z)
  {
    hide RotateRight;
  }

  /** The Gammas of two rotations and a shift, which lets the bits on the right go. */
  lemma Gamma0Rotates(v: Word, x: Word, y: Word, z: Word)
    requires x as bv64 == (Doubled(v) >> 7) & 0xffff_ffff && y as bv64 == (Doubled(v) >> 18) & 0xffff_ffff && z == v >> 3
    ensures Gamma0(v) == Xor(x, y, z)
  {
    hide RotateRight, Doubled, Xor, Gamma0;
    Rotation7(v);
    Narrowed(x, RotateRight(v, 7));
    Rotation18(v);
    Narrowed(y, RotateRight(v, 18));
    Gamma0Parts(v, x, y, z);
  }

  lemma Gamma0Parts(v: Word, x: Word, y: Word, z: Word)
    requires x == RotateRight(v, 7) && y == RotateRight(v, 18) && z == v >> 3
    ensures Gamma0(v) == Xor(x, y, z)
  {
    hide RotateRight;
  }

  lemma Gamma1Rotates(v: Word, x: Word, y: Word, z: Word)
    requires x as bv64 == (Doubled(v) >> 17) & 0xffff_ffff && y as bv64 == (Doubled(v) >> 19) & 0xffff_ffff && z == v >> 10
    ensures Gamma1(v) == Xor(x, y, z)
  {
    hide RotateRight, Doubled, Xor, Gamma1;
    Rotation17(v);
    Narrowed(x, RotateRight(v, 17));
    Rotation19(v);
    Narrowed(y, RotateRight(v, 19));
    Gamma1Parts(v, x, y, z);
  }

  lemma Gamma1Parts(v: Word, x: Word, y: Word, z: Word)
    requires x == RotateRight(v, 17) && y == RotateRight(v, 19) && z == v >> 10
    ensures Gamma1(v) == Xor(x, y, z)
  {
    hide RotateRight;
  }

  // ---- The constants ----

  /** The first sixty-four primes. */
  function Prime(t: nat): bv128
    requires t < ROUNDS
  {
    [
      [2, 3, 5, 7, 11, 13, 17, 19],
      [23, 29, 31, 37, 41, 43, 47, 53],
      [59, 61, 67, 71, 73, 79, 83, 89],
      [97, 101, 103, 107, 109, 113, 127, 131],
      [137, 139, 149, 151, 157, 163, 167, 173],
      [179, 181, 191, 193, 197, 199, 211, 223],
      [227, 229, 233, 239, 241, 251, 257, 263],
      [269, 271, 277, 281, 283, 293, 307, 311]
    ][t / 8][t % 8]
  }

  /** `k` is the first 32 bits of the fractional part of the square root of `p`, which lies between `whole` and `whole` plus one. */
  predicate IsSquareRootFraction(p: bv128, whole: bv128, k: Word) {
    var n := (whole << 32) | (k as bv128);
    p < 0x1000 && whole < 0x100 && n * n <= p << 64 && p << 64 < (n + 1) * (n + 1)
  }

  /** The same of the cube root. With so few bits in `p` and `whole`, no product wraps. */
  predicate IsCubeRootFraction(p: bv128, whole: bv128, k: Word) {
    var n := (whole << 32) | (k as bv128);
    p < 0x1000 && whole < 0x100 && n * n * n <= p << 96 && p << 96 < (n + 1) * (n + 1) * (n + 1)
  }

  /** The initial hash value is made of square roots of the first eight primes. */
  lemma InitialIsSquareRoots()
    ensures IsSquareRootFraction(Prime(0), 1, INITIAL.a)
    ensures IsSquareRootFraction(Prime(1), 1, INITIAL.b)
    ensures IsSquareRootFraction(Prime(2), 2, INITIAL.c)
    ensures IsSquareRootFraction(Prime(3), 2, INITIAL.d)
    ensures IsSquareRootFraction(Prime(4), 3, INITIAL.e)
    ensures IsSquareRootFraction(Prime(5), 3, INITIAL.f)
    ensures IsSquareRootFraction(Prime(6), 4, INITIAL.g)
    ensures IsSquareRootFraction(Prime(7), 4, INITIAL.h)
  {
  }

  /** Constant `t` is the fraction of the cube root of prime `t`. */
  ghost predicate IsConstant(t: nat)
    requires t < ROUNDS
  {
    exists whole: bv128 :: IsCubeRootFraction(Prime(t), whole, K(t))
  }

  lemma Roots0()
    ensures IsCubeRootFraction(2, 1, 0x428a2f98)
    ensures IsCubeRootFraction(3, 1, 0x71374491)
    ensures IsCubeRootFraction(5, 1, 0xb5c0fbcf)
    ensures IsCubeRootFraction(7, 1, 0xe9b5dba5)
    ensures IsCubeRootFraction(11, 2, 0x3956c25b)
    ensures IsCubeRootFraction(13, 2, 0x59f111f1)
    ensures IsCubeRootFraction(17, 2, 0x923f82a4)
    ensures IsCubeRootFraction(19, 2, 0xab1c5ed5)
  {
  }

  lemma Entries0()
    ensures Prime(0) == 2 && K(0) == 0x428a2f98
    ensures Prime(1) == 3 && K(1) == 0x71374491
    ensures Prime(2) == 5 && K(2) == 0xb5c0fbcf
    ensures Prime(3) == 7 && K(3) == 0xe9b5dba5
    ensures Prime(4) == 11 && K(4) == 0x3956c25b
    ensures Prime(5) == 13 && K(5) == 0x59f111f1
    ensures Prime(6) == 17 && K(6) == 0x923f82a4
    ensures Prime(7) == 19 && K(7) == 0xab1c5ed5
  {
  }

  lemma Constants0()
    ensures forall t :: 0 <= t < 8 ==> IsConstant(t)
  {
    hide IsCubeRootFraction, Prime, K;
    Roots0();
    Entries0();
    IsRoot(0, 2, 1, 0x428a2f98);
    IsRoot(1, 3, 1, 0x71374491);
    IsRoot(2, 5, 1, 0xb5c0fbcf);
    IsRoot(3, 7, 1, 0xe9b5dba5);
    IsRoot(4, 11, 2, 0x3956c25b);
    IsRoot(5, 13, 2, 0x59f111f1);
    IsRoot(6, 17, 2, 0x923f82a4);
    IsRoot(7, 19, 2, 0xab1c5ed5);
  }

  lemma Roots8()
    ensures IsCubeRootFraction(23, 2, 0xd807aa98)
    ensures IsCubeRootFraction(29, 3, 0x12835b01)
    ensures IsCubeRootFraction(31, 3, 0x243185be)
    ensures IsCubeRootFraction(37, 3, 0x550c7dc3)
    ensures IsCubeRootFraction(41, 3, 0x72be5d74)
    ensures IsCubeRootFraction(43, 3, 0x80deb1fe)
    ensures IsCubeRootFraction(47, 3, 0x9bdc06a7)
    ensures IsCubeRootFraction(53, 3, 0xc19bf174)
  {
  }

  lemma Entries8()
    ensures Prime(8) == 23 && K(8) == 0xd807aa98
    ensures Prime(9) == 29 && K(9) == 0x12835b01
    ensures Prime(10) == 31 && K(10) == 0x243185be
    ensures Prime(11) == 37 && K(11) == 0x550c7dc3
    ensures Prime(12) == 41 && K(12) == 0x72be5d74
    ensures Prime(13) == 43 && K(13) == 0x80deb1fe
    ensures Prime(14) == 47 && K(14) == 0x9bdc06a7
    ensures Prime(15) == 53 && K(15) == 0xc19bf174
  {
  }

  lemma Constants8()
    ensures forall t :: 8 <= t < 16 ==> IsConstant(t)
  {
    hide IsCubeRootFraction, Prime, K;
    Roots8();
    Entries8();
    IsRoot(8, 23, 2, 0xd807aa98);
    IsRoot(9, 29, 3, 0x12835b01);
    IsRoot(10, 31, 3, 0x243185be);
    IsRoot(11, 37, 3, 0x550c7dc3);
    IsRoot(12, 41, 3, 0x72be5d74);
    IsRoot(13, 43, 3, 0x80deb1fe);
    IsRoot(14, 47, 3, 0x9bdc06a7);
    IsRoot(15, 53, 3, 0xc19bf174);
  }

  lemma Roots16()
    ensures IsCubeRootFraction(59, 3, 0xe49b69c1)
    ensures IsCubeRootFraction(61, 3, 0xefbe4786)
    ensures IsCubeRootFraction(67, 4, 0x0fc19dc6)
    ensures IsCubeRootFraction(71, 4, 0x240ca1cc)
    ensures IsCubeRootFraction(73, 4, 0x2de92c6f)
    ensures IsCubeRootFraction(79, 4, 0x4a7484aa)
    ensures IsCubeRootFraction(83, 4, 0x5cb0a9dc)
    ensures IsCubeRootFraction(89, 4, 0x76f988da)
  {
  }

  lemma Entries16()
    ensures Prime(16) == 59 && K(16) == 0xe49b69c1
    ensures Prime(17) == 61 && K(17) == 0xefbe4786
    ensures Prime(18) == 67 && K(18) == 0x0fc19dc6
    ensures Prime(19) == 71 && K(19) == 0x240ca1cc
    ensures Prime(20) == 73 && K(20) == 0x2de92c6f
    ensures Prime(21) == 79 && K(21) == 0x4a7484aa
    ensures Prime(22) == 83 && K(22) == 0x5cb0a9dc
    ensures Prime(23) == 89 && K(23) == 0x76f988da
  {
  }

  lemma Constants16()
    ensures forall t :: 16 <= t < 24 ==> IsConstant(t)
  {
    hide IsCubeRootFraction, Prime, K;
    Roots16();
    Entries16();
    IsRoot(16, 59, 3, 0xe49b69c1);
    IsRoot(17, 61, 3, 0xefbe4786);
    IsRoot(18, 67, 4, 0x0fc19dc6);
    IsRoot(19, 71, 4, 0x240ca1cc);
    IsRoot(20, 73, 4, 0x2de92c6f);
    IsRoot(21, 79, 4, 0x4a7484aa);
    IsRoot(22, 83, 4, 0x5cb0a9dc);
    IsRoot(23, 89, 4, 0x76f988da);
  }

  lemma Roots24()
    ensures IsCubeRootFraction(97, 4, 0x983e5152)
    ensures IsCubeRootFraction(101, 4, 0xa831c66d)
    ensures IsCubeRootFraction(103, 4, 0xb00327c8)
    ensures IsCubeRootFraction(107, 4, 0xbf597fc7)
    ensures IsCubeRootFraction(109, 4, 0xc6e00bf3)
    ensures IsCubeRootFraction(113, 4, 0xd5a79147)
    ensures IsCubeRootFraction(127, 5, 0x06ca6351)
    ensures IsCubeRootFraction(131, 5, 0x14292967)
  {
  }

  lemma Entries24()
    ensures Prime(24) == 97 && K(24) == 0x983e5152
    ensures Prime(25) == 101 && K(25) == 0xa831c66d
    ensures Prime(26) == 103 && K(26) == 0xb00327c8
    ensures Prime(27) == 107 && K(27) == 0xbf597fc7
    ensures Prime(28) == 109 && K(28) == 0xc6e00bf3
    ensures Prime(29) == 113 && K(29) == 0xd5a79147
    ensures Prime(30) == 127 && K(30) == 0x06ca6351
    ensures Prime(31) == 131 && K(31) == 0x14292967
  {
  }

  lemma Constants24()
    ensures forall t :: 24 <= t < 32 ==> IsConstant(t)
  {
    hide IsCubeRootFraction, Prime, K;
    Roots24();
    Entries24();
    IsRoot(24, 97, 4, 0x983e5152);
    IsRoot(25, 101, 4, 0xa831c66d);
    IsRoot(26, 103, 4, 0xb00327c8);
    IsRoot(27, 107, 4, 0xbf597fc7);
    IsRoot(28, 109, 4, 0xc6e00bf3);
    IsRoot(29, 113, 4, 0xd5a79147);
    IsRoot(30, 127, 5, 0x06ca6351);
    IsRoot(31, 131, 5, 0x14292967);
  }

  lemma Roots32()
    ensures IsCubeRootFraction(137, 5, 0x27b70a85)
    ensures IsCubeRootFraction(139, 5, 0x2e1b2138)
    ensures IsCubeRootFraction(149, 5, 0x4d2c6dfc)
    ensures IsCubeRootFraction(151, 5, 0x53380d13)
    ensures IsCubeRootFraction(157, 5, 0x650a7354)
    ensures IsCubeRootFraction(163, 5, 0x766a0abb)
    ensures IsCubeRootFraction(167, 5, 0x81c2c92e)
    ensures IsCubeRootFraction(173, 5, 0x92722c85)
  {
  }

  lemma Entries32()
    ensures Prime(32) == 137 && K(32) == 0x27b70a85
    ensures Prime(33) == 139 && K(33) == 0x2e1b2138
    ensures Prime(34) == 149 && K(34) == 0x4d2c6dfc
    ensures Prime(35) == 151 && K(35) == 0x53380d13
    ensures Prime(36) == 157 && K(36) == 0x650a7354
    ensures Prime(37) == 163 && K(37) == 0x766a0abb
    ensures Prime(38) == 167 && K(38) == 0x81c2c92e
    ensures Prime(39) == 173 && K(39) == 0x92722c85
  {
  }

  lemma Constants32()
    ensures forall t :: 32 <= t < 40 ==> IsConstant(t)
  {
    hide IsCubeRootFraction, Prime, K;
    Roots32();
    Entries32();
    IsRoot(32, 137, 5, 0x27b70a85);
    IsRoot(33, 139, 5, 0x2e1b2138);
    IsRoot(34, 149, 5, 0x4d2c6dfc);
    IsRoot(35, 151, 5, 0x53380d13);
    IsRoot(36, 157, 5, 0x650a7354);
    IsRoot(37, 163, 5, 0x766a0abb);
    IsRoot(38, 167, 5, 0x81c2c92e);
    IsRoot(39, 173, 5, 0x92722c85);
  }

  lemma Roots40()
    ensures IsCubeRootFraction(179, 5, 0xa2bfe8a1)
    ensures IsCubeRootFraction(181, 5, 0xa81a664b)
    ensures IsCubeRootFraction(191, 5, 0xc24b8b70)
    ensures IsCubeRootFraction(193, 5, 0xc76c51a3)
    ensures IsCubeRootFraction(197, 5, 0xd192e819)
    ensures IsCubeRootFraction(199, 5, 0xd6990624)
    ensures IsCubeRootFraction(211, 5, 0xf40e3585)
    ensures IsCubeRootFraction(223, 6, 0x106aa070)
  {
  }

  lemma Entries40()
    ensures Prime(40) == 179 && K(40) == 0xa2bfe8a1
    ensures Prime(41) == 181 && K(41) == 0xa81a664b
    ensures Prime(42) == 191 && K(42) == 0xc24b8b70
    ensures Prime(43) == 193 && K(43) == 0xc76c51a3
    ensures Prime(44) == 197 && K(44) == 0xd192e819
    ensures Prime(45) == 199 && K(45) == 0xd6990624
    ensures Prime(46) == 211 && K(46) == 0xf40e3585
    ensures Prime(47) == 223 && K(47) == 0x106aa070
  {
  }

  lemma Constants40()
    ensures forall t :: 40 <= t < 48 ==> IsConstant(t)
  {
    hide IsCubeRootFraction, Prime, K;
    Roots40();
    Entries40();
    IsRoot(40, 179, 5, 0xa2bfe8a1);
    IsRoot(41, 181, 5, 0xa81a664b);
    IsRoot(42, 191, 5, 0xc24b8b70);
    IsRoot(43, 193, 5, 0xc76c51a3);
    IsRoot(44, 197, 5, 0xd192e819);
    IsRoot(45, 199, 5, 0xd6990624);
    IsRoot(46, 211, 5, 0xf40e3585);
    IsRoot(47, 223, 6, 0x106aa070);
  }

  lemma Roots48()
    ensures IsCubeRootFraction(227, 6, 0x19a4c116)
    ensures IsCubeRootFraction(229, 6, 0x1e376c08)
    ensures IsCubeRootFraction(233, 6, 0x2748774c)
    ensures IsCubeRootFraction(239, 6, 0x34b0bcb5)
    ensures IsCubeRootFraction(241, 6, 0x391c0cb3)
    ensures IsCubeRootFraction(251, 6, 0x4ed8aa4a)
    ensures IsCubeRootFraction(257, 6, 0x5b9cca4f)
    ensures IsCubeRootFraction(263, 6, 0x682e6ff3)
  {
  }

  lemma Entries48()
    ensures Prime(48) == 227 && K(48) == 0x19a4c116
    ensures Prime(49) == 229 && K(49) == 0x1e376c08
    ensures Prime(50) == 233 && K(50) == 0x2748774c
    ensures Prime(51) == 239 && K(51) == 0x34b0bcb5
    ensures Prime(52) == 241 && K(52) == 0x391c0cb3
    ensures Prime(53) == 251 && K(53) == 0x4ed8aa4a
    ensures Prime(54) == 257 && K(54) == 0x5b9cca4f
    ensures Prime(55) == 263 && K(55) == 0x682e6ff3
  {
  }

  lemma Constants48()
    ensures forall t :: 48 <= t < 56 ==> IsConstant(t)
  {
    hide IsCubeRootFraction, Prime, K;
    Roots48();
    Entries48();
    IsRoot(48, 227, 6, 0x19a4c116);
    IsRoot(49, 229, 6, 0x1e376c08);
    IsRoot(50, 233, 6, 0x2748774c);
    IsRoot(51, 239, 6, 0x34b0bcb5);
    IsRoot(52, 241, 6, 0x391c0cb3);
    IsRoot(53, 251, 6, 0x4ed8aa4a);
    IsRoot(54, 257, 6, 0x5b9cca4f);
    IsRoot(55, 263, 6, 0x682e6ff3);
  }

  lemma Roots56()
    ensures IsCubeRootFraction(269, 6, 0x748f82ee)
    ensures IsCubeRootFraction(271, 6, 0x78a5636f)
    ensures IsCubeRootFraction(277, 6, 0x84c87814)
    ensures IsCubeRootFraction(281, 6, 0x8cc70208)
    ensures IsCubeRootFraction(283, 6, 0x90befffa)
    ensures IsCubeRootFraction(293, 6, 0xa4506ceb)
    ensures IsCubeRootFraction(307, 6, 0xbef9a3f7)
    ensures IsCubeRootFraction(311, 6, 0xc67178f2)
  {
  }

  lemma Entries56()
    ensures Prime(56) == 269 && K(56) == 0x748f82ee
    ensures Prime(57) == 271 && K(57) == 0x78a5636f
    ensures Prime(58) == 277 && K(58) == 0x84c87814
    ensures Prime(59) == 281 && K(59) == 0x8cc70208
    ensures Prime(60) == 283 && K(60) == 0x90befffa
    ensures Prime(61) == 293 && K(61) == 0xa4506ceb
    ensures Prime(62) == 307 && K(62) == 0xbef9a3f7
    ensures Prime(63) == 311 && K(63) == 0xc67178f2
  {
  }

  lemma Constants56()
    ensures forall t :: 56 <= t < 64 ==> IsConstant(t)
  {
    hide IsCubeRootFraction, Prime, K;
    Roots56();
    Entries56();
    IsRoot(56, 269, 6, 0x748f82ee);
    IsRoot(57, 271, 6, 0x78a5636f);
    IsRoot(58, 277, 6, 0x84c87814);
    IsRoot(59, 281, 6, 0x8cc70208);
    IsRoot(60, 283, 6, 0x90befffa);
    IsRoot(61, 293, 6, 0xa4506ceb);
    IsRoot(62, 307, 6, 0xbef9a3f7);
    IsRoot(63, 311, 6, 0xc67178f2);
  }

  lemma IsRoot(t: nat, p: bv128, whole: bv128, k: Word)
    requires t < ROUNDS && Prime(t) == p && K(t) == k && IsCubeRootFraction(p, whole, k)
    ensures IsConstant(t)
  {
    hide IsCubeRootFraction, Prime, K;
  }

  lemma ConstantsAreCubeRoots(t: nat)
    requires t < ROUNDS
    ensures exists whole: bv128 :: IsCubeRootFraction(Prime(t), whole, K(t))
  {
    hide IsCubeRootFraction, Prime, K;
    Constants0();
    Constants8();
    Constants16();
    Constants24();
    Constants32();
    Constants40();
    Constants48();
    Constants56();
    assert IsConstant(t);
  }
}
