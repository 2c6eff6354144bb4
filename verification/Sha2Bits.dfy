/** The word functions of SHA-2 bit by bit (common/sha2.c:121-141), as sections 2.2.2, 3.2, 4.1.2 and 4.1.3 of FIPS 180-4
    describe them. */
module Sha2Bits {
  import opened Sha2Core
  import opened Sha2Stream
  import opened WordBits

  predicate Parity(a: bool, b: bool, c: bool) { (a != b) != c }

  predicate Majority(a: bool, b: bool, c: bool) { (a && b) || (a && c) || (b && c) }

  // ----- 32-bit words -----

  /** The bit that a rotation to the right by `n` brings to place `i`. */
  predicate Turned32(x: bv32, n: bv6, i: bv6)
    requires n < 32 && i < 32
  {
    Bit32(x, (i + n) % 32)
  }

  /** The bit that a shift to the right by `n` brings to place `i`. */
  predicate Moved32(x: bv32, n: bv6, i: bv6)
    requires n < 32 && i < 32
  {
    i + n < 32 && Bit32(x, i + n)
  }

  lemma Rotation32(x: bv32, n: bv6, i: bv6)
    requires 0 < n < 32 && i < 32
    ensures Bit32(Rotr32(x, n), i) == Turned32(x, n, i)
  {
    hide Bit32;
    Rotated32(x, n, i);
  }

  lemma ChForm32(x: bv32, y: bv32, z: bv32)
    ensures Ch32(x, y, z) == Xor32(And32(x, y), And32(Not32(x), z))
  {
    hide And32, Xor32, Not32;
    TwoAnds32(x, y, z);
  }

  lemma MajForm32(x: bv32, y: bv32, z: bv32)
    ensures Maj32(x, y, z) == Xor32(Xor32(And32(x, y), And32(x, z)), And32(y, z))
  {
    hide And32, Xor32;
    ThreeAnds32(x, y, z);
  }

  lemma Choice32(x: bv32, y: bv32, z: bv32, i: bv6)
    requires i < 32
    ensures Bit32(Ch32(x, y, z), i) == if Bit32(x, i) then Bit32(y, i) else Bit32(z, i)
  {
    hide Bit32, And32, Xor32, Not32, Ch32;
    ChForm32(x, y, z);
    AndBit32(x, y, i);
    NotBit32(x, i);
    AndBit32(Not32(x), z, i);
    XorBit32(And32(x, y), And32(Not32(x), z), i);
  }

  lemma MajorityBit32(x: bv32, y: bv32, z: bv32, i: bv6)
    requires i < 32
    ensures Bit32(Maj32(x, y, z), i) == Majority(Bit32(x, i), Bit32(y, i), Bit32(z, i))
  {
    hide Bit32, And32, Xor32, Maj32;
    MajForm32(x, y, z);
    AndBit32(x, y, i);
    AndBit32(x, z, i);
    AndBit32(y, z, i);
    XorBit32(And32(x, y), And32(x, z), i);
    XorBit32(Xor32(And32(x, y), And32(x, z)), And32(y, z), i);
  }

  lemma Three32(a: bv32, b: bv32, c: bv32, i: bv6)
    requires i < 32
    ensures Bit32(Xor32(Xor32(a, b), c), i) == Parity(Bit32(a, i), Bit32(b, i), Bit32(c, i))
  {
    hide Bit32, Xor32;
    XorBit32(a, b, i);
    XorBit32(Xor32(a, b), c, i);
  }

  /** A rotation, a rotation and a third term, combined. */
  lemma Combined32(x: bv32, a: bv6, b: bv6, t: bv32, i: bv6)
    requires 0 < a < 32 && 0 < b < 32 && i < 32
    ensures Bit32(Xor32(Xor32(Rotr32(x, a), Rotr32(x, b)), t), i) == Parity(Turned32(x, a, i), Turned32(x, b, i), Bit32(t, i))
  {
    hide Bit32, Rotr32, Xor32, Turned32;
    Rotation32(x, a, i);
    Rotation32(x, b, i);
    Three32(Rotr32(x, a), Rotr32(x, b), t, i);
  }

  ghost predicate TurnsThree32(f: bv32 -> bv32, a: bv6, b: bv6, c: bv6)
    requires a < 32 && b < 32 && c < 32
  {
    forall x: bv32, i: bv6 :: i < 32 ==>
      Bit32(f(x), i) == Parity(Turned32(x, a, i), Turned32(x, b, i), Turned32(x, c, i))
  }

  ghost predicate TurnsTwo32(f: bv32 -> bv32, a: bv6, b: bv6, c: bv6)
    requires a < 32 && b < 32 && c < 32
  {
    forall x: bv32, i: bv6 :: i < 32 ==>
      Bit32(f(x), i) == Parity(Turned32(x, a, i), Turned32(x, b, i), Moved32(x, c, i))
  }

  lemma BigSigma0x32Bits()
    ensures TurnsThree32(BigSigma0x32, 2, 13, 22)
  {
    hide Bit32, Turned32, Parity;
    forall x: bv32, i: bv6 | i < 32
      ensures Bit32(BigSigma0x32(x), i) == Parity(Turned32(x, 2, i), Turned32(x, 13, i), Turned32(x, 22, i))
    {
      BigSigma0x32Form(x);
      hide BigSigma0x32, Rotr32, Xor32, Shr32;
      Combined32(x, 2, 13, Rotr32(x, 22), i);
      Rotation32(x, 22, i);
    }
  }

  lemma BigSigma0x32Form(x: bv32)
    ensures BigSigma0x32(x) == Xor32(Xor32(Rotr32(x, 2), Rotr32(x, 13)), Rotr32(x, 22))
  {
    hide Rotr32, Xor32;
    ThreeXor32(Rotr32(x, 2), Rotr32(x, 13), Rotr32(x, 22));
  }

  lemma BigSigma1x32Bits()
    ensures TurnsThree32(BigSigma1x32, 6, 11, 25)
  {
    hide Bit32, Turned32, Parity;
    forall x: bv32, i: bv6 | i < 32
      ensures Bit32(BigSigma1x32(x), i) == Parity(Turned32(x, 6, i), Turned32(x, 11, i), Turned32(x, 25, i))
    {
      BigSigma1x32Form(x);
      hide BigSigma1x32, Rotr32, Xor32, Shr32;
      Combined32(x, 6, 11, Rotr32(x, 25), i);
      Rotation32(x, 25, i);
    }
  }

  lemma BigSigma1x32Form(x: bv32)
    ensures BigSigma1x32(x) == Xor32(Xor32(Rotr32(x, 6), Rotr32(x, 11)), Rotr32(x, 25))
  {
    hide Rotr32, Xor32;
    ThreeXor32(Rotr32(x, 6), Rotr32(x, 11), Rotr32(x, 25));
  }

  lemma Sigma0x32Bits()
    ensures TurnsTwo32(Sigma0x32, 7, 18, 3)
  {
    hide Bit32, Turned32, Parity;
    forall x: bv32, i: bv6 | i < 32
      ensures Bit32(Sigma0x32(x), i) == Parity(Turned32(x, 7, i), Turned32(x, 18, i), Moved32(x, 3, i))
    {
      Sigma0x32Shr(x);
      hide Sigma0x32, Rotr32, Xor32, Shr32;
      Combined32(x, 7, 18, Shr32(x, 3), i);
      Shifted32(x, 3, i);
    }
  }

  lemma Sigma0x32Form(x: bv32)
    ensures Sigma0x32(x) == Xor32(Xor32(Rotr32(x, 7), Rotr32(x, 18)), x >> 3)
  {
    hide Rotr32, Xor32;
    ThreeXor32(Rotr32(x, 7), Rotr32(x, 18), x >> 3);
  }

  lemma Sigma0x32Shr(x: bv32)
    ensures Sigma0x32(x) == Xor32(Xor32(Rotr32(x, 7), Rotr32(x, 18)), Shr32(x, 3))
  {
    hide Rotr32, Xor32, Sigma0x32, Shr32;
    Sigma0x32Form(x);
    ShrIs32(x, 3);
  }

  lemma Sigma1x32Bits()
    ensures TurnsTwo32(Sigma1x32, 17, 19, 10)
  {
    hide Bit32, Turned32, Parity;
    forall x: bv32, i: bv6 | i < 32
      ensures Bit32(Sigma1x32(x), i) == Parity(Turned32(x, 17, i), Turned32(x, 19, i), Moved32(x, 10, i))
    {
      Sigma1x32Shr(x);
      hide Sigma1x32, Rotr32, Xor32, Shr32;
      Combined32(x, 17, 19, Shr32(x, 10), i);
      Shifted32(x, 10, i);
    }
  }

  lemma Sigma1x32Form(x: bv32)
    ensures Sigma1x32(x) == Xor32(Xor32(Rotr32(x, 17), Rotr32(x, 19)), x >> 10)
  {
    hide Rotr32, Xor32;
    ThreeXor32(Rotr32(x, 17), Rotr32(x, 19), x >> 10);
  }

  lemma Sigma1x32Shr(x: bv32)
    ensures Sigma1x32(x) == Xor32(Xor32(Rotr32(x, 17), Rotr32(x, 19)), Shr32(x, 10))
  {
    hide Rotr32, Xor32, Sigma1x32, Shr32;
    Sigma1x32Form(x);
    ShrIs32(x, 10);
  }

  /** The functions of the standard: choice, majority, and the parity of three rotated or shifted bits; addition counts
      steps of one, around 2^32. */
  ghost predicate Fips32(alg: Alg<bv32>) {
    && (forall x: bv32, y: bv32, z: bv32, i: bv6 :: i < 32 ==>
          Bit32(alg.ch(x, y, z), i) == if Bit32(x, i) then Bit32(y, i) else Bit32(z, i))
    && (forall x: bv32, y: bv32, z: bv32, i: bv6 :: i < 32 ==>
          Bit32(alg.maj(x, y, z), i) == Majority(Bit32(x, i), Bit32(y, i), Bit32(z, i)))
    && TurnsThree32(alg.bigSigma0, 2, 13, 22) && TurnsThree32(alg.bigSigma1, 6, 11, 25)
    && TurnsTwo32(alg.sigma0, 7, 18, 3) && TurnsTwo32(alg.sigma1, 17, 19, 10)
    && forall x: bv32, y: bv32 :: alg.add(x, y) == x + y
  }

  /** The word functions of the source are those of the standard. */
  lemma Sha256IsFips(k: seq<bv32>)
    ensures Fips32(Sha256(k))
  {
    hide Bit32, Ch32, Maj32, BigSigma0x32, BigSigma1x32, Sigma0x32, Sigma1x32, TurnsThree32, TurnsTwo32, Majority;
    var alg := Sha256(k);
    forall x: bv32, y: bv32, z: bv32, i: bv6 | i < 32
      ensures Bit32(alg.ch(x, y, z), i) == if Bit32(x, i) then Bit32(y, i) else Bit32(z, i)
    {
      Choice32(x, y, z, i);
    }
    forall x: bv32, y: bv32, z: bv32, i: bv6 | i < 32
      ensures Bit32(alg.maj(x, y, z), i) == Majority(Bit32(x, i), Bit32(y, i), Bit32(z, i))
    {
      MajorityBit32(x, y, z, i);
    }
    BigSigma0x32Bits();
    BigSigma1x32Bits();
    Sigma0x32Bits();
    Sigma1x32Bits();
  }

  // ----- 64-bit words -----

  /** The bit that a rotation to the right by `n` brings to place `i`. */
  predicate Turned64(x: bv64, n: bv7, i: bv7)
    requires n < 64 && i < 64
  {
    Bit64(x, (i + n) % 64)
  }

  /** The bit that a shift to the right by `n` brings to place `i`. */
  predicate Moved64(x: bv64, n: bv7, i: bv7)
    requires n < 64 && i < 64
  {
    i + n < 64 && Bit64(x, i + n)
  }

  lemma Rotation64(x: bv64, n: bv7, i: bv7)
    requires 0 < n < 64 && i < 64
    ensures Bit64(Rotr64(x, n), i) == Turned64(x, n, i)
  {
    hide Bit64;
    Rotated64(x, n, i);
  }

  lemma ChForm64(x: bv64, y: bv64, z: bv64)
    ensures Ch64(x, y, z) == Xor64(And64(x, y), And64(Not64(x), z))
  {
    hide And64, Xor64, Not64;
    TwoAnds64(x, y, z);
  }

  lemma MajForm64(x: bv64, y: bv64, z: bv64)
    ensures Maj64(x, y, z) == Xor64(Xor64(And64(x, y), And64(x, z)), And64(y, z))
  {
    hide And64, Xor64;
    ThreeAnds64(x, y, z);
  }

  lemma Choice64(x: bv64, y: bv64, z: bv64, i: bv7)
    requires i < 64
    ensures Bit64(Ch64(x, y, z), i) == if Bit64(x, i) then Bit64(y, i) else Bit64(z, i)
  {
    hide Bit64, And64, Xor64, Not64, Ch64;
    ChForm64(x, y, z);
    AndBit64(x, y, i);
    NotBit64(x, i);
    AndBit64(Not64(x), z, i);
    XorBit64(And64(x, y), And64(Not64(x), z), i);
  }

  lemma MajorityBit64(x: bv64, y: bv64, z: bv64, i: bv7)
    requires i < 64
    ensures Bit64(Maj64(x, y, z), i) == Majority(Bit64(x, i), Bit64(y, i), Bit64(z, i))
  {
    hide Bit64, And64, Xor64, Maj64;
    MajForm64(x, y, z);
    AndBit64(x, y, i);
    AndBit64(x, z, i);
    AndBit64(y, z, i);
    XorBit64(And64(x, y), And64(x, z), i);
    XorBit64(Xor64(And64(x, y), And64(x, z)), And64(y, z), i);
  }

  lemma Three64(a: bv64, b: bv64, c: bv64, i: bv7)
    requires i < 64
    ensures Bit64(Xor64(Xor64(a, b), c), i) == Parity(Bit64(a, i), Bit64(b, i), Bit64(c, i))
  {
    hide Bit64, Xor64;
    XorBit64(a, b, i);
    XorBit64(Xor64(a, b), c, i);
  }

  /** A rotation, a rotation and a third term, combined. */
  lemma Combined64(x: bv64, a: bv7, b: bv7, t: bv64, i: bv7)
    requires 0 < a < 64 && 0 < b < 64 && i < 64
    ensures Bit64(Xor64(Xor64(Rotr64(x, a), Rotr64(x, b)), t), i) == Parity(Turned64(x, a, i), Turned64(x, b, i), Bit64(t, i))
  {
    hide Bit64, Rotr64, Xor64, Turned64;
    Rotation64(x, a, i);
    Rotation64(x, b, i);
    Three64(Rotr64(x, a), Rotr64(x, b), t, i);
  }

  ghost predicate TurnsThree64(f: bv64 -> bv64, a: bv7, b: bv7, c: bv7)
    requires a < 64 && b < 64 && c < 64
  {
    forall x: bv64, i: bv7 :: i < 64 ==>
      Bit64(f(x), i) == Parity(Turned64(x, a, i), Turned64(x, b, i), Turned64(x, c, i))
  }

  ghost predicate TurnsTwo64(f: bv64 -> bv64, a: bv7, b: bv7, c: bv7)
    requires a < 64 && b < 64 && c < 64
  {
    forall x: bv64, i: bv7 :: i < 64 ==>
      Bit64(f(x), i) == Parity(Turned64(x, a, i), Turned64(x, b, i), Moved64(x, c, i))
  }

  lemma BigSigma0x64Bits()
    ensures TurnsThree64(BigSigma0x64, 28, 34, 39)
  {
    hide Bit64, Turned64, Parity;
    forall x: bv64, i: bv7 | i < 64
      ensures Bit64(BigSigma0x64(x), i) == Parity(Turned64(x, 28, i), Turned64(x, 34, i), Turned64(x, 39, i))
    {
      BigSigma0x64Form(x);
      hide BigSigma0x64, Rotr64, Xor64, Shr64;
      Combined64(x, 28, 34, Rotr64(x, 39), i);
      Rotation64(x, 39, i);
    }
  }

  lemma BigSigma0x64Form(x: bv64)
    ensures BigSigma0x64(x) == Xor64(Xor64(Rotr64(x, 28), Rotr64(x, 34)), Rotr64(x, 39))
  {
    hide Rotr64, Xor64;
    ThreeXor64(Rotr64(x, 28), Rotr64(x, 34), Rotr64(x, 39));
  }

  lemma BigSigma1x64Bits()
    ensures TurnsThree64(BigSigma1x64, 14, 18, 41)
  {
    hide Bit64, Turned64, Parity;
    forall x: bv64, i: bv7 | i < 64
      ensures Bit64(BigSigma1x64(x), i) == Parity(Turned64(x, 14, i), Turned64(x, 18, i), Turned64(x, 41, i))
    {
      BigSigma1x64Form(x);
      hide BigSigma1x64, Rotr64, Xor64, Shr64;
      Combined64(x, 14, 18, Rotr64(x, 41), i);
      Rotation64(x, 41, i);
    }
  }

  lemma BigSigma1x64Form(x: bv64)
    ensures BigSigma1x64(x) == Xor64(Xor64(Rotr64(x, 14), Rotr64(x, 18)), Rotr64(x, 41))
  {
    hide Rotr64, Xor64;
    ThreeXor64(Rotr64(x, 14), Rotr64(x, 18), Rotr64(x, 41));
  }

  lemma Sigma0x64Bits()
    ensures TurnsTwo64(Sigma0x64, 1, 8, 7)
  {
    hide Bit64, Turned64, Parity;
    forall x: bv64, i: bv7 | i < 64
      ensures Bit64(Sigma0x64(x), i) == Parity(Turned64(x, 1, i), Turned64(x, 8, i), Moved64(x, 7, i))
    {
      Sigma0x64Shr(x);
      hide Sigma0x64, Rotr64, Xor64, Shr64;
      Combined64(x, 1, 8, Shr64(x, 7), i);
      Shifted64(x, 7, i);
    }
  }

  lemma Sigma0x64Form(x: bv64)
    ensures Sigma0x64(x) == Xor64(Xor64(Rotr64(x, 1), Rotr64(x, 8)), x >> 7)
  {
    hide Rotr64, Xor64;
    ThreeXor64(Rotr64(x, 1), Rotr64(x, 8), x >> 7);
  }

  lemma Sigma0x64Shr(x: bv64)
    ensures Sigma0x64(x) == Xor64(Xor64(Rotr64(x, 1), Rotr64(x, 8)), Shr64(x, 7))
  {
    hide Rotr64, Xor64, Sigma0x64, Shr64;
    Sigma0x64Form(x);
    ShrIs64(x, 7);
  }

  lemma Sigma1x64Bits()
    ensures TurnsTwo64(Sigma1x64, 19, 61, 6)
  {
    hide Bit64, Turned64, Parity;
    forall x: bv64, i: bv7 | i < 64
      ensures Bit64(Sigma1x64(x), i) == Parity(Turned64(x, 19, i), Turned64(x, 61, i), Moved64(x, 6, i))
    {
      Sigma1x64Shr(x);
      hide Sigma1x64, Rotr64, Xor64, Shr64;
      Combined64(x, 19, 61, Shr64(x, 6), i);
      Shifted64(x, 6, i);
    }
  }

  lemma Sigma1x64Form(x: bv64)
    ensures Sigma1x64(x) == Xor64(Xor64(Rotr64(x, 19), Rotr64(x, 61)), x >> 6)
  {
    hide Rotr64, Xor64;
    ThreeXor64(Rotr64(x, 19), Rotr64(x, 61), x >> 6);
  }

  lemma Sigma1x64Shr(x: bv64)
    ensures Sigma1x64(x) == Xor64(Xor64(Rotr64(x, 19), Rotr64(x, 61)), Shr64(x, 6))
  {
    hide Rotr64, Xor64, Sigma1x64, Shr64;
    Sigma1x64Form(x);
    ShrIs64(x, 6);
  }

  /** The functions of the standard: choice, majority, and the parity of three rotated or shifted bits; addition counts
      steps of one, around 2^64. */
  ghost predicate Fips64(alg: Alg<bv64>) {
    && (forall x: bv64, y: bv64, z: bv64, i: bv7 :: i < 64 ==>
          Bit64(alg.ch(x, y, z), i) == if Bit64(x, i) then Bit64(y, i) else Bit64(z, i))
    && (forall x: bv64, y: bv64, z: bv64, i: bv7 :: i < 64 ==>
          Bit64(alg.maj(x, y, z), i) == Majority(Bit64(x, i), Bit64(y, i), Bit64(z, i)))
    && TurnsThree64(alg.bigSigma0, 28, 34, 39) && TurnsThree64(alg.bigSigma1, 14, 18, 41)
    && TurnsTwo64(alg.sigma0, 1, 8, 7) && TurnsTwo64(alg.sigma1, 19, 61, 6)
    && forall x: bv64, y: bv64 :: alg.add(x, y) == x + y
  }

  /** The word functions of the source are those of the standard. */
  lemma Sha512IsFips(k: seq<bv64>)
    ensures Fips64(Sha512(k))
  {
    hide Bit64, Ch64, Maj64, BigSigma0x64, BigSigma1x64, Sigma0x64, Sigma1x64, TurnsThree64, TurnsTwo64, Majority;
    var alg := Sha512(k);
    forall x: bv64, y: bv64, z: bv64, i: bv7 | i < 64
      ensures Bit64(alg.ch(x, y, z), i) == if Bit64(x, i) then Bit64(y, i) else Bit64(z, i)
    {
      Choice64(x, y, z, i);
    }
    forall x: bv64, y: bv64, z: bv64, i: bv7 | i < 64
      ensures Bit64(alg.maj(x, y, z), i) == Majority(Bit64(x, i), Bit64(y, i), Bit64(z, i))
    {
      MajorityBit64(x, y, z, i);
    }
    BigSigma0x64Bits();
    BigSigma1x64Bits();
    Sigma0x64Bits();
    Sigma1x64Bits();
  }
}
