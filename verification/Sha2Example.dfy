/** Known answers for the parts of SHA-2 that both families share: word order, padding, schedule and round. The round is
    round 0 of the one-block example "abc" that accompanies FIPS 180-4. */
module Sha2Example {
  import opened Sha2Words
  import opened Sha2Core
  import opened Sha2Stream

  lemma WordOrder()
    ensures Big32(0x01020304) == [1, 2, 3, 4] && LoadBig32([1, 2, 3, 4]) == 0x01020304 && LoadLittle32([1, 2, 3, 4]) == 0x04030201
  {
  }

  lemma WordOrder64()
    ensures Big64(0x0102030405060708) == [1, 2, 3, 4, 5, 6, 7, 8] && LoadBig64([1, 2, 3, 4, 5, 6, 7, 8]) == 0x0102030405060708
    ensures LoadLittle64([1, 2, 3, 4, 5, 6, 7, 8]) == 0x0807060504030201
  {
  }

  /** "abc" and its 24 bits fill one block. */
  lemma PaddedExample(k: seq<bv32>)
    requires |k| == 64
    ensures Padded(Sha256(k), [0x61, 0x62, 0x63]) == [0x61, 0x62, 0x63, 0x80] + Zeros(59) + [0x18]
  {
    LengthExample();
    hide LengthWord;
    assert LengthField(Sha256(k), 3) == Zeros(7) + [0x18];
    assert ZeroCount(Sha256(k), 3) == 52;
    assert Zeros(52) + Zeros(7) == Zeros(59);
  }

  lemma LengthExample()
    ensures LengthWord(24) == [0, 0, 0, 0, 0, 0, 0, 0x18]
  {
    assert Big64(0x18) == [0, 0, 0, 0, 0, 0, 0, 0x18];
  }

  /** The word added to a block whose bytes are 0, 1, 2, ... */
  lemma ScheduleExample(k: seq<bv32>, block: seq<Byte>)
    requires |block| == 64 && block[0..4] == [0, 1, 2, 3] && block[4..8] == [4, 5, 6, 7]
    requires block[36..40] == [36, 37, 38, 39] && block[56..60] == [56, 57, 58, 59]
    ensures Schedule(Sha256(k), block, 16) == 0x2d84894c
  {
    ScheduleWords(k, block);
    assert Sigma1x32(0x38393a3b) == 0xba54f555;
    assert Sigma0x32(0x04050607) == 0x4f096bcd;
  }

  lemma ScheduleWords(k: seq<bv32>, block: seq<Byte>)
    requires |block| == 64 && block[0..4] == [0, 1, 2, 3] && block[4..8] == [4, 5, 6, 7]
    requires block[36..40] == [36, 37, 38, 39] && block[56..60] == [56, 57, 58, 59]
    ensures var alg := Sha256(k);
            && Schedule(alg, block, 0) == 0x00010203 && Schedule(alg, block, 1) == 0x04050607
            && Schedule(alg, block, 9) == 0x24252627 && Schedule(alg, block, 14) == 0x38393a3b
  {
  }

  lemma RoundExample(k: seq<bv32>)
    ensures Round(Sha256(k), Regs(0x6a09e667, 0xbb67ae85, 0x3c6ef372, 0xa54ff53a, 0x510e527f, 0x9b05688c, 0x1f83d9ab, 0x5be0cd19),
                  0x428a2f98, 0x61626380)
         == Regs(0x5d6aebcd, 0x6a09e667, 0xbb67ae85, 0x3c6ef372, 0xfa2a4622, 0x510e527f, 0x9b05688c, 0x1f83d9ab)
  {
  }

  /** The rounds take the constants and the schedule from the first on, each from the state the one before it left. */
  lemma RoundsInOrder(k: seq<bv32>, r: Regs<bv32>, block: seq<Byte>)
    requires |k| == 64 && |block| == 64
    ensures var alg := Sha256(k);
            var first := Round(alg, r, k[0], Schedule(alg, block, 0));
            Rounds(alg, r, block, 2) == Round(alg, first, k[1], Schedule(alg, block, 1))
  {
    hide Round, Schedule;
    assert Rounds(Sha256(k), r, block, 1) == Round(Sha256(k), r, k[0], Schedule(Sha256(k), block, 0));
  }

  /** Registers are added one to one and written in order, each with its first byte first. */
  lemma DigestExample(k: seq<bv32>)
    ensures var alg := Sha256(k);
            && AddRegs(alg, Regs(1, 2, 3, 4, 5, 6, 7, 8), Regs(0x10, 0x20, 0x30, 0x40, 0x50, 0x60, 0x70, 0xffff_ffff))
               == Regs(0x11, 0x22, 0x33, 0x44, 0x55, 0x66, 0x77, 7)
            && Bytes(alg, Regs(0x01020304, 5, 6, 7, 8, 9, 10, 11))
               == [1, 2, 3, 4, 0, 0, 0, 5, 0, 0, 0, 6, 0, 0, 0, 7, 0, 0, 0, 8, 0, 0, 0, 9, 0, 0, 0, 10, 0, 0, 0, 11]
  {
  }
}
