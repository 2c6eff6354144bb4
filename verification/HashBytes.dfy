/**
  hash_bytes and tag_hash (common/hashfn.c:36-361, 676-680): four code paths, for aligned and unaligned keys on
  little-endian and big-endian machines.
*/
module HashBytes {
  datatype Abc = Abc(a: bv32, b: bv32, c: bv32)

  function Rot(x: bv32, k: nat): bv32
    requires 0 < k < 32
  {
    (x << k) | (x >> (32 - k))
  }

  // 32-bit operations, named so that proofs can treat them as given.
  function Add(x: bv32, y: bv32): bv32 { x + y }
  function Neg(y: bv32): bv32 { 0 - y }
  function Sub(x: bv32, y: bv32): bv32 { Add(x, Neg(y)) }
  function Xor(x: bv32, y: bv32): bv32 { x ^ y }

  // ----- Mixing -----

  /** One line of mix, which changes x and z: x -= z; x ^= rot(z, k); z += y. */
  function Line(x: bv32, y: bv32, z: bv32, k: nat): (r: (bv32, bv32))
    requires 0 < k < 32
  {
    (Xor(Sub(x, z), Rot(z, k)), Add(z, y))
  }

  function Mix(s: Abc): Abc {
    var (a1, c1) := Line(s.a, s.b, s.c, 4);
    var (b1, a2) := Line(s.b, c1, a1, 6);
    var (c2, b2) := Line(c1, a2, b1, 8);
    var (a3, c3) := Line(a2, b2, c2, 16);
    var (b3, a4) := Line(b2, c3, a3, 19);
    var (c4, b4) := Line(c3, a4, b3, 4);
    Abc(a4, b4, c4)
  }

  function Unline(x: bv32, y: bv32, z: bv32, k: nat): (r: (bv32, bv32))
    requires 0 < k < 32
  {
    (Add(Xor(x, Rot(Sub(z, y), k)), Sub(z, y)), Sub(z, y))
  }

  function Unmix(s: Abc): Abc {
    var (c3, b3) := Unline(s.c, s.a, s.b, 4);
    var (b2, a3) := Unline(b3, c3, s.a, 19);
    var (a2, c2) := Unline(a3, b2, c3, 16);
    var (c1, b1) := Unline(c2, a2, b2, 8);
    var (b0, a1) := Unline(b1, c1, a2, 6);
    var (a0, c0) := Unline(a1, b0, c1, 4);
    Abc(a0, b0, c0)
  }

  lemma NegCancels(x: bv32, y: bv32)
    ensures Add(y, Neg(y)) == 0 && Add(x, 0) == x
  {
  }

  lemma AddSub(z: bv32, y: bv32)
    ensures Sub(Add(z, y), y) == z && Add(Sub(z, y), y) == z
  {
    hide Add, Neg;
    NegCancels(z, y);
    AddLaws(z, y, Neg(y));
    AddLaws(z, Neg(y), y);
    AddLaws(y, Neg(y), 0);
  }

  lemma XorTwice(x: bv32, y: bv32)
    ensures Xor(Xor(x, y), y) == x
  {
  }

  lemma LineUndone(x: bv32, y: bv32, z: bv32, k: nat)
    requires 0 < k < 32
    ensures var r := Line(x, y, z, k); Unline(r.0, y, r.1, k) == (x, z)
    ensures var r := Unline(x, y, z, k); Line(r.0, y, r.1, k) == (x, z)
  {
    hide Rot, Add, Sub, Xor;
    AddSub(z, y);
    XorTwice(Sub(x, z), Rot(z, k));
    AddSub(x, z);
    XorTwice(x, Rot(Sub(z, y), k));
    AddSub(Xor(x, Rot(Sub(z, y), k)), Sub(z, y));
  }

  /** mix is reversible: nothing in (a, b, c) is lost. */
  lemma MixIsReversible(s: Abc)
    ensures Unmix(Mix(s)) == s && Mix(Unmix(s)) == s
  {
    hide Line, Unline;
    MixThenUnmix(s);
    UnmixThenMix(s);
  }

  lemma MixThenUnmix(s: Abc)
    ensures Unmix(Mix(s)) == s
  {
    hide Line, Unline;
    var (a1, c1) := Line(s.a, s.b, s.c, 4);
    LineUndone(s.a, s.b, s.c, 4);
    var (b1, a2) := Line(s.b, c1, a1, 6);
    LineUndone(s.b, c1, a1, 6);
    var (c2, b2) := Line(c1, a2, b1, 8);
    LineUndone(c1, a2, b1, 8);
    var (a3, c3) := Line(a2, b2, c2, 16);
    LineUndone(a2, b2, c2, 16);
    var (b3, a4) := Line(b2, c3, a3, 19);
    LineUndone(b2, c3, a3, 19);
    LineUndone(c3, a4, b3, 4);
  }

  lemma UnmixThenMix(s: Abc)
    ensures Mix(Unmix(s)) == s
  {
    hide Line, Unline;
    var (c3, b3) := Unline(s.c, s.a, s.b, 4);
    LineUndone(s.c, s.a, s.b, 4);
    var (b2, a3) := Unline(b3, c3, s.a, 19);
    LineUndone(b3, c3, s.a, 19);
    var (a2, c2) := Unline(a3, b2, c3, 16);
    LineUndone(a3, b2, c3, 16);
    var (c1, b1) := Unline(c2, a2, b2, 8);
    LineUndone(c2, a2, b2, 8);
    var (b0, a1) := Unline(b1, c1, a2, 6);
    LineUndone(b1, c1, a2, 6);
    LineUndone(a1, b0, c1, 4);
  }

  /** One line of final: x ^= y; x -= rot(y, k). */
  function Fin(x: bv32, y: bv32, k: nat): bv32
    requires 0 < k < 32
  {
    Sub(Xor(x, y), Rot(y, k))
  }

  function Final(s: Abc): Abc {
    var c1 := Fin(s.c, s.b, 14);
    var a1 := Fin(s.a, c1, 11);
    var b1 := Fin(s.b, a1, 25);
    var c2 := Fin(c1, b1, 16);
    var a2 := Fin(a1, c2, 4);
    var b2 := Fin(b1, a2, 14);
    Abc(a2, b2, Fin(c2, b2, 24))
  }

  function Unfin(x: bv32, y: bv32, k: nat): bv32
    requires 0 < k < 32
  {
    Xor(Add(x, Rot(y, k)), y)
  }

  function Unfinal(s: Abc): Abc {
    var c2 := Unfin(s.c, s.b, 24);
    var b1 := Unfin(s.b, s.a, 14);
    var a1 := Unfin(s.a, c2, 4);
    var c1 := Unfin(c2, b1, 16);
    var b0 := Unfin(b1, a1, 25);
    var a0 := Unfin(a1, c1, 11);
    Abc(a0, b0, Unfin(c1, b0, 14))
  }

  lemma FinUndone(x: bv32, y: bv32, k: nat)
    requires 0 < k < 32
    ensures Unfin(Fin(x, y, k), y, k) == x && Fin(Unfin(x, y, k), y, k) == x
  {
    hide Rot, Add, Sub, Xor;
    AddSub(Xor(x, y), Rot(y, k));
    XorTwice(x, y);
    XorTwice(Add(x, Rot(y, k)), y);
    AddSub(x, Rot(y, k));
  }

  /** final is reversible too: each hash value has as many (a, b, c) before it as any other. */
  lemma FinalIsReversible(s: Abc)
    ensures Unfinal(Final(s)) == s && Final(Unfinal(s)) == s
  {
    hide Fin, Unfin;
    FinalThenUnfinal(s);
    UnfinalThenFinal(s);
  }

  lemma FinalThenUnfinal(s: Abc)
    ensures Unfinal(Final(s)) == s
  {
    hide Fin, Unfin;
    FinUndone(s.c, s.b, 14);
    var c1 := Fin(s.c, s.b, 14);
    FinUndone(s.a, c1, 11);
    var a1 := Fin(s.a, c1, 11);
    FinUndone(s.b, a1, 25);
    var b1 := Fin(s.b, a1, 25);
    FinUndone(c1, b1, 16);
    var c2 := Fin(c1, b1, 16);
    FinUndone(a1, c2, 4);
    var a2 := Fin(a1, c2, 4);
    FinUndone(b1, a2, 14);
    FinUndone(c2, Fin(b1, a2, 14), 24);
  }

  lemma UnfinalThenFinal(s: Abc)
    ensures Final(Unfinal(s)) == s
  {
    hide Fin, Unfin;
    FinUndone(s.c, s.b, 24);
    var c2 := Unfin(s.c, s.b, 24);
    FinUndone(s.b, s.a, 14);
    var b1 := Unfin(s.b, s.a, 14);
    FinUndone(s.a, c2, 4);
    var a1 := Unfin(s.a, c2, 4);
    FinUndone(c2, b1, 16);
    var c1 := Unfin(c2, b1, 16);
    FinUndone(b1, a1, 25);
    var b0 := Unfin(b1, a1, 25);
    FinUndone(a1, c1, 11);
    FinUndone(c1, b0, 14);
  }

  // ----- The hash of a key, without regard to alignment -----

  /** The word a machine loads from four bytes. */
  function Word(b0: bv8, b1: bv8, b2: bv8, b3: bv8, big: bool): bv32 {
    if big then (b0 as bv32 << 24) | (b1 as bv32 << 16) | (b2 as bv32 << 8) | (b3 as bv32)
    else (b0 as bv32) | (b1 as bv32 << 8) | (b2 as bv32 << 16) | (b3 as bv32 << 24)
  }

  function Load(k: seq<bv8>, i: nat, big: bool): bv32
    requires i + 4 <= |k|
  {
    Word(k[i], k[i + 1], k[i + 2], k[i + 3], big)
  }

  function Len32(n: nat): bv32 { (n % 0x1_0000_0000) as bv32 }

  function Start(len: nat): Abc {
    var w := Add(Add(0x9e3779b9, Len32(len)), 3923095);
    Abc(w, w, w)
  }

  function AddBlock(s: Abc, x: bv32, y: bv32, z: bv32): Abc { Abc(Add(s.a, x), Add(s.b, y), Add(s.c, z)) }

  ghost function Blocks(s: Abc, k: seq<bv8>, big: bool): (r: (Abc, seq<bv8>))
    ensures |r.1| < 12
    decreases |k|
  {
    if |k| < 12 then (s, k)
    else Blocks(Mix(AddBlock(s, Load(k, 0, big), Load(k, 4, big), Load(k, 8, big))), k[12..], big)
  }

  ghost function Byte(r: seq<bv8>, i: nat): bv8 { if i < |r| then r[i] else 0 }

  /** The last bytes, padded with zeros to eleven; the low byte of the third word is left for the length. */
  ghost function Tail(s: Abc, r: seq<bv8>, big: bool): Abc {
    AddBlock(s,
      Word(Byte(r, 0), Byte(r, 1), Byte(r, 2), Byte(r, 3), big),
      Word(Byte(r, 4), Byte(r, 5), Byte(r, 6), Byte(r, 7), big),
      if big then Word(Byte(r, 8), Byte(r, 9), Byte(r, 10), 0, big) else Word(0, Byte(r, 8), Byte(r, 9), Byte(r, 10), big))
  }

  ghost function Hash(k: seq<bv8>, big: bool): bv32 {
    var (s, r) := Blocks(Start(|k|), k, big);
    Final(Tail(s, r, big)).c
  }

  // ----- The code paths -----

  /** A word put together from bytes, as the unaligned path does it. */
  function Sum(b0: bv8, b1: bv8, b2: bv8, b3: bv8, big: bool): bv32 {
    if big then Add(Add(Add(At(b3, 0), At(b2, 8)), At(b1, 16)), At(b0, 24))
    else Add(Add(Add(At(b0, 0), At(b1, 8)), At(b2, 16)), At(b3, 24))
  }

  /** A byte shifted to its place. */
  function At(b: bv8, shift: nat): bv32 {
    if shift == 0 then b as bv32
    else if shift == 8 then (b as bv32) << 8
    else if shift == 16 then (b as bv32) << 16
    else (b as bv32) << 24
  }

  lemma WordIsSum(b0: bv8, b1: bv8, b2: bv8, b3: bv8, big: bool)
    ensures Word(b0, b1, b2, b3, big) == Sum(b0, b1, b2, b3, big)
  {
  }

  /** One case of the switch: x += b << shift. */
  function Plus(x: bv32, b: bv8, shift: nat): bv32 { Add(x, At(b, shift)) }

  lemma PlusZero(x: bv32, shift: nat)
    ensures Plus(x, 0, shift) == x
  {
  }

  lemma Associate(x: bv32, y: bv32, z: bv32)
    ensures x + (y + z) == (x + y) + z && x + y == y + x
  {
  }

  lemma AddLaws(x: bv32, y: bv32, z: bv32)
    ensures Add(x, Add(y, z)) == Add(Add(x, y), z) && Add(x, y) == Add(y, x)
  {
    Associate(x, y, z);
  }

  lemma Regroup(x: bv32, p: bv32, q: bv32, r: bv32, s: bv32)
    ensures Add(x, Add(Add(Add(p, q), r), s)) == Add(Add(Add(Add(x, s), r), q), p)
    ensures Add(x, Add(Add(Add(p, q), r), s)) == Add(Add(Add(Add(x, p), q), r), s)
  {
    hide Add;
    var pq, xs := Add(p, q), Add(x, s);
    var pqr := Add(pq, r);
    AddLaws(x, pqr, s);
    AddLaws(x, pq, r);
    AddLaws(x, p, q);
    AddLaws(pqr, s, s);
    AddLaws(x, s, pqr);
    AddLaws(pq, r, r);
    AddLaws(xs, r, pq);
    AddLaws(p, q, q);
    AddLaws(Add(xs, r), q, p);
  }

  lemma AddWord(x: bv32, b0: bv8, b1: bv8, b2: bv8, b3: bv8, big: bool)
    ensures Add(x, Word(b0, b1, b2, b3, big))
            == if big then Plus(Plus(Plus(Plus(x, b3, 0), b2, 8), b1, 16), b0, 24)
               else Plus(Plus(Plus(Plus(x, b3, 24), b2, 16), b1, 8), b0, 0)
  {
    hide Word, Add, At;
    WordIsSum(b0, b1, b2, b3, big);
    if big {
      Regroup(x, At(b3, 0), At(b2, 8), At(b1, 16), At(b0, 24));
    } else {
      Regroup(x, At(b0, 0), At(b1, 8), At(b2, 16), At(b3, 24));
    }
  }

  /** The word-at-a-time loop over an aligned key. */
  method AlignedBlocks(s0: Abc, k: seq<bv8>, big: bool) returns (s: Abc, i: nat)
    ensures i <= |k| && (s, k[i..]) == Blocks(s0, k, big)
  {
    hide Mix, Word, Add;
    s, i := s0, 0;
    assert k[0..] == k;
    while |k| - i >= 12
      invariant i <= |k| && Blocks(s, k[i..], big) == Blocks(s0, k, big)
    {
      var ka := k[i..];
      assert ka[12..] == k[i + 12..];
      s := Mix(AddBlock(s, Load(ka, 0, big), Load(ka, 4, big), Load(ka, 8, big)));
      i := i + 12;
    }
  }

  /** The byte-at-a-time loop over an unaligned key. */
  method UnalignedBlocks(s0: Abc, k: seq<bv8>, big: bool) returns (s: Abc, i: nat)
    ensures i <= |k| && (s, k[i..]) == Blocks(s0, k, big)
  {
    hide Mix, Word, Sum, Add;
    s, i := s0, 0;
    assert k[0..] == k;
    while |k| - i >= 12
      invariant i <= |k| && Blocks(s, k[i..], big) == Blocks(s0, k, big)
    {
      var p := k[i..];
      assert p[12..] == k[i + 12..];
      WordIsSum(p[0], p[1], p[2], p[3], big);
      WordIsSum(p[4], p[5], p[6], p[7], big);
      WordIsSum(p[8], p[9], p[10], p[11], big);
      s := AddBlock(s, Sum(p[0], p[1], p[2], p[3], big), Sum(p[4], p[5], p[6], p[7], big), Sum(p[8], p[9], p[10], p[11], big));
      s := Mix(s);
      i := i + 12;
    }
  }

  /** The switch over the last bytes of an aligned key: whole words where there are any. */
  method AlignedTail(s0: Abc, k: seq<bv8>, big: bool) returns (s: Abc)
    requires |k| < 12
    ensures s == Tail(s0, k, big)
  {
    hide Word, Plus, Add;
    TailIsSums(s0, k, big);
    var a, b, c, len := s0.a, s0.b, s0.c, |k|;
    if len >= 8 {
      if len >= 11 { c := Plus(c, k[10], if big then 8 else 24); }
      if len >= 10 { c := Plus(c, k[9], 16); }
      if len >= 9 { c := Plus(c, k[8], if big then 24 else 8); }
      b := Add(b, Load(k, 4, big));
      a := Add(a, Load(k, 0, big));
    } else if len >= 4 {
      if len >= 7 { b := Plus(b, k[6], if big then 8 else 16); }
      if len >= 6 { b := Plus(b, k[5], if big then 16 else 8); }
      if len >= 5 { b := Plus(b, k[4], if big then 24 else 0); }
      a := Add(a, Load(k, 0, big));
    } else {
      if len >= 3 { a := Plus(a, k[2], if big then 8 else 16); }
      if len >= 2 { a := Plus(a, k[1], if big then 16 else 8); }
      if len >= 1 { a := Plus(a, k[0], if big then 24 else 0); }
    }
    s := Abc(a, b, c);
  }

  /** The switch over the last bytes of an unaligned key, falling through from case to case. */
  method UnalignedTail(s0: Abc, k: seq<bv8>, big: bool) returns (s: Abc)
    requires |k| < 12
    ensures s == Tail(s0, k, big)
  {
    hide Word, Plus, Add;
    TailIsSums(s0, k, big);
    var a, b, c, len := s0.a, s0.b, s0.c, |k|;
    if len >= 11 { c := Plus(c, k[10], if big then 8 else 24); }
    if len >= 10 { c := Plus(c, k[9], 16); }
    if len >= 9 { c := Plus(c, k[8], if big then 24 else 8); }
    if len >= 8 { b := Plus(b, k[7], if big then 0 else 24); }
    if len >= 7 { b := Plus(b, k[6], if big then 8 else 16); }
    if len >= 6 { b := Plus(b, k[5], if big then 16 else 8); }
    if len >= 5 { b := Plus(b, k[4], if big then 24 else 0); }
    if len >= 4 { a := Plus(a, k[3], if big then 0 else 24); }
    if len >= 3 { a := Plus(a, k[2], if big then 8 else 16); }
    if len >= 2 { a := Plus(a, k[1], if big then 16 else 8); }
    if len >= 1 { a := Plus(a, k[0], if big then 24 else 0); }
    s := Abc(a, b, c);
  }

  /** The bytes of a word added one at a time, from the last to the first; absent bytes add nothing. */
  ghost function Chain(x: bv32, k: seq<bv8>, i: nat, big: bool): bv32 {
    if big then Plus(Plus(Plus(Plus(x, Byte(k, i + 3), 0), Byte(k, i + 2), 8), Byte(k, i + 1), 16), Byte(k, i), 24)
    else Plus(Plus(Plus(Plus(x, Byte(k, i + 3), 24), Byte(k, i + 2), 16), Byte(k, i + 1), 8), Byte(k, i), 0)
  }

  ghost function LastChain(x: bv32, k: seq<bv8>, big: bool): bv32 {
    if big then Plus(Plus(Plus(x, Byte(k, 10), 8), Byte(k, 9), 16), Byte(k, 8), 24)
    else Plus(Plus(Plus(x, Byte(k, 10), 24), Byte(k, 9), 16), Byte(k, 8), 8)
  }

  lemma TailIsSums(s: Abc, k: seq<bv8>, big: bool)
    ensures Tail(s, k, big) == Abc(Chain(s.a, k, 0, big), Chain(s.b, k, 4, big), LastChain(s.c, k, big))
    ensures forall x: bv32, shift: nat :: Plus(x, 0, shift) == x
    ensures |k| >= 4 ==> Add(s.a, Load(k, 0, big)) == Chain(s.a, k, 0, big)
    ensures |k| >= 8 ==> Add(s.b, Load(k, 4, big)) == Chain(s.b, k, 4, big)
  {
    hide Word, Plus, Add;
    AddWord(s.a, Byte(k, 0), Byte(k, 1), Byte(k, 2), Byte(k, 3), big);
    AddWord(s.b, Byte(k, 4), Byte(k, 5), Byte(k, 6), Byte(k, 7), big);
    forall x: bv32, shift: nat
      ensures Plus(x, 0, shift) == x
    {
      PlusZero(x, shift);
    }
    if big {
      AddWord(s.c, Byte(k, 8), Byte(k, 9), Byte(k, 10), 0, big);
    } else {
      AddWord(s.c, 0, Byte(k, 8), Byte(k, 9), Byte(k, 10), big);
    }
  }

  /** hash_bytes: for every key and length the aligned and the unaligned path give the same hash. */
  method HashKey(k: seq<bv8>, aligned: bool, big: bool) returns (h: bv32)
    ensures h == Hash(k, big)
  {
    hide Final, Tail, Blocks, Start;
    var s, i := Start(|k|), 0;
    if aligned {
      s, i := AlignedBlocks(s, k, big);
      s := AlignedTail(s, k[i..], big);
    } else {
      s, i := UnalignedBlocks(s, k, big);
      s := UnalignedTail(s, k[i..], big);
    }
    h := Final(s).c;
  }

  // ----- A known answer -----

  lemma MixExample()
    ensures Mix(Abc(0xa2765868, 0xa67a5c6c, 0xaa7e6070)) == Abc(0x1abe5a19, 0x15f9355e, 0x513a016c)
  {
  }

  lemma FinExamples()
    ensures Fin(0x6850166c, 0x2a0c476f, 14) == 0x30808680 && Fin(0x2acd6826, 0x30808680, 11) == 0x1619ed22
    ensures Fin(0x2a0c476f, 0x1619ed22, 25) == 0xf7e97673 && Fin(0x30808680, 0xf7e97673, 16) == 0x50f5f90a
    ensures Fin(0x1619ed22, 0x50f5f90a, 4) == 0x378c8383 && Fin(0xf7e97673, 0x378c8383, 14) == 0x9f85280d
    ensures Fin(0x50f5f90a, 0x9f85280d, 24) == 0xc1d14bdf
  {
  }

  lemma FinalExample()
    ensures Final(Abc(0x2acd6826, 0x2a0c476f, 0x6850166c)).c == 0xc1d14bdf
  {
    hide Fin;
    FinExamples();
  }

  /** The key 1, 2, ..., 23, on a little-endian machine. */
  lemma HashExample()
    ensures Hash([1, 2, 3, 4, 5, 6, 7, 8, 9, 10, 11, 12] + [13, 14, 15, 16, 17, 18, 19, 20, 21, 22, 23], false) == 0xc1d14bdf
  {
    OneBlockExample([1, 2, 3, 4, 5, 6, 7, 8, 9, 10, 11, 12], [13, 14, 15, 16, 17, 18, 19, 20, 21, 22, 23]);
    hide Hash, Final, Tail;
    TailExample();
    FinalExample();
  }

  /** One block of twelve bytes and a tail. */
  lemma OneBlockExample(x: seq<bv8>, y: seq<bv8>)
    requires x == [1, 2, 3, 4, 5, 6, 7, 8, 9, 10, 11, 12] && |y| == 11
    ensures Hash(x + y, false) == Final(Tail(Abc(0x1abe5a19, 0x15f9355e, 0x513a016c), y, false)).c
  {
    var k, s := x + y, Abc(0x1abe5a19, 0x15f9355e, 0x513a016c);
    assert k[12..] == y;
    FirstBlockExample(k);
    hide Final, Tail, Mix, AddBlock, Load, Start;
    assert Blocks(s, y, false) == (s, y);
  }

  lemma FirstBlockExample(k: seq<bv8>)
    requires |k| == 23 && k[0] == 1 && k[1] == 2 && k[2] == 3 && k[3] == 4 && k[4] == 5 && k[5] == 6
    requires k[6] == 7 && k[7] == 8 && k[8] == 9 && k[9] == 10 && k[10] == 11 && k[11] == 12
    ensures Mix(AddBlock(Start(23), Load(k, 0, false), Load(k, 4, false), Load(k, 8, false)))
            == Abc(0x1abe5a19, 0x15f9355e, 0x513a016c)
  {
    StartExample();
    MixExample();
    hide Mix, Start;
    assert Load(k, 0, false) == 0x04030201;
    assert Load(k, 4, false) == 0x08070605;
    assert Load(k, 8, false) == 0x0c0b0a09;
  }

  lemma StartExample()
    ensures Start(23) == Abc(0x9e735667, 0x9e735667, 0x9e735667)
  {
    assert Len32(23) == 23;
  }

  lemma TailExample()
    ensures Tail(Abc(0x1abe5a19, 0x15f9355e, 0x513a016c), [13, 14, 15, 16, 17, 18, 19, 20, 21, 22, 23], false)
            == Abc(0x2acd6826, 0x2a0c476f, 0x6850166c)
  {
  }

  /** The byte order of words and of the last bytes on both kinds of machine. */
  lemma OrderExample()
    ensures Word(1, 2, 3, 4, true) == 0x01020304 && Word(1, 2, 3, 4, false) == 0x04030201
    ensures Tail(Abc(0, 0, 0), [1, 2, 3, 4, 5, 6, 7, 8, 9, 10, 11], true) == Abc(0x01020304, 0x05060708, 0x090a0b00)
    ensures Tail(Abc(0, 0, 0), [1, 2, 3, 4, 5, 6, 7, 8, 9, 10, 11], false) == Abc(0x04030201, 0x08070605, 0x0b0a0900)
  {
  }
}
