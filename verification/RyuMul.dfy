/** The multiword multiplication behind the 64-bit-only mulShiftAll (common/d2s.c:219-259) and its
    portable helpers (common/d2s_intrinsics.h:64-112). Words are integers below 2^64; every addition,
    subtraction and shift is reduced modulo 2^64 or 2^32 where the C type reduces it. */
module RyuMul {
  import opened Common

  const B32: int := 0x1_0000_0000
  const B64: int := 0x1_0000_0000_0000_0000
  const B128: int := B64 * B64

  type Word = x: int | 0 <= x < B64

  function Add(a: int, b: int): Word { (a + b) % B64 }
  function Sub(a: int, b: int): Word { (a - b) % B64 }

  /** umul128: schoolbook multiplication on 32-bit halves. */
  function Umul128(a: Word, b: Word): (r: (Word, Word))
  {
    var aLo, aHi, bLo, bHi := a % B32, a / B32, b % B32, b / B32;
    var b00, b01, b10, b11 := aLo * bLo, aLo * bHi, aHi * bLo, aHi * bHi;
    var mid1 := Add(b10, b00 / B32);
    var mid2 := Add(b01, mid1 % B32);
    (Add(Add(b11, mid1 / B32), mid2 / B32), Add(mid2 % B32 * B32, b00 % B32))
  }

  const HALF_MAX: int := 0xFFFF_FFFE_0000_0001  // (2^32 - 1)^2

  lemma HalfProducts(x: nat, y: nat)
    requires x < B32 && y < B32
    ensures 0 <= x * y <= HALF_MAX
  {
    MulMax(x, y, B32 - 1);
  }

  lemma MulMax(x: nat, y: nat, m: nat)
    requires x <= m && y <= m
    ensures 0 <= x * y <= m * m
  {
    assert x * y <= m * y;
    assert m * y <= m * m;
  }

  /** umul128 returns the exact 128-bit product: no intermediate sum overflows. */
  lemma Umul128Correct(a: Word, b: Word)
    ensures var (hi, lo) := Umul128(a, b); hi * B64 + lo == a * b
  {
    var aLo, aHi, bLo, bHi := a % B32, a / B32, b % B32, b / B32;
    HalfProducts(aLo, bLo);
    HalfProducts(aLo, bHi);
    HalfProducts(aHi, bLo);
    HalfProducts(aHi, bHi);
    Expand(aLo, aHi, bLo, bHi);
    Schoolbook(aLo * bLo, aLo * bHi, aHi * bLo, aHi * bHi, a * b);
  }

  lemma Expand(aLo: nat, aHi: nat, bLo: nat, bHi: nat)
    ensures (aHi * B32 + aLo) * (bHi * B32 + bLo) == aHi * bHi * B64 + (aHi * bLo + aLo * bHi) * B32 + aLo * bLo
  {
  }

  lemma AddSmall(a: int, b: int)
    requires 0 <= a + b < B64
    ensures Add(a, b) == a + b
  {
  }

  lemma Halves(x: nat)
    ensures x == x / B32 * B32 + x % B32 && 0 <= x % B32 < B32
    ensures x <= HALF_MAX + B32 - 1 ==> x / B32 <= B32 - 1
  {
  }

  lemma Schoolbook(b00: nat, b01: nat, b10: nat, b11: nat, product: int)
    requires b00 <= HALF_MAX && b01 <= HALF_MAX && b10 <= HALF_MAX && b11 <= HALF_MAX
    requires product == b11 * B64 + (b10 + b01) * B32 + b00 && product < B64 * B64
    ensures var mid1 := Add(b10, b00 / B32);
            var mid2 := Add(b01, mid1 % B32);
            Add(Add(b11, mid1 / B32), mid2 / B32) * B64 + Add(mid2 % B32 * B32, b00 % B32) == product
  {
    hide Add;
    Halves(b00);
    var mid1 := b10 + b00 / B32;
    AddSmall(b10, b00 / B32);
    Halves(mid1);
    var mid2 := b01 + mid1 % B32;
    AddSmall(b01, mid1 % B32);
    Halves(mid2);
    AddSmall(mid2 % B32 * B32, b00 % B32);
    AddSmall(b11, mid1 / B32);
    AddSmall(b11 + mid1 / B32, mid2 / B32);
  }

  // ----- Shifting a two-word number -----

  /** shiftright128: the two parts share no bits, so their bitwise or is their sum. */
  function ShiftRight128(lo: Word, hi: Word, dist: nat): (r: int)
    requires 0 < dist < 64
  {
    hi * Pow2(64 - dist) % B64 + lo / Pow2(dist)
  }

  lemma {:induction false} Pow2Add(i: nat, j: nat)
    ensures Pow2(i + j) == Pow2(i) * Pow2(j)
    decreases j
  {
    if j > 0 {
      Pow2Add(i, j - 1);
      assert Pow2(i) * (2 * Pow2(j - 1)) == 2 * (Pow2(i) * Pow2(j - 1));
    }
  }

  lemma Pow2At64()
    ensures Pow2(64) == B64
  {
    assert Pow2(8) == 256;
    hide Pow2;
    Pow2Add(8, 8);
    Pow2Add(16, 16);
    Pow2Add(32, 32);
  }

  lemma Pow2Is64(d: nat)
    requires d <= 64
    ensures Pow2(d) * Pow2(64 - d) == B64
  {
    hide Pow2;
    Pow2Add(d, 64 - d);
    Pow2At64();
  }

  lemma Distribute(a: int, b: int, p: int)
    ensures (a + b) * p == a * p + b * p
    ensures (a - b) * p == a * p - b * p
  {
  }

  lemma AtLeastOne(a: int, p: nat)
    requires a >= 1
    ensures a * p >= p
  {
  }

  lemma NotNegative(a: nat, p: nat)
    ensures a * p >= 0
  {
  }

  lemma DivModLaw(x: nat, p: nat)
    requires p >= 1
    ensures x == x / p * p + x % p && 0 <= x % p < p
  {
  }

  /** Quotient and remainder are unique. */
  lemma DivUnique(x: nat, p: nat, q: nat, r: nat)
    requires r < p && x == q * p + r
    ensures x / p == q && x % p == r
  {
    DivModLaw(x, p);
    SameQuotient(q, r, x / p, x % p, p);
  }

  lemma SameQuotient(q: nat, r: nat, t: nat, u: nat, p: nat)
    requires r < p && u < p && q * p + r == t * p + u
    ensures q == t && r == u
  {
    Distribute(q, t, p);
    if q > t {
      AtLeastOne(q - t, p);
    } else if t > q {
      AtLeastOne(t - q, p);
    }
  }

  /** The shift is the floor of the two-word number over 2^dist, in the low 64 bits. */
  lemma ShiftIsFloor(lo: Word, hi: Word, dist: nat)
    requires 0 < dist < 64
    ensures 0 <= ShiftRight128(lo, hi, dist) < B64
    ensures ShiftRight128(lo, hi, dist) == (hi * B64 + lo) / Pow2(dist) % B64
  {
    Pow2Is64(dist);
    var p, q := Pow2(dist), Pow2(64 - dist);
    hide Pow2;
    ShiftParts(lo, hi, p, q);
  }

  lemma ShiftParts(lo: nat, hi: nat, p: nat, q: nat)
    requires p >= 1 && q >= 1 && p * q == B64 && lo < B64
    ensures 0 <= hi * q % B64 + lo / p < B64
    ensures hi * q % B64 + lo / p == (hi * B64 + lo) / p % B64
  {
    DivModLaw(lo, p);
    DivModLaw(hi, p);
    var y, z, h, g := lo / p, lo % p, hi % p, hi / p;
    LowPart(y, z, p, q);
    HighPart(h, p, q);
    // (hi * B64 + lo) / p == hi * q + y
    Regroup(hi, q, p, y);
    DivUnique(hi * B64 + lo, p, hi * q + y, z);
    // hi * q == g * B64 + h * q, and h * q + y stays below B64
    Regroup(g, p, q, h);
    DivUnique(hi * q, B64, g, h * q);
    DivUnique(hi * q + y, B64, g, h * q + y);
  }

  lemma LowPart(y: nat, z: nat, p: nat, q: nat)
    requires y * p + z < p * q
    ensures y < q
  {
    if y >= q {
      Distribute(y, q, p);
      NotNegative(y - q, p);
    }
  }

  lemma HighPart(h: nat, p: nat, q: nat)
    requires h < p
    ensures h * q + q <= p * q
  {
    Distribute(p, h, q);
    AtLeastOne(p - h, q);
  }

  lemma Regroup(a: nat, q: nat, p: nat, y: nat)
    ensures (a * q + y) * p == a * (q * p) + y * p
    ensures q * p == p * q
  {
    Distribute(a * q, y, p);
  }

  // ----- mulShiftAll -----

  /** A three-word number. */
  function Value(hi: int, mid: int, lo: int): int { hi * B128 + mid * B64 + lo }

  function Carry(b: bool): int { if b then 1 else 0 }

  /** Lines 223-230: twice `m` times the multiplier, as hi, mid, lo. */
  function Product(m: Word, mul0: Word, mul1: Word): (r: (Word, Word, Word))
  {
    var m2 := Add(m, m);
    var (tmp, lo) := Umul128(m2, mul0);
    var (hi, x) := Umul128(m2, mul1);
    var mid := Add(tmp, x);
    (Add(hi, Carry(mid < tmp)), mid, lo)
  }

  /** Lines 232-234. */
  function PlusMul(hi: Word, mid: Word, lo: Word, mul0: Word, mul1: Word): (r: (Word, Word, Word))
  {
    var lo2 := Add(lo, mul0);
    var mid2 := Add(Add(mid, mul1), Carry(lo2 < lo));
    (Add(hi, Carry(mid2 < mid)), mid2, lo2)
  }

  /** Lines 240-242 and 251-253. */
  function MinusMul(hi: Word, mid: Word, lo: Word, mul0: Word, mul1: Word): (r: (Word, Word, Word))
  {
    var lo3 := Sub(lo, mul0);
    var mid3 := Sub(Sub(mid, mul1), Carry(lo3 > lo));
    (Sub(hi, Carry(mid3 > mid)), mid3, lo3)
  }

  /** Lines 248-250. */
  function Double(hi: Word, mid: Word, lo: Word): (r: (Word, Word, Word))
  {
    var lo3 := Add(lo, lo);
    var mid3 := Add(Add(mid, mid), Carry(lo3 < lo));
    (Add(Add(hi, hi), Carry(mid3 < mid)), mid3, lo3)
  }

  datatype Shifted = Shifted(vr: int, vp: int, vm: int)

  function MulShiftAll(m: Word, mul0: Word, mul1: Word, j: nat, mmShift: nat): (r: Shifted)
    requires 65 < j < 128
  {
    var (hi, mid, lo) := Product(m, mul0, mul1);
    var (hi2, mid2, _) := PlusMul(hi, mid, lo, mul0, mul1);
    var vp := ShiftRight128(mid2, hi2, j - 65);
    var vm :=
      if mmShift == 1 then
        var (hi3, mid3, _) := MinusMul(hi, mid, lo, mul0, mul1);
        ShiftRight128(mid3, hi3, j - 65)
      else
        var (hi3, mid3, lo3) := Double(hi, mid, lo);
        var (hi4, mid4, _) := MinusMul(hi3, mid3, lo3, mul0, mul1);
        ShiftRight128(mid4, hi4, j - 64);
    Shifted(ShiftRight128(mid, hi, j - 65), vp, vm)
  }

  /** The sizes the source works with: a 53-bit mantissa and a multiplier of at most 124 bits. */
  ghost predicate Sizes(m: Word, mul0: Word, mul1: Word) {
    1 <= m < 0x20_0000_0000_0000 && mul1 < 0x1000_0000_0000_0000
  }

  ghost function Multiplier(mul0: Word, mul1: Word): nat { mul1 * B64 + mul0 }

  lemma ProductCorrect(m: Word, mul0: Word, mul1: Word)
    requires Sizes(m, mul0, mul1)
    ensures var (hi, mid, lo) := Product(m, mul0, mul1);
            Value(hi, mid, lo) == 2 * m * Multiplier(mul0, mul1) && hi < 0x100_0000_0000_0000
  {
    hide Umul128, Value, Carry, Multiplier;
    var m2: Word := 2 * m;
    assert Add(m, m) == m2;
    hide Add;
    var (tmp, lo) := Umul128(m2, mul0);
    var (hi, x) := Umul128(m2, mul1);
    Umul128Correct(m2, mul0);
    Umul128Correct(m2, mul1);
    MulBelow(m2, mul1, 0x40_0000_0000_0000, 0x1000_0000_0000_0000);
    AddHigh(hi, x, tmp, lo, m2 * mul1, m2 * mul0);
    TimesMultiplier(m2, mul0, mul1);
  }

  lemma TimesMultiplier(x: nat, mul0: Word, mul1: Word)
    ensures x * Multiplier(mul0, mul1) == (x * mul1) * B64 + x * mul0
  {
    Distribute(mul1 * B64, mul0, x);
  }

  lemma AddHigh(hi: Word, x: Word, tmp: Word, lo: Word, p1: nat, p0: nat)
    requires hi * B64 + x == p1 <= 0x40_0000_0000_0000 * 0x1000_0000_0000_0000 && tmp * B64 + lo == p0
    ensures var mid := Add(tmp, x);
            var h := Add(hi, Carry(mid < tmp));
            Value(h, mid, lo) == p1 * B64 + p0 && h < 0x100_0000_0000_0000
  {
    var mid := Add(tmp, x);
    assert tmp + x == Carry(mid < tmp) * B64 + mid;
    assert hi <= 0x40_0000_0000_0000;
  }

  lemma MulBelow(x: nat, y: nat, a: nat, b: nat)
    requires x < a && y < b
    ensures x * y <= a * b
  {
    assert x * y <= a * y;
    assert a * y <= a * b;
  }

  lemma PlusCorrect(hi: Word, mid: Word, lo: Word, mul0: Word, mul1: Word)
    requires hi + 1 < B64 && mul1 + 1 < B64
    ensures var (h, m, l) := PlusMul(hi, mid, lo, mul0, mul1);
            Value(h, m, l) == Value(hi, mid, lo) + Multiplier(mul0, mul1)
  {
  }

  lemma MinusCorrect(hi: Word, mid: Word, lo: Word, mul0: Word, mul1: Word)
    requires mul1 + 1 < B64 && Value(hi, mid, lo) >= Multiplier(mul0, mul1)
    ensures var (h, m, l) := MinusMul(hi, mid, lo, mul0, mul1);
            Value(h, m, l) == Value(hi, mid, lo) - Multiplier(mul0, mul1)
  {
  }

  /** The carry of the doubled middle word is seen, except when that word is all ones and receives a carry. */
  lemma DoubleCorrect(hi: Word, mid: Word, lo: Word)
    requires 2 * hi + 1 < B64
    ensures var (h, m, l) := Double(hi, mid, lo);
            Value(h, m, l) == 2 * Value(hi, mid, lo) - if mid == B64 - 1 && 2 * lo >= B64 then B128 else 0
  {
    var lo3 := Add(lo, lo);
    var c := Carry(lo3 < lo);
    assert 2 * lo == c * B64 + lo3;
    var mid3 := Add(Add(mid, mid), c);
    var e := Carry(mid3 < mid);
    if mid == B64 - 1 && c == 1 {
      assert mid3 == mid;
    } else {
      assert 2 * mid + c == e * B64 + mid3;
    }
  }

  // ----- The theorems -----

  lemma DivDiv(x: nat, a: nat, b: nat)
    requires a >= 1 && b >= 1
    ensures a * b >= 1 && x / a / b == x / (a * b)
  {
    AtLeastOne(a, b);
    DivModLaw(x, a);
    var y, r := x / a, x % a;
    DivModLaw(y, b);
    var z, u := y / b, y % b;
    Regroup(z, b, a, u);
    HighPart(u, b, a);
    DivUnique(x, a * b, z, u * a + r);
  }

  /** Cutting 2^(64 + dist) off a three-word number is the shift of its two upper words. */
  lemma ShiftOfValue(hi: Word, mid: Word, lo: Word, dist: nat)
    requires 0 < dist < 64
    ensures ShiftRight128(mid, hi, dist) == Value(hi, mid, lo) / Pow2(64 + dist) % B64
  {
    hide Pow2, ShiftRight128;
    ShiftIsFloor(mid, hi, dist);
    Pow2Add(64, dist);
    Pow2At64();
    var x := Value(hi, mid, lo);
    assert x / B64 == hi * B64 + mid;
    DivDiv(x, B64, Pow2(dist));
  }

  lemma HalveBoth(x: nat, k: nat)
    ensures 2 * x / Pow2(k + 1) == x / Pow2(k)
  {
    assert Pow2(k + 1) == 2 * Pow2(k);
    hide Pow2;
    DivDiv(2 * x, 2, Pow2(k));
  }

  /** With mmShift = 1 every carry and borrow is right: the three results are the floors of 4m, 4m + 2
      and 4m - 2 times the multiplier over 2^j, in 64 bits. */
  lemma MulShiftAllCorrect(m: Word, mul0: Word, mul1: Word, j: nat)
    requires Sizes(m, mul0, mul1) && 65 < j < 128
    ensures var r := MulShiftAll(m, mul0, mul1, j, 1);
            var mul := Multiplier(mul0, mul1);
            && r.vr == 4 * m * mul / Pow2(j) % B64
            && r.vp == (4 * m + 2) * mul / Pow2(j) % B64
            && (4 * m - 2) * mul >= 0 && r.vm == (4 * m - 2) * mul / Pow2(j) % B64
  {
    hide Product, PlusMul, MinusMul, Pow2, ShiftRight128, Multiplier;
    var mul := Multiplier(mul0, mul1);
    var p := 2 * m * mul;
    var (hi, mid, lo) := Product(m, mul0, mul1);
    ProductCorrect(m, mul0, mul1);
    PlusCorrect(hi, mid, lo, mul0, mul1);
    Multiples(m, mul);
    MinusCorrect(hi, mid, lo, mul0, mul1);
    var (hi2, mid2, lo2) := PlusMul(hi, mid, lo, mul0, mul1);
    var (hi3, mid3, lo3) := MinusMul(hi, mid, lo, mul0, mul1);
    hide Value;
    ShiftOfValue(hi, mid, lo, j - 65);
    ShiftOfValue(hi2, mid2, lo2, j - 65);
    ShiftOfValue(hi3, mid3, lo3, j - 65);
    HalveBoth(p, j - 1);
    HalveBoth(p + mul, j - 1);
    HalveBoth(p - mul, j - 1);
  }

  lemma Multiples(m: nat, mul: nat)
    requires m >= 1
    ensures 4 * m * mul == 2 * (2 * m * mul)
    ensures (4 * m + 2) * mul == 2 * (2 * m * mul + mul)
    ensures (4 * m - 2) * mul == 2 * (2 * m * mul - mul)
    ensures (4 * m - 1) * mul == 2 * (2 * m * mul) - mul
    ensures 2 * m * mul >= mul
  {
    AtLeastOne(2 * m, mul);
    Distribute(4 * m, 2, mul);
    Distribute(4 * m, 1, mul);
  }

  /** The middle word of 2m * multiplier is all ones and the low word has its top bit set. */
  ghost predicate CarryIsLost(m: nat, mul: nat) {
    2 * m * mul % B128 >= B128 - B64 / 2
  }

  /** With mmShift = 0 the third result is the floor of 4m - 1 times the multiplier over 2^j exactly
      when that carry is not lost. */
  lemma MulShiftAllUneven(m: Word, mul0: Word, mul1: Word, j: nat)
    requires Sizes(m, mul0, mul1) && 65 < j < 128
    ensures var r := MulShiftAll(m, mul0, mul1, j, 0);
            var mul := Multiplier(mul0, mul1);
            (4 * m - 1) * mul >= 0 && (r.vm == (4 * m - 1) * mul / Pow2(j) % B64 <==> !CarryIsLost(m, mul))
  {
    hide Product, Double, MinusMul, Pow2, ShiftRight128;
    var mul := Multiplier(mul0, mul1);
    var (hi, mid, lo) := Product(m, mul0, mul1);
    ProductCorrect(m, mul0, mul1);
    Multiples(m, mul);
    DoubleCorrect(hi, mid, lo);
    var (hi3, mid3, lo3) := Double(hi, mid, lo);
    var lost := mid == B64 - 1 && 2 * lo >= B64;
    assert CarryIsLost(m, mul) <==> lost by { LowWords(hi, mid, lo); }
    MinusCorrect(hi3, mid3, lo3, mul0, mul1);
    var (hi4, mid4, lo4) := MinusMul(hi3, mid3, lo3, mul0, mul1);
    ShiftOfValue(hi4, mid4, lo4, j - 64);
    if lost {
      OffByB128((4 * m - 1) * mul, j);
    }
  }

  lemma LowWords(hi: Word, mid: Word, lo: Word)
    ensures Value(hi, mid, lo) % B128 == mid * B64 + lo
  {
    DivUnique(Value(hi, mid, lo), B128, hi, mid * B64 + lo);
  }

  /** Losing 2^128 changes the shifted result. */
  lemma OffByB128(x: nat, j: nat)
    requires 65 < j < 128 && x >= B128
    ensures (x - B128) / Pow2(j) % B64 != x / Pow2(j) % B64
  {
    hide Pow2;
    var p, q := Pow2(j), Pow2(128 - j);
    Complement(j);
    DivModLaw(x, p);
    var t, r := x / p, x % p;
    Distribute(t, q, p);
    LowPart2(t, q, p, r);
    DivUnique(x - B128, p, t - q, r);
    ModShift(t, q);
  }

  lemma Complement(j: nat)
    requires 65 < j < 128
    ensures Pow2(j) * Pow2(128 - j) == B128 == Pow2(128 - j) * Pow2(j) && 1 < Pow2(128 - j) < B64
  {
    hide Pow2;
    Pow2Add(j, 128 - j);
    Pow2Add(64, 64);
    Pow2At64();
    Pow2Add(128 - j, j - 64);
    Pow2Bounds(128 - j, j - 64);
  }

  lemma ModShift(t: nat, q: nat)
    requires q <= t && 0 < q < B64
    ensures (t - q) % B64 != t % B64
  {
  }

  lemma Pow2Bounds(i: nat, k: nat)
    requires i >= 1 && k >= 1 && Pow2(i) * Pow2(k) == B64
    ensures 1 < Pow2(i) < B64
  {
    assert Pow2(i) == 2 * Pow2(i - 1) && Pow2(k) == 2 * Pow2(k - 1);
    assert Pow2(i) * Pow2(k) == 2 * Pow2(i) * Pow2(k - 1);
    AtLeastOne(Pow2(k - 1), 2 * Pow2(i));
  }

  lemma LowPart2(t: nat, q: nat, p: nat, r: nat)
    requires t * p + r >= q * p && r < p
    ensures t >= q
  {
    if t < q { HighPart(t, q, p); }
  }

  /** The one mantissa that step 2 of d2d pairs with mmShift = 0: 2^52. */
  const HIDDEN_BIT: Word := 0x10_0000_0000_0000

  /** At that mantissa the carry is lost exactly when bits 10 to 74 of the multiplier are all ones. */
  lemma CarryLostAtHiddenBit(mul: nat)
    ensures CarryIsLost(HIDDEN_BIT, mul) <==> mul % 0x800_0000_0000_0000_0000 >= 0x800_0000_0000_0000_0000 - 0x400
  {
    var b, h := 0x800_0000_0000_0000_0000, 2 * HIDDEN_BIT;
    assert b * h == B128;
    DivModLaw(mul, b);
    DivUnique(h * mul, B128, mul / b, h * (mul % b));
  }

  /** Such a multiplier exists within the stated sizes. */
  lemma CarryLostExample()
    ensures Sizes(HIDDEN_BIT, B64 - 1, 0xFFF_FFFF_FFFF_FFFF) && CarryIsLost(HIDDEN_BIT, Multiplier(B64 - 1, 0xFFF_FFFF_FFFF_FFFF))
  {
    CarryLostAtHiddenBit(Multiplier(B64 - 1, 0xFFF_FFFF_FFFF_FFFF));
  }
}
