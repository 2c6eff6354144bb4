/** Steps 3 and 4 of d2d joined (common/d2s.c:380-621): what mulShiftAll computes is an interval that digit removal
    accepts, and the digits are then right for the real rounding interval behind the floors. */
module RyuInterval {
  import opened Common
  import RyuDigits
  import opened RyuMul

  ghost function Times(a: int, p: nat): int { a * p }

  lemma TimesLaws(a: int, b: int, p: nat)
    ensures Times(a + b, p) == Times(a, p) + Times(b, p)
    ensures Times(a - b, p) == Times(a, p) - Times(b, p)
    ensures Times(1, p) == p && Times(2, p) == 2 * p && Times(11, p) == 11 * p
  {
    Distribute(a, b, p);
  }

  /** Comparing multiples of p is comparing their factors. */
  lemma TimesLess(a: int, b: int, p: nat)
    requires p > 0
    ensures a < b <==> Times(a, p) < Times(b, p)
    ensures a == b <==> Times(a, p) == Times(b, p)
  {
    if a < b { AtLeastOne(b - a, p); Distribute(b, a, p); }
    if b < a { AtLeastOne(a - b, p); Distribute(a, b, p); }
  }

  /** q is the floor of x / p. */
  ghost predicate IsFloor(q: int, x: int, p: nat) {
    Times(q, p) <= x < Times(q, p) + p
  }

  ghost function Floor(x: nat, p: nat): nat
    requires p > 0
  {
    x / p
  }

  ghost predicate IsWhole(x: nat, p: nat)
    requires p > 0
  {
    x % p == 0
  }

  /** An interval that stays one when its upper bound, if `whole`, is excluded. */
  ghost predicate Accepted(vm: int, vr: int, vp: int, whole: bool) {
    && 0 <= vm && 0 <= vr && 0 <= vp && RyuDigits.Interval(vm, vr, vp)
    && (whole ==> vp > 0 && RyuDigits.Interval(vm, vr, vp - 1))
  }

  lemma FloorIs(x: nat, p: nat)
    requires p > 0
    ensures IsFloor(Floor(x, p), x, p)
    ensures IsWhole(x, p) <==> x == Times(Floor(x, p), p)
  {
    DivModLaw(x, p);
  }

  lemma FloorsInOrder(u: int, x: int, y: int, v: int, p: nat)
    requires p > 0 && IsFloor(u, x, p) && IsFloor(v, y, p)
    ensures x <= y ==> u <= v
    ensures x + p < y ==> u < v
    ensures x + p < y && y == Times(v, p) ==> u + 1 < v
  {
    hide Times;
    TimesLaws(v, 1, p);
    TimesLaws(u, 1, p);
    TimesLess(u, v + 1, p);
    TimesLess(u, v, p);
    TimesLess(u + 1, v, p);
  }

  /** The upper bound is no closer than the lower one, up to the rounding of the floors. */
  lemma FloorsBalanced(vm: int, vr: int, vp: int, x: int, below: int, above: int, p: nat)
    requires p > 0 && IsFloor(vm, x - below, p) && IsFloor(vr, x, p) && IsFloor(vp, x + above, p) && below <= above
    ensures vp - vr >= vr - vm - 1
    ensures x + above == Times(vp, p) ==> vp - 1 - vr >= vr - vm - 1
  {
    hide Times;
    TimesLaws(vm, vp, p);
    TimesLaws(vr, vr, p);
    TimesLaws(vm + vp, 2, p);
    TimesLaws(vm + vp, 1, p);
    TimesLess(vr + vr, vm + vp + 2, p);
    TimesLess(vr + vr, vm + vp + 1, p);
  }

  /** The floors of a value, of a bound below it and of one at least as far above it form an interval, provided the two
      bounds are more than one apart; and still do when an upper bound that is whole is excluded. */
  lemma FloorsAreInterval(x: nat, below: nat, above: nat, p: nat)
    requires p > 0 && below <= above && below <= x && below + above > p
    ensures Accepted(Floor(x - below, p), Floor(x, p), Floor(x + above, p), IsWhole(x + above, p))
  {
    hide Times, Floor, IsWhole;
    var vm, vr, vp := Floor(x - below, p), Floor(x, p), Floor(x + above, p);
    FloorIs(x - below, p);
    FloorIs(x, p);
    FloorIs(x + above, p);
    if IsWhole(x + above, p) { TimesLess(vr, vp, p); }
    hide IsFloor;
    FloorsInOrder(vm, x - below, x, vr, p);
    FloorsInOrder(vr, x, x + above, vp, p);
    FloorsInOrder(vm, x - below, x + above, vp, p);
    FloorsBalanced(vm, vr, vp, x, below, above, p);
  }

  /** The value that is scaled, and the distance to its lower bound. */
  ghost function Mid(m: nat, mul: nat): nat { 4 * m * mul }
  ghost function Below(mmShift: nat, mul: nat): nat { if mmShift == 1 then 2 * mul else mul }

  /** Results that do not wrap are the three floors themselves. */
  lemma MulShiftFloors(m: Word, mul0: Word, mul1: Word, j: nat, mmShift: nat)
    requires Sizes(m, mul0, mul1) && 65 < j < 128 && mmShift <= 1
    requires var mul := Multiplier(mul0, mul1);
             Floor(Mid(m, mul) + 2 * mul, Pow2(j)) < B64 && (mmShift == 0 ==> !CarryIsLost(m, mul))
    ensures var mul, p := Multiplier(mul0, mul1), Pow2(j);
            var x, below, r := Mid(m, mul), Below(mmShift, mul), MulShiftAll(m, mul0, mul1, j, mmShift);
            below <= x && r.vm == Floor(x - below, p) && r.vr == Floor(x, p) && r.vp == Floor(x + 2 * mul, p)
  {
    hide Multiplier, Pow2, CarryIsLost;
    var mul := Multiplier(mul0, mul1);
    Bounds(m, mul);
    UpperHalves(m, mul0, mul1, j);
    if mmShift == 0 {
      MulShiftAllUneven(m, mul0, mul1, j);
    }
    MulShiftAllCorrect(m, mul0, mul1, j);
    hide MulShiftAll, Mid;
    NoWrap(Mid(m, mul), Below(mmShift, mul), 2 * mul, Pow2(j));
  }

  lemma Bounds(m: nat, mul: nat)
    requires m >= 1
    ensures 2 * mul <= Mid(m, mul) == 4 * m * mul
    ensures (4 * m + 2) * mul == Mid(m, mul) + 2 * mul
    ensures (4 * m - 2) * mul == Mid(m, mul) - 2 * mul
    ensures (4 * m - 1) * mul == Mid(m, mul) - mul
  {
    Multiples(m, mul);
  }

  /** For every mantissa and multiplier whose results do not wrap and whose bounds are more than one apart, mulShiftAll
      hands digit removal an interval; also when a whole upper bound is excluded. With mmShift = 0 this takes that the
      carry is not lost. */
  lemma MulShiftGivesInterval(m: Word, mul0: Word, mul1: Word, j: nat, mmShift: nat)
    requires Sizes(m, mul0, mul1) && 65 < j < 128 && mmShift <= 1
    requires var mul := Multiplier(mul0, mul1);
             && Floor(Mid(m, mul) + 2 * mul, Pow2(j)) < B64
             && Below(mmShift, mul) + 2 * mul > Pow2(j)
             && (mmShift == 0 ==> !CarryIsLost(m, mul))
    ensures var r := MulShiftAll(m, mul0, mul1, j, mmShift);
            var mul := Multiplier(mul0, mul1);
            Accepted(r.vm, r.vr, r.vp, IsWhole(Mid(m, mul) + 2 * mul, Pow2(j)))
  {
    hide Multiplier, Pow2, CarryIsLost, MulShiftAll, Mid, Floor, IsWhole, Accepted;
    var mul := Multiplier(mul0, mul1);
    MulShiftFloors(m, mul0, mul1, j, mmShift);
    FloorsAreInterval(Mid(m, mul), Below(mmShift, mul), 2 * mul, Pow2(j));
  }

  lemma UpperHalves(m: Word, mul0: Word, mul1: Word, j: nat)
    requires 65 < j < 128
    ensures var r, r' := MulShiftAll(m, mul0, mul1, j, 0), MulShiftAll(m, mul0, mul1, j, 1); r.vr == r'.vr && r.vp == r'.vp
  {
    hide Product, PlusMul, MinusMul, Double, ShiftRight128;
  }

  /** What is at most the upper result does not wrap either. */
  lemma NoWrap(x: nat, below: nat, above: nat, p: nat)
    requires p > 0 && below <= x && Floor(x + above, p) < B64
    ensures Floor(x - below, p) % B64 == Floor(x - below, p) && Floor(x, p) % B64 == Floor(x, p)
    ensures Floor(x + above, p) % B64 == Floor(x + above, p)
  {
    hide Times, Floor, IsWhole;
    FloorIs(x - below, p);
    FloorIs(x, p);
    FloorIs(x + above, p);
    hide IsFloor;
    FloorsInOrder(Floor(x - below, p), x - below, x, Floor(x, p), p);
    FloorsInOrder(Floor(x, p), x, x + above, Floor(x + above, p), p);
    Fits(Floor(x - below, p));
    Fits(Floor(x, p));
    Fits(Floor(x + above, p));
  }

  lemma Fits(q: nat)
    ensures q < B64 ==> q % B64 == q
  {
  }

  // ----- From the real rounding interval to the digits -----

  /** The multiple `m` of 10^k, times p, lies between the bounds; the upper one is allowed if `closed`. */
  ghost predicate Inside(lo: nat, hi: nat, p: nat, closed: bool, k: nat, m: int) {
    var s := Times(RyuDigits.Scale(m, k), p);
    lo < s && (s < hi || (closed && s == hi))
  }

  ghost predicate NoneInside(lo: nat, hi: nat, p: nat, closed: bool, k: nat) {
    forall m: int :: !Inside(lo, hi, p, closed, k, m)
  }

  /** How far the multiple `m` of 10^k, times p, is from x. */
  ghost function Off(x: nat, p: nat, k: nat, m: int): int {
    RyuDigits.Abs(Times(RyuDigits.Scale(m, k), p) - x)
  }

  /** No other multiple inside is closer to x / p. */
  ghost predicate Nearest(lo: nat, x: nat, hi: nat, p: nat, closed: bool, k: nat, o: int) {
    forall m: int :: Inside(lo, hi, p, closed, k, m) ==> Off(x, p, k, o) <= Off(x, p, k, m)
  }

  lemma AboveFloor(q: int, y: int, s: int, p: nat)
    requires p > 0 && IsFloor(q, y, p)
    ensures q < s <==> y < Times(s, p)
    ensures y == Times(q, p) ==> (s <= q - 1 <==> Times(s, p) < y)
  {
    hide Times;
    TimesLaws(q, 1, p);
    TimesLess(q, s, p);
    TimesLess(s, q + 1, p);
    TimesLess(s, q, p);
  }

  /** Being in the interval of floors is being in the real interval. */
  lemma LegalIff(lo: nat, hi: nat, p: nat, whole: bool, k: nat, m: int)
    requires p > 0 && (whole ==> IsWhole(hi, p) && Floor(hi, p) > 0)
    ensures RyuDigits.Legal(Floor(lo, p), Floor(hi, p) - (if whole then 1 else 0), k, m) <==> Inside(lo, hi, p, !whole, k, m)
  {
    hide RyuDigits.Scale, Times, Floor, IsWhole;
    var s := RyuDigits.Scale(m, k);
    FloorIs(lo, p);
    FloorIs(hi, p);
    AboveFloor(Floor(lo, p), lo, s, p);
    AboveFloor(Floor(hi, p), hi, s, p);
  }

  /** Sums keep their order when scaled. */
  lemma TimesSums(a: int, b: int, c: int, p: nat)
    requires p > 0
    ensures a + b >= 2 * c ==> Times(a, p) + Times(b, p) >= 2 * Times(c, p)
    ensures a + b >= 2 * c + 2 ==> Times(a, p) + Times(b, p) >= 2 * Times(c, p) + 2 * p
    ensures a + b <= 2 * c ==> Times(a, p) + Times(b, p) <= 2 * Times(c, p)
  {
    hide Times;
    TimesLaws(a, b, p);
    TimesLaws(c, c, p);
    TimesLaws(c + c, 2, p);
    TimesLess(c + c, a + b, p);
    TimesLess(c + c + 2, a + b, p);
  }

  lemma Closer(a: int, b: int, x: int)
    requires (a < b && a + b >= 2 * x) || (b < a && a + b <= 2 * x) || a == b
    ensures RyuDigits.Abs(a - x) <= RyuDigits.Abs(b - x)
  {
  }

  /** Nearer to the floor is nearer to the value, for a whole value and for two even numbers that are no tie. */
  lemma NearerScaled(s: int, m: int, vr: int, x: int, p: nat)
    requires p > 0 && IsFloor(vr, x, p) && RyuDigits.Abs(s - vr) <= RyuDigits.Abs(m - vr)
    requires x == Times(vr, p) || (s % 2 == 0 && m % 2 == 0 && (s < m ==> RyuDigits.Abs(s - vr) < RyuDigits.Abs(m - vr)))
    ensures RyuDigits.Abs(Times(s, p) - x) <= RyuDigits.Abs(Times(m, p) - x)
  {
    hide Times;
    TimesLess(s, m, p);
    TimesLess(m, s, p);
    TimesSums(s, m, vr, p);
    if s < m && x != Times(vr, p) { assert s + m >= 2 * vr + 2; }
    Closer(Times(s, p), Times(m, p), x);
  }

  /** Two multiples of ten on either side of vr at the same distance make vr a multiple of five. */
  lemma TieIsFive(a: int, b: int, vr: nat, k: nat)
    requires k > 0 && RyuDigits.Scale(a, k) < RyuDigits.Scale(b, k)
    requires RyuDigits.Abs(RyuDigits.Scale(a, k) - vr) == RyuDigits.Abs(RyuDigits.Scale(b, k) - vr)
    ensures vr % 5 == 0
  {
    hide RyuDigits.Scale;
    RyuDigits.ScaleIsTens(a, k);
    RyuDigits.ScaleIsTens(b, k);
    assert 2 * vr == 10 * (RyuDigits.Scale(a, k - 1) + RyuDigits.Scale(b, k - 1));
  }

  /** The answer of digit removal is nearest to the value itself, if the value is whole or a digit is removed. */
  lemma AnswerIsNearest(lo: nat, x: nat, hi: nat, p: nat, whole: bool, exact: bool, vp: nat, o: nat, k: nat)
    requires p > 0 && (whole ==> IsWhole(hi, p) && Floor(hi, p) > 0) && vp == Floor(hi, p) - (if whole then 1 else 0)
    requires RyuDigits.ShortestAndClosest(Floor(lo, p), Floor(x, p), vp, exact, o, k)
    requires exact ==> IsWhole(x, p) || Floor(x, p) % 5 != 0
    requires IsWhole(x, p) || k > 0
    ensures Nearest(lo, x, hi, p, !whole, k, o)
  {
    hide RyuDigits.Scale, Times, Floor, IsWhole, Inside;
    var vr, closed := Floor(x, p), !whole;
    FloorIs(x, p);
    forall m: int | Inside(lo, hi, p, closed, k, m)
      ensures Off(x, p, k, o) <= Off(x, p, k, m)
    {
      LegalIff(lo, hi, p, whole, k, m);
      OneNearer(Floor(lo, p), vr, vp, exact, IsWhole(x, p), o, k, m);
      NearerScaled(RyuDigits.Scale(o, k), RyuDigits.Scale(m, k), vr, x, p);
    }
  }

  lemma OneNearer(vm: nat, vr: nat, vp: nat, exact: bool, wholeValue: bool, o: nat, k: nat, m: int)
    requires RyuDigits.ShortestAndClosest(vm, vr, vp, exact, o, k) && RyuDigits.Legal(vm, vp, k, m)
    requires (exact ==> wholeValue || vr % 5 != 0) && (wholeValue || k > 0)
    ensures var s, t := RyuDigits.Scale(o, k), RyuDigits.Scale(m, k);
            && RyuDigits.Abs(s - vr) <= RyuDigits.Abs(t - vr)
            && (wholeValue || (s % 2 == 0 && t % 2 == 0 && (s < t ==> RyuDigits.Abs(s - vr) < RyuDigits.Abs(t - vr))))
  {
    hide RyuDigits.Scale, RyuDigits.Pow10;
    if !wholeValue {
      var s, t := RyuDigits.Scale(o, k), RyuDigits.Scale(m, k);
      RyuDigits.ScaleIsEven(o, k);
      RyuDigits.ScaleIsEven(m, k);
      RyuDigits.ScaleMonotone(m, o, k);
      if s < t && RyuDigits.Abs(s - vr) == RyuDigits.Abs(t - vr) { TieIsFive(o, m, vr, k); }
    }
  }

  /** From the end of step 3 to the end of step 4, for any rounding interval lo / p to hi / p around x / p, given as
      floors: the digits lie inside the interval, nothing shorter does, and they are nearest to the value if that is whole
      or the interval is at least eleven wide. The upper bound can only be met if it is whole and was not excluded. */
  method ShortestDigits(vm: nat, vr: nat, vp: nat, upperIsWhole: bool, vrIsTrailingZeros: bool,
                        ghost lo: nat, ghost x: nat, ghost hi: nat, ghost p: nat)
    returns (output: nat, removed: nat)
    requires p > 0 && lo <= x <= hi && x - lo <= hi - x && hi - lo > p
    requires vm == Floor(lo, p) && vr == Floor(x, p) && vp == Floor(hi, p)
    requires upperIsWhole ==> IsWhole(hi, p)
    requires vrIsTrailingZeros ==> IsWhole(x, p) || vr % 5 != 0
    ensures Inside(lo, hi, p, !upperIsWhole, removed, output)
    ensures NoneInside(lo, hi, p, !upperIsWhole, removed + 1)
    ensures IsWhole(x, p) || hi - lo >= 11 * p ==> Nearest(lo, x, hi, p, !upperIsWhole, removed, output)
  {
    hide Floor, IsWhole, Accepted, Inside, Nearest, RyuDigits.Interval, RyuDigits.ShortestAndClosest;
    FloorsAreInterval(x, x - lo, hi - x, p);
    AcceptedIs(vm, vr, vp, upperIsWhole, IsWhole(hi, p));
    var upper: nat := if upperIsWhole then vp - 1 else vp;
    output, removed := RyuDigits.RemoveDigits(vm, vr, upper, vrIsTrailingZeros);
    AnswerIsInside(vm, vr, upper, vrIsTrailingZeros, output, removed);
    LegalIff(lo, hi, p, upperIsWhole, removed, output);
    NothingInside(lo, hi, p, upperIsWhole, removed + 1, vm, upper);
    if IsWhole(x, p) || hi - lo >= 11 * p {
      if !IsWhole(x, p) {
        WideFloors(lo, hi, p);
        RyuDigits.RemovesIff(vm, vr, upper, vrIsTrailingZeros, output, removed);
      }
      AnswerIsNearest(lo, x, hi, p, upperIsWhole, vrIsTrailingZeros, upper, output, removed);
    }
  }

  lemma AcceptedIs(vm: int, vr: int, vp: int, excluded: bool, whole: bool)
    requires Accepted(vm, vr, vp, whole) && (excluded ==> whole)
    ensures 0 <= vm && 0 <= vr && 0 <= vp && (excluded ==> vp > 0)
    ensures RyuDigits.Interval(vm, vr, if excluded then vp - 1 else vp)
  {
  }

  lemma AnswerIsInside(vm: nat, vr: nat, vp: nat, exact: bool, o: nat, k: nat)
    requires RyuDigits.ShortestAndClosest(vm, vr, vp, exact, o, k)
    ensures RyuDigits.Legal(vm, vp, k, o) && RyuDigits.NoneLegal(vm, vp, k + 1)
  {
  }

  lemma NothingInside(lo: nat, hi: nat, p: nat, whole: bool, k: nat, vm: nat, vp: nat)
    requires p > 0 && (whole ==> IsWhole(hi, p) && Floor(hi, p) > 0)
    requires vm == Floor(lo, p) && vp == Floor(hi, p) - (if whole then 1 else 0) && RyuDigits.NoneLegal(vm, vp, k)
    ensures NoneInside(lo, hi, p, !whole, k)
  {
    hide Inside, Floor, IsWhole;
    var closed := !whole;
    forall m: int
      ensures !Inside(lo, hi, p, closed, k, m)
    {
      LegalIff(lo, hi, p, whole, k, m);
      assert !RyuDigits.Legal(vm, vp, k, m);
    }
  }

  /** Bounds eleven apart have floors so far apart that a digit is removed, even without the upper one. */
  lemma WideFloors(lo: nat, hi: nat, p: nat)
    requires p > 0 && hi - lo >= 11 * p
    ensures (Floor(hi, p) - 1) / 10 > Floor(lo, p) / 10 && Floor(hi, p) / 10 > Floor(lo, p) / 10
  {
    hide Times, Floor, IsWhole;
    var a, b := Floor(lo, p), Floor(hi, p);
    FloorIs(lo, p);
    FloorIs(hi, p);
    TimesLaws(a, 11, p);
    TimesLaws(b, 1, p);
    TimesLess(a + 11, b + 1, p);
    assert b - 1 >= a + 10;
  }

  // ----- The flag of lines 474-489 -----

  function Pow5(k: nat): (r: nat) {
    if k == 0 then 1 else 5 * Pow5(k - 1)
  }

  /** The flag asks for one factor of two less than a whole value needs. That does no harm: the value is then whole, or
      its whole part ends in 2 or 7 and no removed digits of it form an exact half. */
  lemma FlagIsSafe(mv: nat, i: nat, q: nat)
    requires i >= 1 && q >= 1 && mv % Pow2(q - 1) == 0
    ensures IsWhole(mv * Pow5(i), Pow2(q)) || Floor(mv * Pow5(i), Pow2(q)) % 5 == 2
  {
    var h, f := Pow2(q - 1), Pow5(i - 1);
    assert Pow2(q) == 2 * h && Pow5(i) == 5 * f;
    hide Pow2, Pow5;
    FlagArithmetic(mv, f, h);
  }

  lemma FlagArithmetic(mv: nat, f: nat, h: nat)
    requires h > 0 && mv % h == 0
    ensures IsWhole(mv * (5 * f), 2 * h) || Floor(mv * (5 * f), 2 * h) % 5 == 2
  {
    var t := mv / h;
    DivModLaw(mv, h);
    var u := t * f;
    assert mv * (5 * f) == 5 * u * h by { Regrouped(t, h, f); }
    HalfOf(5 * u, h);
    assert 5 * u % 2 != 0 ==> 5 * u / 2 % 5 == 2;
  }

  lemma Regrouped(t: nat, h: nat, f: nat)
    ensures t * h * (5 * f) == 5 * (t * f) * h
  {
  }

  /** n * h over 2h is the half of n, rounded down if n is odd. */
  lemma HalfOf(n: nat, h: nat)
    requires h > 0
    ensures n * h / (2 * h) == n / 2 && (n * h % (2 * h) == 0 <==> n % 2 == 0)
  {
    var q, r := n / 2, n % 2;
    assert (2 * q + r) * h == q * (2 * h) + r * h;
    assert r == 0 || r == 1;
    DivUnique(n * h, 2 * h, q, r * h);
  }
}
