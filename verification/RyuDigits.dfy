/** Step 4 of d2d (common/d2s.c:492-621): the shortest decimal in an interval, closest to the value.
    STRICTLY_SHORTEST is 0 (common/ryu_common.h:46), so the bounds of the interval (vm, vp] are never
    accepted from below and `acceptBounds` and `vmIsTrailingZeros` are false throughout. */
module RyuDigits {

  ghost function Pow10(k: nat): (p: nat)
    ensures p >= 1
  {
    if k == 0 then 1 else 10 * Pow10(k - 1)
  }

  /** `m` with `k` zeros after it. */
  ghost function Scale(m: int, k: nat): int {
    m * Pow10(k)
  }

  ghost function Abs(x: int): (r: int)
    ensures r >= 0
  {
    if x < 0 then -x else x
  }

  /** `m` with `k` zeros after it lies in the interval (vm, vp]. */
  ghost predicate Legal(vm: nat, vp: nat, k: nat, m: int) {
    vm < Scale(m, k) <= vp
  }

  ghost predicate NoneLegal(vm: nat, vp: nat, k: nat) {
    forall m: int :: !Legal(vm, vp, k, m)
  }

  /** What steps 2 and 3 hand over: the value between its bounds, no closer to the upper one. */
  ghost predicate Interval(vm: nat, vr: nat, vp: nat) {
    vm <= vr <= vp && vm < vp && vp - vr >= vr - vm - 1
  }

  /** `v` with its last `k` digits removed, and the number those digits form. */
  ghost function Top(v: nat, k: nat): nat {
    if k == 0 then v else Top(v, k - 1) / 10
  }

  ghost function Bottom(v: nat, k: nat): int {
    if k == 0 then 0 else Scale(Top(v, k - 1) % 10, k - 1) + Bottom(v, k - 1)
  }

  /** The answer: `output` is legal at `k` removed digits, nothing legal is shorter, nothing legal of
      that length is closer to `vr`. A value exactly halfway is rounded up, except that `exact` asks for
      the even neighbour when both neighbours are legal. */
  ghost predicate ShortestAndClosest(vm: nat, vr: nat, vp: nat, exact: bool, output: nat, k: nat) {
    && Legal(vm, vp, k, output)
    && NoneLegal(vm, vp, k + 1)
    && (forall m: int :: Legal(vm, vp, k, m) ==> Abs(Scale(output, k) - vr) <= Abs(Scale(m, k) - vr))
    && (forall m: int :: Legal(vm, vp, k, m) && m != output && Abs(Scale(output, k) - vr) == Abs(Scale(m, k) - vr) ==>
          if exact then output % 2 == 0 else output > m)
  }

  // ----- Arithmetic of cut numbers -----

  lemma ScaleLaws(m: int, n: int, k: nat)
    ensures Scale(m + n, k) == Scale(m, k) + Scale(n, k)
    ensures Scale(1, k) == Pow10(k) && Scale(0, k) == 0 && Scale(10, k) == 10 * Pow10(k)
    ensures Scale(10 * m, k) == Scale(m, k + 1)
  {
    hide Pow10;
    assert (m + n) * Pow10(k) == m * Pow10(k) + n * Pow10(k);
    assert Pow10(k + 1) == 10 * Pow10(k) by { NextPow10(k); }
    assert m * (10 * Pow10(k)) == 10 * m * Pow10(k);
  }

  lemma NextPow10(k: nat)
    ensures Pow10(k + 1) == 10 * Pow10(k)
  {
  }

  /** Scaling keeps a distance of at least one unit. */
  lemma ScaleMonotone(m: int, n: int, k: nat)
    ensures m <= n ==> Scale(m, k) <= Scale(n, k)
    ensures m < n ==> Scale(m, k) + Pow10(k) <= Scale(n, k)
    ensures m + 1 < n ==> Scale(m, k) + 2 * Pow10(k) <= Scale(n, k)
  {
    var d := n - m;
    assert Scale(n, k) == Scale(m, k) + Scale(d, k) by { ScaleLaws(m, d, k); }
    hide Pow10;
    Grow(d, Pow10(k));
  }

  lemma Grow(d: int, p: nat)
    ensures d >= 0 ==> d * p >= 0
    ensures d >= 1 ==> d * p >= p
    ensures d >= 2 ==> d * p >= 2 * p
  {
  }

  lemma {:induction false} Split(v: nat, k: nat)
    ensures v == Scale(Top(v, k), k) + Bottom(v, k) && 0 <= Bottom(v, k) < Pow10(k)
  {
    if k == 0 {
      assert Scale(v, 0) == v;
    } else {
      var q := Top(v, k - 1);
      Split(v, k - 1);
      TopStep(v, k - 1);
      ScaleLaws(10 * (q / 10), q % 10, k - 1);
      ScaleLaws(q / 10, 0, k - 1);
      ScaleLaws(0, 0, k - 1);
      ScaleMonotone(0, q % 10, k - 1);
      ScaleMonotone(q % 10, 10, k - 1);
      hide Scale, Pow10, Top, Bottom;
      assert q == 10 * (q / 10) + q % 10;
    }
  }

  /** One more digit. */
  lemma TopStep(v: nat, k: nat)
    ensures Top(v, k + 1) == Top(v, k) / 10
    ensures Bottom(v, k + 1) == Scale(Top(v, k) % 10, k) + Bottom(v, k)
    ensures Pow10(k + 1) == 10 * Pow10(k)
  {
  }

  /** Comparing a multiple of 10^k with a number is comparing with the number's top. */
  lemma MultipleVsTop(v: nat, k: nat, m: int)
    ensures Scale(m, k) <= v <==> m <= Top(v, k)
  {
    hide Scale, Top, Bottom, Pow10;
    Split(v, k);
    ScaleMonotone(m, Top(v, k), k);
    ScaleMonotone(Top(v, k), m, k);
  }

  /** Half or more exactly when the first of the removed digits is 5 or more. */
  lemma Halfway(v: nat, k: nat)
    ensures var d := Top(v, k) % 10;
            && (d >= 5 <==> 2 * Bottom(v, k + 1) >= Pow10(k + 1))
            && (d == 5 && Bottom(v, k) == 0 <==> 2 * Bottom(v, k + 1) == Pow10(k + 1))
            && (d == 0 && Bottom(v, k) == 0 <==> Bottom(v, k + 1) == 0)
  {
    hide Scale, Top, Bottom, Pow10;
    TopStep(v, k);
    Split(v, k);
    var d := Top(v, k) % 10;
    ScaleLaws(0, 0, k);
    ScaleMonotone(0, d, k);
    ScaleMonotone(5, d, k);
    ScaleMonotone(d, 5, k);
    ScaleLaws(5, 5, k);
  }

  lemma NothingRemoved(v: nat)
    ensures Top(v, 0) == v && Bottom(v, 0) == 0 && Pow10(0) == 1
  {
  }

  lemma TwoRemoved(v: nat)
    ensures Top(v, 2) == v / 100 && Bottom(v, 2) == v % 100 && Pow10(2) == 100
  {
    assert Pow10(2) == 10 * Pow10(1) == 100;
    assert Top(v, 2) == Top(v, 1) / 10 == v / 10 / 10;
    assert Bottom(v, 2) == v / 10 % 10 * 10 + Bottom(v, 1);
  }

  // ----- The choice at the end -----

  lemma NothingShorter(vm: nat, vp: nat, k: nat)
    requires Top(vp, k) / 10 <= Top(vm, k) / 10
    ensures NoneLegal(vm, vp, k + 1)
  {
    var k' := k + 1;
    TopStep(vm, k);
    TopStep(vp, k);
    forall m: int
      ensures !Legal(vm, vp, k', m)
    {
      MultipleVsTop(vm, k', m);
      MultipleVsTop(vp, k', m);
    }
  }

  /** Rounding up stays below vp, because vr is no closer to vp than to vm. */
  lemma RoundUpFits(vm: nat, vr: nat, vp: nat, k: nat)
    requires Interval(vm, vr, vp) && Top(vm, k) < Top(vp, k)
    requires Top(vr, k) == Top(vm, k) || 2 * Bottom(vr, k) >= Pow10(k)
    ensures Top(vm, k) <= Top(vr, k) && Top(vr, k) + 1 <= Top(vp, k)
  {
    hide Scale, Top, Bottom, Pow10;
    Ordered(vm, vr, vp, k);
    Split(vm, k);
    Split(vr, k);
    Split(vp, k);
    ScaleMonotone(Top(vm, k), Top(vr, k), k);
  }

  lemma Ordered(vm: nat, vr: nat, vp: nat, k: nat)
    requires vm <= vr <= vp
    ensures Top(vm, k) <= Top(vr, k) <= Top(vp, k)
  {
    MultipleVsTop(vr, k, Top(vm, k));
    MultipleVsTop(vm, k, Top(vm, k));
    MultipleVsTop(vp, k, Top(vr, k));
    MultipleVsTop(vr, k, Top(vr, k));
  }

  /** Lines 548-558 and 618: the number that is returned for the cut value. */
  ghost function Choice(vm: nat, vr: nat, k: nat, exact: bool): nat {
    var q, r := Top(vr, k), 2 * Bottom(vr, k);
    if q == Top(vm, k) || (k > 0 && (r > Pow10(k) || (r == Pow10(k) && !(exact && q % 2 == 0)))) then q + 1 else q
  }

  lemma ChoiceIsClosest(vm: nat, vr: nat, vp: nat, k: nat, exact: bool)
    requires Interval(vm, vr, vp) && Top(vm, k) < Top(vp, k) && Top(vp, k) / 10 <= Top(vm, k) / 10
    ensures ShortestAndClosest(vm, vr, vp, exact, Choice(vm, vr, k, exact), k)
  {
    hide Scale, Top, Bottom, Pow10;
    var output := Choice(vm, vr, k, exact);
    NothingShorter(vm, vp, k);
    Ordered(vm, vr, vp, k);
    if output != Top(vr, k) {
      RoundUpFits(vm, vr, vp, k);
    }
    MultipleVsTop(vm, k, output);
    MultipleVsTop(vp, k, output);
    forall m: int | Legal(vm, vp, k, m)
      ensures Abs(Scale(output, k) - vr) <= Abs(Scale(m, k) - vr)
      ensures m != output && Abs(Scale(output, k) - vr) == Abs(Scale(m, k) - vr) ==> if exact then output % 2 == 0 else output > m
    {
      MultipleVsTop(vm, k, m);
      Closer(vm, vr, k, m, exact);
    }
  }

  lemma Closer(vm: nat, vr: nat, k: nat, m: int, exact: bool)
    requires Top(vm, k) <= Top(vr, k) && Top(vm, k) < m
    ensures var output := Choice(vm, vr, k, exact);
            && Abs(Scale(output, k) - vr) <= Abs(Scale(m, k) - vr)
            && (m != output && Abs(Scale(output, k) - vr) == Abs(Scale(m, k) - vr) ==> if exact then output % 2 == 0 else output > m)
  {
    hide Scale, Top, Bottom, Pow10;
    var q := Top(vr, k);
    Split(vr, k);
    NothingRemoved(vr);
    ScaleLaws(q, 1, k);
    ScaleMonotone(q, m, k);
    ScaleMonotone(m, q, k);
  }

  // ----- The loops -----

  /** Lines 501-559, with vmIsTrailingZeros and acceptBounds false. */
  method General(vm0: nat, vr0: nat, vp0: nat) returns (output: nat, removed: nat)
    requires Interval(vm0, vr0, vp0)
    ensures ShortestAndClosest(vm0, vr0, vp0, true, output, removed)
  {
    hide Scale, Top, Bottom, Pow10, ShortestAndClosest;
    var vm: nat, vr: nat, vp: nat := vm0, vr0, vp0;
    removed := 0;
    var last: nat, vrIsTrailingZeros := 0, true;
    NothingRemoved(vm0);
    NothingRemoved(vr0);
    NothingRemoved(vp0);
    while vp / 10 > vm / 10
      invariant vm == Top(vm0, removed) && vr == Top(vr0, removed) && vp == Top(vp0, removed) && vm < vp
      invariant if removed == 0 then last == 0 && vrIsTrailingZeros
                else last == Top(vr0, removed - 1) % 10 && (vrIsTrailingZeros <==> Bottom(vr0, removed - 1) == 0)
      decreases vp
    {
      TopStep(vm0, removed);
      TopStep(vr0, removed);
      TopStep(vp0, removed);
      if removed > 0 { Halfway(vr0, removed - 1); }
      vrIsTrailingZeros := vrIsTrailingZeros && last == 0;
      last := vr % 10;
      vm, vr, vp := vm / 10, vr / 10, vp / 10;
      removed := removed + 1;
    }
    if removed > 0 { Halfway(vr0, removed - 1); }
    if vrIsTrailingZeros && last == 5 && vr % 2 == 0 {
      last := 4;
    }
    output := vr + (if vr == vm || last >= 5 then 1 else 0);
    ChoiceIsClosest(vm0, vr0, vp0, removed, true);
  }

  /** Lines 566-618: the common case, with the two-digit shortcut. */
  method CommonCase(vm0: nat, vr0: nat, vp0: nat) returns (output: nat, removed: nat)
    requires Interval(vm0, vr0, vp0)
    ensures ShortestAndClosest(vm0, vr0, vp0, false, output, removed)
  {
    hide Scale, Top, Bottom, Pow10, ShortestAndClosest;
    var vm: nat, vr: nat, vp: nat := vm0, vr0, vp0;
    removed := 0;
    var roundUp := false;
    NothingRemoved(vm0);
    NothingRemoved(vr0);
    NothingRemoved(vp0);
    if vp / 100 > vm / 100 {
      TwoRemoved(vm0);
      TwoRemoved(vr0);
      TwoRemoved(vp0);
      roundUp := vr % 100 >= 50;
      vm, vr, vp := vm / 100, vr / 100, vp / 100;
      removed := removed + 2;
    }
    while vp / 10 > vm / 10
      invariant vm == Top(vm0, removed) && vr == Top(vr0, removed) && vp == Top(vp0, removed) && vm < vp
      invariant roundUp <==> removed > 0 && 2 * Bottom(vr0, removed) >= Pow10(removed)
      decreases vp
    {
      TopStep(vm0, removed);
      TopStep(vr0, removed);
      TopStep(vp0, removed);
      Halfway(vr0, removed);
      roundUp := vr % 10 >= 5;
      vm, vr, vp := vm / 10, vr / 10, vp / 10;
      removed := removed + 1;
    }
    output := vr + (if vr == vm || roundUp then 1 else 0);
    ChoiceIsClosest(vm0, vr0, vp0, removed, false);
  }

  /** The common case without the shortcut: lines 583-618 from the start. */
  method OneDigitLoop(vm0: nat, vr0: nat, vp0: nat) returns (output: nat, removed: nat)
    requires Interval(vm0, vr0, vp0)
    ensures ShortestAndClosest(vm0, vr0, vp0, false, output, removed)
  {
    hide Scale, Top, Bottom, Pow10, ShortestAndClosest;
    var vm: nat, vr: nat, vp: nat := vm0, vr0, vp0;
    removed := 0;
    var roundUp := false;
    NothingRemoved(vm0);
    NothingRemoved(vr0);
    NothingRemoved(vp0);
    while vp / 10 > vm / 10
      invariant vm == Top(vm0, removed) && vr == Top(vr0, removed) && vp == Top(vp0, removed) && vm < vp
      invariant roundUp <==> removed > 0 && 2 * Bottom(vr0, removed) >= Pow10(removed)
      decreases vp
    {
      TopStep(vm0, removed);
      TopStep(vr0, removed);
      TopStep(vp0, removed);
      Halfway(vr0, removed);
      roundUp := vr % 10 >= 5;
      vm, vr, vp := vm / 10, vr / 10, vp / 10;
      removed := removed + 1;
    }
    output := vr + (if vr == vm || roundUp then 1 else 0);
    ChoiceIsClosest(vm0, vr0, vp0, removed, false);
  }

  /** Step 4 of d2d, lines 496-621. */
  method RemoveDigits(vm: nat, vr: nat, vp: nat, vrIsTrailingZeros: bool) returns (output: nat, removed: nat)
    requires Interval(vm, vr, vp)
    ensures ShortestAndClosest(vm, vr, vp, vrIsTrailingZeros, output, removed)
  {
    if vrIsTrailingZeros {
      output, removed := General(vm, vr, vp);
    } else {
      output, removed := CommonCase(vm, vr, vp);
    }
  }

  // ----- The answer is unique, so any two ways of computing it agree -----

  lemma {:induction false} NothingLonger(vm: nat, vp: nat, j: nat, k: nat, m: int)
    requires j <= k && NoneLegal(vm, vp, j)
    ensures !Legal(vm, vp, k, m)
    decreases k
  {
    if j < k {
      NothingLonger(vm, vp, j, k - 1, 10 * m);
      ScaleLaws(m, 0, k - 1);
    }
  }

  /** The specification pins the result down. */
  lemma AnswerIsUnique(vm: nat, vr: nat, vp: nat, exact: bool, o1: nat, k1: nat, o2: nat, k2: nat)
    requires ShortestAndClosest(vm, vr, vp, exact, o1, k1)
    requires ShortestAndClosest(vm, vr, vp, exact, o2, k2)
    ensures k1 == k2 && o1 == o2
  {
    if k1 < k2 { NothingLonger(vm, vp, k1 + 1, k2, o2); }
    if k2 < k1 { NothingLonger(vm, vp, k2 + 1, k1, o1); }
    if o1 < o2 { BothClosest(vm, vr, vp, exact, o1, o2, k1); }
    if o2 < o1 { BothClosest(vm, vr, vp, exact, o2, o1, k1); }
  }

  lemma BothClosest(vm: nat, vr: nat, vp: nat, exact: bool, o1: nat, o2: nat, k: nat)
    requires ShortestAndClosest(vm, vr, vp, exact, o1, k)
    requires ShortestAndClosest(vm, vr, vp, exact, o2, k)
    ensures o1 >= o2
  {
    hide Scale, Pow10;
    ScaleLaws(o1, 1, k);
    ScaleMonotone(o1, o2, k);
    ScaleMonotone(o1 + 1, o2, k);
    assert o1 < o2 ==> Legal(vm, vp, k, o1 + 1);
  }

  /** The two-digit shortcut changes nothing: with it and without it the loop gives the same number. */
  method ShortcutAgrees(vm: nat, vr: nat, vp: nat) returns (output: nat, removed: nat, output1: nat, removed1: nat)
    requires Interval(vm, vr, vp)
    ensures output == output1 && removed == removed1
    ensures ShortestAndClosest(vm, vr, vp, false, output, removed)
  {
    output, removed := CommonCase(vm, vr, vp);
    output1, removed1 := OneDigitLoop(vm, vr, vp);
    AnswerIsUnique(vm, vr, vp, false, output, removed, output1, removed1);
  }

  // ----- Closest to the value itself, of which vr is only the whole part -----

  ghost function Distance(x: real, y: real): real { if x < y then y - x else x - y }

  /** `output` is as close as any legal number to the value vr + f. */
  ghost predicate ClosestTo(vm: nat, vr: nat, vp: nat, f: real, output: nat, k: nat) {
    forall m: int :: Legal(vm, vp, k, m) ==>
      Distance(Scale(output, k) as real, vr as real + f) <= Distance(Scale(m, k) as real, vr as real + f)
  }

  lemma ScaleIsEven(m: int, k: nat)
    requires k > 0
    ensures Scale(m, k) % 2 == 0
  {
    ScaleIsTens(m, k);
    EvenTens(Scale(m, k - 1));
  }

  lemma ScaleIsTens(m: int, k: nat)
    requires k > 0
    ensures Scale(m, k) == 10 * Scale(m, k - 1)
  {
  }

  lemma EvenTens(t: int)
    ensures 10 * t % 2 == 0
  {
    assert 10 * t == 2 * (5 * t);
  }

  /** Nearer to the floor is nearer to the value: the midpoint of two even numbers is whole. */
  lemma NearerFloor(s: int, m: int, vr: nat, f: real)
    requires 0.0 <= f < 1.0 && Abs(s - vr) <= Abs(m - vr) && (m > s ==> Abs(s - vr) < Abs(m - vr))
    requires m > s ==> (s % 2 == 0 && m % 2 == 0) || s + m != 2 * vr + 1 || f <= 0.5
    ensures Distance(s as real, vr as real + f) <= Distance(m as real, vr as real + f)
  {
    if m > s { assert s + m >= 2 * vr + 1; }
  }

  /** A digit is removed exactly when the guard of the loop holds at the start. */
  lemma RemovesIff(vm: nat, vr: nat, vp: nat, exact: bool, output: nat, k: nat)
    requires ShortestAndClosest(vm, vr, vp, exact, output, k)
    ensures k > 0 <==> vp / 10 > vm / 10
  {
    hide Pow10;
    if k > 0 {
      ScaleIsTens(output, k);
    }
    if vp / 10 > vm / 10 {
      ScaleIsTens(vp / 10, 1);
      NoScale(vp / 10);
      assert Legal(vm, vp, 1, vp / 10);
    }
  }

  /** The answer is closest to the value itself, and not only to its whole part, if and only if the loop has a digit to
      remove, the whole part or its successor is outside the interval, or the fraction is at most one half. */
  lemma ClosestIff(vm: nat, vr: nat, vp: nat, f: real, output: nat, k: nat)
    requires Interval(vm, vr, vp) && ShortestAndClosest(vm, vr, vp, false, output, k) && 0.0 <= f < 1.0
    ensures ClosestTo(vm, vr, vp, f, output, k) <==> vp / 10 > vm / 10 || vr == vm || vr == vp || f <= 0.5
  {
    hide Scale, Pow10;
    RemovesIff(vm, vr, vp, false, output, k);
    if k > 0 || vr == vm || vr == vp || f <= 0.5 {
      forall m: int | Legal(vm, vp, k, m)
        ensures Distance(Scale(output, k) as real, vr as real + f) <= Distance(Scale(m, k) as real, vr as real + f)
      {
        if k > 0 {
          ScaleIsEven(output, k);
          ScaleIsEven(m, k);
        } else {
          NoScale(output);
          NoScale(m);
        }
        ScaleMonotone(output, m, k);
        ScaleMonotone(m, output, k);
        NearerFloor(Scale(output, k), Scale(m, k), vr, f);
      }
    } else {
      NoScale(vr);
      NoScale(vr + 1);
      NoScale(output);
      assert Legal(vm, vp, 0, vr) && Legal(vm, vp, 0, vr + 1);
      assert output == vr;
    }
  }

  /** An interval at least ten wide always has a digit to remove, so the answer is closest to the value itself. */
  lemma WideIsClosest(vm: nat, vr: nat, vp: nat, f: real, output: nat, k: nat)
    requires Interval(vm, vr, vp) && ShortestAndClosest(vm, vr, vp, false, output, k) && 0.0 <= f < 1.0
    requires vp - vm >= 10
    ensures ClosestTo(vm, vr, vp, f, output, k)
  {
    hide ShortestAndClosest, ClosestTo;
    ClosestIff(vm, vr, vp, f, output, k);
  }

  /** An interval too narrow for that: 2 is the answer for 2.75, and 3 is closer. */
  lemma NarrowExample()
    ensures Interval(1, 2, 3) && ShortestAndClosest(1, 2, 3, false, 2, 0) && !ClosestTo(1, 2, 3, 0.75, 2, 0)
  {
    hide ShortestAndClosest, ClosestTo;
    NothingRemoved(1);
    NothingRemoved(2);
    NothingRemoved(3);
    ChoiceIsClosest(1, 2, 3, 0, false);
    ClosestIff(1, 2, 3, 0.75, 2, 0);
  }

  lemma NoScale(m: int)
    ensures Scale(m, 0) == m
  {
  }
}
