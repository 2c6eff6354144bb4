/** Which layout a number is printed in, and what the text then looks like (common/d2s.c:792-808, 825-958), said of the
    text and the value alone. With the reading of the text this leaves one text for each number. */
module RyuLayout {
  import opened RyuDigits
  import opened RyuPrint
  import opened RyuRead

  /** m * 10^e < 10^p */
  ghost predicate LessThanPower(m: nat, e: int, p: int) {
    if e <= p then m < Scale(1, p - e) else Scale(m, e - p) < 1
  }

  lemma {:induction false} PowersGrow(a: nat, b: nat)
    requires a <= b
    ensures Pow10(a) <= Pow10(b)
    decreases b
  {
    if a < b { PowersGrow(a, b - 1); }
  }

  lemma {:induction false} DigitsBound(v: nat)
    requires v > 0
    ensures Pow10(|Digits(v)| - 1) <= v < Pow10(|Digits(v)|)
  {
    if v >= 10 {
      DigitsBound(v / 10);
      NextPow10(|Digits(v / 10)|);
      NextPow10(|Digits(v / 10)| - 1);
    } else {
      assert Pow10(1) == 10;
    }
  }

  /** The exponent of the first digit compares as the value does. */
  lemma LessIff(m: nat, e: int, p: int)
    requires m > 0
    ensures LessThanPower(m, e, p) <==> e + |Digits(m)| <= p
  {
    hide Digits;
    DigitsBound(m);
    var n := |Digits(m)|;
    hide Pow10;
    if e <= p {
      assert Scale(1, p - e) == Pow10(p - e) by { ScaleLaws(1, 0, p - e); }
      if e + n <= p { PowersGrow(n, p - e); } else { PowersGrow(p - e, n - 1); }
    } else {
      ScaleMonotone(0, m, e - p);
      ScaleLaws(0, 0, e - p);
    }
  }

  lemma ExponentHasE(x: int)
    ensures 'e' in Exponent(x)
  {
    assert Exponent(x)[0] == 'e';
  }

  lemma DigitsHaveNoE(s: string)
    requires AllDigits(s)
    ensures 'e' !in s && '.' !in s
  {
  }

  lemma FixedHasNoE(m: nat, e: int)
    ensures 'e' !in Fixed(Digits(m), e)
  {
    hide Digits;
    var d := Digits(m);
    DigitsRead(m);
    DigitsHaveNoE(d);
  }

  ghost function Sign(neg: bool): string { if neg then "-" else "" }

  /** An `e` in the text tells the layouts apart. */
  lemma LayoutOf(neg: bool, m: nat, e: int)
    requires m > 0
    ensures var x := e + |Digits(m)| - 1;
            && ('e' in Text(neg, m, e) <==> !(-4 <= x < 15))
            && ('e' in Text(neg, m, e) ==> Text(neg, m, e) == Sign(neg) + Scientific(Digits(if e == 0 then Strip(m) else m), x))
            && ('e' !in Text(neg, m, e) ==> Text(neg, m, e) == Sign(neg) + Fixed(Digits(m), e))
  {
    hide Digits, Fixed, Exponent, Mantissa, Strip;
    var x := e + |Digits(m)| - 1;
    FixedHasNoE(m, e);
    ExponentHasE(x);
    assert 'e' !in Sign(neg);
    if !(-4 <= x < 15) {
      assert 'e' in Scientific(Digits(if e == 0 then Strip(m) else m), x);
    }
  }

  /** The exponent is written exactly for the values below 10^-4 and from 10^15 on. */
  lemma LayoutIff(neg: bool, m: nat, e: int)
    requires m > 0
    ensures 'e' in Text(neg, m, e) <==> LessThanPower(m, e, -4) || !LessThanPower(m, e, 15)
  {
    hide Digits, Text, LessThanPower, Scientific, Fixed;
    LessIff(m, e, -4);
    LessIff(m, e, 15);
    LayoutOf(neg, m, e);
  }

  /** Without the exponent: as many decimals as the exponent asks for and no superfluous leading zero. */
  lemma FixedShape(neg: bool, m: nat, e: int) returns (whole: string, decimals: string)
    requires m > 0 && 'e' !in Text(neg, m, e)
    ensures Text(neg, m, e) == Sign(neg) + (whole + (if e < 0 then "." else "") + decimals)
    ensures AllDigits(whole) && AllDigits(decimals) && whole != "" && (whole[0] == '0' ==> whole == "0")
    ensures |decimals| == if e < 0 then -e else 0
  {
    hide Digits, Text, Scientific, Fixed;
    LayoutOf(neg, m, e);
    DigitsRead(m);
    FirstDigit(m);
    whole, decimals := FixedParts(Digits(m), e);
  }

  lemma FixedParts(d: string, e: int) returns (whole: string, decimals: string)
    requires AllDigits(d) && d != "" && d[0] != '0'
    ensures Fixed(d, e) == whole + (if e < 0 then "." else "") + decimals
    ensures AllDigits(whole) && AllDigits(decimals) && whole != "" && (whole[0] == '0' ==> whole == "0")
    ensures |decimals| == if e < 0 then -e else 0
  {
    var nexp := e + |d|;
    if nexp <= 0 {
      whole, decimals := "0", Zeros(-nexp) + d;
      assert "0." + Zeros(-nexp) + d == "0" + "." + decimals;
    } else if e < 0 {
      whole, decimals := d[..nexp], d[nexp..];
    } else {
      whole, decimals := d + Zeros(e), "";
    }
  }

  lemma {:induction false} FirstDigit(v: nat)
    requires v > 0
    ensures Digits(v)[0] != '0'
  {
    if v >= 10 { FirstDigit(v / 10); }
  }

  /** With the exponent: one digit that is not zero, the others after a point, then e, a sign and at least two digits; a
      number given without an exponent loses its trailing zeros, any other number keeps all its digits. */
  lemma ScientificShape(neg: bool, m: nat, e: int) returns (first: char, others: string, power: string)
    requires m > 0 && 'e' in Text(neg, m, e) && -1000 < e + |Digits(m)| - 1 < 1000
    ensures var x := e + |Digits(m)| - 1;
            && Text(neg, m, e) == Sign(neg) + (([first] + (if others == "" then "" else ".") + others)
                                               + ("e" + (if x < 0 then "-" else "+") + power))
            && AllDigits(power) && Num(power) == (if x < 0 then -x else x) && |power| == if -100 < x < 100 then 2 else 3
    ensures IsDigit(first) && first != '0' && AllDigits(others)
    ensures e != 0 ==> AllDigits([first] + others) && Num([first] + others) == m
    ensures e == 0 ==> others == "" || others[|others| - 1] != '0'
  {
    hide Digits, Strip, Num, Fixed, Text, Mantissa, Exponent;
    LayoutOf(neg, m, e);
    var v := if e == 0 then Strip(m) else m;
    StripValue(m);
    DigitsRead(v);
    FirstDigit(v);
    if e == 0 { LastDigit(m); }
    first, others := MantissaParts(Digits(v));
    power := Power(e + |Digits(m)| - 1);
  }

  lemma MantissaParts(d: string) returns (first: char, others: string)
    requires AllDigits(d) && d != ""
    ensures d == [first] + others && Mantissa(d) == [first] + (if others == "" then "" else ".") + others
    ensures first == d[0] && others == d[1..] && IsDigit(first) && AllDigits(others)
  {
    first, others := d[0], d[1..];
    assert d[..1] == [first];
  }

  lemma Power(x: int) returns (p: string)
    requires -1000 < x < 1000
    ensures Exponent(x) == "e" + (if x < 0 then "-" else "+") + p
    ensures AllDigits(p) && |p| == (if -100 < x < 100 then 2 else 3) && Num(p) == if x < 0 then -x else x
  {
    hide Num, Pad;
    p := ExponentShape(x);
  }

  lemma {:induction false} LastDigit(m: nat)
    requires m > 0
    ensures Strip(m) % 10 != 0 && Digits(Strip(m))[|Digits(Strip(m))| - 1] != '0'
  {
    if m % 10 == 0 { LastDigit(m / 10); }
  }
}
