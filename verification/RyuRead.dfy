/** Reading a printed number back, independently of how it was written. */
module RyuRead {
  import opened Common
  import opened RyuDigits
  import opened RyuPrint

  /** coefficient * 10^exponent, with a sign. */
  datatype Number = Number(neg: bool, coefficient: nat, exponent: int)

  ghost predicate IsDigit(c: char) { '0' <= c <= '9' }

  ghost predicate AllDigits(s: string) {
    forall i :: 0 <= i < |s| ==> IsDigit(s[i])
  }

  /** Length of the longest run of digits at the front. */
  ghost function Run(s: string): (n: nat)
    ensures n <= |s| && AllDigits(s[..n])
  {
    if s == "" || !IsDigit(s[0]) then 0 else 1 + Run(s[1..])
  }

  ghost function Num(s: string): (v: nat)
    requires AllDigits(s)
  {
    if s == "" then 0 else 10 * Num(s[..|s| - 1]) + (s[|s| - 1] as int - '0' as int)
  }

  ghost predicate StartsWith(s: string, c: char) { s != "" && s[0] == c }

  /** [-] digits [. digits] [e (+|-) digits] */
  ghost function Read(text: string): (r: Option<Number>)
  {
    var neg := StartsWith(text, '-');
    ReadUnsigned(neg, if neg then text[1..] else text)
  }

  ghost function ReadUnsigned(neg: bool, t: string): (r: Option<Number>)
  {
    var a := Run(t);
    var rest := t[a..];
    if a == 0 then None
    else if StartsWith(rest, '.') then
      var b := Run(rest[1..]);
      ReadExponent(neg, t[..a] + rest[1..][..b], b, rest[1..][b..])
    else ReadExponent(neg, t[..a], 0, rest)
  }

  ghost function ReadExponent(neg: bool, digits: string, places: nat, rest: string): (r: Option<Number>)
    requires AllDigits(digits)
  {
    if rest == "" then Some(Number(neg, Num(digits), 0 - places))
    else if |rest| > 2 && rest[0] == 'e' && (rest[1] == '+' || rest[1] == '-') && AllDigits(rest[2..]) then
      Some(Number(neg, Num(digits), (if rest[1] == '-' then 0 - Num(rest[2..]) else Num(rest[2..])) - places))
    else None
  }

  /** c * 10^x == m * 10^e */
  ghost predicate SameValue(c: nat, x: int, m: nat, e: int) {
    if x <= e then c == Scale(m, e - x) else Scale(c, x - e) == m
  }

  // ----- Digit strings -----

  lemma {:induction false} RunOf(s: string, t: string)
    requires AllDigits(s) && (t == "" || !IsDigit(t[0]))
    ensures Run(s + t) == |s|
    decreases |s|
  {
    if s == "" {
      assert s + t == t;
    } else {
      RunOf(s[1..], t);
      assert (s + t)[1..] == s[1..] + t;
    }
  }

  lemma {:induction false} DigitsRead(v: nat)
    ensures AllDigits(Digits(v)) && Num(Digits(v)) == v
  {
    if v < 10 {
      var s := [Char(v)];
      assert s[..0] == "";
    } else {
      DigitsRead(v / 10);
      var d := Digits(v / 10);
      assert (d + [Char(v % 10)])[..|d|] == d;
    }
  }

  lemma {:induction false} PadRead(v: nat, n: nat)
    ensures AllDigits(Pad(v, n)) && (v < Pow10(n) ==> Num(Pad(v, n)) == v)
    decreases n
  {
    if n > 0 {
      PadRead(v / 10, n - 1);
      var p := Pad(v / 10, n - 1);
      assert (p + [Char(v % 10)])[..|p|] == p;
    }
  }

  lemma {:induction false} LeadingZeros(n: nat, d: string)
    requires AllDigits(d)
    ensures AllDigits(Zeros(n) + d) && Num(Zeros(n) + d) == Num(d)
    decreases |d|, n
  {
    var s := Zeros(n) + d;
    if d == "" {
      if n > 0 {
        LeadingZeros(n - 1, "");
        assert s[..|s| - 1] == Zeros(n - 1) + "";
      }
    } else {
      LeadingZeros(n, d[..|d| - 1]);
      assert s[..|s| - 1] == Zeros(n) + d[..|d| - 1];
    }
  }

  lemma {:induction false} TrailingZeros(d: string, n: nat)
    requires AllDigits(d)
    ensures AllDigits(d + Zeros(n)) && Num(d + Zeros(n)) == Scale(Num(d), n)
    decreases n
  {
    var s := d + Zeros(n);
    if n == 0 {
      assert s == d;
      assert Scale(Num(d), 0) == Num(d);
    } else {
      TrailingZeros(d, n - 1);
      assert s[..|s| - 1] == d + Zeros(n - 1);
      ScaleUp(Num(d), n - 1);
    }
  }

  lemma ScaleUp(m: int, k: nat)
    ensures Scale(m, k + 1) == 10 * Scale(m, k)
  {
    NextPow10(k);
    hide Pow10;
    assert m * (10 * Pow10(k)) == 10 * (m * Pow10(k));
  }

  // ----- The layouts -----

  /** digits without a point, nothing after them */
  lemma ReadPlain(neg: bool, d: string)
    requires AllDigits(d) && d != ""
    ensures ReadUnsigned(neg, d) == Some(Number(neg, Num(d), 0))
  {
    RunOf(d, "");
    assert d + "" == d;
    assert d[..|d|] == d;
  }

  /** digits . digits, then an exponent or nothing */
  lemma ReadPoint(neg: bool, a: string, b: string, rest: string)
    requires AllDigits(a) && AllDigits(b) && a != "" && (rest == "" || !IsDigit(rest[0]))
    ensures AllDigits(a + b)
    ensures ReadUnsigned(neg, a + "." + b + rest) == ReadExponent(neg, a + b, |b|, rest)
  {
    var t := a + "." + b + rest;
    RunOf(a, "." + b + rest);
    assert t == a + ("." + b + rest);
    var after := t[|a|..];
    assert after == "." + b + rest;
    assert after[1..] == b + rest;
    RunOf(b, rest);
    assert (b + rest)[..|b|] == b && (b + rest)[|b|..] == rest;
    assert t[..|a|] == a;
  }

  /** 0.000ddd */
  lemma ReadsLeadingZeros(neg: bool, zeros: nat, d: string)
    requires AllDigits(d)
    ensures ReadUnsigned(neg, "0." + Zeros(zeros) + d) == Some(Number(neg, Num(d), 0 - (zeros + |d|)))
  {
    hide ReadUnsigned, Num, Run;
    var z := Zeros(zeros) + d;
    LeadingZeros(zeros, d);
    LeadingZeros(1, z);
    assert "0" == Zeros(1);
    ReadPoint(neg, "0", z, "");
    assert "0." + Zeros(zeros) + d == "0" + "." + z + "";
  }

  /** ddd.ddd */
  lemma ReadsInnerPoint(neg: bool, d: string, n: nat)
    requires AllDigits(d) && 1 <= n <= |d|
    ensures ReadUnsigned(neg, d[..n] + "." + d[n..]) == Some(Number(neg, Num(d), 0 - (|d| - n)))
  {
    hide ReadUnsigned, Num, Run;
    ReadPoint(neg, d[..n], d[n..], "");
    assert d[..n] + "." + d[n..] + "" == d[..n] + "." + d[n..];
    assert d[..n] + d[n..] == d;
  }

  lemma FixedReads(neg: bool, m: nat, e: int)
    ensures var r := ReadUnsigned(neg, Fixed(Digits(m), e));
            r.Some? && r.value.neg == neg && SameValue(r.value.coefficient, r.value.exponent, m, e)
  {
    hide ReadUnsigned, Num, Run, Digits, Scale, Pow10, Fixed, AllDigits;
    var d := Digits(m);
    DigitsRead(m);
    FixedIs(d, e);
    ScaleNothing(m);
    var nexp := e + |d|;
    if nexp <= 0 {
      ReadsLeadingZeros(neg, -nexp, d);
    } else if e < 0 {
      ReadsInnerPoint(neg, d, nexp);
    } else {
      TrailingZeros(d, e);
      ReadPlain(neg, d + Zeros(e));
    }
  }

  lemma ScaleNothing(m: nat)
    ensures Scale(m, 0) == m
  {
  }

  lemma ExponentShape(x: int) returns (p: string)
    requires -1000 < x < 1000
    ensures Exponent(x) == "e" + (if x < 0 then "-" else "+") + p
    ensures AllDigits(p) && |p| >= 2 && Num(p) == if x < 0 then -x else x
  {
    var a: nat := if x < 0 then -x else x;
    p := if a >= 100 then Pad(a, 3) else Pad(a, 2);
    SmallPowers();
    NextPow10(2);
    hide Pow10, Num, Pad;
    PadRead(a, 3);
    PadRead(a, 2);
  }

  lemma ExponentReads(neg: bool, digits: string, places: nat, x: int)
    requires AllDigits(digits) && -1000 < x < 1000
    ensures ReadExponent(neg, digits, places, Exponent(x)) == Some(Number(neg, Num(digits), x - places))
    ensures Exponent(x) != "" && Exponent(x)[0] == 'e'
  {
    hide Num, AllDigits, Exponent;
    var p := ExponentShape(x);
    var t := Exponent(x);
    assert t[2..] == p;
  }

  lemma ScientificReads(neg: bool, m: nat, x: int)
    requires -1000 < x < 1000
    ensures ReadUnsigned(neg, Scientific(Digits(m), x)) == Some(Number(neg, m, x - (|Digits(m)| - 1)))
  {
    hide Exponent, Digits, Num, AllDigits;
    var d, ex := Digits(m), Exponent(x);
    DigitsRead(m);
    if |d| > 1 {
      ExponentReads(neg, d, |d| - 1, x);
      DigitsParts(d);
      ReadPoint(neg, d[..1], d[1..], ex);
      assert d[..1] + d[1..] == d;
      hide ReadUnsigned, ReadExponent;
      assert Scientific(d, x) == d[..1] + "." + d[1..] + ex;
    } else {
      ExponentReads(neg, d, 0, x);
      RunOf(d, ex);
      assert (d + ex)[..|d|] == d && (d + ex)[|d|..] == ex;
    }
  }

  lemma DigitsParts(d: string)
    requires AllDigits(d) && |d| > 1
    ensures AllDigits(d[..1]) && AllDigits(d[1..])
  {
  }

  /** Each zero taken off the mantissa is one more in the exponent. */
  lemma {:induction false} StripValue(m: nat)
    requires m > 0
    ensures Strip(m) > 0 && |Digits(Strip(m))| <= |Digits(m)|
    ensures m == Scale(Strip(m), |Digits(m)| - |Digits(Strip(m))|)
  {
    if m % 10 == 0 {
      StripValue(m / 10);
      ScaleUp(Strip(m / 10), |Digits(m / 10)| - |Digits(Strip(m / 10))|);
    } else {
      NothingRemoved(m);
    }
  }

  lemma BodyReads(neg: bool, m: nat, e: int)
    requires m >= 1 && -1000 < e + |Digits(m)| - 1 < 1000
    ensures var r := ReadUnsigned(neg, Body(m, e));
            r.Some? && r.value.neg == neg && SameValue(r.value.coefficient, r.value.exponent, m, e)
  {
    hide ReadUnsigned, Digits, Fixed, Scientific, Strip, Scale;
    var x := e + |Digits(m)| - 1;
    if -4 <= x < 15 {
      FixedReads(neg, m, e);
    } else {
      StripValue(m);
      ScaleNothing(m);
      ScientificReads(neg, if e == 0 then Strip(m) else m, x);
      ScaleNothing(Strip(m));
    }
  }

  /** Neither layout starts with a minus sign. */
  lemma BodyStartsWithDigit(m: nat, e: int)
    ensures Body(m, e) != "" && IsDigit(Body(m, e)[0])
  {
    hide Digits, Strip, Exponent;
    DigitsRead(m);
    DigitsRead(Strip(m));
  }

  /** The text that to_chars writes reads back as exactly the number it was given, in both layouts. */
  lemma TextReadsBack(neg: bool, m: nat, e: int)
    requires m >= 1 && -1000 < e + |Digits(m)| - 1 < 1000
    ensures var r := Read(Text(neg, m, e));
            r.Some? && r.value.neg == neg && SameValue(r.value.coefficient, r.value.exponent, m, e)
  {
    hide ReadUnsigned, Digits, Fixed, Scientific, Strip, SameValue;
    BodyReads(neg, m, e);
    BodyStartsWithDigit(m, e);
    var text := Text(neg, m, e);
    if neg {
      assert text == "-" + Body(m, e);
      assert text[1..] == Body(m, e);
    } else {
      assert text == Body(m, e);
    }
  }
}
