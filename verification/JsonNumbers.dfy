/** JSON numbers (common/jsonapi.c:102-144, 913-1006): the lexer's loops, what they compute, and the
    grammar of section 6 of RFC 8259. A character stands for one byte of the input. */
module JsonNumbers {
  import opened Common

  predicate IsDigit(c: char) { '0' <= c <= '9' }
  predicate IsSpace(c: char) { c == ' ' || c == '\t' || c == '\n' || c == '\r' }

  predicate IsAlnum(c: char) {
    'a' <= c <= 'z' || 'A' <= c <= 'Z' || IsDigit(c) || c == '_' || c as int >= 128
  }

  // ----- Runs of characters -----

  /** The end of the longest run of `f` characters from `p` on. */
  ghost function Run(f: char -> bool, s: string, p: nat): (e: nat)
    requires p <= |s|
    ensures p <= e <= |s|
    decreases |s| - p
  {
    if p < |s| && f(s[p]) then Run(f, s, p + 1) else p
  }

  ghost predicate All(f: char -> bool, t: string) {
    forall k :: 0 <= k < |t| ==> f(t[k])
  }

  lemma {:induction false} RunIs(f: char -> bool, s: string, p: nat, e: nat)
    requires p <= e <= |s| && All(f, s[p..e]) && (e == |s| || !f(s[e]))
    ensures Run(f, s, p) == e
    decreases e - p
  {
    if p < e {
      assert s[p] == s[p..e][0];
      assert s[p + 1..e] == s[p..e][1..];
      RunIs(f, s, p + 1, e);
    }
  }

  lemma {:induction false} RunFacts(f: char -> bool, s: string, p: nat)
    requires p <= |s|
    ensures var e := Run(f, s, p); All(f, s[p..e]) && (e == |s| || !f(s[e]))
    decreases |s| - p
  {
    if p < |s| && f(s[p]) {
      RunFacts(f, s, p + 1);
      var e := Run(f, s, p + 1);
      assert s[p..e] == [s[p]] + s[p + 1..e];
    }
  }

  method Skip(f: char -> bool, s: string, p: nat) returns (e: nat)
    requires p <= |s|
    ensures e == Run(f, s, p)
  {
    e := p;
    while e < |s| && f(s[e])
      invariant p <= e <= |s| && Run(f, s, e) == Run(f, s, p)
    {
      e := e + 1;
    }
  }

  // ----- Numbers -----

  /** Where a part of a number ends, and whether it was malformed. */
  datatype Part = Part(end: nat, error: bool)

  ghost function IntPart(s: string, p: nat): (r: Part)
    requires p <= |s|
    ensures p <= r.end <= |s|
  {
    if p < |s| && s[p] == '0' then Part(p + 1, false)
    else if p < |s| && '1' <= s[p] <= '9' then Part(Run(IsDigit, s, p + 1), false)
    else Part(p, true)
  }

  /** One or more digits. */
  ghost function DigitsPart(s: string, p: nat): (r: Part)
    requires p <= |s|
    ensures p <= r.end <= |s|
  {
    if p == |s| || !IsDigit(s[p]) then Part(p, true) else Part(Run(IsDigit, s, p + 1), false)
  }

  ghost function FracPart(s: string, p: nat): (r: Part)
    requires p <= |s|
    ensures p <= r.end <= |s|
  {
    if p < |s| && s[p] == '.' then DigitsPart(s, p + 1) else Part(p, false)
  }

  ghost function ExpPart(s: string, p: nat): (r: Part)
    requires p <= |s|
    ensures p <= r.end <= |s|
  {
    if p < |s| && (s[p] == 'e' || s[p] == 'E') then
      DigitsPart(s, if p + 1 < |s| && (s[p + 1] == '+' || s[p + 1] == '-') then p + 2 else p + 1)
    else Part(p, false)
  }

  /** json_lex_number from the character after any minus sign. */
  ghost function NumberPart(s: string, p: nat): (r: Part)
    requires p <= |s|
    ensures p <= r.end <= |s|
  {
    var i := IntPart(s, p);
    var f := FracPart(s, i.end);
    var x := ExpPart(s, f.end);
    var e := Run(IsAlnum, s, x.end);
    Part(e, i.error || f.error || x.error || e > x.end)
  }

  method LexDigits(s: string, p: nat) returns (r: Part)
    requires p <= |s|
    ensures r == DigitsPart(s, p)
  {
    if p == |s| || s[p] < '0' || s[p] > '9' {
      r := Part(p, true);
    } else {
      var e := Skip(IsDigit, s, p + 1);
      r := Part(e, false);
    }
  }

  /** json_lex_number, lines 913-1006. */
  method LexNumber(s: string, start: nat) returns (r: Part)
    requires start <= |s|
    ensures r == NumberPart(s, start)
  {
    hide Run, DigitsPart, IsDigit, IsAlnum;
    var error, p := false, start;
    if p < |s| && s[p] == '0' {
      p := p + 1;
    } else if p < |s| && s[p] >= '1' && s[p] <= '9' {
      p := Skip(IsDigit, s, p + 1);
    } else {
      error := true;
    }
    if p < |s| && s[p] == '.' {
      var d := LexDigits(s, p + 1);
      p, error := d.end, error || d.error;
    }
    if p < |s| && (s[p] == 'e' || s[p] == 'E') {
      p := p + 1;
      if p < |s| && (s[p] == '+' || s[p] == '-') {
        p := p + 1;
      }
      var d := LexDigits(s, p);
      p, error := d.end, error || d.error;
    }
    var e := Skip(IsAlnum, s, p);
    if e > p {
      error := true;
    }
    r := Part(e, error);
  }

  /** Section 6 of RFC 8259, without the sign: int [ frac ] [ exp ]. */
  datatype Number = Number(whole: string, frac: Option<string>, exp: Option<Exp>)
  datatype Exp = Exp(letter: char, sign: string, digits: string)

  ghost predicate Digits1(t: string) { t != "" && All(IsDigit, t) }

  ghost predicate IsInt(t: string) {
    t == "0" || (t != "" && '1' <= t[0] <= '9' && All(IsDigit, t))
  }

  ghost predicate IsExp(x: Exp) {
    (x.letter == 'e' || x.letter == 'E') && IsSign(x.sign) && Digits1(x.digits)
  }

  ghost predicate IsSign(t: string) { t == "" || t == "+" || t == "-" }

  ghost predicate IsNumber(n: Number) {
    && IsInt(n.whole)
    && (n.frac.Some? ==> Digits1(n.frac.value))
    && (n.exp.Some? ==> IsExp(n.exp.value))
  }

  ghost function FracText(f: Option<string>): string { if f.Some? then "." + f.value else "" }

  ghost function ExpText(x: Option<Exp>): string {
    if x.Some? then [x.value.letter] + x.value.sign + x.value.digits else ""
  }

  ghost function NumberText(n: Number): string { n.whole + FracText(n.frac) + ExpText(n.exp) }

  /** A number token is not followed by more word characters, nor an integer by a point. */
  ghost predicate NumberEnds(s: string, e: nat, n: Number)
    requires e <= |s|
  {
    e == |s| || (!IsAlnum(s[e]) && (n.frac.None? && n.exp.None? ==> s[e] != '.'))
  }

  ghost predicate NumberAt(s: string, p: nat, e: nat, n: Number) {
    p <= e <= |s| && IsNumber(n) && s[p..e] == NumberText(n) && NumberEnds(s, e, n)
  }

  lemma DigitsSound(s: string, p: nat)
    requires p <= |s| && !DigitsPart(s, p).error
    ensures var e := DigitsPart(s, p).end; Digits1(s[p..e]) && (e == |s| || !IsDigit(s[e]))
  {
    RunFacts(IsDigit, s, p + 1);
    var e := Run(IsDigit, s, p + 1);
    assert s[p..e] == [s[p]] + s[p + 1..e];
  }

  lemma DigitsComplete(s: string, p: nat, e: nat)
    requires p <= e <= |s| && Digits1(s[p..e]) && (e == |s| || !IsDigit(s[e]))
    ensures DigitsPart(s, p) == Part(e, false)
  {
    assert s[p] == s[p..e][0];
    assert s[p + 1..e] == s[p..e][1..];
    RunIs(IsDigit, s, p + 1, e);
  }

  lemma IntSound(s: string, p: nat)
    requires p <= |s| && !IntPart(s, p).error
    ensures IsInt(s[p..IntPart(s, p).end])
  {
    if s[p] != '0' {
      RunFacts(IsDigit, s, p + 1);
      var e := Run(IsDigit, s, p + 1);
      assert s[p..e] == [s[p]] + s[p + 1..e];
    }
  }

  lemma IntComplete(s: string, p: nat, e: nat)
    requires p <= e <= |s| && IsInt(s[p..e]) && (e == |s| || !IsDigit(s[e]))
    ensures IntPart(s, p) == Part(e, false)
  {
    assert s[p] == s[p..e][0];
    if s[p..e] != "0" {
      assert s[p + 1..e] == s[p..e][1..];
      RunIs(IsDigit, s, p + 1, e);
    } else {
      assert |s[p..e]| == 1;
    }
  }

  lemma FracSound(s: string, p: nat) returns (f: Option<string>)
    requires p <= |s| && !FracPart(s, p).error
    ensures s[p..FracPart(s, p).end] == FracText(f) && (f.Some? ==> Digits1(f.value))
    ensures f.None? ==> FracPart(s, p).end == p && (p == |s| || s[p] != '.')
  {
    f := None;
    if p < |s| && s[p] == '.' {
      DigitsSound(s, p + 1);
      var e := DigitsPart(s, p + 1).end;
      f := Some(s[p + 1..e]);
      assert s[p..e] == "." + s[p + 1..e];
    }
  }

  lemma SignText(s: string, p: nat, q: nat)
    requires p <= q <= |s| && (q == p || (q == p + 1 && (s[p] == '+' || s[p] == '-')))
    ensures IsSign(s[p..q])
  {
    if q == p + 1 {
      assert s[p..q] == [s[p]];
    }
  }

  lemma ExpSound(s: string, p: nat) returns (x: Option<Exp>)
    requires p <= |s| && !ExpPart(s, p).error
    ensures s[p..ExpPart(s, p).end] == ExpText(x)
    ensures x.Some? ==> IsExp(x.value)
    ensures x.None? ==> ExpPart(s, p).end == p
  {
    x := None;
    if p < |s| && (s[p] == 'e' || s[p] == 'E') {
      var q := if p + 1 < |s| && (s[p + 1] == '+' || s[p + 1] == '-') then p + 2 else p + 1;
      DigitsSound(s, q);
      var e := DigitsPart(s, q).end;
      SignText(s, p + 1, q);
      x := Some(Exp(s[p], s[p + 1..q], s[q..e]));
      ThreeParts(s, p, q, e);
      hide DigitsPart, IsSign, IsDigit;
    }
  }

  lemma ThreeParts(s: string, p: nat, q: nat, e: nat)
    requires p < q <= e <= |s|
    ensures s[p..e] == [s[p]] + s[p + 1..q] + s[q..e]
  {
  }

  /** What the number lexer accepts is a number of the grammar. */
  lemma NumberSound(s: string, p: nat) returns (n: Number)
    requires p <= |s| && !NumberPart(s, p).error
    ensures NumberAt(s, p, NumberPart(s, p).end, n)
  {
    hide IntPart, FracPart, ExpPart, IsInt, Digits1, Run, IsDigit, IsAlnum;
    var i := IntPart(s, p).end;
    IntSound(s, p);
    var frac := FracSound(s, i);
    var f := FracPart(s, i).end;
    var exp := ExpSound(s, f);
    var x := ExpPart(s, f).end;
    RunFacts(IsAlnum, s, x);
    n := Number(s[p..i], frac, exp);
    Cut(s, p, i, f, x);
  }

  lemma Cut(s: string, p: nat, i: nat, f: nat, x: nat)
    requires p <= i <= f <= x <= |s|
    ensures s[p..x] == s[p..i] + s[i..f] + s[f..x]
  {
  }

  lemma Subtext(s: string, p: nat, e: nat, a: string, b: string)
    requires p <= e <= |s| && s[p..e] == a + b
    ensures p + |a| <= e && s[p..p + |a|] == a && s[p + |a|..e] == b
  {
    assert s[p..p + |a|] == s[p..e][..|a|];
    assert s[p + |a|..e] == s[p..e][|a|..];
  }

  lemma ExpLayout(s: string, p: nat, e: nat, v: Exp)
    requires p <= e <= |s| && s[p..e] == [v.letter] + v.sign + v.digits && |v.sign| <= 1 && v.digits != ""
    ensures p < e && s[p] == v.letter && p + 1 + |v.sign| < e
    ensures v.sign != "" ==> s[p + 1] == v.sign[0]
    ensures s[p + 1 + |v.sign|..e] == v.digits && s[p + 1 + |v.sign|] == v.digits[0]
  {
    assert [v.letter] + v.sign + v.digits == [v.letter] + (v.sign + v.digits);
    Subtext(s, p, e, [v.letter], v.sign + v.digits);
    assert s[p] == s[p..p + 1][0];
    Subtext(s, p + 1, e, v.sign, v.digits);
    var q := p + 1 + |v.sign|;
    assert s[q] == s[q..e][0];
    if v.sign != "" { assert s[p + 1] == s[p + 1..q][0] == v.sign[0]; }
  }

  lemma ExpComplete(s: string, p: nat, e: nat, x: Option<Exp>)
    requires p <= e <= |s| && s[p..e] == ExpText(x) && (e == |s| || !IsAlnum(s[e]))
    requires x.Some? ==> IsExp(x.value)
    ensures ExpPart(s, p) == Part(e, false)
  {
    if x.Some? {
      ExpLayout(s, p, e, x.value);
      DigitsComplete(s, p + 1 + |x.value.sign|, e);
      hide DigitsPart;
    }
  }

  lemma FracComplete(s: string, p: nat, e: nat, f: Option<string>)
    requires p <= e <= |s| && s[p..e] == FracText(f) && (e == |s| || !IsDigit(s[e]))
    requires f.Some? ==> Digits1(f.value)
    requires f.None? ==> e == |s| || s[e] != '.'
    ensures FracPart(s, p) == Part(e, false)
  {
    if f.Some? {
      Subtext(s, p, e, ".", f.value);
      assert s[p] == s[p..p + 1][0];
      DigitsComplete(s, p + 1, e);
    }
  }

  /** Every number of the grammar that ends properly is accepted whole, so the token is the longest one. */
  lemma NumberComplete(s: string, p: nat, e: nat, n: Number)
    requires NumberAt(s, p, e, n)
    ensures NumberPart(s, p) == Part(e, false)
  {
    hide IntPart, FracPart, ExpPart, IsInt;
    var a, b, c := n.whole, FracText(n.frac), ExpText(n.exp);
    assert a + b + c == a + (b + c);
    Subtext(s, p, e, a, b + c);
    var i := p + |a|;
    Subtext(s, i, e, b, c);
    var f := i + |b|;
    ExpComplete(s, f, e, n.exp);
    if n.exp.Some? { assert s[f] == s[f..e][0] == n.exp.value.letter; }
    FracComplete(s, i, f, n.frac);
    if n.frac.Some? { assert s[i] == s[i..f][0] == '.'; }
    IntComplete(s, p, i);
    assert s[e..e] == "";
    RunIs(IsAlnum, s, e, e);
  }

  /** IsValidJsonNumber accepts exactly the numbers of the grammar, with an optional minus sign. */
  ghost predicate IsSignedNumber(str: string) {
    exists n, sign :: IsNumber(n) && sign in {"", "-"} && str == sign + NumberText(n)
  }

  method IsValidJsonNumber(str: string) returns (ok: bool)
    ensures ok <==> IsSignedNumber(str)
  {
    hide NumberPart, IsNumber, NumberText;
    if |str| == 0 {
      if IsSignedNumber(str) {
        ghost var n, sign :| IsNumber(n) && sign in {"", "-"} && str == sign + NumberText(n);
        FirstOfNumber(n);
        assert false;
      }
      return false;
    }
    var body := if str[0] == '-' then str[1..] else str;
    var r := LexNumber(body, 0);
    ok := !r.error && r.end == |body|;
    WholeNumber(str, body, r);
  }

  lemma FirstOfNumber(n: Number)
    requires IsNumber(n)
    ensures NumberText(n) != "" && NumberText(n)[0] != '-'
  {
  }

  lemma WholeNumber(str: string, body: string, r: Part)
    requires str != "" && body == (if str[0] == '-' then str[1..] else str) && r == NumberPart(body, 0)
    ensures !r.error && r.end == |body| <==> IsSignedNumber(str)
  {
    hide NumberPart, IsNumber, NumberText;
    var sgn := if str[0] == '-' then "-" else "";
    assert str == sgn + body;
    if !r.error && r.end == |body| {
      var n := NumberSound(body, 0);
      assert body[0..|body|] == body;
      assert str == sgn + NumberText(n);
    }
    if IsSignedNumber(str) {
      var n, sign :| IsNumber(n) && sign in {"", "-"} && str == sign + NumberText(n);
      FirstOfNumber(n);
      if sign == "" {
        assert str == NumberText(n);
      }
      assert body == NumberText(n);
      assert body[0..|body|] == body;
      NumberComplete(body, 0, |body|, n);
    }
  }
}
