/** JSON tokens (common/jsonapi.c:525-672): the lexer step and the stream of tokens of an input. */
module JsonTokens {
  import opened Common
  import opened JsonNumbers
  import opened JsonStrings

  /** A token with its value. `End` is the end of the input, `Bad` a place where lexing fails. */
  datatype Token =
    | ObjectStart | ObjectEnd | ArrayStart | ArrayEnd | Comma | Colon
    | Str(val: Option<string>)  // the de-escaped value, if it was asked for
    | Num(lexeme: string)
    | True | False | Null
    | End
    | Bad(error: Error)

  ghost predicate Proper(t: Token) { !t.End? && !t.Bad? }

  datatype Lexed = Lexed(token: Token, start: nat, end: nat)

  ghost function Value(mode: Mode, val: string): Option<string> {
    if mode.Plain? then None else Some(val)
  }

  ghost function Word(w: string): Token {
    if w == "true" then True else if w == "null" then Null else if w == "false" then False else Bad(InvalidToken)
  }

  ghost function Punctuation(c: char): Option<Token> {
    match c
    case '{' => Some(ObjectStart)
    case '}' => Some(ObjectEnd)
    case '[' => Some(ArrayStart)
    case ']' => Some(ArrayEnd)
    case ',' => Some(Comma)
    case ':' => Some(Colon)
    case _ => None
  }

  /** The token that starts at `q`, which is no white space. */
  ghost function TokenFrom(s: string, q: nat, mode: Mode): (r: Lexed)
    requires q < |s|
    ensures Proper(r.token) ==> q < r.end <= |s|
    ensures r.start == q && !r.token.End?
  {
    var c := s[q];
    if Punctuation(c).Some? then Lexed(Punctuation(c).value, q, q + 1)
    else if c == '"' then
      var r := StringFrom(s, q + 1, mode, NO_SURROGATE, "");
      if r.StringErr? then Lexed(Bad(r.error), q, q) else Lexed(Str(Value(mode, r.val)), q, r.end)
    else if c == '-' || IsDigit(c) then
      var r := NumberPart(s, if c == '-' then q + 1 else q);
      if r.error then Lexed(Bad(InvalidToken), q, q) else
        DigitMoves(s, q);
        Lexed(Num(s[q..r.end]), q, r.end)
    else
      var e := Run(IsAlnum, s, q);
      Lexed(Word(s[q..e]), q, e)
  }

  lemma DigitMoves(s: string, q: nat)
    requires q < |s|
    ensures IsDigit(s[q]) ==> NumberPart(s, q).end > q
  {
  }

  /** json_lex: the next token after position `p`. */
  ghost function Lex(s: string, p: nat, mode: Mode): (r: Lexed)
    requires p <= |s|
    ensures Proper(r.token) ==> p < r.end <= |s|
    ensures r.token.End? ==> r.end == |s|
  {
    var q := Run(IsSpace, s, p);
    if q == |s| then Lexed(End, q, q) else TokenFrom(s, q, mode)
  }

  /** Every token up to the end of the input or the first lexing error, which is the last element. Every
      proper token moves the position forward, so the stream is finite. */
  ghost function Stream(s: string, p: nat, mode: Mode): (toks: seq<Token>)
    requires p <= |s|
    ensures Streamed(toks)
    decreases |s| - p
  {
    var r := Lex(s, p, mode);
    if Proper(r.token) then [r.token] + Stream(s, r.end, mode) else [r.token]
  }

  ghost predicate Streamed(toks: seq<Token>) {
    |toks| > 0 && forall i :: 0 <= i < |toks| ==> (Proper(toks[i]) <==> i < |toks| - 1)
  }

  // ----- Tokens are what the grammar says -----

  ghost predicate SignedNumberAt(s: string, q: nat, e: nat, n: Number)
    requires q < |s|
  {
    if s[q] == '-' then NumberAt(s, q + 1, e, n) else NumberAt(s, q, e, n)
  }

  /** `s[q..e]` spells token `t`, and the text after it does not belong to it. */
  ghost predicate Spells(s: string, q: nat, e: nat, mode: Mode, t: Token)
    requires q < e <= |s|
  {
    match t
    case Str(val) => s[q] == '"' && exists v :: val == Value(mode, v) && StringAt(s, q + 1, e, mode, v)
    case Num(lexeme) =>
      lexeme == s[q..e] && exists n :: SignedNumberAt(s, q, e, n)
    case True => s[q..e] == "true" && (e == |s| || !IsAlnum(s[e]))
    case False => s[q..e] == "false" && (e == |s| || !IsAlnum(s[e]))
    case Null => s[q..e] == "null" && (e == |s| || !IsAlnum(s[e]))
    case End => false
    case Bad(_) => false
    case _ => e == q + 1 && Punctuation(s[q]) == Some(t)
  }

  lemma NumberStart(s: string, p: nat, e: nat, n: Number)
    requires NumberAt(s, p, e, n)
    ensures p < e && IsDigit(s[p])
  {
    assert s[p..e][0] == n.whole[0];
  }

  lemma WordStart(s: string, q: nat, e: nat, w: string)
    requires q <= e <= |s| && s[q..e] == w && w in {"true", "false", "null"} && (e == |s| || !IsAlnum(s[e]))
    ensures q < e && Run(IsAlnum, s, q) == e && IsAlnum(s[q]) && !IsDigit(s[q]) && Punctuation(s[q]).None? && s[q] != '"' && s[q] != '-'
  {
    assert s[q] == w[0];
    RunIs(IsAlnum, s, q, e);
  }

  /** The lexer finds a token exactly where the grammar spells one. */
  lemma TokenIff(s: string, q: nat, e: nat, mode: Mode, t: Token)
    requires q < e <= |s| && Proper(t)
    ensures TokenFrom(s, q, mode) == Lexed(t, q, e) <==> Spells(s, q, e, mode, t)
  {
    hide StringFrom, StringAt, NumberPart, NumberAt, IsNumber;
    if TokenFrom(s, q, mode) == Lexed(t, q, e) {
      FoundIsSpelled(s, q, e, mode, t);
    }
    if Spells(s, q, e, mode, t) {
      SpelledIsFound(s, q, e, mode, t);
    }
  }

  lemma FoundIsSpelled(s: string, q: nat, e: nat, mode: Mode, t: Token)
    requires q < e <= |s| && Proper(t) && TokenFrom(s, q, mode) == Lexed(t, q, e)
    ensures Spells(s, q, e, mode, t)
  {
    hide StringFrom, StringAt, NumberPart, NumberAt, IsNumber, Run;
    var c := s[q];
    if Punctuation(c).Some? {
    } else if c == '"' {
      var r := StringFrom(s, q + 1, mode, NO_SURROGATE, "");
      StringIff(s, q + 1, e, mode, r.val);
    } else if c == '-' {
      var n := NumberSound(s, q + 1);
      assert SignedNumberAt(s, q, e, n);
    } else if IsDigit(c) {
      var n := NumberSound(s, q);
      assert SignedNumberAt(s, q, e, n);
    } else {
      RunFacts(IsAlnum, s, q);
    }
  }

  lemma SpelledIsFound(s: string, q: nat, e: nat, mode: Mode, t: Token)
    requires q < e <= |s| && Proper(t) && Spells(s, q, e, mode, t)
    ensures TokenFrom(s, q, mode) == Lexed(t, q, e)
  {
    hide StringFrom, StringAt, NumberPart, NumberAt, IsNumber, Run;
    match t
    case Str(val) =>
      var v :| val == Value(mode, v) && StringAt(s, q + 1, e, mode, v);
      StringIff(s, q + 1, e, mode, v);
    case Num(lexeme) =>
      var n :| SignedNumberAt(s, q, e, n);
      if s[q] == '-' {
        NumberComplete(s, q + 1, e, n);
      } else {
        NumberStart(s, q, e, n);
        NumberComplete(s, q, e, n);
      }
    case True => WordStart(s, q, e, "true");
    case False => WordStart(s, q, e, "false");
    case Null => WordStart(s, q, e, "null");
    case _ =>
  }

  // ----- Texts -----

  /** White space up to `q`, and then token `t` up to `e`. */
  ghost predicate SpeltAt(s: string, p: nat, q: nat, e: nat, mode: Mode, t: Token) {
    p <= q < e <= |s| && All(IsSpace, s[p..q]) && Spells(s, q, e, mode, t)
  }

  /** From `p` to the end the text is the tokens `ts`, with white space around them. */
  ghost predicate Spelt(s: string, p: nat, mode: Mode, ts: seq<Token>)
    requires p <= |s|
    decreases |ts|
  {
    if ts == [] then All(IsSpace, s[p..])
    else exists q, e :: SpeltAt(s, p, q, e, mode, ts[0]) && Spelt(s, e, mode, ts[1..])
  }

  lemma NoSpaceFirst(s: string, q: nat, e: nat, mode: Mode, t: Token)
    requires q < e <= |s| && Spells(s, q, e, mode, t)
    ensures Proper(t) && !IsSpace(s[q])
  {
    hide StringAt, NumberAt;
    match t
    case Num(_) =>
      var n :| SignedNumberAt(s, q, e, n);
      if s[q] != '-' { NumberStart(s, q, e, n); }
    case True => WordStart(s, q, e, "true");
    case False => WordStart(s, q, e, "false");
    case Null => WordStart(s, q, e, "null");
    case _ =>
  }

  lemma LexIff(s: string, p: nat, e: nat, mode: Mode, t: Token)
    requires p <= |s| && Proper(t)
    ensures (exists q :: Lex(s, p, mode) == Lexed(t, q, e)) <==> exists q :: SpeltAt(s, p, q, e, mode, t)
  {
    hide TokenFrom, Spells, Run, IsSpace;
    var q := Run(IsSpace, s, p);
    RunFacts(IsSpace, s, p);
    if Lex(s, p, mode) == Lexed(t, q, e) {
      TokenIff(s, q, e, mode, t);
      assert SpeltAt(s, p, q, e, mode, t);
    }
    if r :| SpeltAt(s, p, r, e, mode, t) {
      NoSpaceFirst(s, r, e, mode, t);
      RunIs(IsSpace, s, p, r);
      TokenIff(s, r, e, mode, t);
    }
  }

  /** The lexer finds the tokens `ts` and then the end exactly when the text is those tokens and white space. */
  lemma {:induction false} StreamIff(s: string, p: nat, mode: Mode, ts: seq<Token>)
    requires p <= |s|
    ensures Stream(s, p, mode) == ts + [End] <==> Spelt(s, p, mode, ts)
    decreases |ts|
  {
    hide Spells, SpeltAt;
    if ts == [] {
      EndIff(s, p, mode);
      assert ts + [End] == [End];
    } else {
      FirstOfStream(s, p, mode, ts);
      SpeltFirst(s, p, mode, ts);
      var r := Lex(s, p, mode);
      hide Lex, Stream;
      if Proper(ts[0]) && r.token == ts[0] {
        StreamIff(s, r.end, mode, ts[1..]);
      }
    }
  }

  lemma EndIff(s: string, p: nat, mode: Mode)
    requires p <= |s|
    ensures Stream(s, p, mode) == [End] <==> All(IsSpace, s[p..])
  {
    hide TokenFrom, IsSpace;
    var q := Run(IsSpace, s, p);
    RunFacts(IsSpace, s, p);
    assert s[p..|s|] == s[p..];
    if All(IsSpace, s[p..]) { RunIs(IsSpace, s, p, |s|); }
    if Stream(s, p, mode) == [End] {
      assert Stream(s, p, mode)[0] == Lex(s, p, mode).token;
    }
  }

  lemma FirstOfStream(s: string, p: nat, mode: Mode, ts: seq<Token>)
    requires p <= |s| && ts != []
    ensures var r := Lex(s, p, mode);
            Stream(s, p, mode) == ts + [End] <==> Proper(r.token) && r.token == ts[0] && Stream(s, r.end, mode) == ts[1..] + [End]
  {
    hide Lex;
    var r := Lex(s, p, mode);
    assert ts + [End] == [ts[0]] + (ts[1..] + [End]);
    if Proper(r.token) {
      var rest := Stream(s, r.end, mode);
      assert ([r.token] + rest)[1..] == rest && ([ts[0]] + (ts[1..] + [End]))[1..] == ts[1..] + [End];
    }
  }

  lemma SpeltFirst(s: string, p: nat, mode: Mode, ts: seq<Token>)
    requires p <= |s| && ts != []
    ensures var r := Lex(s, p, mode);
            Spelt(s, p, mode, ts) <==> Proper(r.token) && r.token == ts[0] && Spelt(s, r.end, mode, ts[1..])
  {
    hide Lex, Spells;
    var r := Lex(s, p, mode);
    if Spelt(s, p, mode, ts) {
      var q, e :| SpeltAt(s, p, q, e, mode, ts[0]) && Spelt(s, e, mode, ts[1..]);
      NoSpaceFirst(s, q, e, mode, ts[0]);
      LexIff(s, p, e, mode, ts[0]);
    }
    if Proper(r.token) && r.token == ts[0] && Spelt(s, r.end, mode, ts[1..]) {
      LexIff(s, p, r.end, mode, ts[0]);
      assert r == Lexed(ts[0], r.start, r.end);
    }
  }

  // ----- Texts as the RFC has them: no condition on what follows a token -----

  ghost predicate IsScalar(t: Token) { t.Str? || t.Num? || t.True? || t.False? || t.Null? }

  /** A number of section 6 of RFC 8259, with an optional minus sign. */
  ghost predicate IsNumberText(t: string, n: Number) {
    IsNumber(n) && (if t != "" && t[0] == '-' then t[1..] else t) == NumberText(n)
  }

  /** `s[q..e]` is a text of token `t`. */
  ghost predicate TextOf(s: string, q: nat, e: nat, mode: Mode, t: Token)
    requires q < e <= |s|
  {
    match t
    case Num(lexeme) => lexeme == s[q..e] && exists n :: IsNumberText(lexeme, n)
    case True => s[q..e] == "true"
    case False => s[q..e] == "false"
    case Null => s[q..e] == "null"
    case _ => Spells(s, q, e, mode, t)
  }

  ghost predicate TextAt(s: string, p: nat, q: nat, e: nat, mode: Mode, t: Token) {
    p <= q < e <= |s| && All(IsSpace, s[p..q]) && TextOf(s, q, e, mode, t)
  }

  /** From `p` to the end the text can be cut into texts of the tokens `ts`, with white space around them. */
  ghost predicate Derived(s: string, p: nat, mode: Mode, ts: seq<Token>)
    requires p <= |s|
    decreases |ts|
  {
    if ts == [] then All(IsSpace, s[p..])
    else exists q, e :: TextAt(s, p, q, e, mode, ts[0]) && Derived(s, e, mode, ts[1..])
  }

  /** No two scalars next to each other. */
  ghost predicate Separated(ts: seq<Token>) {
    forall i :: 0 < i < |ts| ==> !IsScalar(ts[i - 1]) || !IsScalar(ts[i])
  }

  /** The text ends here, or goes on with a character that belongs to no scalar before it. */
  ghost predicate Stops(s: string, e: nat)
    requires e <= |s|
  {
    e == |s| || (!IsAlnum(s[e]) && s[e] != '.')
  }

  lemma SpellsIsText(s: string, q: nat, e: nat, mode: Mode, t: Token)
    requires q < e <= |s| && Spells(s, q, e, mode, t)
    ensures TextOf(s, q, e, mode, t)
  {
    hide StringAt, IsNumber;
    if t.Num? {
      var n :| SignedNumberAt(s, q, e, n);
      assert s[q..e][1..] == s[q + 1..e] && s[q..e][0] == s[q];
      assert IsNumberText(t.lexeme, n);
    }
  }

  lemma TextIsSpelled(s: string, q: nat, e: nat, mode: Mode, t: Token)
    requires q < e <= |s| && TextOf(s, q, e, mode, t) && (IsScalar(t) ==> Stops(s, e))
    ensures Spells(s, q, e, mode, t)
  {
    hide StringAt, IsNumber, IsAlnum;
    if t.Num? {
      var n :| IsNumberText(t.lexeme, n);
      assert s[q..e][1..] == s[q + 1..e] && s[q..e][0] == s[q];
      assert SignedNumberAt(s, q, e, n);
    }
  }

  /** What can come after a scalar stops it. */
  lemma NextStops(s: string, e: nat, mode: Mode, ts: seq<Token>)
    requires e <= |s| && Derived(s, e, mode, ts) && (ts != [] ==> !IsScalar(ts[0]))
    ensures Stops(s, e)
  {
    hide Spells;
    if ts == [] {
      if e < |s| { assert IsSpace(s[e..][0]); }
    } else {
      var q: nat, f: nat :| TextAt(s, e, q, f, mode, ts[0]) && Derived(s, f, mode, ts[1..]);
      if e < q {
        assert IsSpace(s[e..q][0]);
      } else {
        PunctuationStops(s, q, f, mode, ts[0]);
      }
    }
  }

  lemma PunctuationStops(s: string, q: nat, e: nat, mode: Mode, t: Token)
    requires q < e <= |s| && TextOf(s, q, e, mode, t) && !IsScalar(t)
    ensures Stops(s, q)
  {
    hide StringAt, NumberAt;
  }

  /** For tokens with no two scalars next to each other, the text alone decides: the lexer's longest match changes nothing. */
  lemma {:induction false} DerivedIff(s: string, p: nat, mode: Mode, ts: seq<Token>)
    requires p <= |s| && Separated(ts)
    ensures Derived(s, p, mode, ts) <==> Spelt(s, p, mode, ts)
    decreases |ts|
  {
    hide Spells, TextOf, IsScalar;
    if ts != [] {
      var t, rest := ts[0], ts[1..];
      assert Separated(rest) by { RestSeparated(ts); }
      if Derived(s, p, mode, ts) {
        var q, e :| TextAt(s, p, q, e, mode, t) && Derived(s, e, mode, rest);
        DerivedIff(s, e, mode, rest);
        if IsScalar(t) {
          assert rest != [] ==> !IsScalar(rest[0]) by { SecondToken(ts); }
          NextStops(s, e, mode, rest);
        }
        TextIsSpelled(s, q, e, mode, t);
        assert SpeltAt(s, p, q, e, mode, t);
      }
      if Spelt(s, p, mode, ts) {
        var q, e :| SpeltAt(s, p, q, e, mode, t) && Spelt(s, e, mode, rest);
        DerivedIff(s, e, mode, rest);
        SpellsIsText(s, q, e, mode, t);
        assert TextAt(s, p, q, e, mode, t);
      }
    }
  }

  lemma RestSeparated(ts: seq<Token>)
    requires Separated(ts) && ts != []
    ensures Separated(ts[1..])
  {
    assert forall i :: 0 <= i < |ts| - 1 ==> ts[1..][i] == ts[i + 1];
  }

  lemma SecondToken(ts: seq<Token>)
    requires Separated(ts) && |ts| > 0 && IsScalar(ts[0])
    ensures |ts| > 1 ==> !IsScalar(ts[1..][0])
  {
    if |ts| > 1 { assert ts[1..][0] == ts[1]; }
  }

  // ----- The two modes agree on everything but string values -----

  ghost function Erase(t: Token): Token {
    if t.Str? then Str(None) else t
  }

  lemma LexErase(s: string, p: nat, mode: Mode)
    requires p <= |s|
    ensures var r := Lex(s, p, mode);
            !r.token.Bad? ==> Lex(s, p, Plain) == Lexed(Erase(r.token), r.start, r.end)
  {
    hide StringFrom, NumberPart, Run;
    var q := Run(IsSpace, s, p);
    if q < |s| && s[q] == '"' && mode.DeEscape? && StringFrom(s, q + 1, mode, NO_SURROGATE, "").StringOk? {
      PlainAcceptsMore(s, q + 1, mode.utf8, NO_SURROGATE, "");
    }
  }

  /** A stream lexed without de-escaping has the same tokens, without the string values, at least as far as
      the de-escaping lexer gets. */
  lemma {:induction false} StreamErase(s: string, p: nat, mode: Mode)
    requires p <= |s|
    ensures var a, b := Stream(s, p, mode), Stream(s, p, Plain);
            |a| <= |b| && forall i :: 0 <= i < |a| && !a[i].Bad? ==> b[i] == Erase(a[i])
    decreases |s| - p
  {
    hide Lex;
    LexErase(s, p, mode);
    var r := Lex(s, p, mode);
    if Proper(r.token) {
      StreamErase(s, r.end, mode);
      var a, b := Stream(s, r.end, mode), Stream(s, r.end, Plain);
      assert Stream(s, p, mode) == [r.token] + a;
      assert Stream(s, p, Plain) == [Erase(r.token)] + b;
    }
  }
}
