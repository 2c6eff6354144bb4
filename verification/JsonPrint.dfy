/** Printing a document by the grammar of RFC 8259 and parsing it again; which error each wrong token gives; and examples
    of numbers. The printer and its characters are defined here on their own. */
module JsonPrint {
  import opened Common
  import opened JsonNumbers
  import opened JsonStrings
  import opened JsonTokens
  import opened JsonGrammar
  import opened JsonParser
  import opened JsonEscapes

  // ----- Printing -----

  /** Section 2: space, tab, line feed, carriage return. */
  predicate IsWhite(c: char) { c as int == 0x20 || c as int == 0x09 || c as int == 0x0A || c as int == 0x0D }

  predicate White(ws: string) { forall i :: 0 <= i < |ws| ==> IsWhite(ws[i]) }

  /** Section 7: what must be escaped is escaped. */
  function EscapedByte(c: char): string
    requires c as int < 256
  {
    if c as int == 0x22 || c as int == 0x5C then ['\\', c]
    else if c as int < 0x20 then "\\u" + FourDigits(c as int, false)
    else [c]
  }

  predicate Bytes(val: string) { forall i :: 0 <= i < |val| ==> 0 < val[i] as int < 256 }

  function Escaped(val: string): string
    requires Bytes(val)
  {
    if val == "" then "" else EscapedByte(val[0]) + Escaped(val[1..])
  }

  /** A token that can be printed: a string has a value without NUL, a number is a number of section 6. */
  ghost predicate Printable(t: Token) {
    && Proper(t)
    && (t.Str? ==> t.val.Some? && Bytes(t.val.value))
    && (t.Num? ==> exists n :: IsNumberText(t.lexeme, n))
  }

  ghost function TokenText(t: Token): string
    requires Printable(t)
  {
    match t
    case ObjectStart => "{"
    case ObjectEnd => "}"
    case ArrayStart => "["
    case ArrayEnd => "]"
    case Comma => ","
    case Colon => ":"
    case Str(val) => "\"" + Escaped(val.value) + "\""
    case Num(lexeme) => lexeme
    case True => "true"
    case False => "false"
    case Null => "null"
  }

  ghost predicate AllPrintable(j: Json) {
    match j
    case Leaf(t) => Printable(t)
    case Arr(elems) => forall e :: e in elems ==> AllPrintable(e)
    case Obj(fields) => forall f :: f in fields ==> Printable(f.name) && AllPrintable(f.value)
  }

  /** The document, with white space `ws` in front of every token. */
  ghost function Print(j: Json, ws: string): string
    requires AllPrintable(j)
    decreases j, 1
  {
    match j
    case Leaf(t) => ws + TokenText(t)
    case Arr(elems) => ws + "[" + PrintElems(elems, ws) + ws + "]"
    case Obj(fields) => ws + "{" + PrintFields(fields, ws) + ws + "}"
  }

  ghost function PrintElems(elems: seq<Json>, ws: string): string
    requires forall e :: e in elems ==> AllPrintable(e)
    decreases elems, 0
  {
    if elems == [] then ""
    else if |elems| == 1 then Print(elems[0], ws)
    else Print(elems[0], ws) + ws + "," + PrintElems(elems[1..], ws)
  }

  ghost function PrintField(f: Field, ws: string): string
    requires Printable(f.name) && AllPrintable(f.value)
    decreases f, 2
  {
    ws + TokenText(f.name) + ws + ":" + Print(f.value, ws)
  }

  ghost function PrintFields(fields: seq<Field>, ws: string): string
    requires forall f :: f in fields ==> Printable(f.name) && AllPrintable(f.value)
    decreases fields, 0
  {
    if fields == [] then ""
    else if |fields| == 1 then PrintField(fields[0], ws)
    else PrintField(fields[0], ws) + ws + "," + PrintFields(fields[1..], ws)
  }

  // ----- One token -----

  function BytePiece(c: char): Piece
    requires 0 < c as int < 256
  {
    if c as int == 0x22 || c as int == 0x5C then Esc(c)
    else if c as int < 0x20 then Uni(FourDigits(c as int, false))
    else Raw(c)
  }

  lemma ByteMeans(c: char, utf8: bool, ys: seq<Piece>)
    requires 0 < c as int < 256 && ArePieces(ys)
    ensures PieceText(BytePiece(c)) == EscapedByte(c)
    ensures ArePieces([BytePiece(c)] + ys) && Meaning(utf8, [BytePiece(c)] + ys) == Prefix([c], Meaning(utf8, ys))
  {
    hide FourDigits, HexNum, IsHex;
    var xs := [BytePiece(c)] + ys;
    assert xs[1..] == ys;
    FourLong(false);
    FourDigitsRead(c as int, false);
  }

  lemma {:induction false} ValueMeans(val: string, utf8: bool) returns (xs: seq<Piece>)
    requires Bytes(val)
    ensures ArePieces(xs) && Text(xs) == Escaped(val) && Meaning(utf8, xs) == Some(val)
    decreases |val|
  {
    hide IsPiece, BytePiece, EscapedByte;
    if val == "" {
      xs := [];
    } else {
      var rest := ValueMeans(val[1..], utf8);
      xs := [BytePiece(val[0])] + rest;
      ByteMeans(val[0], utf8, rest);
      TextCons(BytePiece(val[0]), rest);
      assert val == [val[0]] + val[1..];
    }
  }

  /** What is printed for a token is a text of that token. */
  lemma TokenReads(s: string, q: nat, e: nat, utf8: bool, t: Token)
    requires Printable(t) && q < e <= |s| && s[q..e] == TokenText(t)
    ensures TextOf(s, q, e, DeEscape(utf8), t)
  {
    hide Escaped, Meaning, Text, IsPiece;
    if t.Str? {
      var xs := ValueMeans(t.val.value, utf8);
      assert s[q] == s[q..e][0];
      assert s[q + 1..e] == s[q..e][1..] == Text(xs) + "\"";
      var v := t.val.value;
      assert t.val == Value(DeEscape(utf8), v) && StringAt(s, q + 1, e, DeEscape(utf8), v);
    } else if !t.Num? {
      assert s[q] == s[q..e][0];
    }
  }

  // ----- A list of tokens -----

  ghost function PrintTokens(ts: seq<Token>, ws: string): string
    requires forall t :: t in ts ==> Printable(t)
  {
    if ts == [] then "" else ws + TokenText(ts[0]) + PrintTokens(ts[1..], ws)
  }

  lemma {:induction false} TokensConcat(a: seq<Token>, b: seq<Token>, ws: string)
    requires (forall t :: t in a ==> Printable(t)) && (forall t :: t in b ==> Printable(t))
    ensures PrintTokens(a + b, ws) == PrintTokens(a, ws) + PrintTokens(b, ws)
    decreases |a|
  {
    hide Printable, TokenText;
    if a == [] {
      assert a + b == b;
    } else {
      assert (a + b)[1..] == a[1..] + b;
      TokensConcat(a[1..], b, ws);
    }
  }

  lemma WhiteIff(ws: string)
    ensures White(ws) <==> All(IsSpace, ws)
  {
    forall i | 0 <= i < |ws|
      ensures IsWhite(ws[i]) <==> IsSpace(ws[i])
    {
    }
  }

  lemma SomeText(t: Token)
    requires Printable(t)
    ensures TokenText(t) != ""
  {
    if t.Num? {
      var n :| IsNumberText(t.lexeme, n);
      FirstOfNumber(n);
    }
  }

  lemma {:induction false} PrintedIsDerived(pre: string, ts: seq<Token>, ws: string, utf8: bool)
    requires (forall t :: t in ts ==> Printable(t)) && White(ws)
    ensures Derived(pre + PrintTokens(ts, ws) + ws, |pre|, DeEscape(utf8), ts)
    decreases |ts|
  {
    hide Printable, TokenText, White, TextOf;
    var s := pre + PrintTokens(ts, ws) + ws;
    WhiteIff(ws);
    if ts == [] {
      assert s[|pre|..] == ws;
    } else {
      var text := TokenText(ts[0]);
      var q, e := |pre| + |ws|, |pre| + |ws| + |text|;
      SomeText(ts[0]);
      assert s == (pre + ws + text) + PrintTokens(ts[1..], ws) + ws;
      PrintedIsDerived(pre + ws + text, ts[1..], ws, utf8);
      assert s[|pre|..q] == ws && s[q..e] == text;
      TokenReads(s, q, e, utf8, ts[0]);
      assert TextAt(s, |pre|, q, e, DeEscape(utf8), ts[0]);
    }
  }

  // ----- A document -----

  ghost predicate AllTokens(ts: seq<Token>) { forall t :: t in ts ==> Printable(t) }

  lemma AllTokensConcat(a: seq<Token>, b: seq<Token>)
    requires AllTokens(a) && AllTokens(b)
    ensures AllTokens(a + b)
  {
  }

  lemma PrintOne(t: Token, ws: string)
    requires Printable(t)
    ensures AllTokens([t]) && PrintTokens([t], ws) == ws + TokenText(t)
  {
    hide Printable, TokenText;
    assert [t][1..] == [];
  }

  /** A token, some tokens and a token. */
  lemma PrintBetween(a: Token, ts: seq<Token>, b: Token, ws: string)
    requires Printable(a) && AllTokens(ts) && Printable(b)
    ensures AllTokens([a] + ts + [b])
    ensures PrintTokens([a] + ts + [b], ws) == ws + TokenText(a) + PrintTokens(ts, ws) + ws + TokenText(b)
  {
    hide Printable, TokenText, PrintTokens;
    PrintOne(a, ws);
    PrintOne(b, ws);
    TokensConcat([a], ts, ws);
    TokensConcat([a] + ts, [b], ws);
  }

  lemma {:induction false} PrintIsTokens(j: Json, ws: string)
    requires AllPrintable(j)
    ensures AllTokens(Flatten(j)) && Print(j, ws) == PrintTokens(Flatten(j), ws)
    decreases j, 1
  {
    hide Printable, AllTokens, PrintTokens;
    match j
    case Leaf(t) => PrintOne(t, ws);
    case Arr(elems) =>
      ElemsAreTokens(elems, ws);
      Marks();
      PrintBetween(ArrayStart, FlattenElems(elems), ArrayEnd, ws);
    case Obj(fields) =>
      FieldsAreTokens(fields, ws);
      Marks();
      PrintBetween(ObjectStart, FlattenFields(fields), ObjectEnd, ws);
  }

  lemma Marks()
    ensures Printable(ArrayStart) && Printable(ArrayEnd) && Printable(ObjectStart) && Printable(ObjectEnd) && Printable(Comma) && Printable(Colon)
  {
  }

  lemma NoTokens(ws: string)
    ensures AllTokens([]) && PrintTokens([], ws) == ""
  {
  }

  lemma {:induction false} ElemsAreTokens(elems: seq<Json>, ws: string)
    requires forall e :: e in elems ==> AllPrintable(e)
    ensures AllTokens(FlattenElems(elems)) && PrintElems(elems, ws) == PrintTokens(FlattenElems(elems), ws)
    decreases elems, 0
  {
    hide Printable, AllTokens, PrintTokens, AllPrintable, Flatten, Print;
    NoTokens(ws);
    if elems != [] {
      var first, rest := Flatten(elems[0]), elems[1..];
      PrintIsTokens(elems[0], ws);
      if rest == [] {
        assert FlattenElems(elems) == first + [];
        assert first + [] == first;
      } else {
        ElemsAreTokens(rest, ws);
        Marks();
        PrintOne(Comma, ws);
        Comma3(first, FlattenElems(rest), ws);
        assert FlattenElems(elems) == first + ([Comma] + Flatten(rest[0]) + FlattenMoreElems(rest[1..]));
        assert first + ([Comma] + Flatten(rest[0]) + FlattenMoreElems(rest[1..])) == first + [Comma] + FlattenElems(rest);
      }
    }
  }

  /** Two lists of tokens with a comma between them. */
  lemma Comma3(a: seq<Token>, b: seq<Token>, ws: string)
    requires AllTokens(a) && AllTokens(b)
    ensures AllTokens(a + [Comma] + b)
    ensures PrintTokens(a + [Comma] + b, ws) == PrintTokens(a, ws) + ws + "," + PrintTokens(b, ws)
  {
    hide Printable, PrintTokens;
    Marks();
    PrintOne(Comma, ws);
    TokensConcat(a, [Comma], ws);
    TokensConcat(a + [Comma], b, ws);
    assert PrintTokens(a, ws) + (ws + ",") == PrintTokens(a, ws) + ws + ",";
  }

  lemma {:induction false} FieldIsTokens(f: Field, ws: string)
    requires Printable(f.name) && AllPrintable(f.value)
    ensures AllTokens(FlattenField(f)) && PrintField(f, ws) == PrintTokens(FlattenField(f), ws)
    decreases f, 2
  {
    hide Printable, AllTokens, PrintTokens, AllPrintable, Flatten, Print;
    var v := Flatten(f.value);
    PrintIsTokens(f.value, ws);
    Marks();
    NoTokens(ws);
    PrintBetween(f.name, [], Colon, ws);
    assert [f.name] + [] + [Colon] == [f.name, Colon];
    AllTokensConcat([f.name, Colon], v);
    TokensOf(v);
    TokensOf([f.name, Colon]);
    TokensConcat([f.name, Colon], v, ws);
  }

  lemma TokensOf(ts: seq<Token>)
    requires AllTokens(ts)
    ensures forall t :: t in ts ==> Printable(t)
  {
  }

  lemma {:induction false} FieldsAreTokens(fields: seq<Field>, ws: string)
    requires forall f :: f in fields ==> Printable(f.name) && AllPrintable(f.value)
    ensures AllTokens(FlattenFields(fields)) && PrintFields(fields, ws) == PrintTokens(FlattenFields(fields), ws)
    decreases fields, 0
  {
    hide Printable, AllTokens, PrintTokens, AllPrintable, FlattenField, PrintField;
    NoTokens(ws);
    if fields != [] {
      var first, rest := FlattenField(fields[0]), fields[1..];
      FieldIsTokens(fields[0], ws);
      if rest == [] {
        assert FlattenFields(fields) == first + [];
        assert first + [] == first;
      } else {
        FieldsAreTokens(rest, ws);
        Comma3(first, FlattenFields(rest), ws);
        assert FlattenFields(fields) == first + ([Comma] + FlattenField(rest[0]) + FlattenMoreFields(rest[1..]));
        assert first + ([Comma] + FlattenField(rest[0]) + FlattenMoreFields(rest[1..])) == first + [Comma] + FlattenFields(rest);
      }
    }
  }

  /** A printed document is a document, and of no other tree: parsing undoes printing. */
  lemma PrintedIsDocument(j: Json, ws: string, utf8: bool, k: Json)
    requires WellFormed(j) && AllPrintable(j) && White(ws)
    ensures IsDocument(Print(j, ws) + ws, DeEscape(utf8), k) <==> k == j
  {
    hide WellFormed, AllPrintable, Printable, Derived, Flatten, PrintTokens, Stream, PDocument, White;
    var text, mode := Print(j, ws) + ws, DeEscape(utf8);
    PrintIsTokens(j, ws);
    TokensOf(Flatten(j));
    PrintedIsDerived("", Flatten(j), ws, utf8);
    assert "" + PrintTokens(Flatten(j), ws) + ws == text;
    if IsDocument(text, mode, k) {
      DocumentText(text, mode, j);
      DocumentText(text, mode, k);
      DocumentIff(Stream(text, 0, mode), j);
      DocumentIff(Stream(text, 0, mode), k);
    }
  }

  // ----- Errors -----

  /** The error for token `t`: the input ended, or `e`. */
  ghost predicate Reports<T>(r: Parsed<T>, t: Token, e: Error) {
    r == Fail(if t == End then ExpectedMore else e)
  }

  /** Where a value is wanted. */
  lemma ValueErrors(toks: seq<Token>, i: nat)
    requires Here(toks, i)
    ensures !IsScalar(toks[i]) && toks[i] != ArrayStart && toks[i] != ObjectStart ==> Reports(PValue(toks, i), toks[i], ExpectedJson)
    ensures IsScalar(toks[i]) && toks[i + 1].Bad? ==> PValue(toks, i) == Fail(toks[i + 1].error)
  {
  }

  /** After the elements of an array. */
  lemma ArrayErrors(toks: seq<Token>, i: nat)
    requires Here(toks, i) && toks[i] == ArrayStart && Here(toks, i + 1) && toks[i + 1] != ArrayEnd && PElems(toks, i + 1).Ok?
    ensures var t := toks[PElems(toks, i + 1).next]; t != ArrayEnd ==> Reports(PValue(toks, i), t, ExpectedArrayNext)
  {
    hide PElems;
  }

  /** At the start of an object and after its members. */
  lemma ObjectErrors(toks: seq<Token>, i: nat)
    requires Here(toks, i) && toks[i] == ObjectStart && Here(toks, i + 1)
    ensures !toks[i + 1].Str? && toks[i + 1] != ObjectEnd ==> Reports(PValue(toks, i), toks[i + 1], ExpectedObjectFirst)
    ensures toks[i + 1].Str? && PFields(toks, i + 1).Ok? ==>
              var t := toks[PFields(toks, i + 1).next]; t != ObjectEnd ==> Reports(PValue(toks, i), t, ExpectedObjectNext)
  {
    hide PFields;
  }

  /** The name of a member and the colon after it. */
  lemma FieldErrors(toks: seq<Token>, i: nat)
    requires Here(toks, i)
    ensures !toks[i].Str? ==> Reports(PField(toks, i), toks[i], ExpectedString)
    ensures toks[i].Str? && Here(toks, i + 1) && toks[i + 1] != Colon ==> Reports(PField(toks, i), toks[i + 1], ExpectedColon)
  {
    hide PValue;
  }

  /** The first token, and what follows the value. */
  lemma DocumentErrors(toks: seq<Token>)
    requires Streamed(toks)
    ensures toks[0].Bad? ==> PDocument(toks) == Fail(toks[0].error)
    ensures !toks[0].Bad? && PValue(toks, 0).Ok? && toks[PValue(toks, 0).next] != End ==> PDocument(toks) == Fail(ExpectedEnd)
  {
    hide PValue;
  }

  // ----- Numbers -----

  /** Texts that are numbers by section 6. */
  lemma NumberExamples()
    ensures IsSignedNumber("0") && IsSignedNumber("-0.5e+10") && IsSignedNumber("20E-3")
  {
    hide IsSignedNumber;
    NumberIs("0", "", Number("0", None, None));
    NumberIs("20E-3", "", Number("20", None, Some(Exp('E', "-", "3"))));
    NumberIs("-0.5e+10", "-", Number("0", Some("5"), Some(Exp('e', "+", "10"))));
  }

  lemma NumberIs(str: string, sign: string, n: Number)
    requires IsNumber(n) && (sign == "" || sign == "-") && str == sign + NumberText(n)
    ensures IsSignedNumber(str)
  {
  }

  /** Texts that are not: a superfluous zero, a sign that is not allowed, digits that are missing. */
  lemma NoNumberExamples()
    ensures !IsSignedNumber("01") && !IsSignedNumber("+1") && !IsSignedNumber("1.") && !IsSignedNumber(".5") && !IsSignedNumber("1e")
  {
    WholeNumber("01", "01", NumberPart("01", 0));
    WholeNumber("+1", "+1", NumberPart("+1", 0));
    WholeNumber("1.", "1.", NumberPart("1.", 0));
    WholeNumber(".5", ".5", NumberPart(".5", 0));
    WholeNumber("1e", "1e", NumberPart("1e", 0));
  }
}
