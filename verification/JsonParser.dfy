/** The JSON parser (common/jsonapi.c:75-99, 178-261, 272-672): a lexer whose fields change token by token,
    recursive descent, semantic callbacks and the look-ahead that counts array elements. */
module JsonParser {
  import opened Common
  import opened JsonNumbers
  import opened JsonStrings
  import opened JsonTokens
  import opened JsonGrammar

  datatype TokenType =
    | InvalidType | StringType | NumberType | ObjectStartType | ObjectEndType | ArrayStartType | ArrayEndType
    | CommaType | ColonType | TrueType | FalseType | NullType | EndType

  function TypeOf(t: Token): TokenType {
    match t
    case ObjectStart => ObjectStartType
    case ObjectEnd => ObjectEndType
    case ArrayStart => ArrayStartType
    case ArrayEnd => ArrayEndType
    case Comma => CommaType
    case Colon => ColonType
    case Str(_) => StringType
    case Num(_) => NumberType
    case True => TrueType
    case False => FalseType
    case Null => NullType
    case End => EndType
    case Bad(_) => InvalidType
  }

  // ----- Callbacks -----

  datatype Callback =
    | OnObjectStart | OnObjectEnd | OnArrayStart | OnArrayEnd | OnFieldStart | OnFieldEnd | OnElementStart | OnElementEnd | OnScalar

  /** A callback as it was made: which one, at which lexer nesting level, and with which arguments. */
  datatype Event =
    | Bracket(callback: Callback, level: int)
    | Member(callback: Callback, level: int, name: Option<string>, isnull: bool)
    | Scalar(callback: Callback, level: int, text: Option<string>, kind: TokenType)

  /** A callback is made only if it is installed. */
  function Made(installed: set<Callback>, e: Event): seq<Event> {
    if e.callback in installed then [e] else []
  }

  /** What a scalar callback is given: the de-escaped string, if there is one, or the text of the token. */
  ghost function Lexeme(t: Token): Option<string> {
    match t
    case Str(val) => val
    case Num(lexeme) => Some(lexeme)
    case True => Some("true")
    case False => Some("false")
    case Null => Some("null")
    case _ => None
  }

  ghost predicate IsNull(j: Json) { j.Leaf? && j.token.Null? }

  /** The callbacks for a tree: properly nested, the contents one level deeper than the brackets. */
  ghost function Events(cb: set<Callback>, j: Json, level: int): seq<Event>
    decreases j, 1
  {
    match j
    case Leaf(t) => Made(cb, Scalar(OnScalar, level, Lexeme(t), TypeOf(t)))
    case Arr(elems) =>
      Made(cb, Bracket(OnArrayStart, level)) + ElemEvents(cb, elems, level + 1) + Made(cb, Bracket(OnArrayEnd, level))
    case Obj(fields) =>
      Made(cb, Bracket(OnObjectStart, level)) + FieldEvents(cb, fields, level + 1) + Made(cb, Bracket(OnObjectEnd, level))
  }

  ghost function ElemEvent(cb: set<Callback>, j: Json, level: int): seq<Event>
    decreases j, 2
  {
    Made(cb, Member(OnElementStart, level, None, IsNull(j))) + Events(cb, j, level) + Made(cb, Member(OnElementEnd, level, None, IsNull(j)))
  }

  ghost function ElemEvents(cb: set<Callback>, elems: seq<Json>, level: int): seq<Event>
    decreases elems, 0
  {
    if elems == [] then [] else ElemEvent(cb, elems[0], level) + ElemEvents(cb, elems[1..], level)
  }

  ghost function FieldEvent(cb: set<Callback>, f: Field, level: int): seq<Event>
    decreases f, 2
  {
    Made(cb, Member(OnFieldStart, level, Lexeme(f.name), IsNull(f.value))) + Events(cb, f.value, level)
    + Made(cb, Member(OnFieldEnd, level, Lexeme(f.name), IsNull(f.value)))
  }

  ghost function FieldEvents(cb: set<Callback>, fields: seq<Field>, level: int): seq<Event>
    decreases fields, 0
  {
    if fields == [] then [] else FieldEvent(cb, fields[0], level) + FieldEvents(cb, fields[1..], level)
  }

  // ----- What a parse routine does, seen from outside -----

  /** The position it reaches and the callbacks it makes, or its error. */
  datatype Outcome = Went(next: nat, events: seq<Event>) | Erred(error: Error)

  ghost function After(ev: seq<Event>, o: Outcome): Outcome {
    if o.Erred? then o else Went(o.next, ev + o.events)
  }

  ghost function Around(a: seq<Event>, o: Outcome, b: seq<Event>): Outcome {
    if o.Erred? then o else Went(o.next, a + o.events + b)
  }

  ghost function ValueOut(toks: seq<Token>, i: nat, cb: set<Callback>, level: int): (o: Outcome)
    requires Here(toks, i)
    ensures o.Went? ==> i < o.next && Here(toks, o.next)
  {
    var r := PValue(toks, i);
    if r.Fail? then Erred(r.error) else Went(r.next, Events(cb, r.value, level))
  }

  ghost function ElementOut(toks: seq<Token>, i: nat, cb: set<Callback>, level: int): (o: Outcome)
    requires Here(toks, i)
    ensures o.Went? ==> i < o.next && Here(toks, o.next)
  {
    var r := PValue(toks, i);
    if r.Fail? then Erred(r.error) else Went(r.next, ElemEvent(cb, r.value, level))
  }

  ghost function ElemsOut(toks: seq<Token>, i: nat, cb: set<Callback>, level: int): (o: Outcome)
    requires Here(toks, i)
    ensures o.Went? ==> i < o.next && Here(toks, o.next)
  {
    var r := PElems(toks, i);
    if r.Fail? then Erred(r.error) else Went(r.next, ElemEvents(cb, r.value, level))
  }

  ghost function MoreElemsOut(toks: seq<Token>, i: nat, cb: set<Callback>, level: int): (o: Outcome)
    requires Here(toks, i)
    ensures o.Went? ==> i <= o.next && Here(toks, o.next)
  {
    var r := PMoreElems(toks, i);
    if r.Fail? then Erred(r.error) else Went(r.next, ElemEvents(cb, r.value, level))
  }

  ghost function FieldOut(toks: seq<Token>, i: nat, cb: set<Callback>, level: int): (o: Outcome)
    requires Here(toks, i)
    ensures o.Went? ==> i < o.next && Here(toks, o.next)
  {
    var r := PField(toks, i);
    if r.Fail? then Erred(r.error) else Went(r.next, FieldEvent(cb, r.value, level))
  }

  ghost function FieldsOut(toks: seq<Token>, i: nat, cb: set<Callback>, level: int): (o: Outcome)
    requires Here(toks, i)
    ensures o.Went? ==> i < o.next && Here(toks, o.next)
  {
    var r := PFields(toks, i);
    if r.Fail? then Erred(r.error) else Went(r.next, FieldEvents(cb, r.value, level))
  }

  ghost function MoreFieldsOut(toks: seq<Token>, i: nat, cb: set<Callback>, level: int): (o: Outcome)
    requires Here(toks, i)
    ensures o.Went? ==> i <= o.next && Here(toks, o.next)
  {
    var r := PMoreFields(toks, i);
    if r.Fail? then Erred(r.error) else Went(r.next, FieldEvents(cb, r.value, level))
  }

  // ----- How the outcomes are composed -----

  lemma ScalarOutcome(toks: seq<Token>, i: nat, cb: set<Callback>, level: int)
    requires Here(toks, i) && !toks[i].ObjectStart? && !toks[i].ArrayStart?
    ensures ValueOut(toks, i, cb, level) ==
            if !IsScalar(toks[i]) then Erred(ParseError(AtValue, toks[i].End?))
            else if toks[i + 1].Bad? then Erred(toks[i + 1].error)
            else Went(i + 1, Made(cb, Scalar(OnScalar, level, Lexeme(toks[i]), TypeOf(toks[i]))))
  {
  }

  /** A value between the callbacks of its element or field. */
  ghost function MemberOut(toks: seq<Token>, i: nat, cb: set<Callback>, level: int, opening: Callback, closing: Callback, name: Option<string>): Outcome
    requires Here(toks, i)
  {
    var isnull := toks[i].Null?;
    Around(Made(cb, Member(opening, level, name, isnull)), ValueOut(toks, i, cb, level), Made(cb, Member(closing, level, name, isnull)))
  }

  lemma ElementOutcome(toks: seq<Token>, i: nat, cb: set<Callback>, level: int)
    requires Here(toks, i)
    ensures ElementOut(toks, i, cb, level) == MemberOut(toks, i, cb, level, OnElementStart, OnElementEnd, None)
  {
    hide PArray, PObject, Events, Made;
  }

  lemma ElemsOutcome(toks: seq<Token>, i: nat, cb: set<Callback>, level: int)
    requires Here(toks, i)
    ensures var o := ElementOut(toks, i, cb, level);
            ElemsOut(toks, i, cb, level) == if o.Erred? then o else After(o.events, MoreElemsOut(toks, o.next, cb, level))
  {
    hide PValue, PMoreElems, ElemEvent;
    var r := PElems(toks, i);
    if r.Ok? {
      var v := PValue(toks, i);
      assert r.value[1..] == PMoreElems(toks, v.next).value;
    }
  }

  lemma MoreElemsOutcome(toks: seq<Token>, i: nat, cb: set<Callback>, level: int)
    requires Here(toks, i)
    ensures MoreElemsOut(toks, i, cb, level) ==
            if !toks[i].Comma? then Went(i, [])
            else if toks[i + 1].Bad? then Erred(toks[i + 1].error)
            else ElemsOut(toks, i + 1, cb, level)
  {
    hide PElems, ElemEvent;
  }

  lemma ArrayOutcome(toks: seq<Token>, i: nat, cb: set<Callback>, level: int)
    requires Here(toks, i) && toks[i].ArrayStart?
    ensures ValueOut(toks, i, cb, level) ==
            if toks[i + 1].Bad? then Erred(toks[i + 1].error) else
            var o := if toks[i + 1].ArrayEnd? then Went(i + 1, []) else ElemsOut(toks, i + 1, cb, level + 1);
            Closed(toks, o, AtArrayNext, ArrayEnd, Made(cb, Bracket(OnArrayStart, level)), Made(cb, Bracket(OnArrayEnd, level)))
  {
    hide PElems, Made;
    var r := PArray(toks, i);
    assert PValue(toks, i) == r;
    assert ElemEvents(cb, [], level + 1) == [];
  }

  /** The closing bracket after the contents. */
  ghost function Closed(toks: seq<Token>, o: Outcome, ctx: Where, t: Token, a: seq<Event>, b: seq<Event>): Outcome
    requires (o.Went? ==> Here(toks, o.next)) && Proper(t)
  {
    if o.Erred? then o else
    var e := JsonGrammar.Expect(toks, o.next, ctx, t);
    if e.Fail? then Erred(e.error) else Went(e.next, a + o.events + b)
  }

  lemma FieldOutcome(toks: seq<Token>, i: nat, cb: set<Callback>, level: int)
    requires Here(toks, i)
    ensures FieldOut(toks, i, cb, level) ==
            if !toks[i].Str? then Erred(ParseError(AtString, toks[i].End?))
            else if toks[i + 1].Bad? then Erred(toks[i + 1].error)
            else
              var c := JsonGrammar.Expect(toks, i + 1, AtObjectLabel, Colon);
              if c.Fail? then Erred(c.error)
              else MemberOut(toks, i + 2, cb, level, OnFieldStart, OnFieldEnd, Lexeme(toks[i]))
  {
    hide PArray, PObject, Events, Made;
  }

  /** The name is fetched only if a field callback is installed to receive it. */
  lemma FieldOutcomeNamed(toks: seq<Token>, i: nat, cb: set<Callback>, level: int, fname: Option<string>)
    requires Here(toks, i) && (OnFieldStart in cb || OnFieldEnd in cb ==> fname == Lexeme(toks[i]))
    ensures i + 2 < |toks| && Here(toks, i + 2) ==>
              MemberOut(toks, i + 2, cb, level, OnFieldStart, OnFieldEnd, Lexeme(toks[i])) == MemberOut(toks, i + 2, cb, level, OnFieldStart, OnFieldEnd, fname)
  {
    hide ValueOut, Lexeme;
  }

  lemma FieldsOutcome(toks: seq<Token>, i: nat, cb: set<Callback>, level: int)
    requires Here(toks, i)
    ensures var o := FieldOut(toks, i, cb, level);
            FieldsOut(toks, i, cb, level) == if o.Erred? then o else After(o.events, MoreFieldsOut(toks, o.next, cb, level))
  {
    hide PField, PMoreFields, FieldEvent;
    var r := PFields(toks, i);
    if r.Ok? {
      var v := PField(toks, i);
      assert r.value[1..] == PMoreFields(toks, v.next).value;
    }
  }

  lemma MoreFieldsOutcome(toks: seq<Token>, i: nat, cb: set<Callback>, level: int)
    requires Here(toks, i)
    ensures MoreFieldsOut(toks, i, cb, level) ==
            if !toks[i].Comma? then Went(i, [])
            else if toks[i + 1].Bad? then Erred(toks[i + 1].error)
            else FieldsOut(toks, i + 1, cb, level)
  {
    hide PFields, FieldEvent;
  }

  lemma ObjectOutcome(toks: seq<Token>, i: nat, cb: set<Callback>, level: int)
    requires Here(toks, i) && toks[i].ObjectStart?
    ensures ValueOut(toks, i, cb, level) ==
            if toks[i + 1].Bad? then Erred(toks[i + 1].error) else
            var o := if toks[i + 1].Str? then FieldsOut(toks, i + 1, cb, level + 1)
                     else if toks[i + 1].ObjectEnd? then Went(i + 1, [])
                     else Erred(ParseError(AtObjectStart, toks[i + 1].End?));
            Closed(toks, o, AtObjectNext, ObjectEnd, Made(cb, Bracket(OnObjectStart, level)), Made(cb, Bracket(OnObjectEnd, level)))
  {
    hide PFields, Made;
    var r := PObject(toks, i);
    assert PValue(toks, i) == r;
    assert FieldEvents(cb, [], level + 1) == [];
  }

  lemma DocumentOutcome(toks: seq<Token>, cb: set<Callback>, level: int)
    requires Streamed(toks)
    ensures var r := PDocument(toks);
            if toks[0].Bad? then r == Fail(toks[0].error) else
            var o := ValueOut(toks, 0, cb, level);
            if o.Erred? then r == Fail(o.error)
            else if !toks[o.next].End? then r == Fail(ParseError(AtEnd, false))
            else r.Ok? && o.events == Events(cb, r.value, level)
  {
    hide PValue, Events;
  }

  lemma AfterAfter(a: seq<Event>, b: seq<Event>, o: Outcome)
    ensures After(a + b, o) == After(a, After(b, o))
  {
    if o.Went? { assert a + b + o.events == a + (b + o.events); }
  }

  // ----- One lexer step -----

  datatype Step = Stepped(kind: TokenType, start: int, end: nat, strval: string) | Failed(error: Error)

  /** The fields after a successful step describe token `r`. */
  ghost predicate Describes(s: string, mode: Mode, kind: TokenType, start: int, end: nat, strval: string, t: Token) {
    && !t.Bad? && kind == TypeOf(t) && end <= |s|
    && (t.End? <==> start == -1) && (t.End? ==> end == |s|)
    && (t.Str? ==> t.val == Value(mode, strval))
    && (t.Num? || t.True? || t.False? || t.Null? ==> 0 <= start <= end && Lexeme(t) == Some(s[start..end]))
  }

  /** The switch of lines 555-668 for a character that is neither white space nor past the end. */
  method StepToken(s: string, q: nat, mode: Mode, strval: string) returns (r: Step)
    requires q < |s|
    ensures var l := TokenFrom(s, q, mode);
            if l.token.Bad? then r == Failed(l.token.error)
            else r.Stepped? && r.end == l.end && Describes(s, mode, r.kind, r.start, r.end, r.strval, l.token)
  {
    hide StringFrom, NumberPart, Run;
    match s[q]
    case '{' => r := Stepped(ObjectStartType, q, q + 1, strval);
    case '}' => r := Stepped(ObjectEndType, q, q + 1, strval);
    case '[' => r := Stepped(ArrayStartType, q, q + 1, strval);
    case ']' => r := Stepped(ArrayEndType, q, q + 1, strval);
    case ',' => r := Stepped(CommaType, q, q + 1, strval);
    case ':' => r := Stepped(ColonType, q, q + 1, strval);
    case '"' =>
      var x := LexString(s, q, mode);
      r := if x.StringErr? then Failed(x.error) else Stepped(StringType, q, x.end, x.val);
    case _ =>
      if s[q] == '-' || IsDigit(s[q]) {
        var x := LexNumber(s, if s[q] == '-' then q + 1 else q);
        r := if x.error then Failed(InvalidToken) else Stepped(NumberType, q, x.end, strval);
      } else {
        var e := Skip(IsAlnum, s, q);
        if e - q == 4 && s[q..e] == "true" {
          r := Stepped(TrueType, q, e, strval);
        } else if e - q == 4 && s[q..e] == "null" {
          r := Stepped(NullType, q, e, strval);
        } else if e - q == 5 && s[q..e] == "false" {
          r := Stepped(FalseType, q, e, strval);
        } else {
          r := Failed(InvalidToken);
        }
      }
  }

  class Parser {
    const input: string
    const mode: Mode
    const installed: set<Callback>
    var tokenStart: int
    var tokenTerminator: nat
    var tokenType: TokenType
    var lexLevel: int
    var strval: string
    var log: seq<Event>  // the callbacks made so far
    ghost const toks: seq<Token>
    ghost var i: int     // the current token is toks[i]; -1 before the first

    /** The rest of the stream is still to be lexed from tokenTerminator on. */
    ghost predicate Ready()
      reads this`tokenTerminator, this`i
    {
      && Streamed(toks) && -1 <= i < |toks| - 1
      && tokenTerminator <= |input| && Stream(input, tokenTerminator, mode) == toks[i + 1..]
    }

    ghost predicate Valid()
      reads this`tokenStart, this`tokenTerminator, this`tokenType, this`strval, this`i
    {
      && 0 <= i && Here(toks, i)
      && Describes(input, mode, tokenType, tokenStart, tokenTerminator, strval, toks[i])
      && (Proper(toks[i]) ==> Ready())
    }

    /** makeJsonLexContextCstringLen */
    constructor (text: string, m: Mode, callbacks: set<Callback>)
      ensures Ready() && i == -1 && input == text && mode == m && installed == callbacks
      ensures lexLevel == 0 && log == [] && toks == Stream(text, 0, m)
    {
      hide Stream;
      input, mode, installed := text, m, callbacks;
      tokenStart, tokenTerminator, tokenType, lexLevel, strval, log := -1, 0, InvalidType, 0, "", [];
      toks, i := Stream(text, 0, m), -1;
      new;
      assert toks[0..] == toks;
    }

    /** json_lex */
    method Lex() returns (err: Option<Error>)
      requires Ready() || (Valid() && toks[i].End?)
      modifies this`tokenStart, this`tokenTerminator, this`tokenType, this`strval, this`i
      ensures Streamed(toks) && -1 <= old(i) < |toks|
      ensures old(i) >= 0 && toks[old(i)].End? ==> err == None && Valid() && i == old(i)
      ensures old(i) == -1 || Proper(toks[old(i)]) ==>
                && old(i) + 1 < |toks|
                && if toks[old(i) + 1].Bad? then err == Some(toks[old(i) + 1].error) else err == None && Valid() && i == old(i) + 1
    {
      hide TokenFrom, Run;
      ghost var ready := Ready();
      StreamStep(input, tokenTerminator, mode);
      var q := Skip(IsSpace, input, tokenTerminator);
      if q >= |input| {
        AtTheEnd(input, tokenTerminator, mode);
        tokenStart, tokenTerminator, tokenType := -1, q, EndType;
        if ready { i := i + 1; }
        return None;
      }
      if !ready { NoMore(input, tokenTerminator); }
      var r := StepToken(input, q, mode, strval);
      if r.Failed? {
        return Some(r.error);
      }
      tokenStart, tokenTerminator, tokenType, strval := r.start, r.end, r.kind, r.strval;
      i := i + 1;
      return None;
    }

    /** lex_expect for a proper token. */
    method Expect(ctx: Where, t: Token) returns (err: Option<Error>)
      requires Valid() && Proper(t) && !t.Str? && !t.Num?
      modifies this`tokenStart, this`tokenTerminator, this`tokenType, this`strval, this`i
      ensures var r := JsonGrammar.Expect(toks, old(i), ctx, t);
              if r.Fail? then err == Some(r.error) else err == None && Valid() && i == r.next
    {
      SameType(toks[i], t);
      if tokenType == TypeOf(t) {
        err := Lex();
      } else {
        err := Some(Report(ctx));
      }
    }

    /** report_parse_error */
    function Report(ctx: Where): (e: Error)
      requires Valid()
      reads this
      ensures e == ParseError(ctx, toks[i].End?)
    {
      ParseError(ctx, tokenStart == -1 || tokenType == EndType)
    }

    method Call(e: Event)
      modifies this`log
      ensures log == old(log) + Made(installed, e)
    {
      if e.callback in installed {
        log := log + [e];
      }
    }

    /** A parse routine has had outcome `o`: it stopped with the error, or it is at the new position with the
        level as before and the callbacks made. */
    ghost predicate Done(err: Option<Error>, o: Outcome, log0: seq<Event>, level0: int)
      reads this
    {
      && log0 <= log
      && if o.Erred? then err == Some(o.error)
         else err == None && Valid() && i == o.next && lexLevel == level0 && log == log0 + o.events
    }

    /** What a parse routine may look at: the current token. */
    lemma Look()
      requires Valid()
      ensures 0 <= i && Here(toks, i) && tokenType == TypeOf(toks[i])
      ensures Proper(toks[i]) ==> Ready() && i + 1 < |toks|
      ensures toks[i].Str? ==> Lexeme(toks[i]) == if mode.Plain? then None else Some(strval)
      ensures toks[i].Num? || toks[i].True? || toks[i].False? || toks[i].Null? ==>
                0 <= tokenStart <= tokenTerminator <= |input| && Lexeme(toks[i]) == Some(input[tokenStart..tokenTerminator])
    {
    }

    /** parse_scalar */
    method ParseScalar() returns (err: Option<Error>)
      requires Valid() && !toks[i].ObjectStart? && !toks[i].ArrayStart?
      modifies this
      ensures Done(err, ValueOut(toks, old(i), installed, old(lexLevel)), old(log), old(lexLevel))
    {
      hide Valid, Ready, ValueOut, Lexeme, Stream;
      Look();
      ScalarOutcome(toks, i, installed, lexLevel);
      if tokenType != StringType && tokenType != NumberType && tokenType != TrueType && tokenType != FalseType && tokenType != NullType {
        return Some(Report(AtValue));
      }
      if OnScalar !in installed {
        assert log + [] == log;
        err := Lex();
        return;
      }
      var kind := tokenType;
      var val := None;
      if tokenType == StringType {
        if mode.DeEscape? {
          val := Some(strval);
        }
      } else {
        val := Some(input[tokenStart..tokenTerminator]);
      }
      err := Lex();
      if err.Some? {
        return;
      }
      Call(Scalar(OnScalar, lexLevel, val, kind));
    }

    /** The switch on the token that starts a value. */
    method ParseValue() returns (err: Option<Error>)
      requires Valid()
      modifies this
      ensures Done(err, ValueOut(toks, old(i), installed, old(lexLevel)), old(log), old(lexLevel))
      decreases |toks| - i, 3
    {
      hide Valid, Ready, ValueOut, Stream;
      Look();
      match tokenType
      case ObjectStartType => err := ParseObject();
      case ArrayStartType => err := ParseArray();
      case _ => err := ParseScalar();
    }

    /** A value between the two callbacks of its element or field: lines 438-467 and 344-366. */
    method ParseMember(opening: Callback, closing: Callback, name: Option<string>) returns (err: Option<Error>)
      requires Valid()
      modifies this
      ensures Done(err, MemberOut(toks, old(i), installed, old(lexLevel), opening, closing, name), old(log), old(lexLevel))
      decreases |toks| - i, 4
    {
      hide Valid, Ready, ValueOut, Made;
      Look();
      var isnull := tokenType == NullType;
      Call(Member(opening, lexLevel, name, isnull));
      err := ParseValue();
      if err.Some? {
        return;
      }
      Call(Member(closing, lexLevel, name, isnull));
    }

    /** parse_array_element */
    method ParseElement() returns (err: Option<Error>)
      requires Valid()
      modifies this
      ensures Done(err, ElementOut(toks, old(i), installed, old(lexLevel)), old(log), old(lexLevel))
      decreases |toks| - i, 5
    {
      hide Valid, Ready, ElementOut, MemberOut;
      Look();
      ElementOutcome(toks, i, installed, lexLevel);
      err := ParseMember(OnElementStart, OnElementEnd, None);
    }

    /** Lines 497-505: one or more elements. */
    method ParseElements() returns (err: Option<Error>)
      requires Valid()
      modifies this
      ensures Done(err, ElemsOut(toks, old(i), installed, old(lexLevel)), old(log), old(lexLevel))
      decreases |toks| - i, 6
    {
      hide Valid, Ready, ElemsOut, MoreElemsOut, ElementOut, Stream;
      Look();
      ghost var first, level := i, lexLevel;
      ElemsOutcome(toks, i, installed, level);
      ghost var o := ElementOut(toks, i, installed, level);
      ghost var made: seq<Event> := [];
      err := ParseElement();
      if err.None? {
        made := o.events;
        Look();
      }
      while err.None? && tokenType == CommaType
        invariant old(log) <= log && Streamed(toks)
        invariant err.None? ==> Valid() && Here(toks, i) && first < i && lexLevel == level && log == old(log) + made
        invariant err.None? ==> tokenType == TypeOf(toks[i])
        invariant err.None? ==> ElemsOut(toks, first, installed, level) == After(made, MoreElemsOut(toks, i, installed, level))
        invariant err.Some? ==> ElemsOut(toks, first, installed, level) == Erred(err.value)
        decreases err.None?, |toks| - i
      {
        Look();
        MoreElemsOutcome(toks, i, installed, level);
        err := Lex();
        if err.Some? {
          break;
        }
        Look();
        ElemsOutcome(toks, i, installed, level);
        o := ElementOut(toks, i, installed, level);
        err := ParseElement();
        if err.None? {
          Look();
          AfterAfter(made, o.events, MoreElemsOut(toks, i, installed, level));
          made := made + o.events;
        }
      }
      if err.None? {
        MoreElemsOutcome(toks, i, installed, level);
      }
    }

    /** parse_array */
    method ParseArray() returns (err: Option<Error>)
      requires Valid() && toks[i].ArrayStart?
      modifies this
      ensures Done(err, ValueOut(toks, old(i), installed, old(lexLevel)), old(log), old(lexLevel))
      decreases |toks| - i, 2
    {
      hide Valid, Ready, ValueOut, ElemsOut, Made;
      Look();
      ArrayOutcome(toks, i, installed, lexLevel);
      Call(Bracket(OnArrayStart, lexLevel));
      assert Made(installed, Bracket(OnArrayStart, lexLevel)) + [] == Made(installed, Bracket(OnArrayStart, lexLevel));
      lexLevel := lexLevel + 1;
      err := Expect(AtArrayStart, ArrayStart);
      if err.None? { Look(); }
      if err.None? && tokenType != ArrayEndType {
        err := ParseElements();
      }
      if err.Some? {
        return;
      }
      err := Expect(AtArrayNext, ArrayEnd);
      if err.Some? {
        return;
      }
      lexLevel := lexLevel - 1;
      Call(Bracket(OnArrayEnd, lexLevel));
    }

    /** parse_object_field */
    method ParseField() returns (err: Option<Error>)
      requires Valid()
      modifies this
      ensures Done(err, FieldOut(toks, old(i), installed, old(lexLevel)), old(log), old(lexLevel))
      decreases |toks| - i, 5
    {
      hide Valid, Ready, MemberOut, FieldOut, Lexeme;
      Look();
      FieldOutcome(toks, i, installed, lexLevel);
      ghost var at := i;
      if tokenType != StringType {
        return Some(Report(AtString));
      }
      var fname := None;
      if (OnFieldStart in installed || OnFieldEnd in installed) && mode.DeEscape? {
        fname := Some(strval);
      }
      FieldOutcomeNamed(toks, i, installed, lexLevel, fname);
      err := Lex();
      if err.Some? {
        return;
      }
      Look();
      err := Expect(AtObjectLabel, Colon);
      if err.Some? {
        return;
      }
      Look();
      err := ParseMember(OnFieldStart, OnFieldEnd, fname);
    }

    /** Lines 403-410: one or more fields. */
    method ParseFields() returns (err: Option<Error>)
      requires Valid()
      modifies this
      ensures Done(err, FieldsOut(toks, old(i), installed, old(lexLevel)), old(log), old(lexLevel))
      decreases |toks| - i, 6
    {
      hide Valid, Ready, FieldsOut, MoreFieldsOut, FieldOut, Stream;
      Look();
      ghost var first, level := i, lexLevel;
      FieldsOutcome(toks, i, installed, level);
      ghost var o := FieldOut(toks, i, installed, level);
      ghost var made: seq<Event> := [];
      err := ParseField();
      if err.None? {
        made := o.events;
        Look();
      }
      while err.None? && tokenType == CommaType
        invariant old(log) <= log && Streamed(toks)
        invariant err.None? ==> Valid() && Here(toks, i) && first < i && lexLevel == level && log == old(log) + made
        invariant err.None? ==> tokenType == TypeOf(toks[i])
        invariant err.None? ==> FieldsOut(toks, first, installed, level) == After(made, MoreFieldsOut(toks, i, installed, level))
        invariant err.Some? ==> FieldsOut(toks, first, installed, level) == Erred(err.value)
        decreases err.None?, |toks| - i
      {
        Look();
        MoreFieldsOutcome(toks, i, installed, level);
        err := Lex();
        if err.Some? {
          break;
        }
        Look();
        FieldsOutcome(toks, i, installed, level);
        o := FieldOut(toks, i, installed, level);
        err := ParseField();
        if err.None? {
          Look();
          AfterAfter(made, o.events, MoreFieldsOut(toks, i, installed, level));
          made := made + o.events;
        }
      }
      if err.None? {
        MoreFieldsOutcome(toks, i, installed, level);
      }
    }

    /** parse_object */
    method ParseObject() returns (err: Option<Error>)
      requires Valid() && toks[i].ObjectStart?
      modifies this
      ensures Done(err, ValueOut(toks, old(i), installed, old(lexLevel)), old(log), old(lexLevel))
      decreases |toks| - i, 2
    {
      hide Valid, Ready, ValueOut, FieldsOut, Made;
      Look();
      ObjectOutcome(toks, i, installed, lexLevel);
      Call(Bracket(OnObjectStart, lexLevel));
      assert Made(installed, Bracket(OnObjectStart, lexLevel)) + [] == Made(installed, Bracket(OnObjectStart, lexLevel));
      lexLevel := lexLevel + 1;
      err := Lex();
      if err.Some? {
        return;
      }
      Look();
      match tokenType {
        case StringType => err := ParseFields();
        case ObjectEndType =>
        case _ => err := Some(Report(AtObjectStart));
      }
      if err.Some? {
        return;
      }
      err := Expect(AtObjectNext, ObjectEnd);
      if err.Some? {
        return;
      }
      lexLevel := lexLevel - 1;
      Call(Bracket(OnObjectEnd, lexLevel));
    }

    /** pg_parse_json, on a fresh lexer: it succeeds exactly on the documents of the grammar, makes exactly
        the callbacks of the tree, and ends at the level it started with. */
    method Parse() returns (err: Option<Error>)
      requires Ready() && i == -1
      modifies this
      ensures var r := PDocument(toks);
              if r.Fail? then err == Some(r.error)
              else err == None && lexLevel == old(lexLevel) && log == old(log) + Events(installed, r.value, old(lexLevel))
    {
      hide PDocument, Valid, Ready, ValueOut, Events;
      err := Lex();
      DocumentOutcome(toks, installed, lexLevel);
      if err.Some? {
        return;
      }
      Look();
      err := ParseValue();
      if err.Some? {
        return;
      }
      Look();
      if tokenType == EndType {
        err := Lex();
      } else {
        err := Some(Report(AtEnd));
      }
    }

    /** The copy made by json_count_array_elements: no string buffer, one level deeper, no callbacks. */
    constructor Copy(from: Parser)
      requires from.Valid()
      ensures Valid() && i == 0 && installed == {} && mode == Plain && lexLevel == from.lexLevel + 1
      ensures toks == Lookahead(from.input, from.tokenTerminator, from.toks[from.i])
    {
      input, mode, installed := from.input, Plain, {};
      tokenStart, tokenTerminator, tokenType := from.tokenStart, from.tokenTerminator, from.tokenType;
      lexLevel, strval, log := from.lexLevel + 1, "", [];
      toks, i := Lookahead(from.input, from.tokenTerminator, from.toks[from.i]), 0;
      new;
      assert Proper(toks[0]) ==> toks[1..] == Stream(input, tokenTerminator, Plain);
    }

    /** json_count_array_elements: the caller's lexer is not touched, and whenever the array parses, the count
        is the number of its elements. Otherwise the error is that of a parse without de-escaping. */
    method CountArrayElements() returns (err: Option<Error>, elements: nat)
      requires Valid() && toks[i].ArrayStart?
      ensures var r := PArray(Lookahead(input, tokenTerminator, ArrayStart), 0);
              if r.Fail? then err == Some(r.error) else err == None && elements == |r.value.elems|
      ensures PArray(toks, i).Ok? ==> err == None && elements == |PArray(toks, i).value.elems|
    {
      hide Valid, Ready, PArray, PElems, PMoreElems, PValue, Stream;
      elements := 0;
      Look();
      CountAgrees();
      var c := new Parser.Copy(this);
      ghost var ct := c.toks;
      ArrayUnfold(ct);
      err := c.Expect(AtArrayStart, ArrayStart);
      if err.Some? {
        return;
      }
      c.Look();
      var count := 0;
      ghost var elems: seq<Json> := [];
      if c.tokenType != ArrayEndType {
        count, elems, err := c.CountElements();
        if err.Some? {
          return;
        }
      }
      err := c.Expect(AtArrayNext, ArrayEnd);
      if err.Some? {
        return;
      }
      elements := count;
    }

    /** Lines 241-252. */
    method CountElements() returns (count: nat, ghost elems: seq<Json>, err: Option<Error>)
      requires Valid()
      modifies this
      ensures var r := PElems(toks, old(i));
              if r.Fail? then err == Some(r.error) else err == None && Valid() && i == r.next && elems == r.value && count == |elems|
    {
      hide Valid, Ready, PElems, PMoreElems, PValue, Stream, ElemEvent;
      count, elems, err := 0, [], None;
      Look();
      ghost var first := i;
      PrependNothing(PElems(toks, i));
      while true
        invariant Valid() && 0 <= i && Here(toks, i) && Here(toks, first) && |elems| == count
        invariant PElems(toks, first) == Prepend(elems, PElems(toks, i))
        decreases |toks| - i
      {
        count := count + 1;
        ghost var v := PValue(toks, i);
        ElemsUnfold(toks, i);
        err := ParseElement();
        if err.Some? {
          return;
        }
        Look();
        PrependSnoc(elems, v.value, PMoreElems(toks, i));
        elems := elems + [v.value];
        MoreElemsUnfold(toks, i);
        if tokenType != CommaType {
          assert elems + [] == elems;
          break;
        }
        err := Lex();
        if err.Some? {
          return;
        }
        Look();
      }
    }

    lemma CountAgrees()
      requires Valid() && toks[i].ArrayStart?
      ensures var ct := Lookahead(input, tokenTerminator, ArrayStart);
              Here(ct, 0) && (PArray(toks, i).Ok? ==> PArray(ct, 0).Ok? && |PArray(ct, 0).value.elems| == |PArray(toks, i).value.elems|)
    {
      hide PArray, Stream;
      StreamErase(input, tokenTerminator, mode);
      var ct := Lookahead(input, tokenTerminator, ArrayStart);
      var a, b := Stream(input, tokenTerminator, mode), Stream(input, tokenTerminator, Plain);
      if PArray(toks, i).Ok? {
        forall k | 0 <= k < |toks| - i && !toks[i + k].Bad?
          ensures ct[k] == Erase(toks[i + k])
        {
          if k > 0 { assert a[k - 1] == toks[i + k] && b[k - 1] == ct[k]; }
        }
        ErasedArray(toks, i, ct);
      }
    }
  }

  /** The text can be cut into texts of the tokens of the document `j`, with white space around them. */
  ghost predicate IsDocument(text: string, mode: Mode, j: Json) {
    WellFormed(j) && Derived(text, 0, mode, Flatten(j))
  }

  /** The lexer sees the tokens of `j` in the text exactly when they can be cut out of it. */
  lemma DocumentText(text: string, mode: Mode, j: Json)
    ensures Stream(text, 0, mode) == Flatten(j) + [End] <==> Derived(text, 0, mode, Flatten(j))
  {
    hide Stream, Flatten, Derived, Spelt;
    FlattenSeparated(j);
    DerivedIff(text, 0, mode, Flatten(j));
    StreamIff(text, 0, mode, Flatten(j));
  }

  /** A whole run on a text: it succeeds exactly when the text is a document, and the callbacks made are those
      of that document, outermost level 0. */
  method ParseText(text: string, mode: Mode, callbacks: set<Callback>) returns (err: Option<Error>, log: seq<Event>)
    ensures err == None <==> exists j :: IsDocument(text, mode, j)
    ensures forall j :: IsDocument(text, mode, j) ==> log == Events(callbacks, j, 0)
  {
    hide Stream, Flatten, WellFormed, PDocument, Events, Derived;
    var p := new Parser(text, mode, callbacks);
    err := p.Parse();
    log := p.log;
    forall j: Json
      ensures IsDocument(text, mode, j) ==> err == None && log == Events(callbacks, j, 0)
    {
      DocumentIff(p.toks, j);
      DocumentText(text, mode, j);
      assert [] + Events(callbacks, j, 0) == Events(callbacks, j, 0);
    }
    ghost var r := PDocument(p.toks);
    if r.Ok? {
      DocumentIff(p.toks, r.value);
      DocumentText(text, mode, r.value);
      assert IsDocument(text, mode, r.value);
    }
  }

  /** Lexing without de-escaping accepts every document that lexing with it accepts, as the same tree without
      the string values. */
  lemma PlainAcceptsDocument(text: string, mode: Mode, j: Json)
    requires IsDocument(text, mode, j)
    ensures IsDocument(text, Plain, EraseJson(j))
  {
    hide Stream, Flatten, WellFormed, EraseJson, Derived;
    FlattenErase(j);
    StreamErase(text, 0, mode);
    DocumentText(text, mode, j);
    DocumentText(text, Plain, EraseJson(j));
    var a, b := Stream(text, 0, mode), Stream(text, 0, Plain);
    EraseConcat(Flatten(j), [End]);
    assert a[|a| - 1] == End;
    assert b[|a| - 1] == Erase(a[|a| - 1]) == End;
    assert b == EraseTokens(a);
    assert EraseTokens([End]) == [End];
  }

  /** The current token and what follows it, lexed without de-escaping. */
  ghost function Lookahead(s: string, p: nat, t: Token): (ct: seq<Token>)
    requires p <= |s| && !t.Bad?
    ensures Streamed(ct) && ct[0] == Erase(t)
  {
    if Proper(t) then [Erase(t)] + Stream(s, p, Plain) else [t]
  }

  lemma PrependNothing<T>(r: Parsed<seq<T>>)
    ensures Prepend([], r) == r
  {
    if r.Ok? { assert [] + r.value == r.value; }
  }

  lemma PrependSnoc<T>(a: seq<T>, x: T, r: Parsed<seq<T>>)
    ensures Prepend(a, Prepend([x], r)) == Prepend(a + [x], r)
  {
    if r.Ok? { assert a + ([x] + r.value) == (a + [x]) + r.value; }
  }

  lemma ArrayUnfold(ct: seq<Token>)
    requires Here(ct, 0) && ct[0].ArrayStart?
    ensures var r := PArray(ct, 0);
            if ct[1].Bad? then r == Fail(ct[1].error) else
            var es := if ct[1].ArrayEnd? then Ok([], 1) else PElems(ct, 1);
            if es.Fail? then r == Fail(es.error) else
            var e := JsonGrammar.Expect(ct, es.next, AtArrayNext, ArrayEnd);
            r == if e.Fail? then Fail(e.error) else Ok(Arr(es.value), e.next)
  {
    hide PElems;
  }

  lemma ElemsUnfold(toks: seq<Token>, i: nat)
    requires Here(toks, i)
    ensures var v := PValue(toks, i);
            PElems(toks, i) == if v.Fail? then Fail(v.error) else Prepend([v.value], PMoreElems(toks, v.next))
  {
    hide PValue, PMoreElems;
  }

  lemma MoreElemsUnfold(toks: seq<Token>, i: nat)
    requires Here(toks, i)
    ensures PMoreElems(toks, i) ==
            if !toks[i].Comma? then Ok([], i) else if toks[i + 1].Bad? then Fail(toks[i + 1].error) else PElems(toks, i + 1)
  {
    hide PElems;
  }

  lemma SameType(t: Token, u: Token)
    requires Proper(u) && !u.Str? && !u.Num?
    ensures TypeOf(t) == TypeOf(u) <==> t == u
  {
  }

  lemma StreamStep(s: string, p: nat, mode: Mode)
    requires p <= |s|
    ensures var l := JsonTokens.Lex(s, p, mode);
            var st := Stream(s, p, mode);
            st[0] == l.token && (Proper(l.token) ==> st[1..] == Stream(s, l.end, mode)) && (!Proper(l.token) ==> |st| == 1)
  {
  }

  lemma AtTheEnd(s: string, p: nat, mode: Mode)
    requires p <= |s| && Run(IsSpace, s, p) == |s|
    ensures JsonTokens.Lex(s, p, mode).token == End
  {
  }

  lemma NoMore(s: string, p: nat)
    requires p == |s|
    ensures Run(IsSpace, s, p) == |s|
  {
  }
}
