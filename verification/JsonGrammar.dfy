/** Recursive descent over a token stream (common/jsonapi.c:178-208, 272-520) and the grammar of section 2
    of RFC 8259. */
module JsonGrammar {
  import opened JsonStrings
  import opened JsonTokens

  datatype Json = Leaf(token: Token) | Arr(elems: seq<Json>) | Obj(fields: seq<Field>)
  datatype Field = Field(name: Token, value: Json)

  ghost predicate WellFormed(j: Json) {
    match j
    case Leaf(t) => IsScalar(t)
    case Arr(elems) => forall e :: e in elems ==> WellFormed(e)
    case Obj(fields) => forall f :: f in fields ==> f.name.Str? && WellFormed(f.value)
  }

  // ----- The tokens of a document -----

  ghost function Flatten(j: Json): (ts: seq<Token>)
    ensures |ts| >= 1
    decreases j, 1
  {
    match j
    case Leaf(t) => [t]
    case Arr(elems) => [ArrayStart] + FlattenElems(elems) + [ArrayEnd]
    case Obj(fields) => [ObjectStart] + FlattenFields(fields) + [ObjectEnd]
  }

  /** Elements separated by commas. */
  ghost function FlattenElems(elems: seq<Json>): seq<Token>
    decreases elems, 0
  {
    if elems == [] then []
    else Flatten(elems[0]) + FlattenMoreElems(elems[1..])
  }

  ghost function FlattenMoreElems(elems: seq<Json>): seq<Token>
    decreases elems, 0
  {
    if elems == [] then [] else [Comma] + Flatten(elems[0]) + FlattenMoreElems(elems[1..])
  }

  ghost function FlattenField(f: Field): seq<Token>
    decreases f, 2
  {
    [f.name, Colon] + Flatten(f.value)
  }

  ghost function FlattenFields(fields: seq<Field>): seq<Token>
    decreases fields, 0
  {
    if fields == [] then []
    else FlattenField(fields[0]) + FlattenMoreFields(fields[1..])
  }

  ghost function FlattenMoreFields(fields: seq<Field>): seq<Token>
    decreases fields, 0
  {
    if fields == [] then [] else [Comma] + FlattenField(fields[0]) + FlattenMoreFields(fields[1..])
  }

  // ----- Recursive descent -----

  datatype Parsed<T> = Ok(value: T, next: nat) | Fail(error: Error)

  datatype Where = AtEnd | AtValue | AtString | AtArrayStart | AtArrayNext | AtObjectStart | AtObjectLabel | AtObjectNext

  /** report_parse_error */
  function ParseError(ctx: Where, ended: bool): Error {
    if ended then ExpectedMore else
    match ctx
    case AtEnd => ExpectedEnd
    case AtValue => ExpectedJson
    case AtString => ExpectedString
    case AtArrayStart => ExpectedArrayFirst
    case AtArrayNext => ExpectedArrayNext
    case AtObjectStart => ExpectedObjectFirst
    case AtObjectLabel => ExpectedColon
    case AtObjectNext => ExpectedObjectNext
  }

  /** A position that has been lexed. */
  ghost predicate Here(toks: seq<Token>, i: nat) {
    Streamed(toks) && i < |toks| && !toks[i].Bad?
  }

  /** Lex the next token; the current one is proper. */
  ghost function Next(toks: seq<Token>, i: nat): (r: Parsed<()>)
    requires Here(toks, i) && Proper(toks[i])
    ensures r.Ok? ==> r.next == i + 1 && Here(toks, i + 1)
  {
    if toks[i + 1].Bad? then Fail(toks[i + 1].error) else Ok((), i + 1)
  }

  /** lex_expect with a proper token. */
  ghost function Expect(toks: seq<Token>, i: nat, ctx: Where, t: Token): (r: Parsed<()>)
    requires Here(toks, i) && Proper(t)
    ensures r.Ok? ==> r.next == i + 1 && Here(toks, i + 1) && toks[i] == t
  {
    if toks[i] == t then Next(toks, i) else Fail(ParseError(ctx, toks[i].End?))
  }

  ghost function PValue(toks: seq<Token>, i: nat): (r: Parsed<Json>)
    requires Here(toks, i)
    ensures r.Ok? ==> i < r.next && Here(toks, r.next)
    decreases |toks| - i, 3
  {
    if toks[i].ObjectStart? then PObject(toks, i)
    else if toks[i].ArrayStart? then PArray(toks, i)
    else if !IsScalar(toks[i]) then Fail(ParseError(AtValue, toks[i].End?))
    else
      var n := Next(toks, i);
      if n.Fail? then Fail(n.error) else Ok(Leaf(toks[i]), n.next)
  }

  ghost function PArray(toks: seq<Token>, i: nat): (r: Parsed<Json>)
    requires Here(toks, i) && toks[i].ArrayStart?
    ensures r.Ok? ==> i < r.next && Here(toks, r.next) && r.value.Arr?
    decreases |toks| - i, 2
  {
    var n := Next(toks, i);
    if n.Fail? then Fail(n.error) else
    var es := if toks[n.next].ArrayEnd? then Ok([], n.next) else PElems(toks, n.next);
    if es.Fail? then Fail(es.error) else
    var e := Expect(toks, es.next, AtArrayNext, ArrayEnd);
    if e.Fail? then Fail(e.error) else Ok(Arr(es.value), e.next)
  }

  /** One or more elements. */
  ghost function PElems(toks: seq<Token>, i: nat): (r: Parsed<seq<Json>>)
    requires Here(toks, i)
    ensures r.Ok? ==> i < r.next && Here(toks, r.next) && |r.value| >= 1
    decreases |toks| - i, 4
  {
    var v := PValue(toks, i);
    if v.Fail? then Fail(v.error) else Prepend([v.value], PMoreElems(toks, v.next))
  }

  /** As many more elements as commas announce. */
  ghost function PMoreElems(toks: seq<Token>, i: nat): (r: Parsed<seq<Json>>)
    requires Here(toks, i)
    ensures r.Ok? ==> i <= r.next && Here(toks, r.next)
    decreases |toks| - i, 1
  {
    if !toks[i].Comma? then Ok([], i) else
    var n := Next(toks, i);
    if n.Fail? then Fail(n.error) else PElems(toks, n.next)
  }

  ghost function Prepend<T>(a: seq<T>, r: Parsed<seq<T>>): (p: Parsed<seq<T>>) {
    if r.Fail? then r else Ok(a + r.value, r.next)
  }

  ghost function PObject(toks: seq<Token>, i: nat): (r: Parsed<Json>)
    requires Here(toks, i) && toks[i].ObjectStart?
    ensures r.Ok? ==> i < r.next && Here(toks, r.next) && r.value.Obj?
    decreases |toks| - i, 2
  {
    var n := Next(toks, i);
    if n.Fail? then Fail(n.error) else
    var fs := if toks[n.next].Str? then PFields(toks, n.next)
              else if toks[n.next].ObjectEnd? then Ok([], n.next)
              else Fail(ParseError(AtObjectStart, toks[n.next].End?));
    if fs.Fail? then Fail(fs.error) else
    var e := Expect(toks, fs.next, AtObjectNext, ObjectEnd);
    if e.Fail? then Fail(e.error) else Ok(Obj(fs.value), e.next)
  }

  ghost function PField(toks: seq<Token>, i: nat): (r: Parsed<Field>)
    requires Here(toks, i)
    ensures r.Ok? ==> i < r.next && Here(toks, r.next)
    decreases |toks| - i, 4
  {
    if !toks[i].Str? then Fail(ParseError(AtString, toks[i].End?)) else
    var n := Next(toks, i);
    if n.Fail? then Fail(n.error) else
    var c := Expect(toks, n.next, AtObjectLabel, Colon);
    if c.Fail? then Fail(c.error) else
    var v := PValue(toks, c.next);
    if v.Fail? then Fail(v.error) else Ok(Field(toks[i], v.value), v.next)
  }

  ghost function PFields(toks: seq<Token>, i: nat): (r: Parsed<seq<Field>>)
    requires Here(toks, i)
    ensures r.Ok? ==> i < r.next && Here(toks, r.next) && |r.value| >= 1
    decreases |toks| - i, 5
  {
    var f := PField(toks, i);
    if f.Fail? then Fail(f.error) else Prepend([f.value], PMoreFields(toks, f.next))
  }

  ghost function PMoreFields(toks: seq<Token>, i: nat): (r: Parsed<seq<Field>>)
    requires Here(toks, i)
    ensures r.Ok? ==> i <= r.next && Here(toks, r.next)
    decreases |toks| - i, 1
  {
    if !toks[i].Comma? then Ok([], i) else
    var n := Next(toks, i);
    if n.Fail? then Fail(n.error) else PFields(toks, n.next)
  }

  /** pg_parse_json: one value and then the end. */
  ghost function PDocument(toks: seq<Token>): (r: Parsed<Json>)
    requires Streamed(toks)
  {
    if toks[0].Bad? then Fail(toks[0].error) else
    var v := PValue(toks, 0);
    if v.Fail? then v
    else if !toks[v.next].End? then Fail(ParseError(AtEnd, toks[v.next].End?))
    else v
  }

  // ----- Soundness: what is parsed is what the grammar derives -----

  ghost predicate WellElems(elems: seq<Json>) { forall e :: e in elems ==> WellFormed(e) }
  ghost predicate WellFields(fields: seq<Field>) { forall f :: f in fields ==> f.name.Str? && WellFormed(f.value) }

  lemma {:induction false} ValueSound(toks: seq<Token>, i: nat)
    requires Here(toks, i) && PValue(toks, i).Ok?
    ensures var r := PValue(toks, i); WellFormed(r.value) && toks[i..r.next] == Flatten(r.value)
    decreases |toks| - i, 3
  {
    hide PArray, PObject;
    if toks[i].ObjectStart? {
      ObjectSound(toks, i);
    } else if toks[i].ArrayStart? {
      ArraySound(toks, i);
    } else {
      assert toks[i..i + 1] == [toks[i]];
    }
  }

  lemma {:induction false} ArraySound(toks: seq<Token>, i: nat)
    requires Here(toks, i) && toks[i].ArrayStart? && PArray(toks, i).Ok?
    ensures var r := PArray(toks, i); WellFormed(r.value) && toks[i..r.next] == Flatten(r.value)
    decreases |toks| - i, 2
  {
    hide PElems, FlattenElems;
    var r := PArray(toks, i);
    if toks[i + 1].ArrayEnd? {
      assert FlattenElems([]) == [] by { NoElems(); }
      assert toks[i..r.next] == [ArrayStart] + [] + [ArrayEnd];
    } else {
      ElemsSound(toks, i + 1);
      var e := PElems(toks, i + 1);
      assert toks[i..r.next] == [ArrayStart] + toks[i + 1..e.next] + [ArrayEnd];
    }
  }

  lemma NoElems()
    ensures FlattenElems([]) == [] && FlattenFields([]) == []
  {
  }

  lemma {:induction false} ElemsSound(toks: seq<Token>, i: nat)
    requires Here(toks, i) && PElems(toks, i).Ok?
    ensures var r := PElems(toks, i); WellElems(r.value) && toks[i..r.next] == FlattenElems(r.value)
    decreases |toks| - i, 4
  {
    hide PValue, PMoreElems, WellFormed, Flatten;
    var v := PValue(toks, i);
    ValueSound(toks, i);
    MoreElemsSound(toks, v.next);
    var m := PMoreElems(toks, v.next);
    assert ([v.value] + m.value)[1..] == m.value;
    assert toks[i..m.next] == toks[i..v.next] + toks[v.next..m.next];
  }

  lemma {:induction false} MoreElemsSound(toks: seq<Token>, i: nat)
    requires Here(toks, i) && PMoreElems(toks, i).Ok?
    ensures var r := PMoreElems(toks, i); WellElems(r.value) && toks[i..r.next] == FlattenMoreElems(r.value)
    decreases |toks| - i, 1
  {
    hide PElems, WellFormed, Flatten;
    if toks[i].Comma? {
      ElemsSound(toks, i + 1);
      var e := PElems(toks, i + 1);
      assert toks[i..e.next] == [Comma] + toks[i + 1..e.next];
      assert [Comma] + (Flatten(e.value[0]) + FlattenMoreElems(e.value[1..])) == [Comma] + Flatten(e.value[0]) + FlattenMoreElems(e.value[1..]);
    }
  }

  lemma {:induction false} ObjectSound(toks: seq<Token>, i: nat)
    requires Here(toks, i) && toks[i].ObjectStart? && PObject(toks, i).Ok?
    ensures var r := PObject(toks, i); WellFormed(r.value) && toks[i..r.next] == Flatten(r.value)
    decreases |toks| - i, 2
  {
    hide PFields, FlattenFields;
    var r := PObject(toks, i);
    if toks[i + 1].ObjectEnd? {
      assert FlattenFields([]) == [] by { NoElems(); }
      assert toks[i..r.next] == [ObjectStart] + [] + [ObjectEnd];
    } else {
      FieldsSound(toks, i + 1);
      var e := PFields(toks, i + 1);
      assert toks[i..r.next] == [ObjectStart] + toks[i + 1..e.next] + [ObjectEnd];
    }
  }

  lemma {:induction false} FieldSound(toks: seq<Token>, i: nat)
    requires Here(toks, i) && PField(toks, i).Ok?
    ensures var r := PField(toks, i); r.value.name.Str? && WellFormed(r.value.value) && toks[i..r.next] == FlattenField(r.value)
    decreases |toks| - i, 4
  {
    hide PValue, WellFormed, Flatten;
    var r := PField(toks, i);
    ValueSound(toks, i + 2);
    assert toks[i..r.next] == [toks[i], Colon] + toks[i + 2..r.next];
  }

  lemma {:induction false} FieldsSound(toks: seq<Token>, i: nat)
    requires Here(toks, i) && PFields(toks, i).Ok?
    ensures var r := PFields(toks, i); WellFields(r.value) && toks[i..r.next] == FlattenFields(r.value)
    decreases |toks| - i, 5
  {
    hide PField, PMoreFields, WellFormed, FlattenField;
    var v := PField(toks, i);
    FieldSound(toks, i);
    MoreFieldsSound(toks, v.next);
    var m := PMoreFields(toks, v.next);
    assert ([v.value] + m.value)[1..] == m.value;
    assert toks[i..m.next] == toks[i..v.next] + toks[v.next..m.next];
  }

  lemma {:induction false} MoreFieldsSound(toks: seq<Token>, i: nat)
    requires Here(toks, i) && PMoreFields(toks, i).Ok?
    ensures var r := PMoreFields(toks, i); WellFields(r.value) && toks[i..r.next] == FlattenMoreFields(r.value)
    decreases |toks| - i, 1
  {
    hide PFields, WellFormed, FlattenField;
    if toks[i].Comma? {
      FieldsSound(toks, i + 1);
      var e := PFields(toks, i + 1);
      assert toks[i..e.next] == [Comma] + toks[i + 1..e.next];
      assert [Comma] + (FlattenField(e.value[0]) + FlattenMoreFields(e.value[1..])) == [Comma] + FlattenField(e.value[0]) + FlattenMoreFields(e.value[1..]);
    }
  }

  // ----- Completeness: whatever the grammar derives is parsed -----

  ghost predicate At(toks: seq<Token>, i: nat, e: nat, ts: seq<Token>) {
    Here(toks, i) && i <= e && Here(toks, e) && toks[i..e] == ts
  }

  lemma Cut(toks: seq<Token>, i: nat, e: nat, a: seq<Token>, b: seq<Token>)
    requires At(toks, i, e, a + b)
    ensures At(toks, i, i + |a|, a) && At(toks, i + |a|, e, b)
  {
    var m := i + |a|;
    assert toks[i..m] == toks[i..e][..|a|];
    assert toks[m..e] == toks[i..e][|a|..];
  }

  lemma AtOne(toks: seq<Token>, i: nat, e: nat, t: Token)
    requires At(toks, i, e, [t])
    ensures e == i + 1 && toks[i] == t && Proper(t)
  {
    assert toks[i] == toks[i..e][0];
  }

  lemma FirstToken(j: Json)
    requires WellFormed(j)
    ensures var t := Flatten(j)[0]; IsScalar(t) || t.ArrayStart? || t.ObjectStart?
  {
  }

  lemma {:induction false} ValueComplete(toks: seq<Token>, i: nat, e: nat, j: Json)
    requires WellFormed(j) && At(toks, i, e, Flatten(j))
    ensures PValue(toks, i) == Ok(j, e)
    decreases j, 1
  {
    match j
    case Leaf(t) =>
      AtOne(toks, i, e, t);
    case Arr(elems) =>
      hide PElems, FlattenElems;
      Brackets(toks, i, e, ArrayStart, FlattenElems(elems), ArrayEnd);
      if elems != [] {
        ElemsComplete(toks, i + 1, e - 1, elems);
      }
      ArrayFrom(toks, i, e, elems);
    case Obj(fields) =>
      hide PFields, FlattenFields;
      Brackets(toks, i, e, ObjectStart, FlattenFields(fields), ObjectEnd);
      if fields != [] {
        FieldsComplete(toks, i + 1, e - 1, fields);
      }
      ObjectFrom(toks, i, e, fields);
  }

  lemma ArrayFrom(toks: seq<Token>, i: nat, e: nat, elems: seq<Json>)
    requires WellElems(elems) && At(toks, i, e, Flatten(Arr(elems)))
    requires elems != [] && i + 1 <= e - 1 && Here(toks, i + 1) ==> PElems(toks, i + 1) == Ok(elems, e - 1)
    ensures PValue(toks, i) == Ok(Arr(elems), e)
  {
    hide PElems, FlattenElems, WellFormed;
    Brackets(toks, i, e, ArrayStart, FlattenElems(elems), ArrayEnd);
    NoElems();
    if elems != [] { FirstOfElems(toks, i + 1, e - 1, elems); }
  }

  lemma ObjectFrom(toks: seq<Token>, i: nat, e: nat, fields: seq<Field>)
    requires WellFields(fields) && At(toks, i, e, Flatten(Obj(fields)))
    requires fields != [] && i + 1 <= e - 1 && Here(toks, i + 1) ==> PFields(toks, i + 1) == Ok(fields, e - 1)
    ensures PValue(toks, i) == Ok(Obj(fields), e)
  {
    hide PFields, FlattenFields, WellFormed;
    Brackets(toks, i, e, ObjectStart, FlattenFields(fields), ObjectEnd);
    NoElems();
    if fields != [] { FirstOfFields(toks, i + 1, e - 1, fields); }
  }

  lemma Brackets(toks: seq<Token>, i: nat, e: nat, a: Token, ts: seq<Token>, b: Token)
    requires At(toks, i, e, [a] + ts + [b])
    ensures i + 1 <= e - 1 && toks[i] == a && Proper(a) && At(toks, i + 1, e - 1, ts) && toks[e - 1] == b && Proper(b)
  {
    assert [a] + ts + [b] == [a] + (ts + [b]);
    Cut(toks, i, e, [a], ts + [b]);
    AtOne(toks, i, i + 1, a);
    Cut(toks, i + 1, e, ts, [b]);
    AtOne(toks, i + 1 + |ts|, e, b);
  }

  lemma FirstOfElems(toks: seq<Token>, i: nat, e: nat, elems: seq<Json>)
    requires elems != [] && WellElems(elems) && At(toks, i, e, FlattenElems(elems))
    ensures i < e && !toks[i].ArrayEnd?
  {
    FirstToken(elems[0]);
    assert toks[i] == toks[i..e][0] == Flatten(elems[0])[0];
  }

  lemma FirstOfFields(toks: seq<Token>, i: nat, e: nat, fields: seq<Field>)
    requires fields != [] && WellFields(fields) && At(toks, i, e, FlattenFields(fields))
    ensures i < e && toks[i].Str?
  {
    var ts := FlattenFields(fields);
    assert FlattenField(fields[0])[0] == fields[0].name;
    assert ts == FlattenField(fields[0]) + FlattenMoreFields(fields[1..]);
    assert |toks[i..e]| == |ts| >= 1;
    assert toks[i] == toks[i..e][0];
  }

  lemma {:induction false} ElemsComplete(toks: seq<Token>, i: nat, e: nat, elems: seq<Json>)
    requires elems != [] && WellElems(elems) && At(toks, i, e, FlattenElems(elems)) && !toks[e].Comma?
    ensures PElems(toks, i) == Ok(elems, e)
    decreases elems, 0
  {
    hide PValue, PMoreElems, Flatten, FlattenMoreElems, WellFormed;
    var m := i + |Flatten(elems[0])|;
    Cut(toks, i, e, Flatten(elems[0]), FlattenMoreElems(elems[1..]));
    ValueComplete(toks, i, m, elems[0]);
    MoreElemsComplete(toks, m, e, elems[1..]);
    assert [elems[0]] + elems[1..] == elems;
  }

  lemma {:induction false} MoreElemsComplete(toks: seq<Token>, i: nat, e: nat, elems: seq<Json>)
    requires WellElems(elems) && At(toks, i, e, FlattenMoreElems(elems)) && !toks[e].Comma?
    ensures PMoreElems(toks, i) == Ok(elems, e)
    decreases elems, 0
  {
    hide PElems, PValue, WellFormed, Flatten;
    if elems != [] {
      var ts := Flatten(elems[0]) + FlattenMoreElems(elems[1..]);
      assert [Comma] + Flatten(elems[0]) + FlattenMoreElems(elems[1..]) == [Comma] + ts;
      Cut(toks, i, e, [Comma], ts);
      AtOne(toks, i, i + 1, Comma);
      var m := i + 1 + |Flatten(elems[0])|;
      Cut(toks, i + 1, e, Flatten(elems[0]), FlattenMoreElems(elems[1..]));
      ValueComplete(toks, i + 1, m, elems[0]);
      MoreElemsComplete(toks, m, e, elems[1..]);
      ElemsFrom(toks, i + 1, m, e, elems);
    }
  }

  lemma ElemsFrom(toks: seq<Token>, i: nat, m: nat, e: nat, elems: seq<Json>)
    requires Here(toks, i) && Here(toks, m) && elems != []
    requires PValue(toks, i) == Ok(elems[0], m) && PMoreElems(toks, m) == Ok(elems[1..], e)
    ensures PElems(toks, i) == Ok(elems, e)
  {
    hide PValue, PMoreElems;
    assert [elems[0]] + elems[1..] == elems;
  }

  lemma {:induction false} FieldComplete(toks: seq<Token>, i: nat, e: nat, f: Field)
    requires f.name.Str? && WellFormed(f.value) && At(toks, i, e, FlattenField(f))
    ensures PField(toks, i) == Ok(f, e)
    decreases f, 2
  {
    hide PValue, Flatten, WellFormed;
    assert [f.name, Colon] + Flatten(f.value) == [f.name] + ([Colon] + Flatten(f.value));
    Cut(toks, i, e, [f.name], [Colon] + Flatten(f.value));
    AtOne(toks, i, i + 1, f.name);
    Cut(toks, i + 1, e, [Colon], Flatten(f.value));
    AtOne(toks, i + 1, i + 2, Colon);
    ValueComplete(toks, i + 2, e, f.value);
  }

  lemma {:induction false} FieldsComplete(toks: seq<Token>, i: nat, e: nat, fields: seq<Field>)
    requires fields != [] && WellFields(fields) && At(toks, i, e, FlattenFields(fields)) && !toks[e].Comma?
    ensures PFields(toks, i) == Ok(fields, e)
    decreases fields, 0
  {
    hide PField, PMoreFields, FlattenField, FlattenMoreFields, WellFormed;
    var m := i + |FlattenField(fields[0])|;
    Cut(toks, i, e, FlattenField(fields[0]), FlattenMoreFields(fields[1..]));
    FieldComplete(toks, i, m, fields[0]);
    MoreFieldsComplete(toks, m, e, fields[1..]);
    assert [fields[0]] + fields[1..] == fields;
  }

  lemma {:induction false} MoreFieldsComplete(toks: seq<Token>, i: nat, e: nat, fields: seq<Field>)
    requires WellFields(fields) && At(toks, i, e, FlattenMoreFields(fields)) && !toks[e].Comma?
    ensures PMoreFields(toks, i) == Ok(fields, e)
    decreases fields, 0
  {
    hide PFields, PField, WellFormed, FlattenField;
    if fields != [] {
      var ts := FlattenField(fields[0]) + FlattenMoreFields(fields[1..]);
      assert [Comma] + FlattenField(fields[0]) + FlattenMoreFields(fields[1..]) == [Comma] + ts;
      Cut(toks, i, e, [Comma], ts);
      AtOne(toks, i, i + 1, Comma);
      var m := i + 1 + |FlattenField(fields[0])|;
      Cut(toks, i + 1, e, FlattenField(fields[0]), FlattenMoreFields(fields[1..]));
      FieldComplete(toks, i + 1, m, fields[0]);
      MoreFieldsComplete(toks, m, e, fields[1..]);
      FieldsFrom(toks, i + 1, m, e, fields);
    }
  }

  lemma FieldsFrom(toks: seq<Token>, i: nat, m: nat, e: nat, fields: seq<Field>)
    requires Here(toks, i) && Here(toks, m) && fields != []
    requires PField(toks, i) == Ok(fields[0], m) && PMoreFields(toks, m) == Ok(fields[1..], e)
    ensures PFields(toks, i) == Ok(fields, e)
  {
    hide PField, PMoreFields;
    assert [fields[0]] + fields[1..] == fields;
  }

  /** A value is parsed exactly when the grammar derives the tokens up to a lexed token. */
  lemma ValueIff(toks: seq<Token>, i: nat, e: nat, j: Json)
    requires Here(toks, i)
    ensures PValue(toks, i) == Ok(j, e) <==> WellFormed(j) && At(toks, i, e, Flatten(j))
  {
    hide PValue, Flatten, WellFormed;
    if PValue(toks, i) == Ok(j, e) { ValueSound(toks, i); }
    if WellFormed(j) && At(toks, i, e, Flatten(j)) { ValueComplete(toks, i, e, j); }
  }

  /** A document is accepted, as tree `j`, exactly when its token stream is the tokens of `j` and the end. */
  lemma DocumentIff(toks: seq<Token>, j: Json)
    requires Streamed(toks)
    ensures PDocument(toks) == Ok(j, |toks| - 1) <==> WellFormed(j) && toks == Flatten(j) + [End]
    ensures PDocument(toks).Ok? ==> PDocument(toks).next == |toks| - 1
  {
    hide PValue, Flatten, WellFormed;
    var n := |toks| - 1;
    if !toks[0].Bad? {
      ValueIff(toks, 0, n, j);
      if toks == Flatten(j) + [End] {
        assert toks[0..n] == Flatten(j);
        assert toks[n] == End;
      }
      if At(toks, 0, n, Flatten(j)) && toks[n].End? {
        assert toks == toks[0..n] + [toks[n]];
      }
    }
  }

  // ----- In a document no two scalars are next to each other -----

  lemma SeparatedConcat(a: seq<Token>, b: seq<Token>)
    requires Separated(a) && Separated(b)
    requires a != [] && b != [] ==> !IsScalar(a[|a| - 1]) || !IsScalar(b[0])
    ensures Separated(a + b)
  {
    hide IsScalar;
    forall i | 0 < i < |a + b|
      ensures !IsScalar((a + b)[i - 1]) || !IsScalar((a + b)[i])
    {
      if i > |a| { assert !IsScalar(b[i - |a| - 1]) || !IsScalar(b[i - |a|]); }
    }
  }

  lemma {:induction false} FlattenSeparated(j: Json)
    ensures Separated(Flatten(j))
    decreases j, 1
  {
    match j
    case Leaf(t) =>
    case Arr(elems) =>
      hide FlattenElems;
      ElemsSeparated(elems);
      SeparatedConcat([ArrayStart], FlattenElems(elems));
      SeparatedConcat([ArrayStart] + FlattenElems(elems), [ArrayEnd]);
    case Obj(fields) =>
      hide FlattenFields;
      FieldsSeparated(fields);
      SeparatedConcat([ObjectStart], FlattenFields(fields));
      SeparatedConcat([ObjectStart] + FlattenFields(fields), [ObjectEnd]);
  }

  lemma {:induction false} ElemsSeparated(elems: seq<Json>)
    ensures Separated(FlattenElems(elems)) && Separated(FlattenMoreElems(elems))
    ensures FlattenMoreElems(elems) != [] ==> FlattenMoreElems(elems)[0] == Comma
    decreases elems, 0
  {
    hide Flatten, Separated;
    if elems == [] {
      EmptySeparated();
    } else {
      var x, rest := elems[0], elems[1..];
      FlattenSeparated(x);
      ElemsSeparated(rest);
      SeparatedConcat(Flatten(x), FlattenMoreElems(rest));
      OneSeparated(Comma);
      SeparatedConcat([Comma], Flatten(x));
      SeparatedConcat([Comma] + Flatten(x), FlattenMoreElems(rest));
    }
  }

  lemma EmptySeparated()
    ensures Separated([])
  {
  }

  lemma OneSeparated(t: Token)
    ensures Separated([t])
  {
  }

  lemma {:induction false} FieldSeparated(f: Field)
    ensures Separated(FlattenField(f))
    decreases f, 2
  {
    hide Flatten;
    FlattenSeparated(f.value);
    SeparatedConcat([f.name, Colon], Flatten(f.value));
  }

  lemma {:induction false} FieldsSeparated(fields: seq<Field>)
    ensures Separated(FlattenFields(fields)) && Separated(FlattenMoreFields(fields))
    ensures FlattenMoreFields(fields) != [] ==> FlattenMoreFields(fields)[0] == Comma
    decreases fields, 0
  {
    hide FlattenField, Separated;
    if fields == [] {
      EmptySeparated();
    } else {
      var f, rest := fields[0], fields[1..];
      FieldSeparated(f);
      FieldsSeparated(rest);
      SeparatedConcat(FlattenField(f), FlattenMoreFields(rest));
      OneSeparated(Comma);
      SeparatedConcat([Comma], FlattenField(f));
      SeparatedConcat([Comma] + FlattenField(f), FlattenMoreFields(rest));
    }
  }

  // ----- Trees without string values -----

  ghost function EraseTokens(ts: seq<Token>): (r: seq<Token>)
    ensures |r| == |ts| && forall k :: 0 <= k < |ts| ==> r[k] == Erase(ts[k])
  {
    seq(|ts|, k requires 0 <= k < |ts| => Erase(ts[k]))
  }

  ghost function EraseJson(j: Json): Json
    decreases j, 1
  {
    match j
    case Leaf(t) => Leaf(Erase(t))
    case Arr(elems) => Arr(EraseElems(elems))
    case Obj(fields) => Obj(EraseFields(fields))
  }

  ghost function EraseElems(elems: seq<Json>): (r: seq<Json>)
    ensures |r| == |elems|
    decreases elems, 0
  {
    if elems == [] then [] else [EraseJson(elems[0])] + EraseElems(elems[1..])
  }

  ghost function EraseFields(fields: seq<Field>): (r: seq<Field>)
    ensures |r| == |fields|
    decreases fields, 0
  {
    if fields == [] then []
    else [EraseField(fields[0])] + EraseFields(fields[1..])
  }

  ghost function EraseField(f: Field): Field
    decreases f, 2
  {
    Field(Erase(f.name), EraseJson(f.value))
  }

  lemma EraseConcat(a: seq<Token>, b: seq<Token>)
    ensures EraseTokens(a + b) == EraseTokens(a) + EraseTokens(b)
  {
  }

  /** Erasing the tree erases its tokens, and a well-formed tree stays well-formed. */
  lemma {:induction false} FlattenErase(j: Json)
    requires WellFormed(j)
    ensures WellFormed(EraseJson(j)) && Flatten(EraseJson(j)) == EraseTokens(Flatten(j))
    decreases j, 1
  {
    match j
    case Leaf(t) =>
    case Arr(elems) =>
      hide FlattenElems, EraseElems;
      ErasedElems(elems);
      EraseConcat([ArrayStart], FlattenElems(elems));
      EraseConcat([ArrayStart] + FlattenElems(elems), [ArrayEnd]);
      assert EraseTokens([ArrayStart]) == [ArrayStart] && EraseTokens([ArrayEnd]) == [ArrayEnd];
    case Obj(fields) =>
      hide FlattenFields, EraseFields;
      ErasedFields(fields);
      EraseConcat([ObjectStart], FlattenFields(fields));
      EraseConcat([ObjectStart] + FlattenFields(fields), [ObjectEnd]);
      assert EraseTokens([ObjectStart]) == [ObjectStart] && EraseTokens([ObjectEnd]) == [ObjectEnd];
  }

  lemma {:induction false} ErasedElems(elems: seq<Json>)
    requires WellElems(elems)
    ensures WellElems(EraseElems(elems))
    ensures FlattenElems(EraseElems(elems)) == EraseTokens(FlattenElems(elems))
    ensures FlattenMoreElems(EraseElems(elems)) == EraseTokens(FlattenMoreElems(elems))
    decreases elems, 0
  {
    hide WellFormed, Flatten, EraseJson;
    if elems != [] {
      var x, rest := elems[0], elems[1..];
      FlattenErase(x);
      ErasedElems(rest);
      assert EraseElems(elems)[1..] == EraseElems(rest);
      EraseConcat(Flatten(x), FlattenMoreElems(rest));
      EraseConcat([Comma], Flatten(x));
      EraseConcat([Comma] + Flatten(x), FlattenMoreElems(rest));
      assert EraseTokens([Comma]) == [Comma];
    }
  }

  lemma {:induction false} ErasedFields(fields: seq<Field>)
    requires WellFields(fields)
    ensures WellFields(EraseFields(fields))
    ensures FlattenFields(EraseFields(fields)) == EraseTokens(FlattenFields(fields))
    ensures FlattenMoreFields(EraseFields(fields)) == EraseTokens(FlattenMoreFields(fields))
    decreases fields, 0
  {
    hide WellFormed, Flatten, EraseJson;
    if fields != [] {
      var f, rest := fields[0], fields[1..];
      ErasedField(f);
      ErasedFields(rest);
      assert EraseFields(fields)[1..] == EraseFields(rest);
      EraseConcat(FlattenField(f), FlattenMoreFields(rest));
      EraseConcat([Comma], FlattenField(f));
      EraseConcat([Comma] + FlattenField(f), FlattenMoreFields(rest));
      assert EraseTokens([Comma]) == [Comma];
    }
  }

  lemma ErasedField(f: Field)
    requires f.name.Str? && WellFormed(f.value)
    ensures WellFormed(EraseField(f).value) && FlattenField(EraseField(f)) == EraseTokens(FlattenField(f))
    decreases f, 2
  {
    hide WellFormed, Flatten, EraseJson;
    FlattenErase(f.value);
    EraseConcat([f.name, Colon], Flatten(f.value));
    assert EraseTokens([f.name, Colon]) == [Erase(f.name), Colon];
  }

  /** If a stream parses as an array, so does the same stream without string values, with as many elements. */
  lemma ErasedArray(toks: seq<Token>, i: nat, ct: seq<Token>)
    requires Here(toks, i) && toks[i].ArrayStart? && PArray(toks, i).Ok?
    requires Streamed(ct) && |toks| - i <= |ct|
    requires forall k :: 0 <= k < |toks| - i && !toks[i + k].Bad? ==> ct[k] == Erase(toks[i + k])
    ensures Here(ct, 0) && ct[0].ArrayStart? && PArray(ct, 0).Ok?
    ensures |PArray(ct, 0).value.elems| == |PArray(toks, i).value.elems|
  {
    hide PArray, Flatten, EraseJson, WellFormed;
    var r := PArray(toks, i);
    ArraySound(toks, i);
    FlattenErase(r.value);
    var n := r.next - i;
    var fl := Flatten(r.value);
    forall k | 0 <= k < n
      ensures ct[k] == EraseTokens(fl)[k]
    {
      assert fl[k] == toks[i..r.next][k] == toks[i + k];
    }
    assert ct[0..n] == EraseTokens(fl);
    assert ct[0] == Erase(toks[i + 0]) && ct[n] == Erase(toks[i + n]);
    ValueComplete(ct, 0, n, EraseJson(r.value));
    ArrayValue(ct, r.value);
  }

  lemma ArrayValue(ct: seq<Token>, j: Json)
    requires Here(ct, 0) && ct[0].ArrayStart? && PValue(ct, 0).Ok? && PValue(ct, 0).value == EraseJson(j) && j.Arr?
    ensures PArray(ct, 0).Ok? && |PArray(ct, 0).value.elems| == |j.elems|
  {
    hide PArray;
  }
}
