/** What the callbacks of a parse tell (common/jsonapi.c:178-208, 272-520): with all of them installed a consumer can build
    the document again; with fewer the others are unchanged. */
module JsonEvents {
  import opened Common
  import opened JsonTokens
  import opened JsonGrammar
  import opened JsonParser

  // ----- A consumer -----

  /** What the consumer is in the middle of. */
  datatype Frame =
    | Root(value: Option<Json>)
    | InArray(elems: seq<Json>)
    | InElement(isnull: bool, value: Option<Json>)
    | InObject(fields: seq<Field>)
    | InField(name: Option<string>, isnull: bool, value: Option<Json>)

  /** How many arrays and objects are open. */
  function Depth(st: seq<Frame>): nat {
    if st == [] then 0 else Depth(st[..|st| - 1]) + (if st[|st| - 1].InArray? || st[|st| - 1].InObject? then 1 else 0)
  }

  function ScalarToken(text: Option<string>, kind: TokenType): Option<Token> {
    if kind.StringType? then Some(Str(text))
    else if kind.NumberType? && text.Some? then Some(Num(text.value))
    else if kind.TrueType? && text == Some("true") then Some(True)
    else if kind.FalseType? && text == Some("false") then Some(False)
    else if kind.NullType? && text == Some("null") then Some(Null)
    else None
  }

  predicate WantsValue(st: seq<Frame>) {
    st != [] && var top := st[|st| - 1];
    (top.Root? || top.InElement? || top.InField?) && top.value == None
  }

  /** The value goes to the element, the member or the document that waits for one. */
  function Deliver(st: seq<Frame>, j: Json): seq<Frame>
    requires WantsValue(st)
  {
    st[|st| - 1 := st[|st| - 1].(value := Some(j))]
  }

  predicate NullGiven(isnull: bool, j: Json) { isnull == (j == Leaf(Null)) }

  /** One callback; None if it does not fit. */
  function Consume(st: seq<Frame>, e: Event): Option<seq<Frame>> {
    if st == [] then None else
    var top, below := st[|st| - 1], st[..|st| - 1];
    match e
    case Scalar(OnScalar, level, text, kind) =>
      var t := ScalarToken(text, kind);
      if WantsValue(st) && level == Depth(st) && t.Some? then Some(Deliver(st, Leaf(t.value))) else None
    case Bracket(OnArrayStart, level) =>
      if WantsValue(st) && level == Depth(st) then Some(st + [InArray([])]) else None
    case Bracket(OnArrayEnd, level) =>
      if top.InArray? && WantsValue(below) && level == Depth(below) then Some(Deliver(below, Arr(top.elems))) else None
    case Bracket(OnObjectStart, level) =>
      if WantsValue(st) && level == Depth(st) then Some(st + [InObject([])]) else None
    case Bracket(OnObjectEnd, level) =>
      if top.InObject? && WantsValue(below) && level == Depth(below) then Some(Deliver(below, Obj(top.fields))) else None
    case Member(OnElementStart, level, None, isnull) =>
      if top.InArray? && level == Depth(st) then Some(st + [InElement(isnull, None)]) else None
    case Member(OnElementEnd, level, None, isnull) =>
      if top.InElement? && top.value.Some? && isnull == top.isnull && NullGiven(isnull, top.value.value)
         && level == Depth(st) && below != [] && below[|below| - 1].InArray? then
        Some(below[|below| - 1 := InArray(below[|below| - 1].elems + [top.value.value])])
      else None
    case Member(OnFieldStart, level, name, isnull) =>
      if top.InObject? && level == Depth(st) then Some(st + [InField(name, isnull, None)]) else None
    case Member(OnFieldEnd, level, name, isnull) =>
      if top.InField? && top.value.Some? && isnull == top.isnull && NullGiven(isnull, top.value.value) && name == top.name
         && level == Depth(st) && below != [] && below[|below| - 1].InObject? then
        Some(below[|below| - 1 := InObject(below[|below| - 1].fields + [Field(Str(name), top.value.value)])])
      else None
    case _ => None
  }

  function ConsumeAll(st: seq<Frame>, log: seq<Event>): Option<seq<Frame>>
    decreases |log|
  {
    if log == [] then Some(st) else
    var next := Consume(st, log[0]);
    if next.None? then None else ConsumeAll(next.value, log[1..])
  }

  /** The document that a whole log describes. */
  function Build(log: seq<Event>): Option<Json> {
    var st := ConsumeAll([Root(None)], log);
    if st.Some? && |st.value| == 1 && st.value[0].Root? then st.value[0].value else None
  }

  // ----- The log builds the document -----

  const ALL: set<Callback> :=
    {OnObjectStart, OnObjectEnd, OnArrayStart, OnArrayEnd, OnFieldStart, OnFieldEnd, OnElementStart, OnElementEnd, OnScalar}

  lemma AllMade(e: Event)
    ensures Made(ALL, e) == [e]
  {
    match e.callback
    case OnObjectStart => case OnObjectEnd => case OnArrayStart => case OnArrayEnd => case OnFieldStart =>
    case OnFieldEnd => case OnElementStart => case OnElementEnd => case OnScalar =>
  }

  lemma {:induction false} ConsumeConcat(st: seq<Frame>, a: seq<Event>, b: seq<Event>)
    requires ConsumeAll(st, a).Some?
    ensures ConsumeAll(st, a + b) == ConsumeAll(ConsumeAll(st, a).value, b)
    decreases |a|
  {
    hide Consume;
    if a == [] {
      assert a + b == b;
    } else {
      assert (a + b)[1..] == a[1..] + b;
      ConsumeConcat(Consume(st, a[0]).value, a[1..], b);
    }
  }

  lemma ConsumeOne(st: seq<Frame>, e: Event)
    ensures ConsumeAll(st, [e]) == Consume(st, e)
  {
    hide Consume;
    assert [e][1..] == [];
  }

  /** An event, a log and another event. */
  lemma ConsumeBracketed(st: seq<Frame>, a: Event, log: seq<Event>, b: Event)
    requires Consume(st, a).Some? && ConsumeAll(Consume(st, a).value, log).Some?
    ensures ConsumeAll(st, Made(ALL, a) + log + Made(ALL, b)) == Consume(ConsumeAll(Consume(st, a).value, log).value, b)
  {
    hide Consume, ALL;
    AllMade(a);
    AllMade(b);
    ConsumeOne(st, a);
    ConsumeConcat(st, [a], log);
    ConsumeConcat(st, [a] + log, [b]);
    ConsumeOne(ConsumeAll(st, [a] + log).value, b);
  }

  lemma DepthPush(st: seq<Frame>, f: Frame)
    ensures Depth(st + [f]) == Depth(st) + (if f.InArray? || f.InObject? then 1 else 0)
  {
    assert (st + [f])[..|st|] == st;
  }

  lemma DepthSwap(st: seq<Frame>, f: Frame)
    requires st != [] && (f.InArray? || f.InObject? <==> st[|st| - 1].InArray? || st[|st| - 1].InObject?)
    ensures Depth(st[|st| - 1 := f]) == Depth(st)
  {
    assert st[|st| - 1 := f][..|st| - 1] == st[..|st| - 1];
  }

  /** The events of a value deliver the value. */
  lemma {:induction false} ValueBuilds(st: seq<Frame>, j: Json)
    requires WellFormed(j) && WantsValue(st)
    ensures ConsumeAll(st, Events(ALL, j, Depth(st))) == Some(Deliver(st, j))
    decreases j, 1
  {
    hide ALL, Depth, ConsumeAll, Consume, Deliver, WantsValue;
    var d := Depth(st);
    match j
    case Leaf(t) =>
      AllMade(Scalar(OnScalar, d, Lexeme(t), TypeOf(t)));
      ConsumeOne(st, Scalar(OnScalar, d, Lexeme(t), TypeOf(t)));
      ScalarDelivers(st, t);
    case Arr(elems) =>
      var inner := st + [InArray([])];
      Opens(st);
      DepthPush(st, InArray([]));
      ElemsBuild(inner, elems);
      ConsumeBracketed(st, Bracket(OnArrayStart, d), ElemEvents(ALL, elems, d + 1), Bracket(OnArrayEnd, d));
      ArrayCloses(st, elems);
    case Obj(fields) =>
      var inner := st + [InObject([])];
      Opens(st);
      DepthPush(st, InObject([]));
      FieldsBuild(inner, fields);
      ConsumeBracketed(st, Bracket(OnObjectStart, d), FieldEvents(ALL, fields, d + 1), Bracket(OnObjectEnd, d));
      ObjectCloses(st, fields);
  }

  lemma ScalarDelivers(st: seq<Frame>, t: Token)
    requires WantsValue(st) && IsScalar(t)
    ensures Consume(st, Scalar(OnScalar, Depth(st), Lexeme(t), TypeOf(t))) == Some(Deliver(st, Leaf(t)))
  {
    hide Depth, Deliver;
  }

  lemma Opens(st: seq<Frame>)
    requires WantsValue(st)
    ensures Consume(st, Bracket(OnArrayStart, Depth(st))) == Some(st + [InArray([])])
    ensures Consume(st, Bracket(OnObjectStart, Depth(st))) == Some(st + [InObject([])])
  {
    hide Depth, Deliver;
  }

  lemma ArrayCloses(st: seq<Frame>, elems: seq<Json>)
    requires WantsValue(st)
    ensures (st + [InArray([])])[|st| := InArray([] + elems)] == st + [InArray(elems)]
    ensures Consume(st + [InArray(elems)], Bracket(OnArrayEnd, Depth(st))) == Some(Deliver(st, Arr(elems)))
  {
    hide Depth, Deliver, WantsValue;
    assert [] + elems == elems;
    assert (st + [InArray(elems)])[..|st|] == st;
  }

  lemma ObjectCloses(st: seq<Frame>, fields: seq<Field>)
    requires WantsValue(st)
    ensures (st + [InObject([])])[|st| := InObject([] + fields)] == st + [InObject(fields)]
    ensures Consume(st + [InObject(fields)], Bracket(OnObjectEnd, Depth(st))) == Some(Deliver(st, Obj(fields)))
  {
    hide Depth, Deliver, WantsValue;
    assert [] + fields == fields;
    assert (st + [InObject(fields)])[..|st|] == st;
  }

  /** One element is appended. */
  lemma {:induction false} ElementBuilds(st: seq<Frame>, j: Json)
    requires WellFormed(j) && st != [] && st[|st| - 1].InArray?
    ensures ConsumeAll(st, ElemEvent(ALL, j, Depth(st))) == Some(st[|st| - 1 := InArray(st[|st| - 1].elems + [j])])
    decreases j, 2
  {
    hide ALL, Depth, ConsumeAll, Events;
    var d, f := Depth(st), InElement(IsNull(j), None);
    var inner := st + [f];
    DepthPush(st, f);
    ValueBuilds(inner, j);
    ConsumeBracketed(st, Member(OnElementStart, d, None, IsNull(j)), Events(ALL, j, d), Member(OnElementEnd, d, None, IsNull(j)));
    var done := Deliver(inner, j);
    DepthSwap(inner, InElement(IsNull(j), Some(j)));
    assert done[..|done| - 1] == st;
  }

  lemma {:induction false} ElemsBuild(st: seq<Frame>, elems: seq<Json>)
    requires WellElems(elems) && st != [] && st[|st| - 1].InArray?
    ensures ConsumeAll(st, ElemEvents(ALL, elems, Depth(st))) == Some(st[|st| - 1 := InArray(st[|st| - 1].elems + elems)])
    decreases elems, 0
  {
    hide ALL, Depth, ElemEvent, Consume;
    var top := st[|st| - 1].elems;
    if elems == [] {
      assert top + elems == top;
      assert st[|st| - 1 := InArray(top)] == st;
    } else {
      var d := Depth(st);
      var next := st[|st| - 1 := InArray(top + [elems[0]])];
      ElementBuilds(st, elems[0]);
      DepthSwap(st, InArray(top + [elems[0]]));
      ElemsBuild(next, elems[1..]);
      ConsumeConcat(st, ElemEvent(ALL, elems[0], d), ElemEvents(ALL, elems[1..], d));
      assert top + [elems[0]] + elems[1..] == top + elems;
      assert next[|st| - 1 := InArray(top + elems)] == st[|st| - 1 := InArray(top + elems)];
    }
  }

  /** One member is appended. */
  lemma {:induction false} FieldBuilds(st: seq<Frame>, f: Field)
    requires f.name.Str? && WellFormed(f.value) && st != [] && st[|st| - 1].InObject?
    ensures ConsumeAll(st, FieldEvent(ALL, f, Depth(st))) == Some(st[|st| - 1 := InObject(st[|st| - 1].fields + [f])])
    decreases f, 2
  {
    hide ALL, Depth, ConsumeAll, Events;
    var d, g := Depth(st), InField(Lexeme(f.name), IsNull(f.value), None);
    var inner := st + [g];
    DepthPush(st, g);
    ValueBuilds(inner, f.value);
    ConsumeBracketed(st, Member(OnFieldStart, d, g.name, g.isnull), Events(ALL, f.value, d), Member(OnFieldEnd, d, g.name, g.isnull));
    var done := Deliver(inner, f.value);
    DepthSwap(inner, InField(Lexeme(f.name), IsNull(f.value), Some(f.value)));
    assert done[..|done| - 1] == st;
  }

  lemma {:induction false} FieldsBuild(st: seq<Frame>, fields: seq<Field>)
    requires WellFields(fields) && st != [] && st[|st| - 1].InObject?
    ensures ConsumeAll(st, FieldEvents(ALL, fields, Depth(st))) == Some(st[|st| - 1 := InObject(st[|st| - 1].fields + fields)])
    decreases fields, 0
  {
    hide ALL, Depth, FieldEvent, Consume;
    var top := st[|st| - 1].fields;
    if fields == [] {
      assert top + fields == top;
      assert st[|st| - 1 := InObject(top)] == st;
    } else {
      var d := Depth(st);
      var next := st[|st| - 1 := InObject(top + [fields[0]])];
      FieldBuilds(st, fields[0]);
      DepthSwap(st, InObject(top + [fields[0]]));
      FieldsBuild(next, fields[1..]);
      ConsumeConcat(st, FieldEvent(ALL, fields[0], d), FieldEvents(ALL, fields[1..], d));
      assert top + [fields[0]] + fields[1..] == top + fields;
      assert next[|st| - 1 := InObject(top + fields)] == st[|st| - 1 := InObject(top + fields)];
    }
  }

  /** With every callback installed, the callbacks of a document say what the document is. */
  lemma LogBuildsDocument(j: Json)
    requires WellFormed(j)
    ensures Build(Events(ALL, j, 0)) == Some(j)
  {
    hide ALL, Events, ConsumeAll;
    var st := [Root(None)];
    assert Depth(st) == 0 by { assert st[..0] == []; }
    ValueBuilds(st, j);
  }

  // ----- Fewer callbacks -----

  function Kept(cb: set<Callback>, log: seq<Event>): seq<Event> {
    if log == [] then [] else Made(cb, log[0]) + Kept(cb, log[1..])
  }

  lemma {:induction false} KeptConcat(cb: set<Callback>, a: seq<Event>, b: seq<Event>)
    ensures Kept(cb, a + b) == Kept(cb, a) + Kept(cb, b)
    decreases |a|
  {
    hide Made;
    if a == [] {
      assert a + b == b;
    } else {
      assert (a + b)[1..] == a[1..] + b;
      KeptConcat(cb, a[1..], b);
    }
  }

  lemma KeptBracketed(cb: set<Callback>, a: Event, log: seq<Event>, b: Event)
    ensures Kept(cb, Made(ALL, a) + log + Made(ALL, b)) == Made(cb, a) + Kept(cb, log) + Made(cb, b)
  {
    AllMade(a);
    AllMade(b);
    hide Made, ALL;
    KeptConcat(cb, [a], log);
    KeptConcat(cb, [a] + log, [b]);
    assert [a][1..] == [] && [b][1..] == [];
    assert Kept(cb, [a]) == Made(cb, a) + [] && Kept(cb, [b]) == Made(cb, b) + [];
  }

  /** A callback that is not installed is left out; nothing else changes. */
  lemma {:induction false} FewerCallbacks(cb: set<Callback>, j: Json, level: int)
    ensures Events(cb, j, level) == Kept(cb, Events(ALL, j, level))
    decreases j, 1
  {
    hide Made, ALL, Kept;
    match j
    case Leaf(t) =>
      var e := Scalar(OnScalar, level, Lexeme(t), TypeOf(t));
      KeptOne(cb, e);
    case Arr(elems) =>
      FewerElems(cb, elems, level + 1);
      KeptBracketed(cb, Bracket(OnArrayStart, level), ElemEvents(ALL, elems, level + 1), Bracket(OnArrayEnd, level));
    case Obj(fields) =>
      FewerFields(cb, fields, level + 1);
      KeptBracketed(cb, Bracket(OnObjectStart, level), FieldEvents(ALL, fields, level + 1), Bracket(OnObjectEnd, level));
  }

  lemma KeptOne(cb: set<Callback>, e: Event)
    ensures Kept(cb, Made(ALL, e)) == Made(cb, e)
  {
    AllMade(e);
    hide Made;
    assert [e][1..] == [];
    assert Kept(cb, [e]) == Made(cb, e) + [];
  }

  lemma {:induction false} FewerElems(cb: set<Callback>, elems: seq<Json>, level: int)
    ensures ElemEvents(cb, elems, level) == Kept(cb, ElemEvents(ALL, elems, level))
    decreases elems, 0
  {
    hide Made, ALL;
    if elems != [] {
      var j := elems[0];
      FewerCallbacks(cb, j, level);
      KeptBracketed(cb, Member(OnElementStart, level, None, IsNull(j)), Events(ALL, j, level), Member(OnElementEnd, level, None, IsNull(j)));
      FewerElems(cb, elems[1..], level);
      hide Kept;
      KeptConcat(cb, ElemEvent(ALL, j, level), ElemEvents(ALL, elems[1..], level));
    }
  }

  lemma {:induction false} FewerField(cb: set<Callback>, f: Field, level: int)
    ensures FieldEvent(cb, f, level) == Kept(cb, FieldEvent(ALL, f, level))
    decreases f, 2
  {
    hide Made, ALL, Kept;
    var name, isnull := Lexeme(f.name), IsNull(f.value);
    FewerCallbacks(cb, f.value, level);
    KeptBracketed(cb, Member(OnFieldStart, level, name, isnull), Events(ALL, f.value, level), Member(OnFieldEnd, level, name, isnull));
  }

  lemma {:induction false} FewerFields(cb: set<Callback>, fields: seq<Field>, level: int)
    ensures FieldEvents(cb, fields, level) == Kept(cb, FieldEvents(ALL, fields, level))
    decreases fields, 0
  {
    hide Made, ALL;
    if fields != [] {
      FewerField(cb, fields[0], level);
      FewerFields(cb, fields[1..], level);
      hide Kept, FieldEvent;
      KeptConcat(cb, FieldEvent(ALL, fields[0], level), FieldEvents(ALL, fields[1..], level));
    }
  }
}
