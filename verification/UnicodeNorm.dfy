/**
  unicode_normalize (common/unicode_norm.c:302-447): decomposition, canonical ordering and recomposition together.
*/
module UnicodeNorm {
  import opened UnicodeTable
  import opened UnicodeOrder

  datatype Form = NFC | NFD | NFKC | NFKD {
    predicate Compat() { NFKC? || NFKD? }
    predicate Recomposes() { NFC? || NFKC? }
  }

  // ----- Recomposition -----

  /** The output so far, the position of the last starter in it, and the class of the last character after it. */
  datatype State = State(out: seq<Code>, starter: nat, last: int)

  ghost function Step(t: Table, st: State, ch: Code): (r: State)
    requires st.starter < |st.out|
    ensures r.starter < |r.out| <= |st.out| + 1 && (-1 <= st.last ==> -1 <= r.last)
  {
    var c, x := Class(t, ch), Compose(t, st.out[st.starter], ch);
    if st.last < c && x.Some? then st.(out := st.out[st.starter := x.value])
    else if c == 0 then State(st.out + [ch], |st.out|, -1)
    else State(st.out + [ch], st.starter, c)
  }

  ghost function Run(t: Table, d: seq<Code>): (st: State)
    requires d != []
    ensures st.starter < |st.out| <= |d| && -1 <= st.last
  {
    var n := |d| - 1;
    if n == 0 then State([d[0]], 0, -1) else Step(t, Run(t, d[..n]), d[n])
  }

  // ----- Characters that recomposition drops -----

  ghost predicate Drops(t: Table, st: State, ch: Code)
    requires st.starter < |st.out|
  {
    st.last < Class(t, ch) && Swallowed(st.out[st.starter], ch)
  }

  /** The decomposed string without the trailing consonants U+11A7 that recomposition drops. */
  ghost function Effective(t: Table, d: seq<Code>): (e: seq<Code>)
    requires d != []
    ensures e != [] && |e| <= |d|
  {
    var n := |d| - 1;
    if n == 0 then d
    else var e := Effective(t, d[..n]); if Drops(t, Run(t, d[..n]), d[n]) then e else e + [d[n]]
  }

  /** U+11A7 after a leading consonant and a vowel. */
  ghost predicate HasOpenTail(d: seq<Code>) {
    exists i :: 0 <= i < |d| - 2 && OpenTailAt(d, i)
  }

  ghost predicate OpenTailAt(d: seq<Code>, i: nat)
    requires i + 2 < |d|
  {
    LeadVowel(d[i], d[i + 1]) && d[i + 2] == TBASE
  }

  lemma DropsNothing(t: Table, st: State, ch: Code)
    requires st.starter < |st.out| && Drops(t, st, ch)
    ensures Step(t, st, ch) == st
  {
    hide Class, FindPair;
    assert st.out[st.starter := st.out[st.starter]] == st.out;
  }

  /** The dropped characters make no difference to the run. */
  lemma {:induction false} EffectiveRun(t: Table, d: seq<Code>)
    requires d != []
    ensures Run(t, Effective(t, d)) == Run(t, d)
  {
    hide Step, Drops;
    var n := |d| - 1;
    if n > 0 {
      EffectiveRun(t, d[..n]);
      var e := Effective(t, d[..n]);
      if Drops(t, Run(t, d[..n]), d[n]) {
        DropsNothing(t, Run(t, d[..n]), d[n]);
      } else {
        assert (e + [d[n]])[..|e|] == e;
      }
    }
  }

  // ----- The invariant of recomposition -----

  ghost predicate IsOpen(c: Code) { IsSyllable(c) && (c - SBASE) % TCOUNT == 0 }

  /** After the last starter there are only fixed non-starters, of classes up to `last`. */
  ghost predicate TailOk(t: Table, st: State, compat: bool, prev: Code)
    requires WellFounded(t)
  {
    && st.starter < |st.out|
    && (st.last == -1 || 0 < st.last <= Class(t, prev))
    && (st.last == -1 <==> st.starter == |st.out| - 1)
    && (st.starter < |st.out| - 1 ==> st.last == Class(t, st.out[|st.out| - 1]))
    && forall i :: st.starter < i < |st.out| ==> 0 < Class(t, st.out[i]) <= st.last && Decompose(t, st.out[i], compat) == [st.out[i]]
  }

  /** Where a pending leading consonant or open syllable came from. */
  ghost predicate EndOk(st: State, e: seq<Code>)
    requires st.starter < |st.out| && e != []
  {
    var s, n := st.out[st.starter], |e|;
    && (st.last == -1 && IsLead(s) ==> e[n - 1] == s)
    && (st.last == -1 && IsOpen(s) ==> n >= 2 && LeadVowel(e[n - 2], e[n - 1]))
  }

  lemma NotSyllable(t: Table, c: Code, compat: bool)
    requires WellFounded(t) && Decompose(t, c, compat) == [c]
    ensures !IsSyllable(c)
  {
  }

  /** A table composite is not Hangul; an algorithmic one is a syllable. */
  lemma ComposeKind(t: Table, start: Code, ch: Code)
    requires NoHangul(t) && Compose(t, start, ch).Some?
    ensures var x := Compose(t, start, ch).value;
            && !IsLead(x)
            && (IsOpen(x) ==> LeadVowel(start, ch) || Swallowed(start, ch))
            && (Swallowed(start, ch) ==> x == start)
  {
    hide FindPair, Find;
    if LeadVowel(start, ch) {
      LeadVowelSyllable(start, ch);
    }
  }

  lemma EndStep(t: Table, st: State, e: seq<Code>, ch: Code)
    requires NoHangul(t) && st.starter < |st.out| && e != [] && EndOk(st, e) && !IsSyllable(ch)
    ensures EndOk(Step(t, st, ch), if Drops(t, st, ch) then e else e + [ch])
  {
    hide Class, Compose, NoHangul;
    var x := Compose(t, st.out[st.starter], ch);
    if Drops(t, st, ch) {
      DropsNothing(t, st, ch);
    } else if st.last < Class(t, ch) && x.Some? {
      ComposeKind(t, st.out[st.starter], ch);
    }
  }

  lemma TailStep(t: Table, st: State, compat: bool, prev: Code, ch: Code)
    requires WellFounded(t) && TailOk(t, st, compat, prev) && !Exchangeable(t, prev, ch) && Decompose(t, ch, compat) == [ch]
    ensures TailOk(t, Step(t, st, ch), compat, ch)
  {
    hide Class, Compose, Decompose, WellFounded;
  }

  lemma {:induction false} KeepNone(t: Table, s: seq<Code>, k: nat)
    requires forall i :: 0 <= i < |s| ==> Class(t, s[i]) != 0 && Class(t, s[i]) != k
    ensures Keep(t, s, k) == []
  {
    hide Class;
    if s != [] { KeepNone(t, s[1..], k); }
  }

  /** A character of a higher class may pass a run of lower ones. */
  lemma Passes(t: Table, ch: Code, run: seq<Code>)
    requires Class(t, ch) == 0 ==> run == []
    requires forall i :: 0 <= i < |run| ==> 0 < Class(t, run[i]) < Class(t, ch)
    ensures SameClasses(t, [ch] + run, run + [ch])
  {
    hide Class;
    if Class(t, ch) == 0 {
      assert [ch] + run == run + [ch];
    } else {
      forall k: nat
        ensures Keep(t, [ch] + run, k) == Keep(t, run + [ch], k)
      {
        KeepConcat(t, [ch], run, k);
        KeepConcat(t, run, [ch], k);
        if k == Class(t, ch) { KeepNone(t, run, k); } else { KeepNone(t, [ch], k); }
      }
    }
  }

  lemma DecomposeOne(t: Table, c: Code, compat: bool)
    requires WellFounded(t)
    ensures DecomposeAll(t, [c], compat) == Decompose(t, c, compat)
  {
    hide Decompose;
    assert [c][1..] == [];
    assert DecomposeAll(t, [c], compat) == Decompose(t, c, compat) + DecomposeAll(t, [], compat);
  }

  lemma DecomposeThree(t: Table, a: seq<Code>, c: Code, b: seq<Code>, compat: bool)
    requires WellFounded(t)
    ensures DecomposeAll(t, a + [c] + b, compat) == DecomposeAll(t, a, compat) + Decompose(t, c, compat) + DecomposeAll(t, b, compat)
  {
    hide Decompose, DecomposeAll;
    DecomposeConcat(t, a + [c], b, compat);
    DecomposeConcat(t, a, [c], compat);
    DecomposeOne(t, c, compat);
  }

  /** Recomposing the starter with `ch` decomposes as if `ch` had been appended. */
  lemma ComposeStep(t: Table, st: State, compat: bool, prev: Code, ch: Code)
    requires ValidTable(t) && TailOk(t, st, compat, prev) && Decompose(t, ch, compat) == [ch]
    requires st.last < Class(t, ch) && Compose(t, st.out[st.starter], ch).Some? && !Swallowed(st.out[st.starter], ch)
    ensures SameClasses(t, DecomposeAll(t, Step(t, st, ch).out, compat), DecomposeAll(t, st.out, compat) + [ch])
  {
    hide Class, Compose, Decompose, DecomposeAll, Keep, SameClasses, NoHangul, OneEntryEach, WellFounded;
    var s := st.out[st.starter];
    var x := Compose(t, s, ch).value;
    var a, b := st.out[..st.starter], st.out[st.starter + 1..];
    assert st.out == a + [s] + b && Step(t, st, ch).out == a + [x] + b;
    DecomposeThree(t, a, s, b, compat);
    DecomposeThree(t, a, x, b, compat);
    FixedIsUnchanged(t, b, compat);
    ComposeDecomposes(t, s, ch, compat);
    Weave(t, DecomposeAll(t, a, compat), Decompose(t, s, compat), b, ch);
  }

  lemma Weave(t: Table, da: seq<Code>, ds: seq<Code>, b: seq<Code>, ch: Code)
    requires Class(t, ch) == 0 ==> b == []
    requires forall i :: 0 <= i < |b| ==> 0 < Class(t, b[i]) < Class(t, ch)
    ensures SameClasses(t, da + (ds + [ch]) + b, da + ds + b + [ch])
  {
    hide Class, Keep, SameClasses;
    Passes(t, ch, b);
    SameSelf(t, da + ds);
    SameConcat(t, da + ds, da + ds, [ch] + b, b + [ch]);
    assert da + (ds + [ch]) + b == (da + ds) + ([ch] + b);
    assert (da + ds) + (b + [ch]) == (da + ds + b) + [ch];
  }

  lemma SameSelf(t: Table, s: seq<Code>)
    ensures SameClasses(t, s, s)
  {
  }

  lemma AppendStep(t: Table, out: seq<Code>, compat: bool, ch: Code)
    requires WellFounded(t) && Decompose(t, ch, compat) == [ch]
    ensures DecomposeAll(t, out + [ch], compat) == DecomposeAll(t, out, compat) + [ch]
  {
    hide Decompose, DecomposeAll, WellFounded;
    DecomposeConcat(t, out, [ch], compat);
    DecomposeOne(t, ch, compat);
  }

  /** One step of recomposition, seen through decomposition: `ch` is appended, or dropped. */
  lemma OneStep(t: Table, st: State, compat: bool, prev: Code, ch: Code)
    requires ValidTable(t) && TailOk(t, st, compat, prev) && Decompose(t, ch, compat) == [ch]
    ensures var after := DecomposeAll(t, Step(t, st, ch).out, compat);
            if Drops(t, st, ch) then after == DecomposeAll(t, st.out, compat)
            else SameClasses(t, after, DecomposeAll(t, st.out, compat) + [ch])
  {
    hide Class, Compose, Decompose, DecomposeAll, SameClasses, NoHangul, OneEntryEach, WellFounded, Swallowed;
    if Drops(t, st, ch) {
      DropsNothing(t, st, ch);
    } else if st.last < Class(t, ch) && Compose(t, st.out[st.starter], ch).Some? {
      ComposeStep(t, st, compat, prev, ch);
    } else {
      AppendStep(t, st.out, compat, ch);
      SameSelf(t, DecomposeAll(t, st.out, compat) + [ch]);
    }
  }

  /** All that holds after recomposing `d`, with `e` the effective part of `d`. */
  ghost predicate Recomposed(t: Table, d: seq<Code>, compat: bool)
    requires WellFounded(t) && d != []
  {
    var st, e := Run(t, d), Effective(t, d);
    && TailOk(t, st, compat, d[|d| - 1])
    && EndOk(st, e)
    && SameClasses(t, DecomposeAll(t, st.out, compat), e)
    && Ordered(t, e)
    && (Class(t, d[|d| - 1]) == Class(t, e[|e| - 1]))
  }

  lemma {:induction false} RecomposeHolds(t: Table, d: seq<Code>, compat: bool)
    requires ValidTable(t) && d != [] && Ordered(t, d) && Fixed(t, d, compat)
    ensures Recomposed(t, d, compat)
  {
    hide Class, Decompose, DecomposeAll, SameClasses, NoHangul, OneEntryEach, WellFounded, Step, Drops, TailOk, EndOk, Exchangeable;
    var n := |d| - 1;
    if n == 0 {
      FirstStep(t, d[0], compat);
      assert d == [d[0]];
    } else {
      RecomposeHolds(t, d[..n], compat);
      assert !Exchangeable(t, d[n - 1], d[n]);
      StepHolds(t, d, compat);
    }
  }

  lemma FirstStep(t: Table, c: Code, compat: bool)
    requires WellFounded(t) && Decompose(t, c, compat) == [c]
    ensures Recomposed(t, [c], compat)
  {
    hide Class, Decompose, DecomposeAll, SameClasses, WellFounded;
    NotSyllable(t, c, compat);
    DecomposeOne(t, c, compat);
    SameSelf(t, [c]);
  }

  lemma StepHolds(t: Table, d: seq<Code>, compat: bool)
    requires ValidTable(t) && |d| > 1 && Recomposed(t, d[..|d| - 1], compat)
    requires !Exchangeable(t, d[|d| - 2], d[|d| - 1]) && Decompose(t, d[|d| - 1], compat) == [d[|d| - 1]]
    ensures Recomposed(t, d, compat)
  {
    hide Class, Decompose, DecomposeAll, SameClasses, NoHangul, OneEntryEach, WellFounded, Step, Drops, TailOk, EndOk, Ordered;
    var n := |d| - 1;
    var ch, st, e := d[n], Run(t, d[..n]), Effective(t, d[..n]);
    NotSyllable(t, ch, compat);
    TailStep(t, st, compat, d[n - 1], ch);
    EndStep(t, st, e, ch);
    OneStep(t, st, compat, d[n - 1], ch);
    if Drops(t, st, ch) {
      DroppedClass(t, st, e, ch);
    } else {
      SameSnoc(t, DecomposeAll(t, Step(t, st, ch).out, compat), DecomposeAll(t, st.out, compat), e, ch);
      OrderedSnoc(t, e, ch);
    }
  }

  lemma DroppedClass(t: Table, st: State, e: seq<Code>, ch: Code)
    requires NoHangul(t) && st.starter < |st.out| && e != [] && EndOk(st, e) && Drops(t, st, ch) && -1 <= st.last
    ensures Class(t, ch) == 0 && Class(t, e[|e| - 1]) == 0
  {
    hide Find;
  }

  lemma SameSnoc(t: Table, a: seq<Code>, b: seq<Code>, e: seq<Code>, ch: Code)
    requires SameClasses(t, a, b + [ch]) && SameClasses(t, b, e)
    ensures SameClasses(t, a, e + [ch])
  {
    hide Keep;
    SameSelf(t, [ch]);
    SameConcat(t, b, e, [ch], [ch]);
  }

  lemma OrderedSnoc(t: Table, e: seq<Code>, ch: Code)
    requires Ordered(t, e) && e != [] && !Exchangeable(t, e[|e| - 1], ch)
    ensures Ordered(t, e + [ch])
  {
    hide Exchangeable;
  }

  // ----- When something is dropped -----

  /** A leading consonant is always a new starter, and the vowel after it makes an open syllable. */
  lemma LeadVowelRuns(t: Table, d: seq<Code>)
    requires ValidTable(t) && |d| >= 2 && LeadVowel(d[|d| - 2], d[|d| - 1])
    ensures var st := Run(t, d); st.last == -1 && IsOpen(st.out[st.starter])
  {
    hide Class, FindPair, Run, WellFounded, OneEntryEach;
    var n := |d| - 1;
    var l, v := d[n - 1], d[n];
    JamoIsFixed(t, l, false);
    JamoIsFixed(t, v, false);
    LeadVowelSyllable(l, v);
    RunLast(t, d);
    LeadStarts(t, d[..n], l);
  }

  lemma RunLast(t: Table, d: seq<Code>)
    requires |d| >= 2
    ensures Run(t, d) == Step(t, Run(t, d[..|d| - 1]), d[|d| - 1])
  {
    hide Step;
  }

  lemma LeadStarts(t: Table, d: seq<Code>, l: Code)
    requires ValidTable(t) && d != [] && d[|d| - 1] == l && IsLead(l)
    ensures var st := Run(t, d); st.last == -1 && st.out[st.starter] == l
  {
    hide Class, FindPair, Run, WellFounded, OneEntryEach;
    JamoIsFixed(t, l, false);
    if |d| == 1 {
      assert Run(t, d) == State([d[0]], 0, -1) by { RunFirst(t, d); }
    } else {
      RunLast(t, d);
    }
  }

  lemma RunFirst(t: Table, d: seq<Code>)
    requires |d| == 1
    ensures Run(t, d) == State([d[0]], 0, -1)
  {
  }

  /** Nothing is dropped exactly when U+11A7 never follows a leading consonant and a vowel. */
  lemma {:induction false} EffectiveIff(t: Table, d: seq<Code>, compat: bool)
    requires ValidTable(t) && d != [] && Ordered(t, d) && Fixed(t, d, compat)
    ensures Effective(t, d) == d <==> !HasOpenTail(d)
  {
    hide Class, Decompose, NoHangul, OneEntryEach, WellFounded, Exchangeable, Run, HasOpenTail, Drops, Effective, Recomposed, LeadVowel;
    EffectiveLast(t, d);
    var n := |d| - 1;
    if n == 0 {
      NoRoom(d);
    } else {
      var d', ch := d[..n], d[n];
      EffectiveIff(t, d', compat);
      RecomposeHolds(t, d', compat);
      OpenTailSnoc(d);
      assert d == d' + [ch];
      if Effective(t, d') == d' {
        DropsIff(t, d', compat, ch);
      }
    }
  }

  lemma NoRoom(d: seq<Code>)
    requires |d| < 3
    ensures !HasOpenTail(d)
  {
  }

  lemma EffectiveLast(t: Table, d: seq<Code>)
    requires d != []
    ensures var n := |d| - 1;
            if n == 0 then Effective(t, d) == d
            else if Drops(t, Run(t, d[..n]), d[n]) then Effective(t, d) == Effective(t, d[..n])
            else Effective(t, d) == Effective(t, d[..n]) + [d[n]]
  {
    hide Run, Drops;
  }

  lemma OpenTailSnoc(d: seq<Code>)
    requires |d| > 1
    ensures HasOpenTail(d) <==> HasOpenTail(d[..|d| - 1]) || (|d| > 2 && OpenTailAt(d, |d| - 3))
  {
    hide LeadVowel;
    var d' := d[..|d| - 1];
    forall i | 0 <= i < |d'| - 2
      ensures OpenTailAt(d', i) == OpenTailAt(d, i)
    {
    }
    if HasOpenTail(d) {
      var i :| 0 <= i < |d| - 2 && OpenTailAt(d, i);
      if i < |d'| - 2 { assert OpenTailAt(d', i); }
    }
    if HasOpenTail(d') {
      var i :| 0 <= i < |d'| - 2 && OpenTailAt(d', i);
      assert OpenTailAt(d, i);
    }
  }

  lemma DropsIff(t: Table, d: seq<Code>, compat: bool, ch: Code)
    requires ValidTable(t) && d != [] && Recomposed(t, d, compat) && Effective(t, d) == d
    ensures Drops(t, Run(t, d), ch) <==> ch == TBASE && |d| >= 2 && LeadVowel(d[|d| - 2], d[|d| - 1])
  {
    hide Class, Decompose, DecomposeAll, SameClasses, OneEntryEach, WellFounded, Step, Run, Exchangeable, TailOk, Effective, FindPair;
    if |d| >= 2 && LeadVowel(d[|d| - 2], d[|d| - 1]) {
      LeadVowelRuns(t, d);
    }
    if ch == TBASE {
      JamoIsFixed(t, ch, compat);
    }
  }

  // ----- Normal forms -----

  ghost function Decomposed(t: Table, s: seq<Code>, compat: bool): seq<Code>
    requires WellFounded(t)
  {
    Canonical(t, DecomposeAll(t, s, compat))
  }

  /** What unicode_normalize computes. */
  ghost function Normal(t: Table, s: seq<Code>, form: Form): seq<Code>
    requires WellFounded(t)
  {
    var d := Decomposed(t, s, form.Compat());
    if form.Recomposes() && d != [] then Run(t, d).out else d
  }

  lemma {:induction false} KeepMember(t: Table, s: seq<Code>, k: nat, c: Code)
    ensures c in Keep(t, s, k) ==> c in s
    ensures c in s && k == Class(t, c) ==> c in Keep(t, s, k)
  {
    hide Class;
    if s != [] { KeepMember(t, s[1..], k, c); }
  }

  lemma SameMembers(t: Table, r: seq<Code>, s: seq<Code>, c: Code)
    requires SameClasses(t, r, s) && c in r
    ensures c in s
  {
    hide Class, Keep;
    var k := Class(t, c);
    KeepMember(t, r, k, c);
    KeepMember(t, s, k, c);
    assert Keep(t, r, k) == Keep(t, s, k);
  }

  /** The decomposed form is ordered and does not decompose any further. */
  lemma DecomposedFacts(t: Table, s: seq<Code>, compat: bool)
    requires ValidTable(t)
    ensures Ordered(t, Decomposed(t, s, compat)) && Fixed(t, Decomposed(t, s, compat), compat)
  {
    hide Class, Keep, Decompose, DecomposeAll, Canonical, SameClasses, Ordered, NoHangul, OneEntryEach, WellFounded;
    var d := DecomposeAll(t, s, compat);
    AllIsFixed(t, s, compat);
    CanonicalIsCanonical(t, d);
    forall c | c in Canonical(t, d)
      ensures c in d
    {
      SameMembers(t, Canonical(t, d), d, c);
    }
  }

  /** Decomposing a decomposed string changes nothing. */
  lemma DecomposedTwice(t: Table, d: seq<Code>, compat: bool)
    requires ValidTable(t) && Ordered(t, d) && Fixed(t, d, compat)
    ensures Decomposed(t, d, compat) == d
  {
    hide Class, Keep, Decompose, DecomposeAll, Canonical, Ordered, NoHangul, OneEntryEach, WellFounded;
    FixedIsUnchanged(t, d, compat);
    CanonicalIff(t, d, d);
  }

  /** Decomposing a recomposed string gives back the decomposed string, but for dropped characters. */
  lemma DecomposeRecomposed(t: Table, d: seq<Code>, compat: bool)
    requires ValidTable(t) && d != [] && Ordered(t, d) && Fixed(t, d, compat)
    ensures Decomposed(t, Run(t, d).out, compat) == Effective(t, d)
  {
    hide Class, Keep, Decompose, DecomposeAll, Canonical, Ordered, NoHangul, OneEntryEach, WellFounded, Run, Effective, TailOk, EndOk;
    RecomposeHolds(t, d, compat);
    CanonicalIff(t, Effective(t, d), DecomposeAll(t, Run(t, d).out, compat));
  }

  /** Normalising twice is the same as normalising once, in all four forms. */
  lemma NormalTwice(t: Table, s: seq<Code>, form: Form)
    requires ValidTable(t)
    ensures Normal(t, Normal(t, s, form), form) == Normal(t, s, form)
  {
    hide Ordered, Fixed, NoHangul, OneEntryEach, WellFounded, Run, Effective, Decomposed;
    var d := Decomposed(t, s, form.Compat());
    DecomposedFacts(t, s, form.Compat());
    if form.Recomposes() && d != [] {
      DecomposeRecomposed(t, d, form.Compat());
      EffectiveRun(t, d);
    } else {
      DecomposedTwice(t, d, form.Compat());
    }
  }

  /** A composed form is equivalent to its string, that is, has the same decomposed form, exactly when
      U+11A7 never follows a leading consonant and a vowel there. */
  lemma ComposedIsEquivalentIff(t: Table, s: seq<Code>, compat: bool)
    requires ValidTable(t)
    ensures var c, d := if compat then NFKC else NFC, if compat then NFKD else NFD;
            Normal(t, Normal(t, s, c), d) == Normal(t, s, d) <==> !HasOpenTail(Normal(t, s, d))
  {
    hide Ordered, Fixed, NoHangul, OneEntryEach, WellFounded, Run, Effective, Decomposed, OpenTailAt;
    var d := Decomposed(t, s, compat);
    DecomposedFacts(t, s, compat);
    if d != [] {
      DecomposeRecomposed(t, d, compat);
      EffectiveIff(t, d, compat);
    } else {
      DecomposedTwice(t, d, compat);
    }
  }

  // ----- Hangul -----

  lemma SyllableRebuilt(c: Code)
    requires IsSyllable(c)
    ensures var r := Syllable(c);
            c == SBASE + ((r[0] - LBASE) * VCOUNT + (r[1] - VBASE)) * TCOUNT + if |r| == 3 then r[2] - TBASE else 0
  {
    var s := c - SBASE;
    assert (s / NCOUNT * VCOUNT + (s % NCOUNT) / TCOUNT) * TCOUNT + s % TCOUNT == s;
  }

  lemma RunSnoc(t: Table, d: seq<Code>, ch: Code)
    requires d != []
    ensures Run(t, d + [ch]) == Step(t, Run(t, d), ch)
  {
    hide Step, Run;
    assert (d + [ch])[..|d|] == d;
    RunLast(t, d + [ch]);
  }

  /** Lead, vowel and tail of one syllable, after whole syllables. */
  lemma SyllableRuns(t: Table, s: seq<Code>, d: seq<Code>, c: Code)
    requires ValidTable(t) && IsSyllable(c)
    requires if d == [] then s == [] else s != [] && IsSyllable(s[|s| - 1]) && Run(t, d) == State(s, |s| - 1, -1)
    ensures Run(t, d + Syllable(c)) == State(s + [c], |s|, -1)
  {
    hide Run, Class, FindPair, WellFounded, OneEntryEach, Syllable;
    var r := Syllable(c);
    SyllableRebuilt(c);
    forall j | j in r
      ensures Class(t, j) == 0
    {
      JamoIsFixed(t, j, false);
    }
    var d1, d2 := d + [r[0]], d + [r[0]] + [r[1]];
    if d == [] {
      RunFirst(t, d1);
      assert s + [r[0]] == [r[0]];
    } else {
      RunSnoc(t, d, r[0]);
    }
    assert Run(t, d1) == State(s + [r[0]], |s|, -1);
    LeadVowelSyllable(r[0], r[1]);
    RunSnoc(t, d1, r[1]);
    var lv := SBASE + ((r[0] - LBASE) * VCOUNT + (r[1] - VBASE)) * TCOUNT;
    assert Run(t, d2) == State(s + [lv], |s|, -1);
    if |r| == 3 {
      RunSnoc(t, d2, r[2]);
      assert d2 + [r[2]] == d + r;
    } else {
      assert d2 == d + r;
    }
  }

  lemma {:induction false} HangulRuns(t: Table, s: seq<Code>, compat: bool)
    requires ValidTable(t) && s != [] && forall c :: c in s ==> IsSyllable(c)
    ensures var d := DecomposeAll(t, s, compat);
            Run(t, d) == State(s, |s| - 1, -1) && forall c :: c in d ==> Class(t, c) == 0
  {
    hide Run, Class, WellFounded, OneEntryEach, NoHangul, DecomposeAll, Syllable;
    var n := |s| - 1;
    var s', c := s[..n], s[n];
    assert s == s' + [c];
    DecomposeConcat(t, s', [c], compat);
    DecomposeOne(t, c, compat);
    forall j | j in Syllable(c)
      ensures Class(t, j) == 0
    {
      JamoIsFixed(t, j, compat);
    }
    if n > 0 {
      HangulRuns(t, s', compat);
    } else {
      NothingDecomposes(t, compat);
    }
    SyllableRuns(t, s', DecomposeAll(t, s', compat), c);
  }

  lemma NothingDecomposes(t: Table, compat: bool)
    requires WellFounded(t)
    ensures DecomposeAll(t, [], compat) == []
  {
  }

  /** The composed forms leave every string of Hangul syllables as it is. */
  lemma HangulIsComposed(t: Table, s: seq<Code>, form: Form)
    requires ValidTable(t) && s != [] && (forall c :: c in s ==> IsSyllable(c)) && form.Recomposes()
    ensures Normal(t, s, form) == s
  {
    hide Run, Class, WellFounded, OneEntryEach, NoHangul, Canonical, Keep;
    var d := DecomposeAll(t, s, form.Compat());
    HangulRuns(t, s, form.Compat());
    CanonicalIff(t, d, d);
  }

  lemma OpenTailRuns(t: Table)
    requires ValidTable(t)
    ensures Run(t, [0x1100, 0x1161, 0x11A7]).out == [0xAC00]
  {
    hide Run, Class, WellFounded, OneEntryEach, NoHangul, FindPair;
    JamoIsFixed(t, 0x1161, false);
    JamoIsFixed(t, 0x11A7, false);
    RunFirst(t, [0x1100]);
    RunSnoc(t, [0x1100], 0x1161);
    RunSnoc(t, [0x1100] + [0x1161], 0x11A7);
    assert [0x1100] + [0x1161] + [0x11A7] == [0x1100, 0x1161, 0x11A7];
  }

  /** The dropped trailing consonant, on the smallest string that shows it. */
  lemma OpenTailIsDropped(t: Table)
    requires ValidTable(t)
    ensures Normal(t, [0x1100, 0x1161, 0x11A7], NFC) == [0xAC00]
    ensures Normal(t, [0x1100, 0x1161, 0x11A7], NFD) == [0x1100, 0x1161, 0x11A7]
  {
    hide Run, Class, WellFounded, OneEntryEach, NoHangul, Canonical, Keep, Decompose, DecomposeAll;
    var d := [0x1100, 0x1161, 0x11A7];
    forall j | j in d
      ensures Class(t, j) == 0 && Decompose(t, j, false) == [j]
    {
      JamoIsFixed(t, j, false);
    }
    FixedIsUnchanged(t, d, false);
    CanonicalIff(t, d, d);
    OpenTailRuns(t);
  }

  // ----- The program -----

  /** The recomposition loop: the output and its terminator fit into as much room as the decomposed string takes, if and
      only if that is not empty. The loop always starts with one character written. */
  method Recompose(t: Table, decomp: array<Code>, n: nat) returns (recomp: array<Code>, target: nat)
    requires n < decomp.Length
    ensures fresh(recomp) && recomp.Length == n + 1
    ensures target < recomp.Length <==> n > 0
    ensures n > 0 ==> recomp[..target] == Run(t, decomp[..n]).out && recomp[target] == 0
  {
    hide Run, Class, Compose;
    recomp := new Code[n + 1];
    var last: int, starter: nat := -1, 0;
    target := 1;
    var starterCh := decomp[0];
    recomp[0] := decomp[0];
    RunFirst(t, decomp[..1]);
    assert recomp[..1] == [decomp[0]];
    var count := 1;
    while count < n
      invariant target <= count && (n > 0 ==> count <= n) && starter < target <= recomp.Length && recomp[starter] == starterCh
      invariant n == 0 ==> target == 1
      invariant count <= decomp.Length && Run(t, decomp[..count]) == State(recomp[..target], starter, last)
    {
      var ch := decomp[count];
      var class_ := Class(t, ch);
      RunSnoc(t, decomp[..count], ch);
      assert decomp[..count] + [ch] == decomp[..count + 1];
      ghost var before := recomp[..target];
      var composite := RecomposeCode(t, starterCh, ch);
      if last < class_ && composite.Some? {
        recomp[starter] := composite.value;
        starterCh := composite.value;
        assert recomp[..target] == before[starter := composite.value];
      } else if class_ == 0 {
        starter := target;
        starterCh := ch;
        last := -1;
        recomp[target] := ch;
        target := target + 1;
        assert recomp[..target] == before + [ch];
      } else {
        last := class_;
        recomp[target] := ch;
        target := target + 1;
        assert recomp[..target] == before + [ch];
      }
      count := count + 1;
    }
    // For the empty string there is no such element, and what the source's write then does is not modelled.
    if target < recomp.Length {
      recomp[target] := 0;
    }
  }

  /** The size pass over the whole input. */
  method TotalSize(t: Table, input: seq<Code>, compat: bool) returns (size: nat)
    requires WellFounded(t)
    ensures size == |DecomposeAll(t, input, compat)|
  {
    hide Decompose, WellFounded;
    size := 0;
    for i := 0 to |input|
      invariant size + |DecomposeAll(t, input[i..], compat)| == |DecomposeAll(t, input, compat)|
    {
      var n := GetDecomposedSize(t, input[i], compat);
      assert input[i..][1..] == input[i + 1..];
      size := size + n;
    }
  }

  /** The fill pass: a buffer of the size pass's length is filled exactly. */
  method Fill(t: Table, input: seq<Code>, compat: bool, chars: array<Code>) returns (current: nat)
    requires WellFounded(t) && |DecomposeAll(t, input, compat)| <= chars.Length
    modifies chars
    ensures current == |DecomposeAll(t, input, compat)| && chars[..current] == DecomposeAll(t, input, compat)
  {
    hide Decompose, WellFounded, Wrote;
    current := 0;
    ghost var whole, done := DecomposeAll(t, input, compat), [];
    WroteNothing(chars[..], 0);
    for i := 0 to |input|
      invariant whole == done + DecomposeAll(t, input[i..], compat) && current == |done|
      invariant Wrote(old(chars[..]), 0, done, chars[..])
    {
      ghost var d, was := Decompose(t, input[i], compat), chars[..];
      assert input[i..][1..] == input[i + 1..];
      current := DecomposeCode(t, input[i], compat, chars, current);
      WroteMore(old(chars[..]), was, chars[..], 0, done, d);
      done := done + d;
    }
    assert done == whole;
    WroteFront(old(chars[..]), done, chars[..]);
  }

  lemma WroteFront(before: seq<Code>, d: seq<Code>, after: seq<Code>)
    requires Wrote(before, 0, d, after)
    ensures |d| <= |after| && after[..|d|] == d
  {
  }

  /** unicode_normalize, on a string given without its terminator: the result and its terminator stay inside the buffer
      unless an empty string is to be recomposed, and are then the normal form. */
  method Normalize(t: Table, form: Form, input: seq<Code>) returns (res: array<Code>, n: nat)
    requires WellFounded(t)
    ensures fresh(res)
    ensures n < res.Length <==> !(form.Recomposes() && input == [])
    ensures n < res.Length ==> res[..n] == Normal(t, input, form) && res[n] == 0
  {
    hide DecomposeAll, Canonical, Run, WellFounded, Rearranged;
    var compat := form.Compat();
    n := TotalSize(t, input, compat);
    res := new Code[n + 1];
    var current := Fill(t, input, compat, res);
    res[n] := 0;
    assert res[..n] == DecomposeAll(t, input, compat);
    Order(t, res, n);
    assert res[n..][0] == 0;
    if input == [] { NothingDecomposes(t, compat); }
    if form.Recomposes() {
      var recomp, target := Recompose(t, res, n);
      return recomp, target;
    }
  }
}
