/**
  What the normal forms consist of, said of the fields of the table entries alone (common/unicode_norm.c and the flags of
  include/common/unicode_norm_table.h:22-37; The Unicode Standard, section 3.11).
*/
module UnicodeForms {
  import opened Common
  import opened UnicodeTable
  import opened UnicodeOrder
  import opened UnicodeNorm

  /** The code has no decomposition that this kind of normalisation uses. */
  ghost predicate Terminal(t: Table, c: Code, compat: bool) {
    !IsSyllable(c) && forall e :: e in t.entries && e.codepoint == c ==> e.decomp == [] || (!compat && e.compat)
  }

  ghost predicate AllTerminal(t: Table, s: seq<Code>, compat: bool) {
    forall c :: c in s ==> Terminal(t, c, compat)
  }

  lemma EntryIsFound(t: Table, e: Entry)
    requires OneEntryEach(t) && e in t.entries
    ensures Find(t.entries, e.codepoint) == Some(e)
  {
    hide Find;
    var i :| 0 <= i < |t.entries| && t.entries[i] == e;
    FindFinds(t.entries, i);
  }

  lemma MappingIs(t: Table, c: Code, compat: bool)
    requires OneEntryEach(t)
    ensures !IsSyllable(c) ==> (Mapping(t, c, compat) == None <==> Terminal(t, c, compat))
  {
    hide Find, OneEntryEach;
    forall e | e in t.entries && e.codepoint == c
      ensures Find(t.entries, c) == Some(e)
    {
      EntryIsFound(t, e);
    }
  }

  /** A terminal code stands for itself; any other code outside Hangul for the decompositions of the codes of its entry. */
  lemma DecomposesAs(t: Table, e: Entry, compat: bool)
    requires ValidTable(t) && e in t.entries && e.decomp != [] && (compat || !e.compat)
    ensures Decompose(t, e.codepoint, compat) == DecomposeAll(t, e.decomp, compat)
  {
    hide Find, NoHangul, OneEntryEach;
    EntryIsFound(t, e);
    assert !IsSyllable(e.codepoint) by { NotHangul(t, e); }
    BelowIsAll(t, e.decomp, compat, t.rank(e.codepoint));
  }

  lemma NotHangul(t: Table, e: Entry)
    requires NoHangul(t) && e in t.entries
    ensures !IsHangul(e.codepoint)
  {
  }

  lemma TerminalStays(t: Table, c: Code, compat: bool)
    requires ValidTable(t) && Terminal(t, c, compat)
    ensures Decompose(t, c, compat) == [c]
  {
    hide Terminal, Find, NoHangul, OneEntryEach;
    MappingIs(t, c, compat);
    assert !IsSyllable(c) by { NotASyllable(t, c, compat); }
  }

  lemma NotASyllable(t: Table, c: Code, compat: bool)
    requires Terminal(t, c, compat)
    ensures !IsSyllable(c)
  {
  }

  lemma {:induction false} BelowIsAll(t: Table, s: seq<Code>, compat: bool, bound: nat)
    requires WellFounded(t) && forall c :: c in s ==> t.rank(c) < bound
    ensures DecomposeBelow(t, s, compat, bound) == DecomposeAll(t, s, compat)
    decreases |s|
  {
    hide Decompose;
    if s != [] { BelowIsAll(t, s[1..], compat, bound); }
  }

  // ----- Decomposed forms hold terminal codes only -----

  lemma JamoIsTerminal(t: Table, c: Code, compat: bool)
    requires NoHangul(t) && IsHangul(c) && !IsSyllable(c)
    ensures Terminal(t, c, compat)
  {
  }

  lemma {:induction false} DecomposeEnds(t: Table, code: Code, compat: bool)
    requires ValidTable(t)
    ensures AllTerminal(t, Decompose(t, code, compat), compat)
    decreases t.rank(code), 1, 0
  {
    hide NoHangul, Find, OneEntryEach, Terminal;
    if IsSyllable(code) {
      forall c | c in Syllable(code)
        ensures Terminal(t, c, compat)
      {
        JamoIsTerminal(t, c, compat);
      }
    } else {
      var m := Mapping(t, code, compat);
      MappingIs(t, code, compat);
      if m.Some? { BelowEnds(t, m.value, compat, t.rank(code)); }
    }
  }

  lemma {:induction false} BelowEnds(t: Table, s: seq<Code>, compat: bool, bound: nat)
    requires ValidTable(t) && forall c :: c in s ==> t.rank(c) < bound
    ensures AllTerminal(t, DecomposeBelow(t, s, compat, bound), compat)
    decreases bound, 0, |s|
  {
    hide NoHangul, OneEntryEach, Decompose, Terminal;
    if s != [] {
      DecomposeEnds(t, s[0], compat);
      BelowEnds(t, s[1..], compat, bound);
    }
  }

  lemma {:induction false} AllEnd(t: Table, s: seq<Code>, compat: bool)
    requires ValidTable(t)
    ensures AllTerminal(t, DecomposeAll(t, s, compat), compat)
  {
    hide ValidTable, Decompose, Terminal;
    if s != [] {
      DecomposeEnds(t, s[0], compat);
      AllEnd(t, s[1..], compat);
    }
  }

  /** A decomposed form consists of codes that have nothing left to decompose. */
  lemma DecomposedIsTerminal(t: Table, s: seq<Code>, compat: bool)
    requires ValidTable(t)
    ensures AllTerminal(t, Decomposed(t, s, compat), compat)
  {
    hide Class, Keep, Decompose, DecomposeAll, Canonical, SameClasses, Ordered, NoHangul, OneEntryEach, WellFounded, Terminal;
    var d := DecomposeAll(t, s, compat);
    AllEnd(t, s, compat);
    CanonicalIsCanonical(t, d);
    forall c | c in Canonical(t, d)
      ensures c in d
    {
      SameMembers(t, Canonical(t, d), d, c);
    }
  }

  /** The combining class is that of the entry, and 0 without one. */
  lemma ClassIs(t: Table, c: Code)
    requires OneEntryEach(t)
    ensures forall e :: e in t.entries && e.codepoint == c ==> Class(t, c) == e.combClass
    ensures (forall e :: e in t.entries ==> e.codepoint != c) ==> Class(t, c) == 0
  {
    hide Find, OneEntryEach;
    forall e | e in t.entries && e.codepoint == c
      ensures Class(t, c) == e.combClass
    {
      EntryIsFound(t, e);
    }
  }

  /** The forms: NFD and NFKD hold terminal codes; a compatibility mapping is left alone by NFD and NFC and is gone from
      NFKD and NFKC. */
  lemma FormsDiffer(t: Table, s: seq<Code>, e: Entry)
    requires ValidTable(t) && e in t.entries && e.compat && e.decomp != []
    ensures AllTerminal(t, Normal(t, s, NFD), false) && AllTerminal(t, Normal(t, s, NFKD), true)
    ensures Normal(t, [e.codepoint], NFD) == [e.codepoint] == Normal(t, [e.codepoint], NFC)
    ensures e.codepoint !in Normal(t, s, NFKD) && e.codepoint !in Normal(t, s, NFKC)
  {
    hide Run, Canonical, Keep, WellFounded, DecomposeAll;
    DecomposedIsTerminal(t, s, false);
    DecomposedIsTerminal(t, s, true);
    var c := e.codepoint;
    if c in Normal(t, s, NFKC) { ComposedContent(t, s, NFKC, e); }
    EntryIsFound(t, e);
    NotHangul(t, e);
    assert Terminal(t, c, false) by { OnlyEntry(t, e); }
    TerminalStays(t, c, false);
    DecomposeOne(t, c, false);
    CanonicalIff(t, [c], [c]);
    RunFirst(t, [c]);
  }

  lemma OnlyEntry(t: Table, e: Entry)
    requires ValidTable(t) && e in t.entries && e.compat
    ensures Terminal(t, e.codepoint, false)
  {
    hide Find, OneEntryEach;
    NotHangul(t, e);
    EntryIsFound(t, e);
    forall g | g in t.entries && g.codepoint == e.codepoint
      ensures g.compat
    {
      EntryIsFound(t, g);
    }
  }

  // ----- What a pair recomposes to -----

  /** Outside Hangul a pair recomposes to a code whose entry is that pair, neither excluded nor a compatibility mapping; and
      to nothing only if there is none. */
  lemma PairIff(t: Table, a: Code, b: Code)
    requires !LeadVowel(a, b) && !OpenTail(a, b)
    ensures match Compose(t, a, b) {
              case Some(x) => exists e :: e in t.entries && e.codepoint == x && e.decomp == [a, b] && !e.noCompose && !e.compat
              case None => forall e :: e in t.entries && e.decomp == [a, b] ==> e.noCompose || e.compat
            }
  {
    hide FindPair;
    var r := Compose(t, a, b);
    if r.Some? {
      var i :| 0 <= i < |t.entries| && t.entries[i].codepoint == r.value && Composes(t.entries[i]) && t.entries[i].decomp == [a, b];
      assert t.entries[i] in t.entries;
    }
  }

  /** What a composed form may hold besides terminal codes: Hangul syllables, and codes whose entry is a pair that is neither
      excluded nor a compatibility mapping. */
  ghost predicate Composite(t: Table, c: Code) {
    IsSyllable(c) || exists e :: e in t.entries && e.codepoint == c && |e.decomp| == 2 && !e.noCompose && !e.compat
  }

  ghost predicate Allowed(t: Table, s: seq<Code>, compat: bool) {
    forall c :: c in s ==> Terminal(t, c, compat) || Composite(t, c)
  }

  lemma ComposeIsComposite(t: Table, a: Code, b: Code)
    requires Compose(t, a, b).Some?
    ensures Composite(t, Compose(t, a, b).value)
  {
    hide FindPair;
    if LeadVowel(a, b) {
      LeadVowelSyllable(a, b);
    } else if OpenTail(a, b) {
      if b != TBASE { OpenTailSyllable(a, b); }
    } else {
      PairIff(t, a, b);
    }
  }

  lemma {:induction false} RunIsAllowed(t: Table, d: seq<Code>, compat: bool)
    requires d != [] && AllTerminal(t, d, compat)
    ensures Allowed(t, Run(t, d).out, compat)
  {
    hide Class, Compose, Terminal, Composite;
    var n := |d| - 1;
    if n > 0 {
      RunIsAllowed(t, d[..n], compat);
      var st := Run(t, d[..n]);
      if Compose(t, st.out[st.starter], d[n]).Some? { ComposeIsComposite(t, st.out[st.starter], d[n]); }
    }
  }

  /** No excluded code, no singleton and no compatibility mapping is in a composed form where it could have been decomposed. */
  lemma ComposedContent(t: Table, s: seq<Code>, form: Form, e: Entry)
    requires ValidTable(t) && form.Recomposes() && e in t.entries && e.codepoint in Normal(t, s, form)
    ensures e.decomp == [] || (form == NFC && e.compat) || (|e.decomp| == 2 && !e.noCompose && !e.compat)
  {
    hide Class, Run, Decomposed, WellFounded;
    var d := Decomposed(t, s, form.Compat());
    DecomposedIsTerminal(t, s, form.Compat());
    if d != [] { RunIsAllowed(t, d, form.Compat()); }
    var c := e.codepoint;
    EntryIsFound(t, e);
    NotHangul(t, e);
    if !Terminal(t, c, form.Compat()) {
      var g :| g in t.entries && g.codepoint == c && |g.decomp| == 2 && !g.noCompose && !g.compat;
      EntryIsFound(t, g);
    }
  }

  /** A code whose entry is such a pair, of a starter and another code that have nothing left to decompose, and of which there is
      no second one, is recomposed from its parts and is its own composed form. */
  lemma PrimaryComposite(t: Table, e: Entry, a: Code, b: Code, form: Form)
    requires ValidTable(t) && form.Recomposes() && e in t.entries
    requires e.decomp == [a, b] && !e.noCompose && !e.compat
    requires Terminal(t, a, form.Compat()) && Terminal(t, b, form.Compat())
    requires forall g :: g in t.entries && g.codepoint == a ==> g.combClass == 0
    requires forall g :: g in t.entries && g.decomp == [a, b] ==> g == e
    ensures Normal(t, [e.codepoint], form) == [e.codepoint] == Normal(t, [a, b], form)
  {
    hide Run, Canonical, Keep, Terminal, WellFounded, OneEntryEach, FindPair, DecomposeAll;
    var compat := form.Compat();
    DecomposesAs(t, e, compat);
    TerminalStays(t, a, compat);
    TerminalStays(t, b, compat);
    DecomposeOne(t, e.codepoint, compat);
    assert Fixed(t, [a, b], compat);
    FixedIsUnchanged(t, [a, b], compat);
    assert Class(t, a) == 0;
    CanonicalIff(t, [a, b], [a, b]);
    assert Composes(e) && !IsHangul(a) && !IsHangul(b);
    PairIff(t, a, b);
    assert Compose(t, a, b) == Some(e.codepoint) by { OnlyPair(t, e, a, b); }
    RunFirst(t, [a]);
    RunSnoc(t, [a], b);
    assert [a] + [b] == [a, b];
  }

  lemma OnlyPair(t: Table, e: Entry, a: Code, b: Code)
    requires e in t.entries && e.decomp == [a, b] && !e.noCompose && !e.compat && !LeadVowel(a, b) && !OpenTail(a, b)
    requires forall g :: g in t.entries && g.decomp == [a, b] ==> g == e
    ensures Compose(t, a, b) == Some(e.codepoint)
  {
    hide FindPair;
    PairIff(t, a, b);
  }

  // ----- The order of recomposition -----

  /** Between the last starter and `ch` there is a starter or a character of the same or a higher class. */
  ghost predicate Blocked(t: Table, out: seq<Code>, starter: nat, ch: Code) {
    exists j :: starter < j < |out| && (Class(t, out[j]) == 0 || Class(t, out[j]) >= Class(t, ch))
  }

  /** Recomposition as definitions D115 and D117 of the standard have it: each character is composed with the last starter
      if it is not blocked from it and the pair recomposes, and is appended otherwise. */
  lemma StepIsStandard(t: Table, d: seq<Code>, ch: Code, compat: bool)
    requires ValidTable(t) && d != [] && Ordered(t, d) && Fixed(t, d, compat)
    ensures var st := Run(t, d);
            var x := Compose(t, st.out[st.starter], ch);
            && Run(t, d + [ch]).out == (if !Blocked(t, st.out, st.starter, ch) && x.Some? then st.out[st.starter := x.value] else st.out + [ch])
            && forall j :: st.starter < j < |st.out| ==> Class(t, st.out[j]) > 0
  {
    hide Class, Compose, Decompose, DecomposeAll, SameClasses, NoHangul, OneEntryEach, WellFounded, Run, EndOk, Exchangeable;
    RecomposeHolds(t, d, compat);
    RunSnoc(t, d, ch);
    var st := Run(t, d);
    BlockedIff(t, st, compat, d[|d| - 1], ch);
  }

  lemma BlockedIff(t: Table, st: State, compat: bool, prev: Code, ch: Code)
    requires WellFounded(t) && TailOk(t, st, compat, prev)
    ensures Blocked(t, st.out, st.starter, ch) <==> !(st.last < Class(t, ch))
  {
    hide Class, Decompose, WellFounded;
    var n := |st.out| - 1;
    if st.starter < n { assert Class(t, st.out[n]) == st.last; }
  }

  /** The example of section 3.12 of the standard: U+D4DB is U+1111, U+1171 and U+11B6. */
  lemma SyllableExample()
    ensures IsSyllable(0xD4DB) && Syllable(0xD4DB) == [0x1111, 0x1171, 0x11B6]
  {
  }
}
