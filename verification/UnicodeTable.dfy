/**
  The decomposition table and the two per-character operations on it: full decomposition and
  pairwise recomposition (common/unicode_norm.c). The table is any table whose decompositions are well-founded.
*/
module UnicodeTable {
  import opened Common

  type Code = nat

  const SBASE := 0xAC00
  const LBASE := 0x1100
  const VBASE := 0x1161
  const TBASE := 0x11A7
  const LCOUNT := 19
  const VCOUNT := 21
  const TCOUNT := 28
  const NCOUNT := VCOUNT * TCOUNT
  const SCOUNT := LCOUNT * NCOUNT

  datatype Entry = Entry(codepoint: Code, combClass: nat, decomp: seq<Code>, noCompose: bool, compat: bool)

  /** `rank` witnesses that no chain of decompositions runs in a circle. */
  datatype Table = Table(entries: seq<Entry>, ghost rank: Code -> nat)

  predicate IsSyllable(c: Code) { SBASE <= c < SBASE + SCOUNT }
  predicate IsLead(c: Code) { LBASE <= c < LBASE + LCOUNT }
  predicate IsVowel(c: Code) { VBASE <= c < VBASE + VCOUNT }
  predicate IsTail(c: Code) { TBASE <= c < TBASE + TCOUNT }
  predicate IsHangul(c: Code) { IsSyllable(c) || IsLead(c) || IsVowel(c) || IsTail(c) }

  /** Used for recomposition: a canonical pair that is not excluded. */
  predicate Composes(e: Entry) { |e.decomp| == 2 && !e.noCompose && !e.compat }

  ghost predicate WellFounded(t: Table) {
    forall e, c :: e in t.entries && c in e.decomp ==> t.rank(c) < t.rank(e.codepoint)
  }

  ghost predicate OneEntryEach(t: Table) {
    forall i, j :: 0 <= i < j < |t.entries| ==> t.entries[i].codepoint != t.entries[j].codepoint
  }

  /** Hangul is left to the algorithm: it has no entries and no entry recomposes it. */
  ghost predicate NoHangul(t: Table) {
    forall e :: e in t.entries ==>
      && !IsHangul(e.codepoint)
      && (Composes(e) ==> !IsHangul(e.decomp[0]) && !IsHangul(e.decomp[1]))
  }

  ghost predicate ValidTable(t: Table) { WellFounded(t) && OneEntryEach(t) && NoHangul(t) }

  /** get_code_entry: the entry for a code point, if there is one. */
  function Find(entries: seq<Entry>, code: Code): (r: Option<Entry>)
    ensures r.Some? ==> r.value in entries && r.value.codepoint == code
    ensures r.None? ==> forall e :: e in entries ==> e.codepoint != code
  {
    if entries == [] then None
    else if entries[0].codepoint == code then Some(entries[0])
    else Find(entries[1..], code)
  }

  lemma {:induction false} FindFinds(entries: seq<Entry>, i: nat)
    requires i < |entries|
    requires forall j :: 0 <= j < |entries| && j != i ==> entries[j].codepoint != entries[i].codepoint
    ensures Find(entries, entries[i].codepoint) == Some(entries[i])
  {
    if i > 0 {
      var rest := entries[1..];
      assert rest[i - 1] == entries[i];
      FindFinds(rest, i - 1);
    }
  }

  /** The combining class; no entry means class 0, a starter. */
  function Class(t: Table, code: Code): nat {
    var e := Find(t.entries, code);
    if e.None? then 0 else e.value.combClass
  }

  // ----- Decomposition -----

  function Syllable(code: Code): (r: seq<Code>)
    requires IsSyllable(code)
    ensures 2 <= |r| <= 3 && (|r| == 3 <==> (code - SBASE) % TCOUNT != 0)
    ensures IsLead(r[0]) && IsVowel(r[1]) && (|r| == 3 ==> IsTail(r[2]) && r[2] != TBASE)
  {
    var s := code - SBASE;
    var l, v, tail := LBASE + s / NCOUNT, VBASE + (s % NCOUNT) / TCOUNT, TBASE + s % TCOUNT;
    if s % TCOUNT != 0 then [l, v, tail] else [l, v]
  }

  /** The decomposition to recurse into, if the code has one for this kind of normalisation. */
  function Mapping(t: Table, code: Code, compat: bool): (r: Option<seq<Code>>)
    ensures r.Some? ==> r.value != []
    ensures WellFounded(t) && r.Some? ==> forall c :: c in r.value ==> t.rank(c) < t.rank(code)
  {
    var e := Find(t.entries, code);
    if e.None? || e.value.decomp == [] || (!compat && e.value.compat) then None else Some(e.value.decomp)
  }

  ghost function Decompose(t: Table, code: Code, compat: bool): (r: seq<Code>)
    requires WellFounded(t)
    ensures r != []
    decreases t.rank(code), 1, 0
  {
    if IsSyllable(code) then Syllable(code)
    else var m := Mapping(t, code, compat);
      if m.None? then [code] else DecomposeBelow(t, m.value, compat, t.rank(code))
  }

  ghost function DecomposeBelow(t: Table, s: seq<Code>, compat: bool, bound: nat): (r: seq<Code>)
    requires WellFounded(t) && forall c :: c in s ==> t.rank(c) < bound
    ensures s != [] ==> r != []
    decreases bound, 0, |s|
  {
    if s == [] then [] else Decompose(t, s[0], compat) + DecomposeBelow(t, s[1..], compat, bound)
  }

  ghost function DecomposeAll(t: Table, s: seq<Code>, compat: bool): (r: seq<Code>)
    requires WellFounded(t)
    ensures s != [] ==> r != []
  {
    if s == [] then [] else Decompose(t, s[0], compat) + DecomposeAll(t, s[1..], compat)
  }

  ghost predicate Fixed(t: Table, s: seq<Code>, compat: bool)
    requires WellFounded(t)
  {
    forall c :: c in s ==> Decompose(t, c, compat) == [c]
  }

  lemma JamoIsFixed(t: Table, c: Code, compat: bool)
    requires ValidTable(t) && IsHangul(c)
    ensures Class(t, c) == 0 && Mapping(t, c, compat) == None
    ensures !IsSyllable(c) ==> Decompose(t, c, compat) == [c]
  {
  }

  /** What decomposition yields does not decompose any further. */
  lemma {:induction false} DecomposeIsFixed(t: Table, code: Code, compat: bool)
    requires ValidTable(t)
    ensures Fixed(t, Decompose(t, code, compat), compat)
    decreases t.rank(code), 1, 0
  {
    hide NoHangul, Find, OneEntryEach;
    if IsSyllable(code) {
      forall c | c in Syllable(code)
        ensures Decompose(t, c, compat) == [c]
      {
        JamoIsFixed(t, c, compat);
      }
    } else {
      var m := Mapping(t, code, compat);
      if m.Some? { BelowIsFixed(t, m.value, compat, t.rank(code)); }
    }
  }

  lemma {:induction false} BelowIsFixed(t: Table, s: seq<Code>, compat: bool, bound: nat)
    requires ValidTable(t) && forall c :: c in s ==> t.rank(c) < bound
    ensures Fixed(t, DecomposeBelow(t, s, compat, bound), compat)
    decreases bound, 0, |s|
  {
    hide NoHangul, OneEntryEach, Find, Decompose;
    if s != [] {
      DecomposeIsFixed(t, s[0], compat);
      BelowIsFixed(t, s[1..], compat, bound);
    }
  }

  lemma {:induction false} AllIsFixed(t: Table, s: seq<Code>, compat: bool)
    requires ValidTable(t)
    ensures Fixed(t, DecomposeAll(t, s, compat), compat)
  {
    hide ValidTable, Decompose;
    if s != [] {
      DecomposeIsFixed(t, s[0], compat);
      AllIsFixed(t, s[1..], compat);
    }
  }

  lemma {:induction false} FixedIsUnchanged(t: Table, s: seq<Code>, compat: bool)
    requires WellFounded(t) && Fixed(t, s, compat)
    ensures DecomposeAll(t, s, compat) == s
  {
    hide Decompose;
    if s != [] {
      FixedIsUnchanged(t, s[1..], compat);
      assert Decompose(t, s[0], compat) == [s[0]];
    }
  }

  lemma {:induction false} DecomposeConcat(t: Table, a: seq<Code>, b: seq<Code>, compat: bool)
    requires WellFounded(t)
    ensures DecomposeAll(t, a + b, compat) == DecomposeAll(t, a, compat) + DecomposeAll(t, b, compat)
  {
    hide Decompose;
    if a == [] {
      assert a + b == b;
    } else {
      assert (a + b)[1..] == a[1..] + b;
      DecomposeConcat(t, a[1..], b, compat);
    }
  }

  // ----- The size pass and the fill pass -----

  /** get_decomposed_size: the size pass gives the length of what the fill pass will write. */
  method GetDecomposedSize(t: Table, code: Code, compat: bool) returns (size: nat)
    requires WellFounded(t)
    ensures size == |Decompose(t, code, compat)|
    decreases t.rank(code)
  {
    if IsSyllable(code) {
      return if (code - SBASE) % TCOUNT != 0 then 3 else 2;
    }
    var m := Mapping(t, code, compat);
    if m.None? {
      return 1;
    }
    size := 0;
    ghost var whole := DecomposeBelow(t, m.value, compat, t.rank(code));
    for i := 0 to |m.value|
      invariant size + |DecomposeBelow(t, m.value[i..], compat, t.rank(code))| == |whole|
    {
      hide Decompose;
      var n := GetDecomposedSize(t, m.value[i], compat);
      assert m.value[i..][1..] == m.value[i + 1..];
      size := size + n;
    }
  }

  /** `after` is `before` with `d` written over it at position `p`. */
  ghost predicate Wrote(before: seq<Code>, p: nat, d: seq<Code>, after: seq<Code>) {
    p + |d| <= |before| && after == before[..p] + d + before[p + |d|..]
  }

  lemma WroteNothing(s: seq<Code>, p: nat)
    requires p <= |s|
    ensures Wrote(s, p, [], s)
  {
  }

  lemma WroteMore(a: seq<Code>, b: seq<Code>, c: seq<Code>, p: nat, d: seq<Code>, e: seq<Code>)
    requires Wrote(a, p, d, b) && Wrote(b, p + |d|, e, c)
    ensures Wrote(a, p, d + e, c)
  {
  }

  /** decompose_code: writes exactly the decomposition at the caller's position and nothing else. */
  method DecomposeCode(t: Table, code: Code, compat: bool, res: array<Code>, current: nat) returns (next: nat)
    requires WellFounded(t) && current + |Decompose(t, code, compat)| <= res.Length
    modifies res
    ensures next == current + |Decompose(t, code, compat)|
    ensures Wrote(old(res[..]), current, Decompose(t, code, compat), res[..])
    decreases t.rank(code)
  {
    next := current;
    if IsSyllable(code) {
      var s := code - SBASE;
      res[next] := LBASE + s / NCOUNT;
      next := next + 1;
      res[next] := VBASE + (s % NCOUNT) / TCOUNT;
      next := next + 1;
      if s % TCOUNT != 0 {
        res[next] := TBASE + s % TCOUNT;
        next := next + 1;
      }
      return;
    }
    var m := Mapping(t, code, compat);
    if m.None? {
      res[next] := code;
      next := next + 1;
      return;
    }
    next := DecomposeCodes(t, m.value, compat, res, current, t.rank(code));
  }

  /** Lines 294-300: the loop over the characters of one decomposition. */
  method DecomposeCodes(t: Table, s: seq<Code>, compat: bool, res: array<Code>, current: nat, ghost bound: nat) returns (next: nat)
    requires WellFounded(t) && forall c :: c in s ==> t.rank(c) < bound
    requires current + |DecomposeBelow(t, s, compat, bound)| <= res.Length
    modifies res
    ensures next == current + |DecomposeBelow(t, s, compat, bound)|
    ensures Wrote(old(res[..]), current, DecomposeBelow(t, s, compat, bound), res[..])
    decreases bound, 0
  {
    hide Decompose, Wrote;
    next := current;
    WroteNothing(res[..], current);
    ghost var whole := DecomposeBelow(t, s, compat, bound);
    ghost var done: seq<Code> := [];
    for i := 0 to |s|
      invariant whole == done + DecomposeBelow(t, s[i..], compat, bound) && next == current + |done|
      invariant Wrote(old(res[..]), current, done, res[..])
    {
      ghost var d := Decompose(t, s[i], compat);
      assert s[i..][1..] == s[i + 1..];
      ghost var was, from := res[..], next;
      next := DecomposeCode(t, s[i], compat, res, next);
      WroteMore(old(res[..]), was, res[..], current, done, d);
      done := done + d;
    }
    assert done == whole;
  }

  // ----- Recomposition of a pair -----

  predicate LeadVowel(start: Code, code: Code) { IsLead(start) && IsVowel(code) }

  predicate OpenTail(start: Code, code: Code) {
    IsSyllable(start) && (start - SBASE) % TCOUNT == 0 && IsTail(code)
  }

  /** The first entry whose decomposition is this pair. */
  function FindPair(entries: seq<Entry>, start: Code, code: Code): (r: Option<Code>)
    ensures r.Some? ==> exists i :: 0 <= i < |entries| && entries[i].codepoint == r.value
                                    && Composes(entries[i]) && entries[i].decomp == [start, code]
    ensures r.None? ==> forall e :: e in entries && Composes(e) ==> e.decomp != [start, code]
  {
    if entries == [] then None
    else
      var e := entries[0];
      if Composes(e) && e.decomp[0] == start && e.decomp[1] == code then
        assert e.decomp == [start, code]; Some(e.codepoint)
      else
        var r := FindPair(entries[1..], start, code);
        assert forall i :: 0 <= i < |entries| - 1 ==> entries[1..][i] == entries[i + 1];
        r
  }

  ghost function Compose(t: Table, start: Code, code: Code): (r: Option<Code>) {
    if LeadVowel(start, code) then Some(SBASE + ((start - LBASE) * VCOUNT + (code - VBASE)) * TCOUNT)
    else if OpenTail(start, code) then Some(start + (code - TBASE))
    else FindPair(t.entries, start, code)
  }

  /** recompose_code: a pair is recomposed as the syllable or the table says. */
  method RecomposeCode(t: Table, start: Code, code: Code) returns (r: Option<Code>)
    ensures r == Compose(t, start, code)
  {
    if LeadVowel(start, code) {
      var lindex, vindex := start - LBASE, code - VBASE;
      return Some(SBASE + (lindex * VCOUNT + vindex) * TCOUNT);
    }
    if OpenTail(start, code) {
      return Some(start + (code - TBASE));
    }
    for i := 0 to |t.entries|
      invariant FindPair(t.entries[i..], start, code) == FindPair(t.entries, start, code)
    {
      var entry := t.entries[i];
      assert t.entries[i..][1..] == t.entries[i + 1..];
      if |entry.decomp| != 2 { continue; }
      if entry.noCompose || entry.compat { continue; }
      if start == entry.decomp[0] && code == entry.decomp[1] {
        return Some(entry.codepoint);
      }
    }
    return None;
  }

  /** The trailing consonant that recomposition drops: U+11A7 after a syllable without one. */
  predicate Swallowed(start: Code, code: Code) { OpenTail(start, code) && code == TBASE }

  /** A recomposed pair decomposes to what its two parts decompose to, exactly when nothing was dropped. */
  lemma ComposeDecomposes(t: Table, start: Code, code: Code, compat: bool)
    requires ValidTable(t) && Compose(t, start, code).Some?
    ensures var x := Compose(t, start, code).value;
            Decompose(t, x, compat) == Decompose(t, start, compat) + Decompose(t, code, compat)
            <==> !Swallowed(start, code)
    ensures Swallowed(start, code) ==> Compose(t, start, code).value == start
  {
    hide Find, FindPair, ValidTable, DecomposeBelow;
    if LeadVowel(start, code) || OpenTail(start, code) {
      SyllableDecomposes(t, start, code, compat);
    } else {
      PairDecomposes(t, start, code, compat);
    }
  }

  lemma LeadVowelSyllable(l: Code, v: Code)
    requires LeadVowel(l, v)
    ensures var x := SBASE + ((l - LBASE) * VCOUNT + (v - VBASE)) * TCOUNT; IsSyllable(x) && Syllable(x) == [l, v]
  {
    SyllableParts(l - LBASE, v - VBASE, 0);
  }

  lemma SyllableParts(l: nat, v: nat, k: nat)
    requires l < LCOUNT && v < VCOUNT && k < TCOUNT
    ensures var x := SBASE + (l * VCOUNT + v) * TCOUNT + k;
            && IsSyllable(x) && (x - SBASE) % TCOUNT == k
            && Syllable(x) == [LBASE + l, VBASE + v] + if k != 0 then [TBASE + k] else []
  {
    var s := (l * VCOUNT + v) * TCOUNT + k;
    assert s == NCOUNT * l + (TCOUNT * v + k) && 0 <= TCOUNT * v + k < NCOUNT;
    assert s / NCOUNT == l && s % NCOUNT == TCOUNT * v + k;
    assert (TCOUNT * v + k) / TCOUNT == v && (TCOUNT * v + k) % TCOUNT == k;
    assert s % TCOUNT == k;
  }

  lemma OpenTailSyllable(s: Code, c: Code)
    requires OpenTail(s, c) && c != TBASE
    ensures IsSyllable(s + (c - TBASE)) && Syllable(s + (c - TBASE)) == Syllable(s) + [c]
  {
    hide Syllable;
    var q := (s - SBASE) / TCOUNT;
    assert s == SBASE + ((q / VCOUNT) * VCOUNT + q % VCOUNT) * TCOUNT;
    SyllableParts(q / VCOUNT, q % VCOUNT, 0);
    SyllableParts(q / VCOUNT, q % VCOUNT, c - TBASE);
  }

  lemma SyllableDecomposes(t: Table, start: Code, code: Code, compat: bool)
    requires ValidTable(t) && (LeadVowel(start, code) || OpenTail(start, code))
    ensures var x := Compose(t, start, code).value;
            Decompose(t, x, compat) == Decompose(t, start, compat) + Decompose(t, code, compat)
            <==> !Swallowed(start, code)
  {
    hide Find, FindPair, DecomposeBelow, NoHangul, OneEntryEach, WellFounded, Syllable;
    JamoIsFixed(t, start, compat);
    JamoIsFixed(t, code, compat);
    if LeadVowel(start, code) {
      LeadVowelSyllable(start, code);
    } else if code != TBASE {
      OpenTailSyllable(start, code);
    }
  }

  lemma PairDecomposes(t: Table, start: Code, code: Code, compat: bool)
    requires ValidTable(t) && FindPair(t.entries, start, code).Some?
    ensures var x := FindPair(t.entries, start, code).value;
            Decompose(t, x, compat) == Decompose(t, start, compat) + Decompose(t, code, compat)
  {
    hide Find, FindPair;
    var x := FindPair(t.entries, start, code).value;
    var i :| 0 <= i < |t.entries| && t.entries[i].codepoint == x && Composes(t.entries[i]) && t.entries[i].decomp == [start, code];
    FindFinds(t.entries, i);
    assert Mapping(t, x, compat) == Some([start, code]);
    assert t.entries[i] in t.entries && !IsSyllable(x);
    BelowPair(t, start, code, compat, t.rank(x));
  }

  lemma BelowPair(t: Table, a: Code, b: Code, compat: bool, bound: nat)
    requires WellFounded(t) && t.rank(a) < bound && t.rank(b) < bound
    ensures DecomposeBelow(t, [a, b], compat, bound) == Decompose(t, a, compat) + Decompose(t, b, compat)
  {
    hide Decompose;
    var m := [a, b];
    assert m[1..] == [b] && m[1..][1..] == [];
    assert DecomposeBelow(t, [b], compat, bound) == Decompose(t, b, compat) + DecomposeBelow(t, [], compat, bound);
  }
}
