/**
  appendStringLiteralDQ (fe_utils/string_utils.c:321-362): quoting a string with a dollar-quote delimiter that it
  does not contain, and reading the literal back.
*/
module DollarQuote {
  import opened Common

  // ----- Searching -----

  predicate OccursAt(s: string, t: string, i: nat) {
    i + |t| <= |s| && s[i..i + |t|] == t
  }

  ghost predicate Contains(s: string, t: string) {
    exists i :: 0 <= i <= |s| && OccursAt(s, t, i)
  }

  /** strstr: the first occurrence, if there is one. */
  method StrStr(s: string, t: string) returns (r: Option<nat>)
    ensures r.None? <==> !Contains(s, t)
    ensures r.Some? ==> OccursAt(s, t, r.value) && forall i :: 0 <= i < r.value ==> !OccursAt(s, t, i)
  {
    for i := 0 to |s| + 1
      invariant forall j :: 0 <= j < i ==> !OccursAt(s, t, j)
    {
      if OccursAt(s, t, i) {
        return Some(i);
      }
    }
    return None;
  }

  // ----- Reading a dollar-quoted literal -----

  /** The position of the first occurrence of t in s, or the length of s. */
  function First(s: string, t: string, i: nat): (r: nat)
    requires i <= |s|
    ensures i <= r <= |s| && (forall j :: i <= j < r ==> !OccursAt(s, t, j)) && (r < |s| ==> OccursAt(s, t, r))
    decreases |s| - i
  {
    if i == |s| || OccursAt(s, t, i) then i else First(s, t, i + 1)
  }

  /** What a scanner makes of a text that starts with a dollar quote: the delimiter runs to the second '$', and the
      string to the first occurrence of the delimiter after that. The second part is what follows the literal. */
  function Read(text: string): Option<(string, string)> {
    if text == [] || text[0] != '$' then None
    else
      var tag := First(text, "$", 1);
      if tag == |text| then None
      else
        var delim, body := text[..tag + 1], text[tag + 1..];
        var close := First(body, delim, 0);
        if close == |body| then None else Some((body[..close], body[close + |delim|..]))
  }

  // ----- The delimiter -----

  const SUFFIXES := "_XXXXXXX"

  /** The suffix characters, over and over again. */
  function Suffix(n: nat): string {
    if n == 0 then [] else Suffix(n - 1) + [SUFFIXES[(n - 1) % |SUFFIXES|]]
  }

  lemma {:induction false} SuffixFacts(n: nat)
    ensures |Suffix(n)| == n && '$' !in Suffix(n)
  {
    if n > 0 { SuffixFacts(n - 1); }
  }

  /** An underscore, seven times X, and so on. */
  lemma {:induction false} SuffixAt(n: nat, i: nat)
    requires i < n
    ensures |Suffix(n)| == n && Suffix(n)[i] == if i % 8 == 0 then '_' else 'X'
  {
    SuffixFacts(n - 1);
    if i < n - 1 { SuffixAt(n - 1, i); }
  }

  class Buffer {
    var data: string

    constructor ()
      ensures data == ""
    {
      data := "";
    }

    method AppendChar(c: char)
      modifies this
      ensures data == old(data) + [c]
    {
      data := data + [c];
    }

    method AppendStr(s: string)
      modifies this
      ensures data == old(data) + s
    {
      data := data + s;
    }
  }

  ghost function Opening(prefix: Option<string>): string {
    "$" + if prefix.Some? then prefix.value else ""
  }

  /** The search: `opening` and the first n suffix characters, for the least n that makes a text not in the string. */
  ghost predicate Chosen(str: string, opening: string, n: nat) {
    && !Contains(str, opening + Suffix(n))
    && forall m :: 0 <= m < n ==> Contains(str, opening + Suffix(m))
  }

  method Choose(delimBuf: Buffer, str: string) returns (ghost n: nat)
    modifies delimBuf
    ensures Chosen(str, old(delimBuf.data), n) && delimBuf.data == old(delimBuf.data) + Suffix(n)
  {
    hide Contains, Suffix, OccursAt;
    ghost var opening := delimBuf.data;
    var nextchar := 0;
    n := 0;
    SuffixStep(opening, 0);
    var found := StrStr(str, delimBuf.data);
    while found.Some?
      invariant delimBuf.data == opening + Suffix(n) && nextchar == n % |SUFFIXES|
      invariant found.None? <==> !Contains(str, delimBuf.data)
      invariant forall m :: 0 <= m < n ==> Contains(str, opening + Suffix(m))
      decreases |str| + 1 - n
    {
      FitsIn(str, opening, n);
      SuffixStep(opening, n);
      delimBuf.AppendChar(SUFFIXES[nextchar]);
      nextchar := nextchar + 1;
      nextchar := nextchar % |SUFFIXES|;
      n := n + 1;
      found := StrStr(str, delimBuf.data);
    }
  }

  lemma SuffixStep(opening: string, n: nat)
    ensures opening + Suffix(n + 1) == opening + Suffix(n) + [SUFFIXES[n % |SUFFIXES|]]
    ensures opening + Suffix(0) == opening
  {
  }

  /** The string between two copies of the chosen delimiter is appended to the caller's buffer. */
  method AppendStringLiteralDQ(buf: Buffer, str: string, prefix: Option<string>) returns (ghost n: nat)
    modifies buf
    ensures Chosen(str, Opening(prefix), n)
    ensures var delim := Opening(prefix) + Suffix(n) + "$"; buf.data == old(buf.data) + delim + str + delim
  {
    hide Chosen, Suffix;
    var delimBuf := new Buffer();
    delimBuf.AppendChar('$');
    if prefix.Some? {
      delimBuf.AppendStr(prefix.value);
    }
    assert delimBuf.data == Opening(prefix);
    n := Choose(delimBuf, str);
    delimBuf.AppendChar('$');
    buf.AppendStr(delimBuf.data);
    buf.AppendStr(str);
    buf.AppendStr(delimBuf.data);
  }

  lemma FitsIn(str: string, opening: string, n: nat)
    requires Contains(str, opening + Suffix(n))
    ensures n <= |str|
  {
    SuffixFacts(n);
  }

  // ----- Reading back -----

  /** A tail of the string and the head of the closing delimiter together spell the delimiter too early. */
  ghost predicate Overlap(str: string, delim: string, j: nat) {
    0 < j < |delim| && j <= |str| && str[|str| - j..] == delim[..j] && delim[j..] <= delim
  }

  lemma InsideOccurs(str: string, d: string, rest: string, i: nat)
    requires i + |d| <= |str| && OccursAt(str + (d + "$") + rest, d + "$", i)
    ensures OccursAt(str, d, i)
  {
    var all, n := str + (d + "$") + rest, |d| + 1;
    forall k | 0 <= k < |d|
      ensures str[i..i + |d|][k] == d[k]
    {
      assert all[i..i + n][k] == all[i + k] == str[i + k];
      assert (d + "$")[k] == d[k];
    }
  }

  lemma EarlyIsOverlap(str: string, d: string, rest: string, i: nat)
    requires !Contains(str, d) && d != "" && i < |str| && OccursAt(str + (d + "$") + rest, d + "$", i)
    ensures Overlap(str, d + "$", |str| - i)
  {
    var delim := d + "$";
    var all, j := str + delim + rest, |str| - i;
    assert all[i..i + |delim|] == delim;
    if j >= |d| { InsideOccurs(str, d, rest, i); }
    assert j < |d|;
    assert all[i..|str|] == str[i..] && all[|str|..i + |delim|] == delim[..|delim| - j];
    assert delim[..j] == all[i..i + |delim|][..j] == all[i..|str|];
    assert delim[j..] == all[i..i + |delim|][j..] == all[|str|..i + |delim|];
  }

  lemma OverlapIsEarly(str: string, d: string, rest: string, j: nat)
    requires Overlap(str, d + "$", j)
    ensures OccursAt(str + (d + "$") + rest, d + "$", |str| - j)
  {
    var delim := d + "$";
    var all, i := str + delim + rest, |str| - j;
    assert all[i..i + |delim|] == str[i..] + delim[..|delim| - j];
    assert delim[j..] == delim[..|delim| - j];
    assert delim == delim[..j] + delim[j..];
  }

  /** For every string and delimiter that the search may choose, the closing delimiter is first found exactly at the
      end of the string, if and only if the two do not overlap. */
  lemma FirstIsEndIff(str: string, d: string, rest: string)
    requires !Contains(str, d) && d != ""
    ensures First(str + (d + "$") + rest, d + "$", 0) == |str| <==> forall j :: 0 < j <= |str| ==> !Overlap(str, d + "$", j)
  {
    hide Overlap, OccursAt, Contains;
    var delim := d + "$";
    var all := str + delim + rest;
    var r := First(all, delim, 0);
    AtEnd(str, delim, rest);
    if r < |str| { EarlyIsOverlap(str, d, rest, r); }
    if r == |str| {
      forall j | 0 < j <= |str|
        ensures !Overlap(str, delim, j)
      {
        if Overlap(str, delim, j) { OverlapIsEarly(str, d, rest, j); }
      }
    }
  }

  lemma AtEnd(str: string, delim: string, rest: string)
    ensures OccursAt(str + delim + rest, delim, |str|)
  {
    assert (str + delim + rest)[|str|..|str| + |delim|] == delim;
  }

  lemma ShortOverlap(str: string, d: string, j: nat)
    requires Overlap(str, d + "$", j) && j < |d| && d[0] == '$'
    ensures '$' in d[1..]
  {
    var delim := d + "$";
    assert delim[j] == delim[j..][0] == delim[0];
    assert delim[j] == d[1..][j - 1];
  }

  lemma LongOverlap(str: string, d: string, j: nat)
    requires Overlap(str, d + "$", j) && j >= |d|
    ensures Contains(str, d)
  {
    assert (d + "$")[..j] == d;
    assert OccursAt(str, d, |str| - j);
  }

  /** A delimiter with '$' only at its two ends overlaps no string. */
  lemma PlainDoesNotOverlap(str: string, d: string, j: nat)
    requires d != "" && d[0] == '$' && '$' !in d[1..] && !Contains(str, d)
    ensures !Overlap(str, d + "$", j)
  {
    hide Overlap, Contains;
    if Overlap(str, d + "$", j) {
      if j < |d| { ShortOverlap(str, d, j); } else { LongOverlap(str, d, j); }
    }
  }

  lemma Laid(d: string, str: string, rest: string)
    ensures var delim := d + "$";
            var text, body := delim + str + delim + rest, str + delim + rest;
            && text[..|delim|] == delim && text[|delim|..] == body && text[|d|] == '$'
            && (forall j :: 0 <= j < |d| ==> text[j] == d[j])
            && body[..|str|] == str && body[|str| + |delim|..] == rest
  {
  }

  lemma ReadsBack(d: string, str: string, rest: string)
    requires d != "" && d[0] == '$' && '$' !in d[1..] && !Contains(str, d)
    ensures var delim := d + "$"; Read(delim + str + delim + rest) == Some((str, rest))
  {
    hide Contains, Overlap, OccursAt;
    var delim := d + "$";
    var text := delim + str + delim + rest;
    Laid(d, str, rest);
    assert forall j :: 0 < j < |d| ==> d[j] == d[1..][j - 1];
    TagEnds(text, |d|);
    forall j | 0 < j <= |str|
      ensures !Overlap(str, delim, j)
    {
      PlainDoesNotOverlap(str, d, j);
    }
    FirstIsEndIff(str, d, rest);
  }

  /** With '$' inside the delimiter the reader's delimiter is shorter, so the lengths cannot match. */
  lemma ReadsWrong(d: string, str: string, rest: string, i: nat)
    requires 0 < i < |d| && d[0] == '$' && d[i] == '$'
    ensures var delim := d + "$"; Read(delim + str + delim + rest) != Some((str, rest))
  {
    hide OccursAt;
    var delim := d + "$";
    var text := delim + str + delim + rest;
    Laid(d, str, rest);
    TagAt(text, i);
    assert First(text, "$", 1) <= i < |d|;
  }

  lemma TagAt(text: string, i: nat)
    requires 0 < i < |text| && text[i] == '$'
    ensures OccursAt(text, "$", i)
  {
    assert text[i..i + 1] == [text[i]];
  }

  ghost predicate NoDollar(prefix: Option<string>) { prefix.None? || '$' !in prefix.value }

  /** For every string and every prefix, the literal reads back as the string, whatever follows it, if and only if
      there is no '$' in the prefix. */
  lemma LiteralReadsBack(str: string, prefix: Option<string>, n: nat, rest: string)
    requires Chosen(str, Opening(prefix), n)
    ensures var delim := Opening(prefix) + Suffix(n) + "$";
            Read(delim + str + delim + rest) == Some((str, rest)) <==> NoDollar(prefix)
  {
    hide Contains, Suffix, Read;
    SuffixFacts(n);
    var d := Opening(prefix) + Suffix(n);
    if NoDollar(prefix) {
      ReadsBack(d, str, rest);
    } else {
      var i :| 0 <= i < |prefix.value| && prefix.value[i] == '$';
      ReadsWrong(d, str, rest, i + 1);
    }
  }

  lemma TagEnds(text: string, n: nat)
    requires 0 < n < |text| && text[n] == '$' && forall j :: 0 < j < n ==> text[j] != '$'
    ensures First(text, "$", 1) == n
  {
    forall j | 0 < j <= n
      ensures OccursAt(text, "$", j) <==> text[j] == '$'
    {
      assert text[j..j + 1] == [text[j]];
    }
  }

  /** A string that reads back as the empty string because of the '$' in the prefix. */
  lemma DollarInPrefix()
    ensures Chosen("$", Opening(Some("$")), 0)
    ensures var delim := Opening(Some("$")) + Suffix(0) + "$"; Read(delim + "$" + delim) == Some(("", "$$$"))
  {
    var delim := Opening(Some("$")) + Suffix(0) + "$";
    assert delim == "$$$" && Opening(Some("$")) + Suffix(0) == "$$";
    var text := "$$$$$$$";
    assert delim + "$" + delim == text;
    TagAt(text, 1);
    assert text[2..] == "$$$$$" && text[..2] == "$$";
    assert OccursAt("$$$$$", "$$", 0);
    assert "$$$$$"[..0] == "" && "$$$$$"[2..] == "$$$";
  }
}
