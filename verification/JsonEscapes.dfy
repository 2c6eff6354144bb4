/** Escaped strings read back as the characters they were written for. The decoder of section 3 of RFC 3629 and the
    escaper of section 7 of RFC 8259 are defined here on their own; the lexer is that of common/jsonapi.c:674-883. */
module JsonEscapes {
  import opened Common
  import opened JsonNumbers
  import opened JsonStrings

  // ----- RFC 3629 -----

  predicate IsTail(c: char) { 0x80 <= c as int <= 0xBF }

  /** How many octets the first one announces; 0 when it starts no character. */
  function Octets(first: char): nat {
    var b := first as int;
    if b < 0x80 then 1 else if 0xC0 <= b < 0xE0 then 2 else if 0xE0 <= b < 0xF0 then 3 else if 0xF0 <= b < 0xF8 then 4 else 0
  }

  /** The six bits of a tail octet, after those read so far. */
  function Shift6(v: int, c: char): int { 64 * v + (c as int - 0x80) }

  /** The first character of `s` and the number of its octets, in the shortest form only. */
  function ReadOctets(s: string): (r: Option<(int, nat)>)
    ensures r.Some? ==> 0 < r.value.1 <= |s|
  {
    if s == "" then None else
    var b, n := s[0] as int, Octets(s[0]);
    if n == 1 then Some((b, 1))
    else if n == 2 && |s| >= 2 && IsTail(s[1]) then
      InRange(Shift6(b - 0xC0, s[1]), 0x80, 0x800, 2)
    else if n == 3 && |s| >= 3 && IsTail(s[1]) && IsTail(s[2]) then
      InRange(Shift6(Shift6(b - 0xE0, s[1]), s[2]), 0x800, 0x10000, 3)
    else if n == 4 && |s| >= 4 && IsTail(s[1]) && IsTail(s[2]) && IsTail(s[3]) then
      InRange(Shift6(Shift6(Shift6(b - 0xF0, s[1]), s[2]), s[3]), 0x10000, 0x110000, 4)
    else None
  }

  function InRange(v: int, low: int, high: int, n: nat): Option<(int, nat)> {
    if low <= v < high then Some((v, n)) else None
  }

  /** The groups of six bits of a number, put together again. */
  lemma Sixes(ch: nat)
    ensures 64 * (ch / 64) + ch % 64 == ch
    ensures 64 * (64 * (ch / 0x1000) + ch / 64 % 64) + ch % 64 == ch
    ensures 64 * (64 * (64 * (ch / 0x40000) + ch / 0x1000 % 64) + ch / 64 % 64) + ch % 64 == ch
  {
    assert ch / 64 == 64 * (ch / 0x1000) + ch / 64 % 64;
    assert ch / 0x1000 == 64 * (ch / 0x40000) + ch / 0x1000 % 64;
  }

  lemma OneOrTwo(ch: int, rest: string)
    requires 0 <= ch < 0x800
    ensures ReadOctets(Utf8(ch) + rest) == Some((ch, |Utf8(ch)|))
  {
    var t := Utf8(ch) + rest;
    assert t[0] == Utf8(ch)[0];
    if ch >= 0x80 {
      Sixes(ch);
      assert t[1] == Utf8(ch)[1];
    }
  }

  lemma ThreeOctets(ch: int, rest: string)
    requires 0x800 <= ch < 0x10000
    ensures ReadOctets(Utf8(ch) + rest) == Some((ch, |Utf8(ch)|))
  {
    var u, t := Utf8(ch), Utf8(ch) + rest;
    Sixes(ch);
    assert |u| == 3 && t[0] == u[0] && t[1] == u[1] && t[2] == u[2];
  }

  lemma FourOctets(ch: int, rest: string)
    requires 0x10000 <= ch < 0x110000
    ensures ReadOctets(Utf8(ch) + rest) == Some((ch, |Utf8(ch)|))
  {
    var u, t := Utf8(ch), Utf8(ch) + rest;
    Sixes(ch);
    assert |u| == 4 && t[0] == u[0] && t[1] == u[1] && t[2] == u[2] && t[3] == u[3];
  }

  /** unicode_to_utf8 writes what the decoder reads, whatever follows. */
  lemma Utf8Reads(ch: int, rest: string)
    requires 0 <= ch < 0x110000
    ensures ReadOctets(Utf8(ch) + rest) == Some((ch, |Utf8(ch)|))
  {
    hide Utf8, ReadOctets;
    if ch < 0x800 { OneOrTwo(ch, rest); } else if ch < 0x10000 { ThreeOctets(ch, rest); } else { FourOctets(ch, rest); }
  }

  /** The characters of a whole text. */
  function Characters(s: string): Option<seq<int>>
    decreases |s|
  {
    if s == "" then Some([]) else
    var r := ReadOctets(s);
    if r.None? then None else
    var rest := Characters(s[r.value.1..]);
    if rest.None? then None else Some([r.value.0] + rest.value)
  }

  lemma CharactersCons(ch: int, rest: string)
    requires 0 <= ch < 0x110000 && Characters(rest).Some?
    ensures Characters(Utf8(ch) + rest) == Some([ch] + Characters(rest).value)
  {
    hide Utf8, ReadOctets;
    Utf8Reads(ch, rest);
    assert (Utf8(ch) + rest)[|Utf8(ch)|..] == rest;
  }

  // ----- Section 7 of RFC 8259 -----

  /** The ways to write a character: as it is, by a two-character escape, by \u escapes in either case. */
  datatype Form = AsIs | Short | Unicode(upper: bool)

  function HexDigit(v: nat, upper: bool): char
    requires v < 16
  {
    if upper then "0123456789ABCDEF"[v] else "0123456789abcdef"[v]
  }

  function FourDigits(v: nat, upper: bool): string
    requires v < 0x10000
  {
    [HexDigit(v / 0x1000, upper), HexDigit(v / 0x100 % 16, upper), HexDigit(v / 16 % 16, upper), HexDigit(v % 16, upper)]
  }

  lemma DigitReads(v: nat, upper: bool)
    requires v < 16
    ensures IsHex(HexDigit(v, upper)) && HexVal(HexDigit(v, upper)) == v
  {
  }

  /** Four written digits have the value written. */
  lemma FourDigitsRead(v: nat, upper: bool)
    requires v < 0x10000
    ensures All(IsHex, FourDigits(v, upper)) && HexNum(FourDigits(v, upper)) == v
  {
    hide HexDigit, HexVal, IsHex;
    var h := FourDigits(v, upper);
    DigitReads(v / 0x1000, upper);
    DigitReads(v / 0x100 % 16, upper);
    DigitReads(v / 16 % 16, upper);
    DigitReads(v % 16, upper);
    assert h[..3][..2] == h[..2] && h[..2][..1] == h[..1] && h[..1][..0] == "";
    assert HexNum(h[..1]) == v / 0x1000;
    assert HexNum(h[..2]) == 16 * HexNum(h[..1]) + v / 0x100 % 16 == v / 0x100;
    assert HexNum(h[..3]) == 16 * HexNum(h[..2]) + v / 16 % 16 == v / 16;
  }

  /** The two halves of a character outside the basic plane: ten bits each. */
  function HighHalf(ch: int): int
    requires 0x10000 <= ch < 0x110000
  {
    0xD800 + (ch - 0x10000) / 0x400
  }

  function LowHalf(ch: int): int
    requires 0x10000 <= ch < 0x110000
  {
    0xDC00 + (ch - 0x10000) % 0x400
  }

  lemma PairOfHalves(ch: int)
    requires 0x10000 <= ch < 0x110000
    ensures IsHighSurrogate(HighHalf(ch)) && IsLowSurrogate(LowHalf(ch)) && Pair(HighHalf(ch), LowHalf(ch)) == ch
  {
  }

  lemma HalvesOfPair(first: int, second: int)
    requires IsHighSurrogate(first) && IsLowSurrogate(second)
    ensures HighHalf(Pair(first, second)) == first && LowHalf(Pair(first, second)) == second
  {
  }

  /** The letter after the backslash. */
  function ShortLetter(ch: int): Option<char> {
    if ch == 0x22 then Some('"') else if ch == 0x5C then Some('\\') else if ch == 0x2F then Some('/')
    else if ch == 0x08 then Some('b') else if ch == 0x0C then Some('f') else if ch == 0x0A then Some('n')
    else if ch == 0x0D then Some('r') else if ch == 0x09 then Some('t') else None
  }

  /** The short escapes are exactly the ones the lexer undoes. */
  lemma ShortIff(ch: int, c: char)
    requires 0 <= ch < 128
    ensures ShortLetter(ch) == Some(c) <==> Unescape(c) == Some(ch as char)
  {
  }

  /** A Unicode character other than NUL, with a form that can write it. */
  predicate Writable(ch: int, form: Form) {
    && 0 < ch < 0x110000 && !IsHighSurrogate(ch) && !IsLowSurrogate(ch)
    && (form.Short? ==> ShortLetter(ch).Some?)
    && (form.AsIs? ==> ch >= 0x20 && ch != 0x22 && ch != 0x5C)
  }

  function Written(ch: int, form: Form): string
    requires Writable(ch, form)
  {
    match form
    case AsIs => Utf8(ch)
    case Short => ['\\', ShortLetter(ch).value]
    case Unicode(upper) =>
      if ch < 0x10000 then "\\u" + FourDigits(ch, upper)
      else "\\u" + FourDigits(HighHalf(ch), upper) + "\\u" + FourDigits(LowHalf(ch), upper)
  }

  // ----- Reading back -----

  function Raws(s: string): (xs: seq<Piece>)
    ensures |xs| == |s| && forall i :: 0 <= i < |s| ==> xs[i] == Raw(s[i])
  {
    seq(|s|, i requires 0 <= i < |s| => Raw(s[i]))
  }

  function Pieces(ch: int, form: Form): seq<Piece>
    requires Writable(ch, form)
  {
    match form
    case AsIs => Raws(Utf8(ch))
    case Short => [Esc(ShortLetter(ch).value)]
    case Unicode(upper) =>
      if ch < 0x10000 then [Uni(FourDigits(ch, upper))]
      else [Uni(FourDigits(HighHalf(ch), upper)), Uni(FourDigits(LowHalf(ch), upper))]
  }

  lemma {:induction false} TextAppend(xs: seq<Piece>, ys: seq<Piece>)
    ensures Text(xs + ys) == Text(xs) + Text(ys)
    decreases |xs|
  {
    if xs == [] {
      assert [] + ys == ys;
    } else {
      TextAppend(xs[1..], ys);
      assert (xs + ys)[1..] == xs[1..] + ys;
    }
  }

  lemma {:induction false} RawText(s: string)
    ensures Text(Raws(s)) == s
    decreases |s|
  {
    if s != "" {
      RawText(s[1..]);
      assert Raws(s)[1..] == Raws(s[1..]);
      assert s == [s[0]] + s[1..];
    }
  }

  lemma PiecesText(ch: int, form: Form)
    requires Writable(ch, form)
    ensures Text(Pieces(ch, form)) == Written(ch, form)
  {
    hide Utf8, FourDigits;
    var xs := Pieces(ch, form);
    match form
    case AsIs => RawText(Utf8(ch));
    case Short => assert xs[1..] == [];
    case Unicode(upper) =>
      assert xs[1..] == [] || (|xs| == 2 && xs[1..][1..] == []);
      if ch >= 0x10000 { assert Text(xs[1..]) == PieceText(xs[1]) + ""; }
  }

  lemma PlainBytes(ch: int, i: nat)
    requires Writable(ch, AsIs) && i < |Utf8(ch)|
    ensures IsPiece(Raw(Utf8(ch)[i]))
  {
  }

  lemma PiecesArePieces(ch: int, form: Form)
    requires Writable(ch, form)
    ensures ArePieces(Pieces(ch, form))
  {
    hide Utf8, FourDigits, IsHex;
    match form
    case AsIs =>
      forall i | 0 <= i < |Utf8(ch)|
        ensures IsPiece(Raws(Utf8(ch))[i])
      {
        PlainBytes(ch, i);
      }
    case Short =>
    case Unicode(upper) =>
      FourLong(upper);
      if ch < 0x10000 { FourDigitsRead(ch, upper); } else {
        FourDigitsRead(HighHalf(ch), upper);
        FourDigitsRead(LowHalf(ch), upper);
      }
  }

  lemma FourLong(upper: bool)
    ensures forall v: nat :: v < 0x10000 ==> |FourDigits(v, upper)| == 4
  {
  }

  lemma {:induction false} RawMeaning(s: string, ys: seq<Piece>)
    requires ArePieces(Raws(s)) && ArePieces(ys)
    ensures ArePieces(Raws(s) + ys) && Meaning(true, Raws(s) + ys) == Prefix(s, Meaning(true, ys))
    decreases |s|
  {
    hide IsPiece;
    var xs := Raws(s) + ys;
    if s == "" {
      assert xs == ys;
      PrefixNothing(Meaning(true, ys));
    } else {
      assert Raws(s)[1..] == Raws(s[1..]);
      assert xs[1..] == Raws(s[1..]) + ys;
      RawMeaning(s[1..], ys);
      assert [s[0]] + s[1..] == s;
      PrefixTwice([s[0]], s[1..], Meaning(true, ys));
    }
  }

  /** What one written character adds to the value of the string. */
  lemma WrittenMeaning(ch: int, form: Form, ys: seq<Piece>)
    requires Writable(ch, form) && ArePieces(ys)
    ensures var xs := Pieces(ch, form) + ys;
            ArePieces(xs) && Meaning(true, xs) == Prefix(Utf8(ch), Meaning(true, ys))
  {
    hide IsPiece, HexNum, FourDigits, HighHalf, LowHalf;
    PiecesArePieces(ch, form);
    var xs := Pieces(ch, form) + ys;
    match form
    case AsIs => RawMeaning(Utf8(ch), ys);
    case Short =>
      ShortIff(ch, ShortLetter(ch).value);
      assert xs[1..] == ys;
    case Unicode(upper) =>
      if ch < 0x10000 {
        FourDigitsRead(ch, upper);
        assert xs[1..] == ys;
      } else {
        PairOfHalves(ch);
        FourDigitsRead(HighHalf(ch), upper);
        FourDigitsRead(LowHalf(ch), upper);
        assert xs[2..] == ys;
      }
  }

  predicate AllWritable(cs: seq<(int, Form)>) { forall i :: 0 <= i < |cs| ==> Writable(cs[i].0, cs[i].1) }

  function WrittenAll(cs: seq<(int, Form)>): string
    requires AllWritable(cs)
  {
    if cs == [] then "" else Written(cs[0].0, cs[0].1) + WrittenAll(cs[1..])
  }

  function Values(cs: seq<(int, Form)>): (vs: seq<int>)
    ensures |vs| == |cs| && forall i :: 0 <= i < |cs| ==> vs[i] == cs[i].0
  {
    seq(|cs|, i requires 0 <= i < |cs| => cs[i].0)
  }

  lemma {:induction false} AllMeaning(cs: seq<(int, Form)>) returns (xs: seq<Piece>)
    requires AllWritable(cs)
    ensures ArePieces(xs) && Text(xs) == WrittenAll(cs)
    ensures Meaning(true, xs).Some? && Characters(Meaning(true, xs).value) == Some(Values(cs))
    decreases |cs|
  {
    hide Written, Writable, Pieces, Utf8, ReadOctets, IsPiece;
    if cs == [] {
      xs := [];
    } else {
      var ch, form := cs[0].0, cs[0].1;
      var rest := AllMeaning(cs[1..]);
      xs := Pieces(ch, form) + rest;
      PiecesText(ch, form);
      TextAppend(Pieces(ch, form), rest);
      WrittenMeaning(ch, form, rest);
      InUnicode(ch, form);
      CharactersCons(ch, Meaning(true, rest).value);
      assert Values(cs) == [ch] + Values(cs[1..]);
    }
  }

  lemma InUnicode(ch: int, form: Form)
    requires Writable(ch, form)
    ensures 0 < ch < 0x110000
  {
  }

  /** Any characters but NUL, each written in any form that can write it, lex to UTF-8 that decodes to those characters. */
  lemma StringReadsBack(s: string, q: nat, cs: seq<(int, Form)>)
    requires AllWritable(cs)
    requires var e := q + |WrittenAll(cs)| + 1; e <= |s| && s[q..e] == WrittenAll(cs) + "\""
    ensures var r := StringFrom(s, q, DeEscape(true), NO_SURROGATE, "");
            && r.StringOk? && r.end == q + |WrittenAll(cs)| + 1
            && Characters(r.val) == Some(Values(cs))
  {
    hide StringFrom, Text, Meaning, Characters, ArePieces, WrittenAll;
    var xs := AllMeaning(cs);
    StringIff(s, q, q + |WrittenAll(cs)| + 1, DeEscape(true), Meaning(true, xs).value);
  }

  // ----- Errors -----

  /** A \u escape that cannot stand where it does, after surrogate `hi` if there is one. */
  lemma EscapeErrors(s: string, q: nat, utf8: bool, hi: int, out: string, v: nat, upper: bool)
    requires Pending(hi) && v < 0x10000 && q + 6 <= |s| && s[q..q + 6] == "\\u" + FourDigits(v, upper)
    ensures var r, high, low := StringFrom(s, q, DeEscape(utf8), hi, out), 0xD800 <= v < 0xDC00, 0xDC00 <= v < 0xE000;
            && (high && hi != NO_SURROGATE ==> r == StringErr(UnicodeHighSurrogate))
            && (low && hi == NO_SURROGATE ==> r == StringErr(UnicodeLowSurrogate))
            && (!high && !low && hi != NO_SURROGATE ==> r == StringErr(UnicodeLowSurrogate))
            && (v == 0 && hi == NO_SURROGATE ==> r == StringErr(UnicodeCodePointZero))
            && (!utf8 && low && hi != NO_SURROGATE ==> r == StringErr(UnicodeHighEscape))
            && (!utf8 && v > 0x7F && !high && !low && hi == NO_SURROGATE ==> r == StringErr(UnicodeHighEscape))
  {
    hide FourDigits, HexNum, StringFrom, IsHex;
    var x := Uni(FourDigits(v, upper));
    FourDigitsRead(v, upper);
    FourLong(upper);
    ScanFindsPiece(s, q, x, q + 6);
    StringStep(s, q, DeEscape(utf8), hi, out);
  }

  /** A text that ends too early, a control character, an unknown escape, a surrogate that is not completed. */
  lemma ScanErrors(s: string, q: nat, mode: Mode, hi: int, out: string)
    requires q <= |s| && Pending(hi)
    ensures var r := StringFrom(s, q, mode, hi, out);
            && (q == |s| ==> r == StringErr(InvalidToken))
            && (q < |s| && s[q] as int < 0x20 ==> r == StringErr(EscapingRequired))
            && (q < |s| && s[q] == '"' && hi != NO_SURROGATE ==> r == StringErr(UnicodeLowSurrogate))
            && (q + 1 == |s| && s[q] == '\\' ==> r == StringErr(InvalidToken))
            && (q + 1 < |s| && s[q] == '\\' && s[q + 1] as int != 0 && hi == NO_SURROGATE && s[q + 1] !in "\"\\/bfnrtu" ==>
                  r == StringErr(EscapingInvalid))
            && (q + 2 < |s| && s[q] == '\\' && s[q + 1] == 'u' && !IsHex(s[q + 2]) ==> r == StringErr(UnicodeEscapeFormat))
  {
    hide StringFrom, HexNum;
    StringStep(s, q, mode, hi, out);
  }
}
