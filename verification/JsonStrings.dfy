/** JSON strings (common/jsonapi.c:674-883) as the frontend builds the lexer: the scan with and without
    de-escaping, and the grammar and meaning of section 7 of RFC 8259. */
module JsonStrings {
  import opened Common
  import opened JsonNumbers

  datatype Error =
    | InvalidToken | EscapingInvalid | EscapingRequired
    | ExpectedArrayFirst | ExpectedArrayNext | ExpectedColon | ExpectedEnd | ExpectedJson | ExpectedMore
    | ExpectedObjectFirst | ExpectedObjectNext | ExpectedString
    | UnicodeCodePointZero | UnicodeEscapeFormat | UnicodeHighEscape | UnicodeHighSurrogate | UnicodeLowSurrogate

  /** Without a string buffer the lexer only checks strings; with one it also de-escapes them. */
  datatype Mode = Plain | DeEscape(utf8: bool)

  predicate IsHex(c: char) { IsDigit(c) || 'a' <= c <= 'f' || 'A' <= c <= 'F' }

  // ----- Scanning -----

  /** One element between the quotes: a plain character, a two-character escape, or \u and four digits. */
  datatype Piece = Raw(c: char) | Esc(c: char) | Uni(hex: string)

  ghost predicate IsPiece(x: Piece) {
    match x
    case Raw(c) => c != '"' && c != '\\' && c as int >= 32
    case Esc(c) => c != 'u'
    case Uni(h) => |h| == 4 && All(IsHex, h)
  }

  ghost function PieceText(x: Piece): (t: string)
    ensures t != ""
  {
    match x
    case Raw(c) => [c]
    case Esc(c) => ['\\', c]
    case Uni(h) => ['\\', 'u'] + h
  }

  datatype Scan = Quote | Got(piece: Piece, next: nat) | Stop(error: Error)

  /** How many of the next characters are hexadecimal digits, looking at most at `n`. */
  ghost function HexRun(s: string, p: nat, n: nat): (k: nat)
    requires p <= |s|
    ensures k <= n && p + k <= |s|
    decreases n
  {
    if n > 0 && p < |s| && IsHex(s[p]) then 1 + HexRun(s, p + 1, n - 1) else 0
  }

  /** What stands at `q` inside a string. */
  ghost function ScanAt(s: string, q: nat): (r: Scan)
    requires q <= |s|
    ensures r.Got? ==> q < r.next <= |s|
    ensures r.Quote? ==> q < |s|
  {
    if q == |s| then Stop(InvalidToken)
    else if s[q] == '"' then Quote
    else if s[q] as int < 32 then Stop(EscapingRequired)
    else if s[q] != '\\' then Got(Raw(s[q]), q + 1)
    else if q + 1 == |s| then Stop(InvalidToken)
    else if s[q + 1] != 'u' then Got(Esc(s[q + 1]), q + 2)
    else
      var k := HexRun(s, q + 2, 4);
      if k == 4 then Got(Uni(s[q + 2..q + 6]), q + 6)
      else if q + 2 + k == |s| then Stop(InvalidToken)
      else Stop(UnicodeEscapeFormat)
  }

  lemma {:induction false} HexRunIs(s: string, p: nat, n: nat)
    requires p <= |s|
    ensures HexRun(s, p, n) == n <==> p + n <= |s| && All(IsHex, s[p..p + n])
    decreases n
  {
    if n > 0 && p < |s| {
      HexRunIs(s, p + 1, n - 1);
      if p + n <= |s| {
        assert s[p..p + n] == [s[p]] + s[p + 1..p + n];
        assert s[p + 1..p + 1 + (n - 1)] == s[p + 1..p + n];
      }
    }
  }

  /** Scanning finds a piece exactly when the piece's text stands there. */
  lemma ScanFindsPiece(s: string, q: nat, x: Piece, next: nat)
    requires q <= |s|
    ensures ScanAt(s, q) == Got(x, next) <==> q < next <= |s| && IsPiece(x) && s[q..next] == PieceText(x)
  {
    if q + 2 <= |s| { HexRunIs(s, q + 2, 4); }
    if ScanAt(s, q) == Got(x, next) {
      assert s[q..next] == PieceText(x);
    }
    if q < next <= |s| && IsPiece(x) && s[q..next] == PieceText(x) {
      var t := PieceText(x);
      assert s[q] == t[0];
      if !x.Raw? { assert s[q + 1] == t[1]; }
      if x.Uni? { assert s[q + 2..q + 6] == t[2..] == x.hex; }
    }
  }

  function HexVal(c: char): (v: int)
    requires IsHex(c)
    ensures 0 <= v < 16
  {
    if IsDigit(c) then c as int - '0' as int
    else if 'a' <= c <= 'f' then c as int - 'a' as int + 10
    else c as int - 'A' as int + 10
  }

  ghost function HexNum(h: string): (v: nat)
    requires All(IsHex, h)
  {
    if h == "" then 0 else 16 * HexNum(h[..|h| - 1]) + HexVal(h[|h| - 1])
  }

  predicate IsHighSurrogate(ch: int) { 0xD800 <= ch <= 0xDBFF }
  predicate IsLowSurrogate(ch: int) { 0xDC00 <= ch <= 0xDFFF }

  /** surrogate_pair_to_codepoint */
  function Pair(first: int, second: int): (ch: int)
    requires IsHighSurrogate(first) && IsLowSurrogate(second)
    ensures 0x10000 <= ch < 0x110000
  {
    first % 0x400 * 0x400 + 0x10000 + second % 0x400
  }

  /** unicode_to_utf8 */
  function Utf8(ch: int): string
    requires 0 <= ch < 0x110000
  {
    if ch <= 0x7F then [ch as char]
    else if ch <= 0x7FF then [(0xC0 + ch / 0x40) as char, (0x80 + ch % 0x40) as char]
    else if ch <= 0xFFFF then [(0xE0 + ch / 0x1000) as char, (0x80 + ch / 0x40 % 0x40) as char, (0x80 + ch % 0x40) as char]
    else [(0xF0 + ch / 0x40000) as char, (0x80 + ch / 0x1000 % 0x40) as char, (0x80 + ch / 0x40 % 0x40) as char, (0x80 + ch % 0x40) as char]
  }

  /** The character a two-character escape stands for. */
  function Unescape(c: char): Option<char> {
    match c
    case '"' => Some('"')
    case '\\' => Some('\\')
    case '/' => Some('/')
    case 'b' => Some(8 as char)
    case 'f' => Some(12 as char)
    case 'n' => Some('\n')
    case 'r' => Some('\r')
    case 't' => Some('\t')
    case _ => None
  }

  const NO_SURROGATE := -1

  datatype Taken = Took(hi: int, out: string) | Refused(error: Error)

  /** Lines 797-813: append a code point. */
  function Emit(utf8: bool, ch: int): Taken
    requires 0 <= ch < 0x110000
  {
    if utf8 then Took(NO_SURROGATE, Utf8(ch))
    else if ch <= 0x7f then Took(NO_SURROGATE, [ch as char])
    else Refused(UnicodeHighEscape)
  }

  /** Lines 745-776: a \u escape with value `ch`, after high surrogate `hi` if that is not NO_SURROGATE. */
  function TakeUnicode(utf8: bool, hi: int, ch: int): Taken
    requires (hi == NO_SURROGATE || IsHighSurrogate(hi)) && 0 <= ch < 0x10000
  {
    if IsHighSurrogate(ch) then
      if hi != NO_SURROGATE then Refused(UnicodeHighSurrogate) else Took(ch, "")
    else if IsLowSurrogate(ch) then
      if hi == NO_SURROGATE then Refused(UnicodeLowSurrogate) else Emit(utf8, Pair(hi, ch))
    else if hi != NO_SURROGATE then Refused(UnicodeLowSurrogate)
    else if ch == 0 then Refused(UnicodeCodePointZero)
    else Emit(utf8, ch)
  }

  /** Lines 817-863. The plain check uses strchr, which also finds the terminating NUL. */
  function TakeEscape(mode: Mode, hi: int, c: char): Taken {
    if mode.Plain? then
      if Unescape(c).Some? || c as int == 0 then Took(hi, "") else Refused(EscapingInvalid)
    else if hi != NO_SURROGATE then Refused(UnicodeLowSurrogate)
    else if Unescape(c).Some? then Took(hi, [Unescape(c).value])
    else Refused(EscapingInvalid)
  }

  function TakeRaw(mode: Mode, hi: int, c: char): Taken {
    if mode.Plain? then Took(hi, "")
    else if hi != NO_SURROGATE then Refused(UnicodeLowSurrogate)
    else Took(hi, [c])
  }

  ghost predicate Pending(hi: int) { hi == NO_SURROGATE || IsHighSurrogate(hi) }

  lemma {:induction false} HexBound(h: string)
    requires All(IsHex, h)
    ensures |h| == 4 ==> HexNum(h) < 0x10000
  {
    if |h| == 4 {
      assert h[..3][..2] == h[..2] && h[..2][..1] == h[..1] && h[..1][..0] == "";
      assert HexNum(h[..1]) == 16 * HexNum(h[..1][..0]) + HexVal(h[0]);
      assert HexNum(h[..2]) == 16 * HexNum(h[..2][..1]) + HexVal(h[1]);
      assert HexNum(h[..3]) == 16 * HexNum(h[..3][..2]) + HexVal(h[2]);
    }
  }

  /** One piece, with the surrogate that may be waiting for its partner. */
  ghost function Take(mode: Mode, hi: int, x: Piece): (r: Taken)
    requires Pending(hi) && IsPiece(x)
    ensures r.Took? ==> Pending(r.hi)
  {
    match x
    case Raw(c) => TakeRaw(mode, hi, c)
    case Esc(c) => TakeEscape(mode, hi, c)
    case Uni(h) => HexBound(h); if mode.Plain? then Took(hi, "") else TakeUnicode(mode.utf8, hi, HexNum(h))
  }

  datatype StringResult = StringOk(val: string, end: nat) | StringErr(error: Error)

  /** json_lex_string from the character after the opening quote. */
  ghost function StringFrom(s: string, q: nat, mode: Mode, hi: int, out: string): (r: StringResult)
    requires q <= |s| && Pending(hi)
    ensures r.StringOk? ==> q < r.end <= |s|
    decreases |s| - q
  {
    match ScanAt(s, q)
    case Stop(e) => StringErr(e)
    case Quote => if hi != NO_SURROGATE then StringErr(UnicodeLowSurrogate) else StringOk(out, q + 1)
    case Got(x, next) =>
      ScanFindsPiece(s, q, x, next);
      match Take(mode, hi, x)
      case Refused(e) => StringErr(e)
      case Took(hi', o) => StringFrom(s, next, mode, hi', out + o)
  }

  // ----- What the strings of the grammar mean -----

  ghost predicate ArePieces(xs: seq<Piece>) { forall i :: 0 <= i < |xs| ==> IsPiece(xs[i]) }

  ghost function Text(xs: seq<Piece>): string {
    if xs == [] then "" else PieceText(xs[0]) + Text(xs[1..])
  }

  ghost function Prefix(a: string, r: Option<string>): Option<string> {
    if r.Some? then Some(a + r.value) else None
  }

  ghost function Encoded(utf8: bool, ch: int): Option<string>
    requires 0 <= ch < 0x110000
  {
    if utf8 then Some(Utf8(ch)) else if ch <= 0x7f then Some([ch as char]) else None
  }

  ghost function Join(a: Option<string>, b: Option<string>): Option<string> {
    if a.Some? then Prefix(a.value, b) else None
  }

  ghost function Code(x: Piece): (v: int)
    requires IsPiece(x) && x.Uni?
    ensures 0 <= v < 0x10000
  {
    HexBound(x.hex);
    HexNum(x.hex)
  }

  /** The characters that the pieces stand for, looking ahead for the partner of a surrogate. None where de-escaping
      has no value to give, which is more often than section 7 of RFC 8259 allows: see MeaningIff. */
  ghost function Meaning(utf8: bool, xs: seq<Piece>): Option<string>
    requires ArePieces(xs)
    decreases |xs|
  {
    if xs == [] then Some("") else
    match xs[0]
    case Raw(c) => Prefix([c], Meaning(utf8, xs[1..]))
    case Esc(c) => if Unescape(c).Some? then Prefix([Unescape(c).value], Meaning(utf8, xs[1..])) else None
    case Uni(_) =>
      var ch := Code(xs[0]);
      if IsHighSurrogate(ch) then
        if |xs| > 1 && xs[1].Uni? && IsLowSurrogate(Code(xs[1])) then
          Join(Encoded(utf8, Pair(ch, Code(xs[1]))), Meaning(utf8, xs[2..]))
        else None
      else if IsLowSurrogate(ch) || ch == 0 then None
      else Join(Encoded(utf8, ch), Meaning(utf8, xs[1..]))
  }

  /** The state machine of the lexer over a list of pieces. */
  ghost function Feed(mode: Mode, hi: int, xs: seq<Piece>): Option<string>
    requires Pending(hi) && ArePieces(xs)
    decreases |xs|
  {
    if xs == [] then (if hi == NO_SURROGATE then Some("") else None)
    else
      match Take(mode, hi, xs[0])
      case Refused(_) => None
      case Took(hi', o) => Prefix(o, Feed(mode, hi', xs[1..]))
  }

  /** The one-pass state machine and the definition by look-ahead agree. */
  lemma {:induction false} FeedIsMeaning(utf8: bool, xs: seq<Piece>)
    requires ArePieces(xs)
    ensures Feed(DeEscape(utf8), NO_SURROGATE, xs) == Meaning(utf8, xs)
    decreases |xs|
  {
    hide Utf8, Unescape, HexNum, IsHex, All, PieceText;
    var mode := DeEscape(utf8);
    if xs != [] {
      FeedIsMeaning(utf8, xs[1..]);
      if xs[0].Uni? && IsHighSurrogate(Code(xs[0])) && |xs| > 1 {
        var rest := xs[1..];
        assert rest[1..] == xs[2..];
        FeedIsMeaning(utf8, xs[2..]);
        FeedPending(utf8, Code(xs[0]), rest);
        PrefixNothing(Feed(mode, Code(xs[0]), rest));
      }
    }
  }

  lemma PrefixNothing(r: Option<string>)
    ensures Prefix("", r) == r
  {
    if r.Some? { assert "" + r.value == r.value; }
  }

  lemma FeedPending(utf8: bool, hi: int, xs: seq<Piece>)
    requires IsHighSurrogate(hi) && ArePieces(xs) && xs != []
    ensures Feed(DeEscape(utf8), hi, xs) ==
            if xs[0].Uni? && IsLowSurrogate(Code(xs[0])) then
              Join(Encoded(utf8, Pair(hi, Code(xs[0]))), Feed(DeEscape(utf8), NO_SURROGATE, xs[1..]))
            else None
  {
    hide Utf8, Unescape, HexNum, IsHex, All, PieceText;
  }

  // ----- The lexer accepts exactly the meaningful strings -----

  /** What is accepted is a list of pieces and a closing quote, and its value is what the pieces feed. */
  lemma {:induction false} StringSound(s: string, q: nat, mode: Mode, hi: int, out: string) returns (xs: seq<Piece>)
    requires q <= |s| && Pending(hi) && StringFrom(s, q, mode, hi, out).StringOk?
    ensures ArePieces(xs)
    ensures var r := StringFrom(s, q, mode, hi, out);
            s[q..r.end] == Text(xs) + "\"" && Prefix(out, Feed(mode, hi, xs)) == Some(r.val)
    decreases |s| - q
  {
    hide ScanAt, Take, IsPiece, PieceText;
    var scan := ScanAt(s, q);
    var r := StringFrom(s, q, mode, hi, out);
    if scan.Quote? {
      QuoteAt(s, q);
      xs := [];
      assert s[q..r.end] == "\"";
      assert out + "" == out;
    } else {
      ScanFindsPiece(s, q, scan.piece, scan.next);
      var t := Take(mode, hi, scan.piece);
      var rest := StringSound(s, scan.next, mode, t.hi, out + t.out);
      xs := [scan.piece] + rest;
      TextCons(scan.piece, rest);
      assert xs[1..] == rest;
      assert s[q..r.end] == s[q..scan.next] + s[scan.next..r.end];
      PrefixTwice(out, t.out, Feed(mode, t.hi, rest));
    }
  }

  lemma QuoteAt(s: string, q: nat)
    requires q <= |s|
    ensures ScanAt(s, q).Quote? <==> q < |s| && s[q] == '"'
  {
  }

  lemma TextCons(x: Piece, xs: seq<Piece>)
    ensures Text([x] + xs) == PieceText(x) + Text(xs)
  {
    assert ([x] + xs)[1..] == xs;
  }

  lemma PrefixTwice(a: string, b: string, r: Option<string>)
    ensures Prefix(a + b, r) == Prefix(a, Prefix(b, r))
  {
    if r.Some? { assert a + b + r.value == a + (b + r.value); }
  }

  /** Every list of pieces that feeds through is accepted, up to its closing quote. */
  lemma {:induction false} StringComplete(s: string, q: nat, e: nat, mode: Mode, hi: int, out: string, xs: seq<Piece>)
    requires q <= e <= |s| && Pending(hi) && ArePieces(xs) && s[q..e] == Text(xs) + "\"" && Feed(mode, hi, xs).Some?
    ensures StringFrom(s, q, mode, hi, out) == StringOk(out + Feed(mode, hi, xs).value, e)
    decreases |xs|
  {
    hide ScanAt, Take, IsPiece, PieceText;
    if xs == [] {
      assert s[q] == s[q..e][0];
      QuoteAt(s, q);
      assert out + "" == out;
    } else {
      var x, rest := xs[0], xs[1..];
      var t := PieceText(x);
      assert s[q..e] == t + (Text(rest) + "\"");
      Subtext(s, q, e, t, Text(rest) + "\"");
      ScanFindsPiece(s, q, x, q + |t|);
      var k := Take(mode, hi, x);
      StringComplete(s, q + |t|, e, mode, k.hi, out + k.out, rest);
      assert out + k.out + Feed(mode, k.hi, rest).value == out + (k.out + Feed(mode, k.hi, rest).value);
    }
  }

  /** `s[q..e]` is a string body and its closing quote, with value `val`. */
  ghost predicate StringAt(s: string, q: nat, e: nat, mode: Mode, val: string) {
    && q <= e <= |s|
    && exists xs :: ArePieces(xs) && s[q..e] == Text(xs) + "\"" && Means(mode, xs) == Some(val)
  }

  /** In plain mode only the shape of the escapes is checked, and a backslash before NUL passes. */
  ghost function Means(mode: Mode, xs: seq<Piece>): Option<string>
    requires ArePieces(xs)
  {
    match mode
    case DeEscape(utf8) => Meaning(utf8, xs)
    case Plain => if forall i :: 0 <= i < |xs| && xs[i].Esc? ==> Unescape(xs[i].c).Some? || xs[i].c as int == 0 then Some("") else None
  }

  lemma {:induction false} FeedPlain(xs: seq<Piece>)
    requires ArePieces(xs)
    ensures Feed(Plain, NO_SURROGATE, xs) == Means(Plain, xs)
    decreases |xs|
  {
    hide IsPiece, PieceText, Unescape;
    if xs != [] {
      FeedPlain(xs[1..]);
      PrefixNothing(Feed(Plain, NO_SURROGATE, xs[1..]));
      if Means(Plain, xs).Some? {
        forall i | 0 <= i < |xs[1..]| && xs[1..][i].Esc?
          ensures Unescape(xs[1..][i].c).Some? || xs[1..][i].c as int == 0
        {
          assert xs[1..][i] == xs[i + 1];
        }
      }
      if Means(Plain, xs[1..]).Some? && Take(Plain, NO_SURROGATE, xs[0]).Took? {
        forall i | 0 <= i < |xs| && xs[i].Esc?
          ensures Unescape(xs[i].c).Some? || xs[i].c as int == 0
        {
          if i > 0 { assert xs[i] == xs[1..][i - 1]; }
        }
      }
    }
  }

  lemma FeedMeans(mode: Mode, xs: seq<Piece>)
    requires ArePieces(xs)
    ensures Feed(mode, NO_SURROGATE, xs) == Means(mode, xs)
  {
    if mode.Plain? { FeedPlain(xs); } else { FeedIsMeaning(mode.utf8, xs); }
  }

  /** In both modes a string is accepted exactly when the grammar and the meaning say so. */
  lemma StringIff(s: string, q: nat, e: nat, mode: Mode, val: string)
    requires q <= |s|
    ensures StringFrom(s, q, mode, NO_SURROGATE, "") == StringOk(val, e) <==> StringAt(s, q, e, mode, val)
  {
    hide StringFrom, Feed, Means, Text;
    if StringFrom(s, q, mode, NO_SURROGATE, "") == StringOk(val, e) {
      var xs := StringSound(s, q, mode, NO_SURROGATE, "");
      FeedMeans(mode, xs);
      PrefixNothing(Means(mode, xs));
    }
    if StringAt(s, q, e, mode, val) {
      var xs :| ArePieces(xs) && s[q..e] == Text(xs) + "\"" && Means(mode, xs) == Some(val);
      FeedMeans(mode, xs);
      StringComplete(s, q, e, mode, NO_SURROGATE, "", xs);
      assert "" + val == val;
    }
  }

  /** Lexing without de-escaping accepts everything that de-escaping accepts, up to the same byte. */
  lemma {:induction false} PlainAcceptsMore(s: string, q: nat, utf8: bool, hi: int, out: string)
    requires q <= |s| && Pending(hi) && StringFrom(s, q, DeEscape(utf8), hi, out).StringOk?
    ensures StringFrom(s, q, Plain, NO_SURROGATE, "") == StringOk("", StringFrom(s, q, DeEscape(utf8), hi, out).end)
    decreases |s| - q
  {
    hide ScanAt, Unescape, HexNum;
    var scan := ScanAt(s, q);
    if scan.Got? {
      ScanFindsPiece(s, q, scan.piece, scan.next);
      var t := Take(DeEscape(utf8), hi, scan.piece);
      PlainAcceptsMore(s, scan.next, utf8, t.hi, out + t.out);
      assert Take(Plain, NO_SURROGATE, scan.piece) == Took(NO_SURROGATE, "");
      assert "" + "" == "";
    }
  }

  // ----- Where de-escaping departs from the RFC -----

  ghost predicate IsHigh(x: Piece) requires IsPiece(x) { x.Uni? && IsHighSurrogate(Code(x)) }
  ghost predicate IsLow(x: Piece) requires IsPiece(x) { x.Uni? && IsLowSurrogate(Code(x)) }

  /** What de-escaping asks of piece `i`: a known escape; no \u0000; both halves of a surrogate pair next to each other;
      and outside UTF-8 only ASCII. */
  ghost predicate Decodable(utf8: bool, xs: seq<Piece>, i: nat)
    requires ArePieces(xs) && i < |xs|
  {
    && (xs[i].Esc? ==> Unescape(xs[i].c).Some?)
    && (xs[i].Uni? ==> Code(xs[i]) != 0 && (utf8 || Code(xs[i]) <= 0x7f))
    && (IsHigh(xs[i]) ==> i + 1 < |xs| && IsLow(xs[i + 1]))
    && (IsLow(xs[i]) ==> 0 < i && IsHigh(xs[i - 1]))
  }

  ghost predicate AllDecodable(utf8: bool, xs: seq<Piece>)
    requires ArePieces(xs)
  {
    forall i :: 0 <= i < |xs| ==> Decodable(utf8, xs, i)
  }

  /** Dropping the first k pieces, when the last of them is no high surrogate, changes nothing for the others. */
  lemma DropDecodable(utf8: bool, xs: seq<Piece>, k: nat)
    requires ArePieces(xs) && 0 < k <= |xs| && !IsHigh(xs[k - 1])
    ensures AllDecodable(utf8, xs) <==> AllDecodable(utf8, xs[k..]) && forall i :: 0 <= i < k ==> Decodable(utf8, xs, i)
  {
    hide IsPiece, IsHigh, IsLow, Unescape, Code;
    var ys := xs[k..];
    assert ArePieces(ys);
    forall i | 0 <= i < |ys|
      ensures Decodable(utf8, ys, i) <==> Decodable(utf8, xs, i + k)
    {
      assert ys[i] == xs[i + k];
      if i > 0 { assert ys[i - 1] == xs[i - 1 + k]; }
      if i + 1 < |ys| { assert ys[i + 1] == xs[i + 1 + k]; }
    }
    if AllDecodable(utf8, ys) && forall i :: 0 <= i < k ==> Decodable(utf8, xs, i) {
      forall i | 0 <= i < |xs|
        ensures Decodable(utf8, xs, i)
      {
        if i >= k { assert Decodable(utf8, ys, i - k); }
      }
    }
  }

  /** De-escaping gives a value exactly to the strings whose every piece is decodable. */
  lemma {:induction false} MeaningIff(utf8: bool, xs: seq<Piece>)
    requires ArePieces(xs)
    ensures Meaning(utf8, xs).Some? <==> AllDecodable(utf8, xs)
    decreases |xs|
  {
    hide IsPiece, Unescape, Code, AllDecodable, Utf8;
    if xs == [] {
      NothingToDecode(utf8);
    } else if IsHigh(xs[0]) {
      assert AllDecodable(utf8, xs) ==> Decodable(utf8, xs, 0) by { DecodableAt(utf8, xs, 0); }
      if |xs| > 1 && IsLow(xs[1]) {
        MeaningIff(utf8, xs[2..]);
        DropDecodable(utf8, xs, 2);
        assert Decodable(utf8, xs, 0) && Decodable(utf8, xs, 1) <==> utf8;
      }
    } else {
      MeaningIff(utf8, xs[1..]);
      DropDecodable(utf8, xs, 1);
      assert AllDecodable(utf8, xs) <==> AllDecodable(utf8, xs[1..]) && Decodable(utf8, xs, 0);
    }
  }

  lemma NothingToDecode(utf8: bool)
    ensures AllDecodable(utf8, [])
  {
  }

  lemma DecodableAt(utf8: bool, xs: seq<Piece>, i: nat)
    requires ArePieces(xs) && i < |xs|
    ensures AllDecodable(utf8, xs) ==> Decodable(utf8, xs, i)
  {
  }

  lemma {:induction false} StringRefused(s: string, q: nat, e: nat, mode: Mode, hi: int, out: string, xs: seq<Piece>)
    requires q <= e <= |s| && Pending(hi) && ArePieces(xs) && s[q..e] == Text(xs) + "\"" && Feed(mode, hi, xs) == None
    ensures StringFrom(s, q, mode, hi, out).StringErr?
    decreases |xs|
  {
    hide IsPiece, Take;
    StringStep(s, q, mode, hi, out);
    if xs == [] {
      assert s[q] == s[q..e][0];
    } else {
      var x, rest := xs[0], xs[1..];
      var t := PieceText(x);
      assert Text(xs) + "\"" == t + (Text(rest) + "\"");
      Subtext(s, q, e, t, Text(rest) + "\"");
      ScanFindsPiece(s, q, x, q + |t|);
      var k := Take(mode, hi, x);
      if k.Took? { StringRefused(s, q + |t|, e, mode, k.hi, out + k.out, rest); }
    }
  }

  /** Every string of section 7 of RFC 8259 is accepted whole without de-escaping; with it, exactly when every piece is decodable. */
  lemma RfcStringIff(s: string, q: nat, e: nat, utf8: bool, xs: seq<Piece>)
    requires q <= e <= |s| && ArePieces(xs) && RfcEscapes(xs) && s[q..e] == Text(xs) + "\""
    ensures StringFrom(s, q, Plain, NO_SURROGATE, "") == StringOk("", e)
    ensures StringFrom(s, q, DeEscape(utf8), NO_SURROGATE, "").StringOk? <==> AllDecodable(utf8, xs)
  {
    hide StringFrom, Text, Feed, Meaning, AllDecodable, IsPiece;
    FeedMeans(Plain, xs);
    StringComplete(s, q, e, Plain, NO_SURROGATE, "", xs);
    MeaningIff(utf8, xs);
    FeedMeans(DeEscape(utf8), xs);
    if AllDecodable(utf8, xs) {
      StringComplete(s, q, e, DeEscape(utf8), NO_SURROGATE, "", xs);
    } else {
      StringRefused(s, q, e, DeEscape(utf8), NO_SURROGATE, "", xs);
    }
  }

  /** A string of the RFC that de-escaping refuses: \u0000. */
  lemma DeEscapeRefusesZero()
    ensures var xs := [Uni("0000")];
            && ArePieces(xs) && RfcEscapes(xs) && Meaning(true, xs) == None
            && StringFrom("\\u0000\"", 0, DeEscape(true), NO_SURROGATE, "").StringErr?
            && StringFrom("\\u0000\"", 0, Plain, NO_SURROGATE, "") == StringOk("", 7)
  {
    var xs, s := [Uni("0000")], "\\u0000\"";
    assert "0000"[..3] == "000" && "000"[..2] == "00" && "00"[..1] == "0" && "0"[..0] == "";
    assert HexNum("0000") == 0;
    assert xs[1..] == [] && Text(xs) == PieceText(xs[0]) + "";
    assert s[0..7] == Text(xs) + "\"";
    assert !Decodable(true, xs, 0);
    RfcStringIff(s, 0, 7, true, xs);
    MeaningIff(true, xs);
  }

  // ----- Where plain lexing departs from the RFC -----

  /** Every two-character escape is one of the eight of section 7 of RFC 8259. */
  ghost predicate RfcEscapes(xs: seq<Piece>) {
    forall i :: 0 <= i < |xs| && xs[i].Esc? ==> Unescape(xs[i].c).Some?
  }

  lemma {:induction false} NulOnlyInEscape(xs: seq<Piece>)
    requires ArePieces(xs)
    ensures 0 as char in Text(xs) <==> exists i :: 0 <= i < |xs| && xs[i] == Esc(0 as char)
    decreases |xs|
  {
    if xs != [] {
      var rest := xs[1..];
      NulOnlyInEscape(rest);
      assert 0 as char in PieceText(xs[0]) <==> xs[0] == Esc(0 as char);
      assert 0 as char in Text(xs) <==> 0 as char in PieceText(xs[0]) || 0 as char in Text(rest);
      if i :| 0 <= i < |rest| && rest[i] == Esc(0 as char) { assert xs[i + 1] == rest[i]; }
      if i :| 0 <= i < |xs| && xs[i] == Esc(0 as char) {
        if i > 0 { assert rest[i - 1] == xs[i]; }
      }
    }
  }

  /** A string accepted without de-escaping follows the RFC exactly when it contains no NUL byte. */
  lemma PlainIsRfcIff(s: string, q: nat)
    requires q <= |s| && StringFrom(s, q, Plain, NO_SURROGATE, "").StringOk?
    ensures var e := StringFrom(s, q, Plain, NO_SURROGATE, "").end;
            0 as char !in s[q..e] <==> exists xs :: ArePieces(xs) && s[q..e] == Text(xs) + "\"" && RfcEscapes(xs)
  {
    hide StringFrom, Text, IsPiece, Unescape;
    var e := StringFrom(s, q, Plain, NO_SURROGATE, "").end;
    var xs := StringSound(s, q, Plain, NO_SURROGATE, "");
    FeedPlain(xs);
    NulOnlyInEscape(xs);
    if 0 as char !in s[q..e] {
      assert 0 as char !in Text(xs);
      assert RfcEscapes(xs);
    }
    if ys :| ArePieces(ys) && s[q..e] == Text(ys) + "\"" && RfcEscapes(ys) {
      NulOnlyInEscape(ys);
      NulIsNoEscape();
    }
  }

  lemma NulIsNoEscape()
    ensures Unescape(0 as char) == None
  {
  }

  /** Such a string exists: the plain lexer takes a backslash followed by NUL. */
  lemma PlainTakesNul()
    ensures StringFrom(['\\', 0 as char, '"'], 0, Plain, NO_SURROGATE, "").StringOk?
    ensures !StringFrom(['\\', 0 as char, '"'], 0, DeEscape(true), NO_SURROGATE, "").StringOk?
  {
    var s := ['\\', 0 as char, '"'];
    assert ScanAt(s, 0) == Got(Esc(0 as char), 2);
    assert ScanAt(s, 2) == Quote;
  }

  // ----- The loop -----

  /** Lines 721-744: up to four hexadecimal digits and their value. */
  method LexHex(s: string, p: nat) returns (k: nat, ch: int)
    requires p <= |s|
    ensures k == HexRun(s, p, 4) && All(IsHex, s[p..p + k]) && ch == HexNum(s[p..p + k])
  {
    k, ch := 0, 0;
    while k < 4 && p + k < |s| && IsHex(s[p + k])
      invariant k <= 4 && p + k <= |s| && All(IsHex, s[p..p + k]) && ch == HexNum(s[p..p + k])
      invariant HexRun(s, p, 4) == k + HexRun(s, p + k, 4 - k)
    {
      assert s[p..p + k + 1][..k] == s[p..p + k];
      ch := ch * 16 + HexVal(s[p + k]);
      k := k + 1;
    }
  }

  lemma StringStep(s: string, q: nat, mode: Mode, hi: int, out: string)
    requires q <= |s| && Pending(hi)
    ensures var scan, r := ScanAt(s, q), StringFrom(s, q, mode, hi, out);
            && (scan.Stop? ==> r == StringErr(scan.error))
            && (scan.Quote? ==> r == if hi != NO_SURROGATE then StringErr(UnicodeLowSurrogate) else StringOk(out, q + 1))
            && (scan.Got? ==>
                  && IsPiece(scan.piece)
                  && var t := Take(mode, hi, scan.piece);
                     r == if t.Refused? then StringErr(t.error) else StringFrom(s, scan.next, mode, t.hi, out + t.out))
  {
    if ScanAt(s, q).Got? { ScanFindsPiece(s, q, ScanAt(s, q).piece, ScanAt(s, q).next); }
    hide ScanAt, Take;
  }

  /** json_lex_string, lines 677-883, from the opening quote at `start`. */
  method LexString(s: string, start: nat, mode: Mode) returns (r: StringResult)
    requires start < |s|
    ensures r == StringFrom(s, start + 1, mode, NO_SURROGATE, "")
  {
    hide Utf8, Unescape, HexNum, TakeUnicode, TakeEscape, TakeRaw, IsHex, HexRun, StringFrom;
    var hi, strval, q := NO_SURROGATE, "", start + 1;
    while true
      invariant q <= |s| && Pending(hi)
      invariant StringFrom(s, q, mode, hi, strval) == StringFrom(s, start + 1, mode, NO_SURROGATE, "")
      decreases |s| - q
    {
      var t;
      var next := q + 1;
      StringStep(s, q, mode, hi, strval);
      if q >= |s| {
        return StringErr(InvalidToken);
      } else if s[q] == '"' {
        break;
      } else if s[q] as int < 32 {
        return StringErr(EscapingRequired);
      } else if s[q] == '\\' {
        if q + 1 >= |s| {
          return StringErr(InvalidToken);
        } else if s[q + 1] == 'u' {
          var k, ch := LexHex(s, q + 2);
          if k < 4 {
            return StringErr(if q + 2 + k >= |s| then InvalidToken else UnicodeEscapeFormat);
          }
          HexBound(s[q + 2..q + 6]);
          t := if mode.Plain? then Took(hi, "") else TakeUnicode(mode.utf8, hi, ch);
          next := q + 6;
        } else {
          t := TakeEscape(mode, hi, s[q + 1]);
          next := q + 2;
        }
      } else {
        t := TakeRaw(mode, hi, s[q]);
      }
      ScanFindsPiece(s, q, ScanAt(s, q).piece, next);
      if t.Refused? {
        return StringErr(t.error);
      }
      hi, strval, q := t.hi, strval + t.out, next;
    }
    if hi != NO_SURROGATE {
      return StringErr(UnicodeLowSurrogate);
    }
    r := StringOk(strval, q + 1);
  }
}
