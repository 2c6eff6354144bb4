/** pg_b64_encode and pg_b64_decode (common/base64.c; section 4 of RFC 4648). */
module Base64 {
  import opened Common

  /** b64lookup, with the range test in front of it; -1 for a character outside the alphabet. */
  function Lookup(c: char): (b: int)
    ensures -1 <= b < 64
  {
    if c == '+' then 62
    else if c == '/' then 63
    else if '0' <= c <= '9' then c as int - '0' as int + 52
    else if 'A' <= c <= 'Z' then c as int - 'A' as int
    else if 'a' <= c <= 'z' then c as int - 'a' as int + 26
    else -1
  }

  /** The alphabet: A-Z, a-z, 0-9, + and /. */
  function Digit(k: nat): (c: char)
    requires k < 64
  {
    if k < 26 then 'A' + k as char
    else if k < 52 then 'a' + (k - 26) as char
    else if k < 62 then '0' + (k - 52) as char
    else if k == 62 then '+'
    else '/'
  }

  /** The two tables are inverse to each other. */
  lemma LookupDigit(k: nat)
    requires k < 64
    ensures Lookup(Digit(k)) == k && Digit(k) != '='
  {
  }

  /** Table 1 of RFC 4648: the ranges begin and end where it has them, and count up one by one. */
  lemma AlphabetIs(k: nat)
    requires k < 63
    ensures Digit(0) == 'A' && Digit(25) == 'Z' && Digit(26) == 'a' && Digit(51) == 'z' && Digit(52) == '0' && Digit(61) == '9'
    ensures Digit(62) == '+' && Digit(63) == '/'
    ensures k != 25 && k != 51 && k < 61 ==> Digit(k + 1) as int == Digit(k) as int + 1
  {
  }

  // ----- What the encoded text is -----

  /** The four digits of 24 bits. */
  function Quad(n: nat): string
    requires n < 0x100_0000
  {
    [Digit(n / 262144), Digit(n / 4096 % 64), Digit(n / 64 % 64), Digit(n % 64)]
  }

  function Join(x: Byte, y: Byte, z: Byte): (n: nat)
    ensures n < 0x100_0000
  {
    x * 65536 + y * 256 + z
  }

  function EncodeText(src: seq<Byte>): (r: string)
    ensures |r| == (|src| + 2) / 3 * 4
  {
    if |src| == 0 then []
    else if |src| == 1 then Quad(Join(src[0], 0, 0))[..2] + "=="
    else if |src| == 2 then Quad(Join(src[0], src[1], 0))[..3] + "="
    else
      assert (|src| - 3 + 2) / 3 == (|src| + 2) / 3 - 1;
      Quad(Join(src[0], src[1], src[2])) + EncodeText(src[3..])
  }

  /** Section 10 of RFC 4648: foob, fooba and foobar. */
  lemma EncodeExamples()
    ensures EncodeText([0x66, 0x6f, 0x6f, 0x62]) == "Zm9vYg=="
    ensures EncodeText([0x66, 0x6f, 0x6f, 0x62, 0x61]) == "Zm9vYmE="
    ensures EncodeText([0x66, 0x6f, 0x6f, 0x62, 0x61, 0x72]) == "Zm9vYmFy"
  {
    QuadExamples();
    hide Quad;
    var a, b, c: seq<Byte> := [0x66, 0x6f, 0x6f, 0x62], [0x66, 0x6f, 0x6f, 0x62, 0x61], [0x66, 0x6f, 0x6f, 0x62, 0x61, 0x72];
    assert a[3..] == [0x62] && b[3..] == [0x62, 0x61] && c[3..] == [0x62, 0x61, 0x72] && [0x62 as Byte, 0x61, 0x72][3..] == [];
    assert "Zm9v" + "Yg==" == "Zm9vYg==" && "Zm9v" + "YmE=" == "Zm9vYmE=" && "Zm9v" + "YmFy" == "Zm9vYmFy";
  }

  lemma QuadExamples()
    ensures Quad(Join(0x66, 0x6f, 0x6f)) == "Zm9v" && Quad(Join(0x62, 0x61, 0x72)) == "YmFy"
    ensures Quad(Join(0x62, 0, 0)) == "YgAA" && Quad(Join(0x62, 0x61, 0)) == "YmEA"
  {
    hide Quad;
    QuadIs(25, 38, 61, 47);
    QuadIs(24, 38, 5, 50);
    QuadIs(24, 32, 0, 0);
    QuadIs(24, 38, 4, 0);
  }

  lemma QuadIs(a: nat, b: nat, c: nat, d: nat)
    requires a < 64 && b < 64 && c < 64 && d < 64
    ensures Quad(a * 262144 + b * 4096 + c * 64 + d) == [Digit(a), Digit(b), Digit(c), Digit(d)]
  {
    hide Digit;
    var n := a * 262144 + b * 4096 + c * 64 + d;
    assert n / 64 == a * 4096 + b * 64 + c && n % 64 == d;
    assert n / 4096 == a * 64 + b;
    assert n / 262144 == a;
  }

  // ----- What a text decodes to -----

  /** The bits collected from at most four characters, and what padding was seen (0, or the number of bytes that count). */
  datatype Bits = Bits(value: nat, end: nat)

  function Feed(q: string, end: nat): (r: Option<Bits>) {
    if q == [] then Some(Bits(0, end))
    else
      var n := |q| - 1;
      var b := Feed(q[..n], end);
      if b.None? then None else Next(b.value, n, q[n])
  }

  function Next(b: Bits, pos: nat, c: char): Option<Bits> {
    if c == '=' then
      if b.end != 0 then Some(Bits(b.value * 64, b.end))
      else if pos == 2 then Some(Bits(b.value * 64, 1))
      else if pos == 3 then Some(Bits(b.value * 64, 2))
      else None
    else if Lookup(c) < 0 then None
    else Some(Bits(b.value * 64 + Lookup(c), b.end))
  }

  /** The bytes that four characters stand for. */
  function Bytes(b: Bits): (r: seq<Byte>)
    ensures 1 <= |r| <= 3
  {
    var x, y, z := b.value / 65536 % 256, b.value / 256 % 256, b.value % 256;
    if b.end == 0 then [x, y, z] else if b.end == 1 then [x] else [x, y]
  }

  /** The padding state carries over from one group of four to the next. */
  function DecodeFrom(s: string, end: nat): (r: Option<seq<Byte>>)
    ensures r.Some? ==> |r.value| <= |s| * 3 / 4
  {
    if s == [] then Some([])
    else if |s| < 4 then None
    else
      var b := Feed(s[..4], end);
      if b.None? then None
      else
        var rest := DecodeFrom(s[4..], b.value.end);
        if rest.None? then None else Some(Bytes(b.value) + rest.value)
  }

  function DecodeText(s: string): (r: Option<seq<Byte>>)
    ensures r.Some? ==> |r.value| <= |s| * 3 / 4
  {
    DecodeFrom(s, 0)
  }

  // ----- Decoding undoes encoding -----

  lemma FeedFour(c0: char, c1: char, c2: char, c3: char, end: nat)
    ensures var b0 := Next(Bits(0, end), 0, c0);
            var b1 := if b0.None? then None else Next(b0.value, 1, c1);
            var b2 := if b1.None? then None else Next(b1.value, 2, c2);
            var b3 := if b2.None? then None else Next(b2.value, 3, c3);
            Feed([c0, c1, c2, c3], end) == b3
  {
    hide Next;
    var q := [c0, c1, c2, c3];
    assert q[..3] == [c0, c1, c2] && q[..3][..2] == [c0, c1] && q[..3][..2][..1] == [c0] && [c0][..0] == [];
    assert Feed([], end) == Some(Bits(0, end));
    assert Feed([c0], end) == Next(Bits(0, end), 0, c0);
    assert Feed([c0, c1], end) == if Feed([c0], end).None? then None else Next(Feed([c0], end).value, 1, c1);
    assert Feed([c0, c1, c2], end) == if Feed([c0, c1], end).None? then None else Next(Feed([c0, c1], end).value, 2, c2);
  }

  lemma QuadValue(n: nat)
    requires n < 0x100_0000
    ensures ((n / 262144 * 64 + n / 4096 % 64) * 64 + n / 64 % 64) * 64 + n % 64 == n
  {
    assert n / 64 / 64 == n / 4096 && n / 4096 / 64 == n / 262144;
  }

  lemma FeedDigits(d0: nat, d1: nat, d2: nat, d3: nat)
    requires d0 < 64 && d1 < 64 && d2 < 64 && d3 < 64
    ensures Feed([Digit(d0), Digit(d1), Digit(d2), Digit(d3)], 0) == Some(Bits(((d0 * 64 + d1) * 64 + d2) * 64 + d3, 0))
    ensures Feed([Digit(d0), Digit(d1), Digit(d2), '='], 0) == Some(Bits(((d0 * 64 + d1) * 64 + d2) * 64, 2))
    ensures Feed([Digit(d0), Digit(d1), '=', '='], 0) == Some(Bits((d0 * 64 + d1) * 64 * 64, 1))
  {
    hide Feed, Lookup, Digit;
    LookupDigit(d0);
    LookupDigit(d1);
    LookupDigit(d2);
    LookupDigit(d3);
    FeedFour(Digit(d0), Digit(d1), Digit(d2), Digit(d3), 0);
    FeedFour(Digit(d0), Digit(d1), Digit(d2), '=', 0);
    FeedFour(Digit(d0), Digit(d1), '=', '=', 0);
  }

  lemma LowZeros(n: nat)
    ensures n % 256 == 0 ==> n % 64 == 0
    ensures n % 65536 == 0 ==> n % 64 == 0 && n / 64 % 64 == 0
  {
    if n % 256 == 0 { Multiple(n, 4 * (n / 256)); }
    if n % 65536 == 0 {
      Multiple(n, 1024 * (n / 65536));
      Multiple(n / 64, 16 * (n / 65536));
    }
  }

  lemma Multiple(n: nat, k: nat)
    requires n == 64 * k
    ensures n % 64 == 0 && n / 64 == k
  {
  }

  lemma FeedQuad(n: nat)
    requires n < 0x100_0000
    ensures Feed(Quad(n), 0) == Some(Bits(n, 0))
    ensures n % 256 == 0 ==> Feed(Quad(n)[..3] + "=", 0) == Some(Bits(n, 2))
    ensures n % 65536 == 0 ==> Feed(Quad(n)[..2] + "==", 0) == Some(Bits(n, 1))
  {
    hide Feed, Digit;
    var d0, d1, d2, d3 := n / 262144, n / 4096 % 64, n / 64 % 64, n % 64;
    QuadValue(n);
    LowZeros(n);
    FeedDigits(d0, d1, d2, d3);
    assert Quad(n)[..3] + "=" == [Digit(d0), Digit(d1), Digit(d2), '='];
    assert Quad(n)[..2] + "==" == [Digit(d0), Digit(d1), '=', '='];
  }

  lemma JoinBytes(x: Byte, y: Byte, z: Byte)
    ensures var n := Join(x, y, z); n / 65536 % 256 == x && n / 256 % 256 == y && n % 256 == z
    ensures y == 0 && z == 0 ==> Join(x, y, z) % 65536 == 0
  {
    var n := Join(x, y, z);
    assert n == 65536 * x + (256 * y + z) && 256 * y + z < 65536;
    assert n / 65536 == x && n % 65536 == 256 * y + z;
    assert n == 256 * (256 * x + y) + z;
    assert n / 256 == 256 * x + y && n % 256 == z;
  }

  lemma LastGroup(src: seq<Byte>)
    requires |src| == 1 || |src| == 2
    ensures DecodeText(EncodeText(src)) == Some(src)
  {
    hide Feed, Quad, Join;
    var x, y := src[0], if |src| > 1 then src[1] else 0;
    var n, e := Join(x, y, 0), EncodeText(src);
    JoinBytes(x, y, 0);
    QuadLength(n);
    FeedQuad(n);
    assert e[..4] == e && e[4..] == [];
    var b := Bits(n, |src|);
    assert Feed(e[..4], 0) == Some(b);
    assert Bytes(b) == src;
    assert DecodeFrom(e[4..], b.end) == Some([]);
    assert DecodeFrom(e, 0) == Some(Bytes(b) + []);
    assert Bytes(b) + [] == src;
  }

  /** Decode of encode is the identity for every byte string. */
  lemma {:induction false} RoundTrip(src: seq<Byte>)
    ensures DecodeText(EncodeText(src)) == Some(src)
  {
    hide Feed, Quad, Join;
    if |src| == 1 || |src| == 2 {
      LastGroup(src);
    } else if |src| >= 3 {
      var n, e := Join(src[0], src[1], src[2]), EncodeText(src);
      JoinBytes(src[0], src[1], src[2]);
      FeedQuad(n);
      QuadLength(n);
      RoundTrip(src[3..]);
      assert e[..4] == Quad(n) && e[4..] == EncodeText(src[3..]);
      assert src == [src[0], src[1], src[2]] + src[3..];
    }
  }

  lemma QuadLength(n: nat)
    requires n < 0x100_0000
    ensures |Quad(n)| == 4
  {
  }

  // ----- Which texts are accepted -----

  predicate IsSymbol(c: char) { c == '=' || Lookup(c) >= 0 }

  ghost predicate AllSymbols(s: string) { forall i :: 0 <= i < |s| ==> IsSymbol(s[i]) }

  /** The first padding character, if there is one, is the third or fourth of its group. */
  ghost predicate PadsLate(s: string) {
    forall i :: 0 <= i < |s| && s[i] == '=' && '=' !in s[..i] ==> i % 4 >= 2
  }

  /** After padding has been seen its place no longer matters. */
  ghost predicate Acceptable(s: string, end: nat) {
    |s| % 4 == 0 && AllSymbols(s) && (end == 0 ==> PadsLate(s))
  }

  /** The padding state after a group. */
  lemma GroupIff(c0: char, c1: char, c2: char, c3: char, end: nat)
    ensures var q, b := [c0, c1, c2, c3], Feed([c0, c1, c2, c3], end);
            && (b.Some? <==> IsSymbol(c0) && IsSymbol(c1) && IsSymbol(c2) && IsSymbol(c3) && (end == 0 ==> c0 != '=' && c1 != '='))
            && (b.Some? ==> (b.value.end == 0 <==> end == 0 && c2 != '=' && c3 != '='))
  {
    hide Lookup, Feed;
    FeedFour(c0, c1, c2, c3, end);
  }

  /** The place of the first padding character, group by group. */
  lemma PadsLateIff(s: string)
    requires |s| >= 4
    ensures PadsLate(s) <==> s[0] != '=' && s[1] != '=' && (s[2] == '=' || s[3] == '=' || PadsLate(s[4..]))
  {
    var t := s[4..];
    if PadsLate(s) {
      assert s[..0] == "" && (s[0] != '=' ==> '=' !in s[..1]);
      if s[2] != '=' && s[3] != '=' {
        forall i | 0 <= i < |t| && t[i] == '=' && '=' !in t[..i]
          ensures i % 4 >= 2
        {
          FrontFree(s, i + 4);
          assert s[i + 4] == '=';
        }
      }
    }
    if s[0] != '=' && s[1] != '=' && (s[2] == '=' || s[3] == '=' || PadsLate(t)) {
      forall i | 0 <= i < |s| && s[i] == '=' && '=' !in s[..i]
        ensures i % 4 >= 2
      {
        if i >= 4 {
          assert s[2] == s[..i][2] && s[3] == s[..i][3];
          assert t[..i - 4] == s[..i][4..];
          assert t[i - 4] == '=';
        }
      }
    }
  }

  lemma FrontFree(s: string, i: nat)
    requires 4 <= i < |s| && s[0] != '=' && s[1] != '=' && s[2] != '=' && s[3] != '=' && '=' !in s[4..][..i - 4]
    ensures '=' !in s[..i]
  {
    forall j | 0 <= j < i
      ensures s[..i][j] != '='
    {
      if j >= 4 { assert s[j] == s[4..][..i - 4][j - 4]; }
    }
  }

  lemma {:induction false} DecodesIff(s: string, end: nat)
    ensures DecodeFrom(s, end).Some? <==> Acceptable(s, end)
  {
    hide Feed, IsSymbol, PadsLate;
    if s == [] {
      NothingPads();
    } else if |s| >= 4 {
      var q, t := s[..4], s[4..];
      assert q == [s[0], s[1], s[2], s[3]];
      GroupIff(s[0], s[1], s[2], s[3], end);
      PadsLateIff(s);
      SymbolsSplit(s);
      var b := Feed(q, end);
      if b.Some? { DecodesIff(t, b.value.end); }
    }
  }

  lemma NothingPads()
    ensures PadsLate("")
  {
  }

  lemma SymbolsSplit(s: string)
    requires |s| >= 4
    ensures AllSymbols(s) <==> IsSymbol(s[0]) && IsSymbol(s[1]) && IsSymbol(s[2]) && IsSymbol(s[3]) && AllSymbols(s[4..])
  {
    hide IsSymbol;
    assert forall i :: 0 <= i < |s| - 4 ==> s[4..][i] == s[i + 4];
    if AllSymbols(s[4..]) { assert forall i :: 4 <= i < |s| ==> s[i] == s[4..][i - 4] && IsSymbol(s[4..][i - 4]); }
  }

  /** A text is accepted if and only if its length is a multiple of four, every character is in the alphabet or padding, and
      the first padding is the third or fourth character of its group. RFC 4648 has padding only at the very end. */
  lemma AcceptsIff(s: string)
    ensures DecodeText(s).Some? <==> |s| % 4 == 0 && AllSymbols(s) && PadsLate(s)
  {
    hide DecodeFrom, AllSymbols, PadsLate;
    DecodesIff(s, 0);
  }

  /** Padding in the middle, and a character after padding. */
  lemma PadsInTheMiddle()
    ensures DecodeText("QQ==QQ==").Some? && DecodeText("QQ=Q").Some?
  {
    AcceptsIff("QQ==QQ==");
    AcceptsIff("QQ=Q");
    FirstPad("QQ==QQ==");
    FirstPad("QQ=Q");
  }

  lemma FirstPad(s: string)
    requires |s| > 2 && s[2] == '=' && s[0] != '=' && s[1] != '='
    ensures PadsLate(s)
  {
    assert forall i :: 2 < i <= |s| ==> s[..i][2] == '=';
  }

  // ----- Buffer sizes -----

  /** pg_b64_enc_len, for lengths on which it does not overflow. */
  function EncLen(srclen: nat): (n: nat)
    requires (srclen + 2) * 4 <= INT_MAX
  {
    (srclen + 2) * 4 / 3
  }

  /** pg_b64_dec_len, for lengths on which it does not overflow. */
  function DecLen(srclen: nat): (n: nat)
    requires srclen * 3 <= INT_MAX
  {
    srclen * 3 / 4
  }

  /** Buffers of the advertised sizes are large enough, for every source and for every text. */
  lemma BuffersSuffice(src: seq<Byte>, text: string)
    requires (|src| + 2) * 4 <= INT_MAX && |text| * 3 <= INT_MAX
    ensures |EncodeText(src)| <= EncLen(|src|)
    ensures DecodeText(text).Some? ==> |DecodeText(text).value| <= DecLen(|text|)
    ensures |EncodeText(src)| * 3 <= INT_MAX && |src| <= DecLen(|EncodeText(src)|)
  {
    hide EncodeText, DecodeText;
    var k := (|src| + 2) / 3;
    assert |EncodeText(src)| == 4 * k;
  }

  // ----- The program -----

  /** Nothing from position p on has changed. */
  ghost predicate Untouched<T>(before: seq<T>, after: seq<T>, p: nat) {
    |before| == |after| && forall i :: p <= i < |before| ==> after[i] == before[i]
  }

  /** memset, on either kind of buffer. */
  method Clear<T>(dst: array<T>, zero: T)
    modifies dst
    ensures forall i :: 0 <= i < dst.Length ==> dst[i] == zero
  {
    for i := 0 to dst.Length
      invariant forall j :: 0 <= j < i ==> dst[j] == zero
    {
      dst[i] := zero;
    }
  }

  method PutQuad(dst: array<char>, p: nat, q: string)
    requires p + 4 <= dst.Length && |q| == 4
    modifies dst
    ensures dst[..p + 4] == old(dst[..p]) + q && Untouched(old(dst[..]), dst[..], p + 4)
  {
    dst[p] := q[0];
    dst[p + 1] := q[1];
    dst[p + 2] := q[2];
    dst[p + 3] := q[3];
  }

  /** The bytes of an unfinished group, in place. */
  function Pending(g: seq<Byte>): (n: nat)
    requires |g| < 3
    ensures n < 0x100_0000
  {
    if |g| == 0 then 0 else if |g| == 1 then Join(g[0], 0, 0) else Join(g[0], g[1], 0)
  }

  /** The first s bytes are read; `out` is written, and the last 2 - pos bytes are in `buf`. */
  ghost predicate Encoding(src: seq<Byte>, out: string, buf: nat, pos: int, s: nat) {
    && 0 <= pos <= 2 && 2 - pos <= s <= |src|
    && EncodeText(src) == out + EncodeText(src[s - (2 - pos)..])
    && buf == Pending(src[s - (2 - pos)..s])
  }

  function Weight(pos: int): nat { if pos == 2 then 65536 else if pos == 1 then 256 else 1 }

  lemma Unfold(src: seq<Byte>)
    ensures EncodeText(src) ==
            if |src| == 0 then []
            else if |src| == 1 then Quad(Join(src[0], 0, 0))[..2] + "=="
            else if |src| == 2 then Quad(Join(src[0], src[1], 0))[..3] + "="
            else Quad(Join(src[0], src[1], src[2])) + EncodeText(src[3..])
  {
    hide Quad;
  }

  lemma EncodeStart(src: seq<Byte>)
    ensures Encoding(src, "", 0, 2, 0)
  {
    hide EncodeText;
    assert src[0..] == src && "" + EncodeText(src) == EncodeText(src);
  }

  lemma EncodeKeep(src: seq<Byte>, out: string, buf: nat, pos: int, s: nat)
    requires Encoding(src, out, buf, pos, s) && s < |src| && pos > 0
    ensures Encoding(src, out, buf + src[s] * Weight(pos), pos - 1, s + 1)
  {
    hide EncodeText;
    var base := s - (2 - pos);
    assert src[base..s + 1] == src[base..s] + [src[s]];
  }

  lemma EncodeFull(src: seq<Byte>, out: string, buf: nat, s: nat)
    requires Encoding(src, out, buf, 0, s) && s < |src|
    ensures var n := buf + src[s];
            n < 0x100_0000 && Encoding(src, out + Quad(n), 0, 2, s + 1) && |out| + 4 <= |EncodeText(src)|
  {
    hide EncodeText, Quad;
    var g := src[s - 2..];
    Unfold(g);
    var n := buf + src[s];
    assert n == Join(g[0], g[1], g[2]);
    assert g[3..] == src[s + 1..];
    QuadLength(n);
    assert out + (Quad(n) + EncodeText(g[3..])) == (out + Quad(n)) + EncodeText(g[3..]);
  }

  lemma EncodeEnd(src: seq<Byte>, out: string, buf: nat, pos: int)
    requires Encoding(src, out, buf, pos, |src|)
    ensures pos == 2 ==> EncodeText(src) == out
    ensures buf < 0x100_0000 && |Quad(buf)| == 4
    ensures pos == 1 ==> EncodeText(src) == out + (Quad(buf)[..2] + "==")
    ensures pos == 0 ==> EncodeText(src) == out + (Quad(buf)[..3] + "=")
  {
    hide EncodeText, Quad;
    Unfold(src[|src| - (2 - pos)..]);
    QuadLength(buf);
  }

  /** pg_b64_encode: the text if the buffer holds it; otherwise -1, with the buffer zeroed. */
  method Encode(src: seq<Byte>, dst: array<char>) returns (r: int)
    modifies dst
    ensures if |EncodeText(src)| <= dst.Length
            then r == |EncodeText(src)| && dst[..r] == EncodeText(src) && Untouched(old(dst[..]), dst[..], r)
            else r == -1 && forall i :: 0 <= i < dst.Length ==> dst[i] == '\0'
  {
    hide EncodeText, Quad, Encoding;
    var p, pos, buf, s := 0, 2, 0, 0;
    EncodeStart(src);
    assert dst[..0] == "";
    while s < |src|
      invariant 0 <= pos <= 2 && 0 <= s <= |src| && 0 <= p <= dst.Length && 0 <= buf
      invariant Encoding(src, dst[..p], buf, pos, s)
      invariant Untouched(old(dst[..]), dst[..], p)
    {
      if pos > 0 { EncodeKeep(src, dst[..p], buf, pos, s); } else { EncodeFull(src, dst[..p], buf, s); }
      buf := buf + src[s] * Weight(pos);
      pos := pos - 1;
      s := s + 1;
      if pos < 0 {
        if p + 4 > dst.Length {
          Clear(dst, '\0');
          return -1;
        }
        QuadLength(buf);
        PutQuad(dst, p, Quad(buf));
        p := p + 4;
        pos, buf := 2, 0;
      }
    }
    EncodeEnd(src, dst[..p], buf, pos);
    if pos != 2 {
      if p + 4 > dst.Length {
        Clear(dst, '\0');
        return -1;
      }
      PutQuad(dst, p, if pos == 0 then Quad(buf)[..3] + "=" else Quad(buf)[..2] + "==");
      p := p + 4;
    }
    return p;
  }

  function Prefixed(out: seq<Byte>, r: Option<seq<Byte>>): Option<seq<Byte>> {
    if r.None? then None else Some(out + r.value)
  }

  /** `out` is written for the groups before `base`; src[base..s] has been collected. */
  ghost predicate Decoding(src: string, out: seq<Byte>, base: nat, from: nat, s: nat, b: Bits) {
    && base <= s <= |src| && s - base < 4
    && Feed(src[base..s], from) == Some(b)
    && DecodeText(src) == Prefixed(out, DecodeFrom(src[base..], from))
  }

  lemma DecodeStart(src: string)
    ensures Decoding(src, [], 0, 0, 0, Bits(0, 0))
  {
    hide DecodeFrom;
    assert src[0..] == src && src[0..0] == "";
    var r := DecodeFrom(src, 0);
    if r.Some? { assert [] + r.value == r.value; }
  }

  lemma {:induction false} FeedStops(q: string, n: nat, end: nat)
    requires n <= |q| && Feed(q[..n], end) == None
    ensures Feed(q, end) == None
  {
    if n == |q| {
      assert q[..n] == q;
    } else {
      var m := |q| - 1;
      assert q[..m][..n] == q[..n];
      FeedStops(q[..m], n, end);
    }
  }

  lemma FeedMore(src: string, base: nat, from: nat, s: nat, b: Bits)
    requires base <= s < |src| && Feed(src[base..s], from) == Some(b)
    ensures Feed(src[base..s + 1], from) == Next(b, s - base, src[s])
  {
    var q := src[base..s + 1];
    assert q[..s - base] == src[base..s] && q[s - base] == src[s];
  }

  lemma DecodeBad(src: string, out: seq<Byte>, base: nat, from: nat, s: nat, b: Bits)
    requires Decoding(src, out, base, from, s, b) && s < |src| && Next(b, s - base, src[s]) == None
    ensures DecodeText(src) == None
  {
    hide Feed, Next;
    FeedMore(src, base, from, s, b);
    var t := src[base..];
    if |t| >= 4 {
      assert t[..4][..s + 1 - base] == src[base..s + 1];
      FeedStops(t[..4], s + 1 - base, from);
    }
  }

  lemma DecodeMore(src: string, out: seq<Byte>, base: nat, from: nat, s: nat, b: Bits, b': Bits)
    requires Decoding(src, out, base, from, s, b) && s < |src| && Next(b, s - base, src[s]) == Some(b') && s - base < 3
    ensures Decoding(src, out, base, from, s + 1, b')
  {
    hide Feed, Next, DecodeText, DecodeFrom;
    FeedMore(src, base, from, s, b);
  }

  lemma DecodeFull(src: string, out: seq<Byte>, base: nat, from: nat, s: nat, b: Bits, b': Bits)
    requires Decoding(src, out, base, from, s, b) && s < |src| && Next(b, s - base, src[s]) == Some(b') && s - base == 3
    ensures Decoding(src, out + Bytes(b'), s + 1, b'.end, s + 1, Bits(0, b'.end))
    ensures DecodeText(src).Some? ==> |out| + |Bytes(b')| <= |DecodeText(src).value|
  {
    hide Next, DecodeText, Bytes;
    FeedMore(src, base, from, s, b);
    hide Feed;
    var t := src[base..];
    assert t[..4] == src[base..s + 1] && t[4..] == src[s + 1..];
    assert src[s + 1..s + 1] == "";
    FeedNothing(b'.end);
    var r := DecodeFrom(t[4..], b'.end);
    if r.Some? { assert out + (Bytes(b') + r.value) == (out + Bytes(b')) + r.value; }
  }

  lemma FeedNothing(end: nat)
    ensures Feed("", end) == Some(Bits(0, end))
  {
  }

  lemma DecodeStop(src: string, out: seq<Byte>, base: nat, from: nat, b: Bits)
    requires Decoding(src, out, base, from, |src|, b)
    ensures DecodeText(src) == if base < |src| then None else Some(out)
  {
    hide Feed, DecodeText;
    assert base == |src| ==> src[base..] == "";
    assert out + [] == out;
  }

  /** pg_b64_decode: the bytes if the text is accepted and the buffer holds them; otherwise -1, with the buffer zeroed. */
  method Decode(src: string, dst: array<Byte>) returns (r: int)
    modifies dst
    ensures var d := DecodeText(src);
            if d.Some? && |d.value| <= dst.Length
            then r == |d.value| && dst[..r] == d.value && Untouched(old(dst[..]), dst[..], r)
            else r == -1 && forall i :: 0 <= i < dst.Length ==> dst[i] == 0
  {
    hide Feed, DecodeText, DecodeFrom, Decoding, Lookup, Bytes;
    var s, p, buf, pos, end := 0, 0, 0, 0, 0;
    ghost var from := 0;
    DecodeStart(src);
    assert dst[..0] == [];
    while s < |src|
      invariant 0 <= s <= |src| && 0 <= pos < 4 && pos <= s && 0 <= p <= dst.Length && 0 <= end <= 2 && 0 <= buf && 0 <= from
      invariant Decoding(src, dst[..p], s - pos, from, s, Bits(buf, end))
      invariant Untouched(old(dst[..]), dst[..], p)
    {
      var c := src[s];
      ghost var b, base, out := Bits(buf, end), s - pos, dst[..p];
      var digit := 0;
      if c == '=' {
        if end == 0 {
          if pos == 2 {
            end := 1;
          } else if pos == 3 {
            end := 2;
          } else {
            DecodeBad(src, out, base, from, s, b);
            Clear(dst, 0);
            return -1;
          }
        }
      } else {
        digit := Lookup(c);
        if digit < 0 {
          DecodeBad(src, out, base, from, s, b);
          Clear(dst, 0);
          return -1;
        }
      }
      buf := buf * 64 + digit;
      ghost var b' := Bits(buf, end);
      assert Next(b, pos, c) == Some(b');
      if pos < 3 {
        DecodeMore(src, out, base, from, s, b, b');
        pos := pos + 1;
      } else {
        DecodeFull(src, out, base, from, s, b, b');
        var ok := PutBytes(dst, p, buf, end);
        if !ok {
          Clear(dst, 0);
          return -1;
        }
        p := p + if end == 0 then 3 else if end == 1 then 1 else 2;
        buf, pos, from := 0, 0, end;
      }
      s := s + 1;
    }
    DecodeStop(src, dst[..p], s - pos, from, Bits(buf, end));
    if pos != 0 {
      Clear(dst, 0);
      return -1;
    }
    return p;
  }

  /** Lines 189-210: one to three bytes, each after its own overflow test. */
  method PutBytes(dst: array<Byte>, p: nat, buf: nat, end: nat) returns (ok: bool)
    requires p <= dst.Length && end <= 2
    modifies dst
    ensures var d := Bytes(Bits(buf, end));
            && |d| == (if end == 0 then 3 else if end == 1 then 1 else 2)
            && (ok <==> p + |d| <= dst.Length)
            && (ok ==> dst[..p + |d|] == old(dst[..p]) + d && Untouched(old(dst[..]), dst[..], p + |d|))
  {
    var q := p;
    if q + 1 > dst.Length { return false; }
    dst[q] := buf / 65536 % 256;
    q := q + 1;
    if end == 0 || end > 1 {
      if q + 1 > dst.Length { return false; }
      dst[q] := buf / 256 % 256;
      q := q + 1;
    }
    if end == 0 || end > 2 {
      if q + 1 > dst.Length { return false; }
      dst[q] := buf % 256;
      q := q + 1;
    }
    return true;
  }
}
