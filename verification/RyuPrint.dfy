/** Printing the decimal (common/d2s.c:263-336 and 630-959): digits written in pairs from the right,
    the point moved into place, and the text read back as the number that was printed. */
module RyuPrint {
  import opened RyuDigits

  function Char(d: int): char
    requires 0 <= d <= 9
  {
    '0' + d as char
  }

  // ----- Decimal strings -----

  /** The decimal digits of `v`, without leading zeros. */
  ghost function Digits(v: nat): (s: string)
    ensures |s| >= 1
  {
    if v < 10 then [Char(v)] else Digits(v / 10) + [Char(v % 10)]
  }

  /** The last `n` digits of `v`, leading zeros included. */
  ghost function Pad(v: nat, n: nat): (s: string)
    ensures |s| == n
    decreases n
  {
    if n == 0 then "" else Pad(v / 10, n - 1) + [Char(v % 10)]
  }

  ghost function Zeros(n: nat): (s: string)
    ensures |s| == n
  {
    seq(n, _ => '0')
  }

  /** `v` is its upper digits followed by its last `n`. */
  lemma {:induction false} DigitsSplit(v: nat, n: nat)
    requires Top(v, n) > 0
    ensures Digits(v) == Digits(Top(v, n)) + Pad(v, n)
    decreases n
  {
    if n == 0 {
      assert Digits(v) + "" == Digits(v);
    } else {
      TopShift(v, n - 1);
      TopPositive(v / 10, n - 1);
      DigitsSplit(v / 10, n - 1);
      assert v / 10 > 0;
      assert Digits(Top(v, n)) + (Pad(v / 10, n - 1) + [Char(v % 10)]) == (Digits(Top(v, n)) + Pad(v / 10, n - 1)) + [Char(v % 10)];
    }
  }

  lemma {:induction false} TopShift(v: nat, n: nat)
    ensures Top(v, n + 1) == Top(v / 10, n)
  {
    if n > 0 { TopShift(v, n - 1); }
  }

  lemma {:induction false} TopPositive(v: nat, n: nat)
    requires Top(v, n) > 0
    ensures v > 0
  {
    if n > 0 { TopPositive(v, n - 1); }
  }

  /** Two digits further to the left. */
  lemma PadPair(v: nat, n: nat)
    ensures Pad(v, n + 2) == Pad(Top(v, n), 2) + Pad(v, n)
    decreases n
  {
    if n > 0 {
      TopShift(v, n - 1);
      PadPair(v / 10, n - 1);
      assert Pad(v, n + 2) == Pad(v / 10, n + 1) + [Char(v % 10)];
    }
  }

  /** decimalLength, by comparison from high to low. */
  function DecimalLength(v: nat): (n: nat)
    requires v < 100000000000000000
  {
    if v >= 10000000000000000 then 17
    else if v >= 1000000000000000 then 16
    else if v >= 100000000000000 then 15
    else if v >= 10000000000000 then 14
    else if v >= 1000000000000 then 13
    else if v >= 100000000000 then 12
    else if v >= 10000000000 then 11
    else if v >= 1000000000 then 10
    else if v >= 100000000 then 9
    else if v >= 10000000 then 8
    else if v >= 1000000 then 7
    else if v >= 100000 then 6
    else if v >= 10000 then 5
    else if v >= 1000 then 4
    else if v >= 100 then 3
    else if v >= 10 then 2
    else 1
  }

  /** The comparisons give the number of decimal digits. */
  lemma {:induction false} LengthIsDigits(v: nat)
    requires v < 100000000000000000
    ensures |Digits(v)| == DecimalLength(v)
    decreases v
  {
    if v >= 10 { LengthIsDigits(v / 10); }
  }

  // ----- Writing digits -----

  /** Copy a pair from the digit table to result[at], result[at + 1]. */
  method PutPair(result: array<char>, at: nat, c: nat)
    requires at + 2 <= result.Length && c < 100
    modifies result
    ensures result[at..at + 2] == Pad(c, 2)
    ensures forall k :: 0 <= k < result.Length && k != at && k != at + 1 ==> result[k] == old(result[k])
  {
    result[at], result[at + 1] := Char(c / 10), Char(c % 10);
    assert Pad(c, 2) == Pad(c / 10, 1) + [Char(c % 10)];
    assert Pad(c / 10, 1) == Pad(c / 10 / 10, 0) + [Char(c / 10 % 10)];
  }

  /** The state of the digit writer: the last `i` digits of `v` stand before `end`. */
  ghost predicate Written(result: seq<char>, end: nat, v: nat, i: nat, rest: nat) {
    && i <= end <= |result|
    && rest == Top(v, i)
    && result[end - i..end] == Pad(v, i)
  }

  lemma TwoMore(v: nat, i: nat)
    ensures Top(v, i + 2) == Top(v, i) / 100
    ensures Pad(v, i + 2) == Pad(Top(v, i) % 100, 2) + Pad(v, i)
  {
    assert Top(v, i + 2) == Top(v, i + 1) / 10 == Top(v, i) / 10 / 10;
    PadPair(v, i);
    var t := Top(v, i);
    assert Pad(t, 2) == Pad(t / 10, 1) + [Char(t % 10)];
    assert Pad(t % 100, 2) == Pad(t % 100 / 10, 1) + [Char(t % 100 % 10)];
  }

  /** Room is left for the digits that remain. */
  lemma RoomLeft(v: nat, i: nat)
    requires Top(v, i) > 0
    ensures i + |Digits(Top(v, i))| == |Digits(v)|
  {
    DigitsSplit(v, i);
  }

  method PutTwo(result: array<char>, end: nat, ghost v: nat, i: nat, c: nat, ghost rest: nat)
    requires Written(result[..], end, v, i, rest) && i + 2 <= end && c == rest % 100
    modifies result
    ensures Written(result[..], end, v, i + 2, rest / 100)
    ensures forall k :: 0 <= k < result.Length && !(end - i - 2 <= k < end) ==> result[k] == old(result[k])
  {
    hide Pad, Top;
    ghost var tail := result[end - i..end];
    PutPair(result, end - i - 2, c);
    TwoMore(v, i);
    assert result[end - i..end] == tail;
    assert result[end - i - 2..end] == result[end - i - 2..end - i] + result[end - i..end];
  }

  /** Four digits at once: lines 714-721 and the two halves of 690-707. */
  method PutFour(result: array<char>, end: nat, ghost v: nat, i: nat, c: nat, ghost rest: nat)
    requires Written(result[..], end, v, i, rest) && i + 4 <= end && c == rest % 10000
    modifies result
    ensures Written(result[..], end, v, i + 4, rest / 10000)
    ensures forall k :: 0 <= k < result.Length && !(end - i - 4 <= k < end) ==> result[k] == old(result[k])
  {
    hide Written;
    assert c % 100 == rest % 100 && c / 100 == rest / 100 % 100 && rest / 100 / 100 == rest / 10000;
    PutTwo(result, end, v, i, c % 100, rest);
    PutTwo(result, end, v, i + 2, c / 100, rest / 100);
  }

  lemma {:induction false} AtLeastDigits(v: nat, n: nat)
    requires v >= Pow10(n)
    ensures |Digits(v)| >= n + 1
    decreases n
  {
    if n > 0 { AtLeastDigits(v / 10, n - 1); }
  }

  lemma SmallPowers()
    ensures Pow10(1) == 10 && Pow10(2) == 100 && Pow10(4) == 10000 && Pow10(8) == 100000000
  {
    assert Pow10(3) == 10 * Pow10(2);
    assert Pow10(6) == 10 * Pow10(5) && Pow10(5) == 10 * Pow10(4);
  }

  /** Lines 689-707 and 861-881: the last eight digits of a number that does not fit 32 bits. */
  method PutEight(result: array<char>, end: nat, v: nat) returns (q: nat)
    requires 0x1_0000_0000 <= v < 100000000000000000 && |Digits(v)| <= end <= result.Length
    modifies result
    ensures 8 <= |Digits(v)| && 1 <= q < 0x1_0000_0000 && Written(result[..], end, v, 8, q)
    ensures forall k :: 0 <= k < result.Length && !(end - 8 <= k < end) ==> result[k] == old(result[k])
  {
    hide Written, Pow10, Top, Digits;
    SmallPowers();
    AtLeastDigits(v, 8);
    NothingWritten(result[..], end, v);
    q := v / 100000000;
    var output2 := (v - 100000000 * q) % 0x1_0000_0000;
    var c := output2 % 10000;
    output2 := output2 / 10000;
    var d := output2 % 10000;
    Chunks(v);
    PutFour(result, end, v, 0, c, v);
    PutFour(result, end, v, 4, d, v / 10000);
  }

  lemma Chunks(v: nat)
    ensures var low := v - 100000000 * (v / 100000000);
            && 0 <= low < 100000000
            && low % 10000 == v % 10000 && low / 10000 % 10000 == v / 10000 % 10000
            && v / 10000 / 10000 == v / 100000000
  {
  }

  /** Lines 687-730 and 859-906: all digits but the first one or two, ending just before `end`. */
  method PutDigits(result: array<char>, end: nat, v: nat) returns (rest: nat, i: nat)
    requires 1 <= v < 100000000000000000 && |Digits(v)| <= end <= result.Length
    modifies result
    ensures Written(result[..], end, v, i, rest) && 1 <= rest < 100
    ensures i + |Digits(rest)| == |Digits(v)|
    ensures forall k :: 0 <= k < result.Length && !(end - i <= k < end) ==> result[k] == old(result[k])
  {
    hide Written, Pow10, Top, Digits;
    SmallPowers();
    i := 0;
    var output := v;
    NothingWritten(result[..], end, v);
    if output / 0x1_0000_0000 != 0 {
      output := PutEight(result, end, v);
      i := 8;
    }
    Remains(result[..], end, v, i, output);
    assert output < 0x1_0000_0000;
    rest := output % 0x1_0000_0000;
    while rest >= 10000
      invariant Written(result[..], end, v, i, rest) && rest >= 1 && i + |Digits(rest)| == |Digits(v)|
      invariant forall k :: 0 <= k < result.Length && !(end - i <= k < end) ==> result[k] == old(result[k])
      decreases rest
    {
      AtLeastDigits(rest, 4);
      PutFour(result, end, v, i, rest - 10000 * (rest / 10000), rest);
      rest := rest / 10000;
      i := i + 4;
      Remains(result[..], end, v, i, rest);
    }
    if rest >= 100 {
      AtLeastDigits(rest, 2);
      PutTwo(result, end, v, i, rest % 100, rest);
      rest := rest / 100;
      i := i + 2;
      Remains(result[..], end, v, i, rest);
    }
  }

  lemma NothingWritten(result: seq<char>, end: nat, v: nat)
    requires end <= |result|
    ensures Written(result, end, v, 0, v)
  {
  }

  lemma Remains(result: seq<char>, end: nat, v: nat, i: nat, rest: nat)
    requires Written(result, end, v, i, rest) && rest >= 1
    ensures i + |Digits(rest)| == |Digits(v)|
  {
    RoomLeft(v, i);
  }

  /** Lines 687-740: all digits of `v` at result[at..]. */
  method PutAll(result: array<char>, at: nat, v: nat, olength: nat)
    requires 1 <= v < 100000000000000000 && olength == |Digits(v)| && at + olength <= result.Length
    modifies result
    ensures result[at..at + olength] == Digits(v)
    ensures forall k :: 0 <= k < result.Length && !(at <= k < at + olength) ==> result[k] == old(result[k])
  {
    hide Digits, Top, Pad;
    var end := at + olength;
    var rest, i := PutDigits(result, end, v);
    LastDigits(rest);
    DigitsSplit(v, i);
    ghost var tail := result[end - i..end];
    if rest >= 10 {
      PutPair(result, end - i - 2, rest);
    } else {
      result[at] := Char(rest);
    }
    assert result[end - i..end] == tail;
    assert result[at..end] == result[at..end - i] + result[end - i..end];
  }

  lemma LastDigits(v: nat)
    requires v < 100
    ensures Digits(v) == if v >= 10 then [Char(v / 10), Char(v % 10)] else [Char(v)]
    ensures v >= 10 ==> Digits(v) == Pad(v, 2)
  {
    if v >= 10 {
      assert Digits(v) == Digits(v / 10) + [Char(v % 10)];
      assert Pad(v, 2) == Pad(v / 10, 1) + [Char(v % 10)];
      assert Pad(v / 10, 1) == [Char(v / 10 % 10)];
    }
  }

  // ----- Fixed-point layout -----

  ghost function Fixed(d: string, e: int): (s: string)
    requires |d| >= 1
  {
    var nexp := e + |d|;
    if nexp <= 0 then "0." + Zeros(-nexp) + d
    else if e < 0 then d[..nexp] + "." + d[nexp..]
    else d + Zeros(e)
  }

  /** memmove of `n` characters one place to the left. */
  method MoveLeft(result: array<char>, at: nat, n: nat)
    requires 1 <= at && at + n <= result.Length
    modifies result
    ensures result[at - 1..at - 1 + n] == old(result[at..at + n])
    ensures forall k :: 0 <= k < result.Length && !(at - 1 <= k < at - 1 + n) ==> result[k] == old(result[k])
  {
    forall k | 0 <= k < n {
      result[at - 1 + k] := result[at + k];
    }
  }

  /** The first `t` digits have been moved to the front of result[base..], the rest wait one place on. */
  ghost predicate Moved(result: seq<char>, base: nat, d: string, t: nat) {
    && t <= |d| && base + |d| + 1 <= |result|
    && (forall k :: 0 <= k < t ==> result[base + k] == d[k])
    && (forall k :: t <= k < |d| ==> result[base + 1 + k] == d[k])
  }

  method MoveSome(result: array<char>, base: nat, ghost d: string, t: nat, n: nat)
    requires Moved(result[..], base, d, t) && t + n <= |d|
    modifies result
    ensures Moved(result[..], base, d, t + n)
    ensures forall k :: 0 <= k < result.Length && !(base <= k < base + |d|) ==> result[k] == old(result[k])
  {
    ghost var before := result[..];
    MoveLeft(result, base + t + 1, n);
    ghost var moved := result[base + t..base + t + n];
    forall k | t <= k < t + n
      ensures result[base + k] == d[k]
    {
      assert moved[k - t] == before[base + t + 1..base + t + 1 + n][k - t] == before[base + 1 + k];
    }
  }

  /** Lines 751-770: move the first `nexp` digits in runs of 8, 4, 2 and 1, and put the point after them. */
  method InsertPoint(result: array<char>, base: nat, nexp: nat, ghost d: string)
    requires 1 <= nexp < 16 && nexp <= |d| && base + |d| + 1 <= result.Length
    requires result[base + 1..base + 1 + |d|] == d
    modifies result
    ensures result[base..base + |d| + 1] == d[..nexp] + "." + d[nexp..]
    ensures forall k :: 0 <= k < result.Length && !(base <= k < base + |d| + 1) ==> result[k] == old(result[k])
  {
    hide Moved, HasBit;
    NothingMoved(result[..], base, d);
    SumOfBits(nexp);
    var t := MoveRun(result, base, d, 0, 8, HasBit(nexp, 8));
    t := MoveRun(result, base, d, t, 4, HasBit(nexp, 4));
    t := MoveRun(result, base, d, t, 2, HasBit(nexp, 2));
    t := MoveRun(result, base, d, t, 1, HasBit(nexp, 1));
    ghost var moved := result[..];
    result[base + nexp] := '.';
    PointIn(moved, result[..], base, d, nexp);
  }

  /** One of the conditional moves of lines 751-769. */
  method MoveRun(result: array<char>, base: nat, ghost d: string, t: nat, n: nat, wanted: bool) returns (t': nat)
    requires Moved(result[..], base, d, t) && (wanted ==> t + n <= |d|)
    modifies result
    ensures t' == (if wanted then t + n else t) && Moved(result[..], base, d, t')
    ensures forall k :: 0 <= k < result.Length && !(base <= k < base + |d|) ==> result[k] == old(result[k])
  {
    t' := t;
    if wanted {
      MoveSome(result, base, d, t, n);
      t' := t + n;
    }
  }

  /** x & b for a single bit b. */
  predicate HasBit(x: nat, b: nat)
    requires b > 0
  {
    x / b % 2 == 1
  }

  lemma SumOfBits(x: nat)
    requires x < 16
    ensures x == (if HasBit(x, 8) then 8 else 0) + (if HasBit(x, 4) then 4 else 0) + (if HasBit(x, 2) then 2 else 0) + (if HasBit(x, 1) then 1 else 0)
  {
  }

  lemma NothingMoved(result: seq<char>, base: nat, d: string)
    requires base + |d| + 1 <= |result| && result[base + 1..base + 1 + |d|] == d
    ensures Moved(result, base, d, 0)
  {
    forall k | 0 <= k < |d|
      ensures result[base + 1 + k] == d[k]
    {
      assert d[k] == result[base + 1..base + 1 + |d|][k];
    }
  }

  lemma PointIn(moved: seq<char>, result: seq<char>, base: nat, d: string, nexp: nat)
    requires Moved(moved, base, d, nexp) && result == moved[base + nexp := '.']
    ensures result[base..base + |d| + 1] == d[..nexp] + "." + d[nexp..]
  {
    var text := d[..nexp] + "." + d[nexp..];
    forall k | 0 <= k < |text|
      ensures result[base + k] == text[k]
    {
      if k < nexp {
        assert text[k] == d[k];
      } else if k > nexp {
        assert text[k] == d[k - 1];
      }
    }
  }

  /** to_chars_df: lines 630-784, writing from result[base] on. */
  method ToCharsDf(result: array<char>, base: nat, m: nat, e: int, olength: nat) returns (n: nat)
    requires 1 <= m < 100000000000000000 && olength == |Digits(m)| <= 17 && -3 <= e + olength <= 15
    requires base <= 1 && result.Length >= 24
    modifies result
    ensures n == |Fixed(Digits(m), e)| && base + n <= result.Length
    ensures result[base..base + n] == Fixed(Digits(m), e)
    ensures forall k :: 0 <= k < base ==> result[k] == old(result[k])
  {
    hide Digits, Fixed;
    var nexp := e + olength;
    FixedIs(Digits(m), e);
    if nexp <= 0 {
      n := PutLeadingZeros(result, base, m, olength, -nexp);
    } else if e < 0 {
      PutAll(result, base + 1, m, olength);
      InsertPoint(result, base, nexp, Digits(m));
      n := olength + 1;
    } else {
      n := PutTrailingZeros(result, base, m, olength, e);
    }
  }

  lemma FixedIs(d: string, e: int)
    requires |d| >= 1
    ensures var nexp := e + |d|;
            && (nexp <= 0 ==> Fixed(d, e) == "0." + Zeros(-nexp) + d)
            && (nexp > 0 && e < 0 ==> Fixed(d, e) == d[..nexp] + "." + d[nexp..] && |Fixed(d, e)| == |d| + 1)
            && (nexp > 0 && e >= 0 ==> Fixed(d, e) == d + Zeros(e))
  {
  }

  lemma ZeroPoint(zeros: nat)
    requires zeros <= 6
    ensures "0.000000"[..2 + zeros] == "0." + Zeros(zeros)
  {
  }

  /** 0.000ddddd */
  method PutLeadingZeros(result: array<char>, base: nat, m: nat, olength: nat, zeros: nat) returns (n: nat)
    requires 1 <= m < 100000000000000000 && olength == |Digits(m)| <= 17 && zeros <= 3
    requires base <= 1 && result.Length >= 24
    modifies result
    ensures n == 2 + zeros + olength && base + n <= result.Length
    ensures result[base..base + n] == "0." + Zeros(zeros) + Digits(m)
    ensures forall k :: 0 <= k < base ==> result[k] == old(result[k])
  {
    hide Digits;
    PutString(result, base, "0.000000");
    var index := 2 + zeros;
    ghost var head := result[base..base + index];
    assert head == result[base..base + 8][..index];
    ZeroPoint(zeros);
    PutAll(result, base + index, m, olength);
    assert result[base..base + index] == head;
    n := olength + index;
    assert result[base..base + n] == result[base..base + index] + result[base + index..base + n];
  }

  /** ddddd000 */
  method PutTrailingZeros(result: array<char>, base: nat, m: nat, olength: nat, zeros: nat) returns (n: nat)
    requires 1 <= m < 100000000000000000 && olength == |Digits(m)| && olength + zeros <= 16
    requires base <= 1 && result.Length >= 24
    modifies result
    ensures n == olength + zeros && base + n <= result.Length
    ensures result[base..base + n] == Digits(m) + Zeros(zeros)
    ensures forall k :: 0 <= k < base ==> result[k] == old(result[k])
  {
    hide Digits;
    forall k | 0 <= k < 16 {
      result[base + k] := '0';
    }
    n := olength + zeros;
    ghost var tail := result[base + olength..base + n];
    assert tail == Zeros(zeros);
    PutAll(result, base, m, olength);
    assert result[base + olength..base + n] == tail;
    assert result[base..base + n] == result[base..base + olength] + result[base + olength..base + n];
  }

  /** memcpy of a constant text. */
  method PutString(result: array<char>, at: nat, s: string)
    requires at + |s| <= result.Length
    modifies result
    ensures result[at..at + |s|] == s
    ensures forall k :: 0 <= k < result.Length && !(at <= k < at + |s|) ==> result[k] == old(result[k])
  {
    forall k | 0 <= k < |s| {
      result[at + k] := s[k];
    }
  }

  // ----- Scientific layout -----

  ghost function Scientific(d: string, x: int): (s: string)
    requires |d| >= 1
  {
    Mantissa(d) + Exponent(x)
  }

  ghost function Mantissa(d: string): (s: string)
    requires |d| >= 1
  {
    if |d| > 1 then d[..1] + "." + d[1..] else d
  }

  ghost function Exponent(x: int): (s: string) {
    var a: nat := if x < 0 then -x else x;
    "e" + (if x < 0 then "-" else "+") + (if a >= 100 then Pad(a, 3) else Pad(a, 2))
  }

  /** Lines 852-932. */
  method PutMantissa(result: array<char>, start: nat, v: nat, olength: nat) returns (index: nat)
    requires 1 <= v < 100000000000000000 && olength == |Digits(v)| && start + olength + 1 <= result.Length
    modifies result
    ensures index == start + |Mantissa(Digits(v))| && index <= result.Length && result[start..index] == Mantissa(Digits(v))
    ensures forall k :: 0 <= k < start ==> result[k] == old(result[k])
  {
    hide Digits, Top, Pad;
    ghost var d := Digits(v);
    var end := start + olength + 1;
    var rest, i := PutDigits(result, end, v);
    LastDigits(rest);
    DigitsSplit(v, i);
    ghost var tail := result[end - i..end];
    if rest >= 10 {
      result[start + olength - i] := Char(rest % 10);
      result[start] := Char(rest / 10);
    } else {
      result[start] := Char(rest);
    }
    assert result[end - i..end] == tail;
    assert d[..1] == [result[start]];
    assert olength > 1 ==> result[start + 2..end] == d[1..] by {
      if rest >= 10 {
        assert d[1..] == [Char(rest % 10)] + tail;
        assert result[start + 2..end] == [result[start + 2]] + result[start + 3..end];
      } else {
        assert d[1..] == tail;
      }
    }
    if olength > 1 {
      ghost var low := result[start + 2..end];
      result[start + 1] := '.';
      index := end;
      assert result[start + 2..end] == low;
      assert result[start..index] == [result[start]] + [result[start + 1]] + result[start + 2..end];
    } else {
      index := start + 1;
      assert d == d[..1];
    }
  }

  /** Lines 934-956. */
  method PutExponent(result: array<char>, start: nat, exp: int) returns (index: nat)
    requires -1000 < exp < 1000 && start + 5 <= result.Length
    modifies result
    ensures index == start + |Exponent(exp)| && index <= result.Length && result[start..index] == Exponent(exp)
    ensures forall k :: 0 <= k < start ==> result[k] == old(result[k])
  {
    hide Pad;
    index := start;
    result[index] := 'e';
    index := index + 1;
    var x := exp;
    if x < 0 {
      result[index] := '-';
      index := index + 1;
      x := -x;
    } else {
      result[index] := '+';
      index := index + 1;
    }
    ghost var head := result[start..index];
    if x >= 100 {
      var c := x % 10;
      PutPair(result, index, x / 10);
      result[index + 2] := Char(c);
      assert result[index..index + 3] == result[index..index + 2] + [result[index + 2]];
      LastOfThree(x);
      index := index + 3;
      assert result[start..index] == result[start..start + 2] + result[start + 2..index];
    } else {
      PutPair(result, index, x);
      index := index + 2;
      assert result[start..index] == result[start..start + 2] + result[start + 2..index];
    }
    assert result[start..start + 2] == head;
  }

  lemma LastOfThree(x: nat)
    ensures Pad(x, 3) == Pad(x / 10, 2) + [Char(x % 10)]
  {
  }

  /** Trailing zeros removed: what the loop of lines 825-837 leaves. */
  ghost function Strip(v: nat): (r: nat) {
    if v > 0 && v % 10 == 0 then Strip(v / 10) else v
  }

  /** The number without its sign, in one of the two layouts. */
  ghost function Body(m: nat, e: int): (s: string) {
    var x := e + |Digits(m)| - 1;
    if -4 <= x < 15 then Fixed(Digits(m), e) else Scientific(Digits(if e == 0 then Strip(m) else m), x)
  }

  ghost function Text(neg: bool, m: nat, e: int): (s: string) {
    (if neg then "-" else "") + Body(m, e)
  }

  /** to_chars: for every mantissa and exponent it may be given, the buffer of 24 characters suffices,
      the text is `Text` and its length is returned. */
  method ToChars(result: array<char>, m: nat, e: int, sign: bool) returns (n: nat)
    requires 1 <= m < 100000000000000000 && -1000 < e + |Digits(m)| - 1 < 1000
    requires result.Length >= 24
    modifies result
    ensures n == |Text(sign, m, e)| && n <= result.Length && result[..n] == Text(sign, m, e)
  {
    hide Digits, Strip, Fixed, Scientific;
    LengthIsDigits(m);
    var index := 0;
    var output := m;
    var olength := DecimalLength(output);
    var exp := e + olength - 1;
    if sign {
      result[index] := '-';
      index := index + 1;
    }
    ghost var head := result[..index];
    if exp >= -4 && exp < 15 {
      n := ToCharsDf(result, index, m, e, olength);
      assert result[..index] == head;
      assert result[..index + n] == result[..index] + result[index..index + n];
      n := n + index;
      return;
    }
    if e == 0 {
      output, olength := StripZeros(output, olength);
    }
    LengthBound(output);
    n := PutScientific(result, index, output, olength, exp);
    assert result[..index] == head;
    assert result[..n] == result[..index] + result[index..n];
  }

  /** Lines 825-837. */
  method StripZeros(m: nat, length: nat) returns (output: nat, olength: nat)
    requires m >= 1 && length == |Digits(m)|
    ensures output == Strip(m) && 1 <= output <= m && olength == |Digits(output)|
  {
    hide Digits, Strip;
    output, olength := m, length;
    while output % 2 == 0
      invariant 1 <= output <= m && olength == |Digits(output)| && Strip(output) == Strip(m)
      decreases output
    {
      StripStep(output);
      var q := output / 10;
      if output - 10 * q != 0 {
        break;
      }
      output := q;
      olength := olength - 1;
    }
    StripStep(output);
  }

  /** Lines 839-958. */
  method PutScientific(result: array<char>, start: nat, output: nat, olength: nat, exp: int) returns (n: nat)
    requires 1 <= output < 100000000000000000 && olength == |Digits(output)| <= 17 && -1000 < exp < 1000
    requires start <= 1 && result.Length >= 24
    modifies result
    ensures n <= result.Length && n == start + |Scientific(Digits(output), exp)|
    ensures result[start..n] == Scientific(Digits(output), exp)
    ensures forall k :: 0 <= k < start ==> result[k] == old(result[k])
  {
    hide Digits, Mantissa, Exponent;
    MantissaLength(Digits(output));
    var index := PutMantissa(result, start, output, olength);
    ghost var mantissa := result[start..index];
    n := PutExponent(result, index, exp);
    assert result[start..index] == mantissa;
    assert result[start..n] == result[start..index] + result[index..n];
  }

  lemma StripStep(v: nat)
    requires v > 0
    ensures v % 10 != 0 ==> Strip(v) == v
    ensures v % 10 == 0 ==> v / 10 > 0 && Strip(v / 10) == Strip(v) && |Digits(v / 10)| == |Digits(v)| - 1
  {
  }

  lemma LengthBound(v: nat)
    requires v < 100000000000000000
    ensures |Digits(v)| <= 17
  {
    LengthIsDigits(v);
  }

  lemma MantissaLength(d: string)
    requires |d| >= 1
    ensures |Mantissa(d)| <= |d| + 1
  {
  }
}
