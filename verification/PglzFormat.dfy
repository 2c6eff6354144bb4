/** The compressed format of pglz: items, their encoding in groups of eight, and their meaning. */
module PglzFormat {
  import opened Common
  import opened PglzHistory

  /** A literal byte, or a tag: "copy `len` bytes from `off` bytes back". */
  datatype Item = Literal(byte: Byte) | Tag(len: int, off: int)

  ghost predicate ItemFits(it: Item) {
    it.Tag? ==> 3 <= it.len <= MAX_MATCH && 1 <= it.off <= 0xfff
  }

  // ----- Meaning -----

  /** Byte-at-a-time copy: each new byte repeats the one `off` before it. */
  ghost function CopyBack(out: seq<Byte>, off: nat, len: nat): (r: seq<Byte>)
    requires 1 <= off <= |out|
    ensures |r| == |out| + len
    decreases len
  {
    if len == 0 then out else CopyBack(out + [out[|out| - off]], off, len - 1)
  }

  lemma {:induction false} CopyBackAt(out: seq<Byte>, off: nat, len: nat)
    requires 1 <= off <= |out|
    ensures var r := CopyBack(out, off, len);
            r[..|out|] == out && forall i :: |out| <= i < |r| ==> r[i] == r[i - off]
    decreases len
  {
    if len > 0 {
      var out' := out + [out[|out| - off]];
      CopyBackAt(out', off, len - 1);
      var r := CopyBack(out', off, len - 1);
      assert r[..|out|] == r[..|out'|][..|out|] == out;
      assert r[|out|] == r[..|out'|][|out|] == out[|out| - off] == r[..|out|][|out| - off];
    }
  }

  /** Repeated every `off` bytes is repeated every `m * off` bytes. */
  lemma {:induction false} Periodic(r: seq<Byte>, start: nat, off: nat, m: nat, i: nat)
    requires off >= 1 && forall j :: start + off <= j < |r| ==> r[j] == r[j - off]
    requires start + m * off <= i < |r|
    ensures 0 <= i - m * off && r[i] == r[i - m * off]
    decreases m
  {
    if m > 0 {
      assert (m - 1) * off == m * off - off;
      assert 0 <= (m - 1) * off;
      Periodic(r, start, off, m - 1, i - off);
    }
  }

  ghost predicate Applies(n: nat, it: Item) {
    ItemFits(it) && (it.Tag? ==> it.off <= n)
  }

  ghost function Apply(out: seq<Byte>, it: Item): (r: seq<Byte>)
    requires Applies(|out|, it)
    ensures |r| == |out| + Size(it)
  {
    match it
    case Literal(b) => out + [b]
    case Tag(len, off) => CopyBack(out, off, len)
  }

  ghost function Size(it: Item): (n: nat)
    requires ItemFits(it)
    ensures n >= 1
  {
    match it
    case Literal(_) => 1
    case Tag(len, _) => len
  }

  /** No item reaches back before the start of the output. */
  ghost predicate WellFormed(items: seq<Item>)
    decreases |items|, 0
  {
    items == [] || (var k := |items| - 1; WellFormed(items[..k]) && Applies(|Expand(items[..k])|, items[k]))
  }

  /** The bytes the items stand for. */
  ghost function Expand(items: seq<Item>): (r: seq<Byte>)
    requires WellFormed(items)
    decreases |items|, 1
  {
    if items == [] then [] else var k := |items| - 1; Apply(Expand(items[..k]), items[k])
  }

  lemma ExpandSnoc(items: seq<Item>, i: nat)
    requires i < |items| && WellFormed(items[..i + 1])
    ensures WellFormed(items[..i]) && Applies(|Expand(items[..i])|, items[i])
    ensures Expand(items[..i + 1]) == Apply(Expand(items[..i]), items[i])
  {
    assert items[..i + 1][..i] == items[..i];
  }

  lemma ExpandPush(items: seq<Item>, it: Item)
    requires WellFormed(items) && Applies(|Expand(items)|, it)
    ensures WellFormed(items + [it]) && Expand(items + [it]) == Apply(Expand(items), it)
  {
    assert (items + [it])[..|items|] == items;
  }

  lemma {:induction false} WellFormedPrefix(items: seq<Item>, i: nat)
    requires i <= |items| && WellFormed(items)
    ensures WellFormed(items[..i])
    decreases |items|
  {
    if i == |items| {
      assert items[..i] == items;
    } else {
      var k := |items| - 1;
      WellFormedPrefix(items[..k], i);
      assert items[..k][..i] == items[..i];
    }
  }

  lemma ApplyExtends(out: seq<Byte>, it: Item)
    requires Applies(|out|, it)
    ensures Apply(out, it)[..|out|] == out
  {
    if it.Tag? { CopyBackAt(out, it.off, it.len); }
  }

  /** A longer item list only adds to the output. */
  lemma {:induction false} ExpandPrefix(items: seq<Item>, i: nat)
    requires i <= |items| && WellFormed(items)
    ensures WellFormed(items[..i])
    ensures var a, b := Expand(items[..i]), Expand(items);
            |a| <= |b| && a == b[..|a|] && (i < |items| ==> |a| < |b|)
    decreases |items|
  {
    WellFormedPrefix(items, i);
    if i == |items| {
      assert items[..i] == items;
    } else {
      var k := |items| - 1;
      ExpandPrefix(items[..k], i);
      assert items[..k][..i] == items[..i];
      ApplyExtends(Expand(items[..k]), items[k]);
      var a, b, c := Expand(items[..i]), Expand(items), Expand(items[..k]);
      assert b[..|c|] == c;
      assert a == c[..|a|] == b[..|c|][..|a|] == b[..|a|];
    }
  }

  // ----- Encoding -----

  function ItemBytes(it: Item): (bs: seq<Byte>)
    requires it.Tag? ==> 3 <= it.len <= MAX_MATCH && 1 <= it.off <= 0xfff
    ensures 1 <= |bs| <= 3
  {
    match it
    case Literal(b) => [b]
    case Tag(len, off) =>
      if len > 17 then [off / 256 * 16 + 15, off % 256, len - 18]
      else [off / 256 * 16 + (len - 3), off % 256]
  }

  ghost predicate AllFit(items: seq<Item>) {
    forall i :: 0 <= i < |items| ==> ItemFits(items[i])
  }

  /** The control bits, the first item in the lowest bit. */
  ghost function Bits(items: seq<Item>): (b: nat) {
    if items == [] then 0 else (if items[0].Tag? then 1 else 0) + 2 * Bits(items[1..])
  }

  lemma {:induction false} BitsBound(items: seq<Item>)
    ensures Bits(items) < Pow2(|items|)
  {
    if items != [] { BitsBound(items[1..]); }
  }

  lemma {:induction false} BitsSnoc(items: seq<Item>, it: Item)
    ensures Bits(items + [it]) == Bits(items) + if it.Tag? then Pow2(|items|) else 0
  {
    if items == [] {
      assert Bits([it]) == (if it.Tag? then 1 else 0) + 2 * Bits([it][1..]);
    } else {
      BitsSnoc(items[1..], it);
      assert (items + [it])[1..] == items[1..] + [it];
    }
  }

  ghost function Bodies(items: seq<Item>): (bs: seq<Byte>)
    requires AllFit(items)
    ensures |bs| >= |items|
  {
    if items == [] then [] else ItemBytes(items[0]) + Bodies(items[1..])
  }

  lemma {:induction false} BodiesSnoc(items: seq<Item>, it: Item)
    requires AllFit(items) && ItemFits(it)
    ensures AllFit(items + [it]) && Bodies(items + [it]) == Bodies(items) + ItemBytes(it)
  {
    if items == [] {
      assert [it][1..] == [];
    } else {
      BodiesSnoc(items[1..], it);
      assert (items + [it])[1..] == items[1..] + [it];
    }
  }

  ghost function FirstGroup(items: seq<Item>): (n: nat) {
    if |items| < 8 then |items| else 8
  }

  lemma ByteBound(items: seq<Item>)
    requires |items| <= 8
    ensures Bits(items) < 256
  {
    BitsBound(items);
    assert Pow2(8) == 256;
    Pow2Monotone(|items|, 8);
  }

  lemma {:induction false} Pow2Monotone(i: nat, j: nat)
    requires i <= j
    ensures Pow2(i) <= Pow2(j)
    decreases j
  {
    if i < j { Pow2Monotone(i, j - 1); }
  }

  ghost function Group(items: seq<Item>): (bs: seq<Byte>)
    requires AllFit(items) && |items| <= 8
    ensures |bs| == 1 + |Bodies(items)|
  {
    ByteBound(items);
    [Bits(items)] + Bodies(items)
  }

  /** The compressed form: each group of up to eight items after its control byte. */
  ghost function Encode(items: seq<Item>): (bs: seq<Byte>)
    requires AllFit(items)
    ensures items == [] <==> bs == []
    decreases |items|
  {
    if items == [] then []
    else var n := FirstGroup(items); Group(items[..n]) + Encode(items[n..])
  }

  lemma EncodeUnfold(items: seq<Item>)
    requires AllFit(items) && items != []
    ensures var n := FirstGroup(items);
            && AllFit(items[..n]) && AllFit(items[n..])
            && Encode(items) == Group(items[..n]) + Encode(items[n..])
  {
  }

  lemma {:induction false} EncodeAppend(a: seq<Item>, b: seq<Item>)
    requires AllFit(a) && AllFit(b) && |a| % 8 == 0
    ensures AllFit(a + b) && Encode(a + b) == Encode(a) + Encode(b)
    decreases |a|
  {
    hide Group, ItemFits, Encode;
    if a == [] {
      assert a + b == b;
      assert Encode(a) == [];
    } else {
      var c := a[8..];
      EncodeUnfold(a);
      EncodeUnfold(a + b);
      EncodeAppend(c, b);
      assert (a + b)[..8] == a[..8];
      assert (a + b)[8..] == c + b;
    }
  }

  lemma EncodeGroup(g: seq<Item>)
    requires AllFit(g) && 1 <= |g| <= 8
    ensures Encode(g) == Group(g)
  {
    assert g[..FirstGroup(g)] == g;
    assert g[FirstGroup(g)..] == [];
  }

  lemma {:induction false} BodiesAppend(a: seq<Item>, b: seq<Item>)
    requires AllFit(a) && AllFit(b)
    ensures AllFit(a + b) && |Bodies(a + b)| == |Bodies(a)| + |Bodies(b)|
    decreases |a|
  {
    hide ItemBytes, ItemFits;
    if a == [] {
      assert a + b == b;
    } else {
      BodiesAppend(a[1..], b);
      assert (a + b)[1..] == a[1..] + b;
    }
  }

  lemma {:induction false} EncodeLength(items: seq<Item>)
    requires AllFit(items)
    ensures |Encode(items)| == |Bodies(items)| + (|items| + 7) / 8
    decreases |items|
  {
    hide Encode, Bodies, Bits, ItemFits;
    if items == [] {
      assert |Bodies(items)| == 0 by { BodiesNil(); }
    } else {
      EncodeUnfold(items);
      var n := FirstGroup(items);
      EncodeLength(items[n..]);
      BodiesAppend(items[..n], items[n..]);
      assert items[..n] + items[n..] == items;
    }
  }

  lemma BodiesNil()
    ensures Bodies([]) == []
  {
  }

  /** Adding items never shortens the encoding. */
  lemma EncodeMonotone(items: seq<Item>, i: nat)
    requires AllFit(items) && i <= |items|
    ensures AllFit(items[..i]) && |Encode(items[..i])| <= |Encode(items)|
  {
    hide Encode, Bodies;
    var a, b := items[..i], items[i..];
    assert a + b == items;
    BodiesAppend(a, b);
    EncodeLength(a);
    EncodeLength(items);
  }

  /** The bytes of a group: control bits from the low end, a set bit for a tag; in a tag the offset's high four bits above
      the length less three, then its low eight bits; lengths from 18 on in a third byte. */
  lemma FormatExample()
    ensures Encode([Literal(97), Tag(5, 0x123), Literal(98), Tag(273, 1)]) == [0x0A, 97, 0x12, 0x23, 98, 0x0F, 0x01, 255]
    ensures Encode([Tag(17, 2), Tag(18, 3), Tag(3, 0xFFE), Literal(0)]) == [7, 0x0E, 2, 0x0F, 3, 0, 0xF0, 0xFE, 0]
  {
    hide Encode;
    FourItems(Literal(97), Tag(5, 0x123), Literal(98), Tag(273, 1));
    FourItems(Tag(17, 2), Tag(18, 3), Tag(3, 0xFFE), Literal(0));
  }

  lemma FourItems(a: Item, b: Item, c: Item, d: Item)
    requires ItemFits(a) && ItemFits(b) && ItemFits(c) && ItemFits(d)
    ensures AllFit([a, b, c, d])
    ensures Encode([a, b, c, d]) ==
            [(if a.Tag? then 1 else 0) + (if b.Tag? then 2 else 0) + (if c.Tag? then 4 else 0) + (if d.Tag? then 8 else 0)]
            + ItemBytes(a) + ItemBytes(b) + ItemBytes(c) + ItemBytes(d)
  {
    hide ItemBytes, ItemFits, Encode;
    var items := [a, b, c, d];
    OneGroup(items);
    assert items[1..] == [b, c, d] && [b, c, d][1..] == [c, d] && [c, d][1..] == [d] && [d][1..] == [];
    FourBits(a, b, c, d);
    FourBodies(a, b, c, d);
  }

  lemma FourBits(a: Item, b: Item, c: Item, d: Item)
    ensures Bits([a, b, c, d]) == (if a.Tag? then 1 else 0) + (if b.Tag? then 2 else 0) + (if c.Tag? then 4 else 0) + (if d.Tag? then 8 else 0)
  {
    BitsSnoc([], a);
    BitsSnoc([a], b);
    BitsSnoc([a, b], c);
    BitsSnoc([a, b, c], d);
    assert [] + [a] == [a] && [a] + [b] == [a, b] && [a, b] + [c] == [a, b, c] && [a, b, c] + [d] == [a, b, c, d];
    assert Pow2(1) == 2 && Pow2(2) == 4 && Pow2(3) == 8;
  }

  lemma FourBodies(a: Item, b: Item, c: Item, d: Item)
    requires ItemFits(a) && ItemFits(b) && ItemFits(c) && ItemFits(d)
    ensures AllFit([a, b, c, d]) && Bodies([a, b, c, d]) == ItemBytes(a) + ItemBytes(b) + ItemBytes(c) + ItemBytes(d)
  {
    hide ItemBytes, ItemFits;
    BodiesSnoc([], a);
    BodiesSnoc([a], b);
    BodiesSnoc([a, b], c);
    BodiesSnoc([a, b, c], d);
    assert [] + [a] == [a] && [a] + [b] == [a, b] && [a, b] + [c] == [a, b, c] && [a, b, c] + [d] == [a, b, c, d];
  }

  lemma OneGroup(items: seq<Item>)
    requires AllFit(items) && 1 <= |items| <= 8
    ensures Encode(items) == [Bits(items)] + Bodies(items)
  {
    assert items[..|items|] == items && items[|items|..] == [];
  }
}
