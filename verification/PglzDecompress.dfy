/** pglz_decompress (common/pg_lzcompress.c:688-803), in place on the destination buffer. */
module PglzDecompress {
  import opened Common
  import opened PglzFormat

  function Min(a: int, b: int): int { if a < b then a else b }

  /** Lines 740-773: resolve a possibly overlapping copy by doubling the offset. */
  method CopyMatch(dest: array<Byte>, start: nat, offset: nat, length: nat) returns (dp: nat)
    requires 1 <= offset <= start && start + length <= dest.Length
    modifies dest
    ensures dp == start + length
    ensures dest[..dp] == CopyBack(old(dest[..start]), offset, length)
    ensures forall i :: dp <= i < dest.Length ==> dest[i] == old(dest[i])
  {
    hide CopyBack;
    ghost var r := CopyBack(dest[..start], offset, length);
    CopyBackAt(dest[..start], offset, length);
    ghost var first, m := start - offset, 1;
    var off, len := offset, length;
    dp := start;
    while off < len
      invariant start <= dp && dp + len == start + length && 0 <= len
      invariant offset <= off && m >= 1 && off == m * offset && dp - off == first
      invariant dest[..dp] == r[..dp]
      invariant forall i :: start + length <= i < dest.Length ==> dest[i] == old(dest[i])
      decreases len
    {
      CopyOnce(dest, dp, off, off, r, offset, m);
      len, dp, off, m := len - off, dp + off, off + off, m + m;
    }
    CopyOnce(dest, dp, off, len, r, offset, m);
    dp := dp + len;
    assert r == r[..dp];
  }

  /** memcpy of a region that does not overlap its source. */
  method CopyOnce(dest: array<Byte>, dp: nat, off: nat, len: nat, ghost r: seq<Byte>, ghost period: nat, ghost m: nat)
    requires 0 <= len <= off <= dp && dp + len <= dest.Length && dp + len <= |r|
    requires period >= 1 && m >= 1 && off == m * period
    requires forall j :: dp - off + period <= j < |r| ==> r[j] == r[j - period]
    requires dest[..dp] == r[..dp]
    modifies dest
    ensures dest[..dp + len] == r[..dp + len]
    ensures forall i :: dp + len <= i < dest.Length ==> dest[i] == old(dest[i])
  {
    forall i | 0 <= i < len {
      dest[dp + i] := dest[dp - off + i];
    }
    forall k | 0 <= k < dp + len
      ensures dest[k] == r[k]
    {
      if k < dp {
        assert dest[k] == old(dest[..dp])[k] == r[..dp][k];
      } else {
        Periodic(r, dp - off, period, m, k);
        assert dest[k] == old(dest[..dp])[k - off] == r[..dp][k - off];
      }
    }
  }

  lemma {:induction false} CopyBackShorter(out: seq<Byte>, off: nat, len: nat, n: nat)
    requires 1 <= off <= |out| && n <= len
    ensures CopyBack(out, off, n) == CopyBack(out, off, len)[..|out| + n]
    decreases len
  {
    if n == 0 {
      CopyBackAt(out, off, len);
    } else {
      CopyBackShorter(out + [out[|out| - off]], off, len - 1, n - 1);
    }
  }

  /** The tag bytes carry the offset's high nibble and the length in their first byte. */
  lemma TagBytes(len: int, off: int)
    requires ItemFits(Tag(len, off))
    ensures var b := ItemBytes(Tag(len, off));
            && |b| >= 2
            && (b[0] as int) / 16 * 256 + b[1] == off
            && (if b[0] % 16 + 3 == 18 then |b| == 3 && (b[2] as int) + 18 == len else |b| == 2 && b[0] % 16 + 3 == len)
  {
    assert off / 256 <= 15;
  }

  lemma LiteralBytes(b: Byte)
    ensures ItemBytes(Literal(b)) == [b]
  {
  }

  /** One item: lines 714-782. */
  method OneItem(source: seq<Byte>, sp: nat, dest: array<Byte>, dp: nat, destend: nat, isTag: bool, ghost it: Item, ghost tail: seq<Byte>)
    returns (sp': nat, dp': nat)
    requires Applies(dp, it) && isTag == it.Tag?
    requires sp <= |source| && source[sp..] == ItemBytes(it) + tail
    requires dp < destend <= dest.Length
    modifies dest
    ensures sp' <= |source| && source[sp'..] == tail
    ensures dp' == Min(destend, dp + Size(it))
    ensures dest[..dp'] == Apply(old(dest[..dp]), it)[..dp']
    ensures forall i :: destend <= i < dest.Length ==> dest[i] == old(dest[i])
  {
    hide CopyBack, ItemBytes;
    ghost var b := ItemBytes(it);
    forall i | 0 <= i < |b|
      ensures sp + i < |source| && source[sp + i] == b[i]
    {
      assert source[sp..][i] == b[i];
    }
    assert source[sp + |b|..] == source[sp..][|b|..] == tail;
    if isTag {
      TagBytes(it.len, it.off);
      var len: int := source[sp] % 16 + 3;
      var off := (source[sp] as int) / 16 * 256 + source[sp + 1];
      sp' := sp + 2;
      if len == 18 {
        len := len + source[sp'];
        sp' := sp' + 1;
      }
      assert len == it.len && off == it.off;
      len := Min(len, destend - dp);
      CopyBackShorter(dest[..dp], off, it.len, len);
      dp' := CopyMatch(dest, dp, off, len);
    } else {
      LiteralBytes(it.byte);
      ghost var before := dest[..dp];
      dest[dp] := source[sp];
      assert dest[..dp + 1] == before + [it.byte];
      sp', dp' := sp + 1, dp + 1;
      assert Apply(before, it)[..dp'] == Apply(before, it);
    }
  }

  /** The output holds what `items` stand for, cut off at `rawsize`. */
  ghost predicate Holds(out: seq<Byte>, items: seq<Item>, rawsize: nat) {
    && WellFormed(items)
    && var e := Expand(items);
       |out| == Min(rawsize, |e|) && out == e[..|out|]
  }

  lemma HoldsStep(out: seq<Byte>, out': seq<Byte>, items: seq<Item>, i: nat, rawsize: nat)
    requires i < |items| && WellFormed(items) && Holds(out, items[..i], rawsize) && |out| < rawsize
    ensures WellFormed(items[..i]) && Applies(|out|, items[i]) && |Expand(items[..i])| < rawsize
    ensures |out'| == Min(rawsize, |out| + Size(items[i])) && out' == Apply(out, items[i])[..|out'|] ==> Holds(out', items[..i + 1], rawsize)
  {
    WellFormedPrefix(items, i + 1);
    ExpandSnoc(items, i);
    assert out == Expand(items[..i]);
  }

  /** Exactly when the final check passes: the output limit falls inside the last item, or at its end. */
  ghost predicate Complete(items: seq<Item>, rawsize: nat)
    requires WellFormed(items)
  {
    && rawsize <= |Expand(items)|
    && if items == [] then rawsize == 0 else |Expand(items[..|items| - 1])| < rawsize
  }

  /** For every well-formed compressed stream and every output limit, the result is the expansion of
      the stream cut off at the limit; with `checkComplete` it is -1 unless `Complete`. */
  method Decompress(source: seq<Byte>, dest: array<Byte>, rawsize: nat, checkComplete: bool, ghost items: seq<Item>) returns (n: int)
    requires WellFormed(items) && AllFit(items) && source == Encode(items)
    requires rawsize <= dest.Length
    modifies dest
    ensures var e := Expand(items);
            if checkComplete && !Complete(items, rawsize) then n == -1
            else n == Min(rawsize, |e|) && dest[..n] == e[..n]
    ensures forall i :: rawsize <= i < dest.Length ==> dest[i] == old(dest[i])
  {
    hide Expand, WellFormed, Encode, Apply, Applies, Holds, Complete, Bodies, Bits, AllFit, ItemBytes, ItemFits, Size, InGroup;
    var sp, dp := 0, 0;
    ghost var i := 0;
    HoldsNothing(dest[..0], items, rawsize);
    assert source[0..] == source && items[0..] == items;
    while sp < |source| && dp < rawsize
      invariant sp <= |source| && dp <= rawsize && i <= |items|
      invariant Holds(dest[..dp], items[..i], rawsize)
      invariant sp == |source| <==> i == |items|
      invariant dp < rawsize ==> AllFit(items[i..]) && source[sp..] == Encode(items[i..])
      invariant i > 0 ==> WellFormed(items[..i - 1]) && |Expand(items[..i - 1])| < rawsize
      invariant forall k :: rawsize <= k < dest.Length ==> dest[k] == old(dest[k])
      decreases |source| - sp
    {
      ghost var g, rest := NextGroup(items, i, source, sp);
      var ctrl: int := source[sp];
      ghost var sp0 := sp;
      sp := sp + 1;
      var ctrlc := 0;
      while ctrlc < 8 && sp < |source| && dp < rawsize
        invariant sp0 < sp <= |source| && dp <= rawsize && i <= |items| && 0 <= ctrlc <= 8
        invariant InGroup(items, i, g, rest, source, sp)
        invariant (|g| == 8 - ctrlc || (rest == [] && |g| <= 8 - ctrlc)) && ctrl == Bits(g)
        invariant Holds(dest[..dp], items[..i], rawsize)
        invariant i > 0 ==> WellFormed(items[..i - 1]) && |Expand(items[..i - 1])| < rawsize
        invariant forall k :: rawsize <= k < dest.Length ==> dest[k] == old(dest[k])
      {
        ghost var tail := GroupStep(items, i, g, rest, source, sp);
        ghost var before, sp1 := dest[..dp], sp;
        HoldsStep(before, before, items, i, rawsize);
        sp, dp := OneItem(source, sp, dest, dp, rawsize, ctrl % 2 == 1, g[0], tail);
        HoldsStep(before, dest[..dp], items, i, rawsize);
        GroupStepDone(items, i, g, rest, source, sp1, sp);
        g, i := g[1..], i + 1;
        assert items[..i - 1] == items[..i][..i - 1];
        ctrl := ctrl / 2;
        ctrlc := ctrlc + 1;
      }
      GroupEnd(items, i, g, rest, source, sp);
    }
    HoldsEnd(dest[..dp], items, i, rawsize);
    if checkComplete && (dp != rawsize || sp != |source|) {
      return -1;
    }
    return dp;
  }

  lemma ExpandNothing()
    ensures WellFormed([]) && Expand([]) == []
  {
  }

  lemma HoldsNothing(out: seq<Byte>, items: seq<Item>, rawsize: nat)
    requires out == []
    ensures Holds(out, items[..0], rawsize)
  {
  }

  /** Where the reader is: `g` is what remains of the current group, `rest` the items after it. */
  ghost predicate InGroup(items: seq<Item>, i: nat, g: seq<Item>, rest: seq<Item>, source: seq<Byte>, sp: nat) {
    && i <= |items| && sp <= |source|
    && AllFit(g) && AllFit(rest) && items[i..] == g + rest
    && source[sp..] == Bodies(g) + Encode(rest)
  }

  lemma NextGroup(items: seq<Item>, i: nat, source: seq<Byte>, sp: nat) returns (g: seq<Item>, rest: seq<Item>)
    requires i < |items| && AllFit(items[i..]) && sp <= |source| && source[sp..] == Encode(items[i..])
    ensures 1 <= |g| <= 8 && (|g| == 8 || rest == [])
    ensures sp < |source| && source[sp] == Bits(g) && InGroup(items, i, g, rest, source, sp + 1)
  {
    hide Bodies, Bits, Encode;
    var t := items[i..];
    EncodeUnfold(t);
    var n := FirstGroup(t);
    g, rest := t[..n], t[n..];
    assert source[sp..] == [source[sp]] + source[sp + 1..];
    assert Group(g) + Encode(rest) == [Bits(g)] + (Bodies(g) + Encode(rest)) by { ByteBound(g); }
    assert source[sp + 1..] == source[sp..][1..];
  }

  lemma GroupStep(items: seq<Item>, i: nat, g: seq<Item>, rest: seq<Item>, source: seq<Byte>, sp: nat) returns (tail: seq<Byte>)
    requires InGroup(items, i, g, rest, source, sp) && sp < |source| && (g != [] || rest == [])
    ensures g != [] && i < |items| && g[0] == items[i] && ItemFits(g[0]) && AllFit(g[1..])
    ensures tail == Bodies(g[1..]) + Encode(rest) && source[sp..] == ItemBytes(g[0]) + tail
    ensures Bits(g) % 2 == (if g[0].Tag? then 1 else 0) && Bits(g) / 2 == Bits(g[1..])
  {
    assert g[0] == items[i..][0];
    tail := Bodies(g[1..]) + Encode(rest);
  }

  lemma GroupStepDone(items: seq<Item>, i: nat, g: seq<Item>, rest: seq<Item>, source: seq<Byte>, sp0: nat, sp: nat)
    requires InGroup(items, i, g, rest, source, sp0) && g != []
    requires sp <= |source| && AllFit(g[1..]) && source[sp..] == Bodies(g[1..]) + Encode(rest)
    ensures InGroup(items, i + 1, g[1..], rest, source, sp)
  {
    hide AllFit, Bodies, Encode;
    assert items[i + 1..] == items[i..][1..];
  }

  lemma GroupEnd(items: seq<Item>, i: nat, g: seq<Item>, rest: seq<Item>, source: seq<Byte>, sp: nat)
    requires InGroup(items, i, g, rest, source, sp)
    ensures sp == |source| <==> i == |items|
    ensures g == [] ==> AllFit(items[i..]) && source[sp..] == Encode(items[i..])
    ensures sp == |source| ==> g == []
  {
    if g == [] {
      assert g + rest == rest;
      assert Bodies(g) + Encode(rest) == Encode(rest);
    }
  }

  lemma HoldsEnd(out: seq<Byte>, items: seq<Item>, i: nat, rawsize: nat)
    requires WellFormed(items) && i <= |items| && Holds(out, items[..i], rawsize)
    requires i == |items| || |out| == rawsize
    requires i > 0 ==> WellFormed(items[..i - 1]) && |Expand(items[..i - 1])| < rawsize
    ensures var e := Expand(items); |out| == Min(rawsize, |e|) && out == e[..|out|]
    ensures Complete(items, rawsize) <==> i == |items| && |out| == rawsize
  {
    hide Expand, WellFormed;
    ExpandNothing();
    ExpandPrefix(items, i);
    if i == |items| {
      assert items[..i] == items;
    } else {
      var k := |items| - 1;
      WellFormedPrefix(items, k);
      ExpandPrefix(items[..k], i);
      assert items[..k][..i] == items[..i];
      var a, e := Expand(items[..i]), Expand(items);
      assert out == a[..|out|] == e[..|a|][..|out|] == e[..|out|];
    }
  }
}
