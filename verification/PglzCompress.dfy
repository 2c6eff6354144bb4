/** pglz_compress (common/pg_lzcompress.c:508-676) and the round trip through pglz_decompress. */
module PglzCompress {
  import opened Common
  import opened PglzHistory
  import opened PglzFormat
  import opened PglzDecompress

  datatype Strategy = Strategy(minInputSize: int, maxInputSize: int, minCompRate: int,
                               firstSuccessBy: int, matchSizeGood: int, matchSizeDrop: int)

  const STRATEGY_DEFAULT := Strategy(32, INT_MAX, 25, 1024, 128, 10)

  function Clamp(x: int, lo: int, hi: int): (r: int)
    requires lo <= hi
    ensures lo <= r <= hi && (lo <= x <= hi ==> r == x)
  {
    if x < lo then lo else if x > hi then hi else x
  }

  /** Lines 574-580. The branch keeps the product within an int32, and the limit never exceeds the input. */
  function ResultMax(slen: nat, rate: int): (r: int)
    requires slen <= INT_MAX && 0 <= rate <= 99
    ensures 0 <= r <= slen
  {
    if slen > INT_MAX / 100 then
      Scaled(slen / 100, 100 - rate);
      slen / 100 * (100 - rate)
    else
      Scaled(slen, 100 - rate);
      assert slen * (100 - rate) <= INT_MAX;
      slen * (100 - rate) / 100
  }

  lemma Scaled(x: nat, r: nat)
    requires r <= 100
    ensures 0 <= x * r <= 100 * x
  {
  }

  /** The limit is the wanted share of the input, rounded down; for large inputs by up to the share of a hundred bytes. */
  lemma ResultMaxIsShare(slen: nat, rate: int)
    requires slen <= INT_MAX && 0 <= rate <= 99
    ensures var d := slen * (100 - rate) - 100 * ResultMax(slen, rate);
            0 <= d < (if slen > INT_MAX / 100 then 100 * (100 - rate) else 100)
  {
    if slen > INT_MAX / 100 {
      LargeShare(slen / 100, slen % 100, 100 - rate);
    } else {
      SmallShare(slen * (100 - rate));
    }
  }

  lemma LargeShare(a: nat, b: nat, r: nat)
    requires b < 100 && r > 0
    ensures 0 <= (100 * a + b) * r - 100 * (a * r) < 100 * r
  {
    assert (100 * a + b) * r == 100 * (a * r) + b * r;
    assert (100 - b) * r > 0;
  }

  lemma SmallShare(x: nat)
    ensures 0 <= x - 100 * (x / 100) < 100
  {
  }

  /** The smallest power of two above four times the input size, between 512 and 8192. */
  lemma HashSizeIs(slen: nat)
    ensures exists k :: 9 <= k <= 13 && HashSize(slen) == Pow2(k) && (k == 9 || Pow2(k - 1) <= 4 * slen) && (k == 13 || 4 * slen < Pow2(k))
  {
    PowersUsed();
    var k := if slen < 128 then 9 else if slen < 256 then 10 else if slen < 512 then 11 else if slen < 1024 then 12 else 13;
    assert HashSize(slen) == Pow2(k);
  }

  lemma PowersUsed()
    ensures Pow2(8) == 256 && Pow2(9) == 512 && Pow2(10) == 1024 && Pow2(11) == 2048 && Pow2(12) == 4096 && Pow2(13) == 8192
  {
    assert Pow2(4) == 16;
    assert Pow2(8) == 256;
    assert Pow2(12) == 4096;
  }

  function HashSize(slen: nat): (size: nat)
    ensures 0 < size <= MAX_HISTORY_LISTS
  {
    if slen < 128 then 512 else if slen < 256 then 1024 else if slen < 512 then 2048 else if slen < 1024 then 4096 else 8192
  }

  // ----- What is emitted -----

  /** The item for position `dp`: the match the search finds, or the byte itself. */
  ghost function NextItem(src: seq<Byte>, keys: seq<int>, dp: nat, good: nat, drop: nat): (it: Item)
    requires dp < |src| == |keys| && drop <= 100
    ensures ItemFits(it) && dp + Size(it) <= |src|
    ensures it.Tag? ==> it.off < OFFSET_LIMIT && Genuine(src, dp, Match(it.len, it.off))
    ensures it.Literal? ==> it.byte == src[dp]
  {
    ChainFacts(keys, Low(dp), dp, keys[dp]);
    var c := Chain(keys, Low(dp), dp, keys[dp]);
    var m := Search(src, dp, c, Match(0, 0), good, drop);
    EmptyMatch(src, dp);
    SearchIsGenuine(src, dp, c, Match(0, 0), good, drop);
    if m.len > 2 then Tag(m.len, m.off) else Literal(src[dp])
  }

  /** All items from position `dp` on. */
  ghost function Parse(src: seq<Byte>, keys: seq<int>, dp: nat, good: nat, drop: nat): (items: seq<Item>)
    requires dp <= |src| == |keys| && drop <= 100
    ensures AllFit(items)
    decreases |src| - dp
  {
    if dp == |src| then [] else
      var it := NextItem(src, keys, dp, good, drop);
      [it] + Parse(src, keys, dp + Size(it), good, drop)
  }

  ghost function Items(src: seq<Byte>, s: Strategy): (items: seq<Item>)
    ensures AllFit(items)
  {
    Parse(src, Keys(src, HashSize(|src|)), 0, Clamp(s.matchSizeGood, 17, MAX_MATCH), Clamp(s.matchSizeDrop, 0, 100))
  }

  lemma {:induction false} CopyIsText(src: seq<Byte>, dp: nat, off: nat, len: nat)
    requires 1 <= off <= dp && Repeats(src, dp, dp + len, off)
    ensures CopyBack(src[..dp], off, len) == src[..dp + len]
    decreases len
  {
    if len > 0 {
      assert src[..dp] + [src[dp - off]] == src[..dp + 1];
      CopyIsText(src, dp + 1, off, len - 1);
    }
  }

  /** Expanding one emitted item after the text so far gives the text up to the next position. */
  lemma ItemIsText(src: seq<Byte>, keys: seq<int>, dp: nat, good: nat, drop: nat)
    requires dp < |src| == |keys| && drop <= 100
    ensures var it := NextItem(src, keys, dp, good, drop);
            Applies(dp, it) && Apply(src[..dp], it) == src[..dp + Size(it)]
  {
    hide NextItem, CopyBack;
    var it := NextItem(src, keys, dp, good, drop);
    if it.Tag? {
      CopyIsText(src, dp, it.off, it.len);
    }
  }

  /** Whatever prefix of the input `before` already stands for, the parse from there completes it. */
  lemma {:induction false} ParseExpands(src: seq<Byte>, keys: seq<int>, dp: nat, good: nat, drop: nat, before: seq<Item>)
    requires dp <= |src| == |keys| && drop <= 100
    requires WellFormed(before) && Expand(before) == src[..dp]
    ensures var items := before + Parse(src, keys, dp, good, drop); WellFormed(items) && Expand(items) == src
    decreases |src| - dp
  {
    hide NextItem, Expand, WellFormed, Apply;
    if dp == |src| {
      assert before + [] == before;
      assert src[..dp] == src;
    } else {
      var it := NextItem(src, keys, dp, good, drop);
      ItemIsText(src, keys, dp, good, drop);
      ExpandPush(before, it);
      ParseExpands(src, keys, dp + Size(it), good, drop, before + [it]);
      assert before + ([it] + Parse(src, keys, dp + Size(it), good, drop)) == (before + [it]) + Parse(src, keys, dp + Size(it), good, drop);
    }
  }

  lemma {:induction false} ParseTags(src: seq<Byte>, keys: seq<int>, dp: nat, good: nat, drop: nat)
    requires dp <= |src| == |keys| && drop <= 100
    ensures forall it :: it in Parse(src, keys, dp, good, drop) && it.Tag? ==> 3 <= it.len <= 273 && 1 <= it.off <= 4094
    decreases |src| - dp
  {
    hide NextItem;
    if dp < |src| {
      ParseTags(src, keys, dp + Size(NextItem(src, keys, dp, good, drop)), good, drop);
    }
  }

  /** For every source and strategy the emitted items are well formed (no tag reaches back before the
      start), stay inside the tag format, and stand for exactly the source. */
  lemma ItemsStandForSource(src: seq<Byte>, s: Strategy)
    ensures WellFormed(Items(src, s)) && Expand(Items(src, s)) == src
    ensures forall it :: it in Items(src, s) && it.Tag? ==> 3 <= it.len <= 273 && 1 <= it.off <= 4094
  {
    var keys, good, drop := Keys(src, HashSize(|src|)), Clamp(s.matchSizeGood, 17, MAX_MATCH), Clamp(s.matchSizeDrop, 0, 100);
    ExpandNothing();
    ParseExpands(src, keys, 0, good, drop, []);
    assert [] + Items(src, s) == Items(src, s);
    ParseTags(src, keys, 0, good, drop);
  }

  // ----- What is found -----

  /** An earlier text that starts with the same four bytes makes the item a tag at least as long as the match with it: always
      if that text starts one byte earlier, and if `all`, wherever it is in reach of a tag. */
  ghost predicate FoundAt(src: seq<Byte>, dp: nat, it: Item, all: bool)
    requires dp < |src|
  {
    forall q :: 0 <= q < dp && (q == dp - 1 || (all && dp - q < 4095)) && SameFour(src, q, dp) ==>
                  it.Tag? && it.len >= MatchLen(src, q, dp, 0) >= 4
  }

  /** So for every item, from position `dp` to the end. */
  ghost predicate Found(src: seq<Byte>, items: seq<Item>, dp: nat, all: bool)
    requires AllFit(items)
    decreases |items|
  {
    if items == [] then dp == |src|
    else dp < |src| && FoundAt(src, dp, items[0], all) && Found(src, items[1..], dp + Size(items[0]), all)
  }

  lemma FourMatch(src: seq<Byte>, q: nat, p: nat)
    requires q < p && SameFour(src, q, p)
    ensures MatchLen(src, q, p, 0) >= 4
  {
    var a, b := src[q..q + 4], src[p..p + 4];
    assert a[0] == src[q] && a[1] == src[q + 1] && a[2] == src[q + 2] && a[3] == src[q + 3];
    assert b[0] == src[p] && b[1] == src[p + 1] && b[2] == src[p + 2] && b[3] == src[p + 3];
    assert MatchLen(src, q, p, 0) == MatchLen(src, q, p, 1) == MatchLen(src, q, p, 2);
    assert MatchLen(src, q, p, 2) == MatchLen(src, q, p, 3) == MatchLen(src, q, p, 4);
  }

  /** The position just before is the first on its list, so it is always looked at. */
  lemma PreviousIsSeen(src: seq<Byte>, hashsz: nat, dp: nat, good: nat, drop: nat)
    requires 0 < dp < |src| && hashsz > 0 && drop <= 100 && SameFour(src, dp - 1, dp)
    ensures var keys := Keys(src, hashsz);
            |keys| == |src| && (ChainFacts(keys, Low(dp), dp, keys[dp]);
              Search(src, dp, Chain(keys, Low(dp), dp, keys[dp]), Match(0, 0), good, drop).len >= MatchLen(src, dp - 1, dp, 0))
  {
    hide Search, MatchLen, SameFour, HistIdx, BestOf;
    var keys := Keys(src, hashsz);
    SameTextSameKey(src, dp - 1, dp, hashsz);
    assert keys[dp - 1] == HistIdx(src, dp - 1, hashsz) && keys[dp] == HistIdx(src, dp, hashsz);
    ChainFacts(keys, Low(dp), dp, keys[dp]);
    var c := Chain(keys, Low(dp), dp, keys[dp]);
    assert c[0] == dp - 1;
    var k := SearchIsBest(src, dp, c, Match(0, 0), good, drop);
    FirstOfBest(src, dp, c, k, Match(0, 0), Search(src, dp, c, Match(0, 0), good, drop));
  }

  lemma FirstOfBest(src: seq<Byte>, p: nat, c: seq<nat>, k: nat, best: Match, m: Match)
    requires p <= |src| && 0 < k <= |c| && (forall i :: 0 <= i < |c| ==> c[i] < p) && BestOf(src, p, c, k, best, m)
    ensures MatchLen(src, c[0], p, 0) <= m.len
  {
  }

  lemma NextIsFound(src: seq<Byte>, hashsz: nat, dp: nat, good: nat, drop: nat)
    requires dp < |src| && hashsz > 0 && drop <= 100
    ensures FoundAt(src, dp, NextItem(src, Keys(src, hashsz), dp, good, drop), good >= MAX_MATCH && drop == 0)
  {
    hide Search, Chain, MatchLen, SameFour, KeysOf;
    var keys := Keys(src, hashsz);
    assert |keys| == |src| by { KeysLength(src, hashsz); }
    ChainFacts(keys, Low(dp), dp, keys[dp]);
    if good >= MAX_MATCH && drop == 0 { LongestInText(src, keys, hashsz, dp, good); }
    if 0 < dp && SameFour(src, dp - 1, dp) { PreviousIsSeen(src, hashsz, dp, good, drop); }
    forall q | 0 <= q < dp && SameFour(src, q, dp)
      ensures MatchLen(src, q, dp, 0) >= 4
    {
      FourMatch(src, q, dp);
    }
  }

  lemma KeysLength(src: seq<Byte>, hashsz: nat)
    requires hashsz > 0
    ensures |Keys(src, hashsz)| == |src|
  {
  }

  lemma {:induction false} ParseFinds(src: seq<Byte>, hashsz: nat, dp: nat, good: nat, drop: nat)
    requires dp <= |src| && hashsz > 0 && drop <= 100
    ensures Found(src, Parse(src, Keys(src, hashsz), dp, good, drop), dp, good >= MAX_MATCH && drop == 0)
    decreases |src| - dp
  {
    hide NextItem, FoundAt;
    var keys := Keys(src, hashsz);
    if dp < |src| {
      NextIsFound(src, hashsz, dp, good, drop);
      ParseStep(src, keys, dp, good, drop);
      ParseFinds(src, hashsz, dp + Size(NextItem(src, keys, dp, good, drop)), good, drop);
    }
  }

  /** Said of the text alone: with every strategy a text that repeats from one byte back becomes tags; and with the largest
      good length and no drop, every repetition of four bytes in reach is found, at its full length. */
  lemma RepetitionsAreFound(src: seq<Byte>, s: Strategy)
    ensures Found(src, Items(src, s), 0, s.matchSizeGood >= 273 && s.matchSizeDrop <= 0)
  {
    ParseFinds(src, HashSize(|src|), 0, Clamp(s.matchSizeGood, 17, MAX_MATCH), Clamp(s.matchSizeDrop, 0, 100));
  }

  /** No earlier position in reach with the same key is passed over, unless the match has the good length already. */
  ghost predicate KeyedAt(src: seq<Byte>, dp: nat, it: Item, hashsz: nat, good: nat)
    requires dp < |src| && hashsz > 0
  {
    forall q :: 0 <= q < dp && dp - q < 4095 && HistIdx(src, q, hashsz) == HistIdx(src, dp, hashsz) && MatchLen(src, q, dp, 0) >= 3 ==>
                  it.Tag? && (it.len >= MatchLen(src, q, dp, 0) || it.len >= good)
  }

  /** So for every item, from position `dp` to the end. */
  ghost predicate Keyed(src: seq<Byte>, items: seq<Item>, dp: nat, hashsz: nat, good: nat)
    requires AllFit(items) && hashsz > 0
    decreases |items|
  {
    if items == [] then dp == |src|
    else dp < |src| && KeyedAt(src, dp, items[0], hashsz, good) && Keyed(src, items[1..], dp + Size(items[0]), hashsz, good)
  }

  lemma NextIsKeyed(src: seq<Byte>, hashsz: nat, dp: nat, good: nat)
    requires dp < |src| && hashsz > 0 && good >= 3
    ensures KeyedAt(src, dp, NextItem(src, Keys(src, hashsz), dp, good, 0), hashsz, good)
  {
    hide Search, Chain, MatchLen, HistIdx;
    var keys := Keys(src, hashsz);
    assert |keys| == |src| by { KeysLength(src, hashsz); }
    ChainFacts(keys, Low(dp), dp, keys[dp]);
    var c := Chain(keys, Low(dp), dp, keys[dp]);
    var k := SearchIsBest(src, dp, c, Match(0, 0), good, 0);
    var m := Search(src, dp, c, Match(0, 0), good, 0);
    forall q | 0 <= q < dp && dp - q < 4095 && HistIdx(src, q, hashsz) == HistIdx(src, dp, hashsz)
      ensures MatchLen(src, q, dp, 0) <= m.len || m.len >= good
    {
      assert keys[q] == HistIdx(src, q, hashsz) && keys[dp] == HistIdx(src, dp, hashsz);
      var i :| 0 <= i < |c| && c[i] == q;
      if i >= k { assert c[k] >= q; }
    }
  }

  lemma {:induction false} ParseIsKeyed(src: seq<Byte>, hashsz: nat, dp: nat, good: nat)
    requires dp <= |src| && hashsz > 0 && good >= 3
    ensures Keyed(src, Parse(src, Keys(src, hashsz), dp, good, 0), dp, hashsz, good)
    decreases |src| - dp
  {
    hide NextItem, KeyedAt;
    var keys := Keys(src, hashsz);
    if dp < |src| {
      NextIsKeyed(src, hashsz, dp, good);
      ParseStep(src, keys, dp, good, 0);
      ParseIsKeyed(src, hashsz, dp + Size(NextItem(src, keys, dp, good, 0)), good);
    }
  }

  /** With no drop, a match of three bytes or more with a position of the same key is taken, and a longer one is passed over
      only for one that has the good length of the strategy: at least 17 and at most 273. */
  lemma GoodLengthStops(src: seq<Byte>, s: Strategy)
    requires s.matchSizeDrop <= 0
    ensures Keyed(src, Items(src, s), 0, HashSize(|src|),
                  if s.matchSizeGood < 17 then 17 else if s.matchSizeGood > 273 then 273 else s.matchSizeGood)
  {
    hide Keyed;
    ParseIsKeyed(src, HashSize(|src|), 0, Clamp(s.matchSizeGood, 17, MAX_MATCH));
  }

  // ----- When compression is refused -----

  /** Lines 543-546. */
  predicate Forbidden(slen: nat, s: Strategy) {
    s.matchSizeGood <= 0 || slen < s.minInputSize || slen > s.maxInputSize
  }

  /** Some item is reached with no tag before it and at least `limit` bytes out. */
  ghost predicate GivesUp(items: seq<Item>, limit: int)
    requires AllFit(items)
  {
    exists i :: 0 <= i < |items| && StopsAt(items, i, limit)
  }

  ghost predicate StopsAt(items: seq<Item>, i: nat, limit: int)
    requires AllFit(items) && i < |items|
  {
    |Encode(items[..i])| >= limit && forall j :: 0 <= j < i ==> items[j].Literal?
  }

  /** The value pglz_compress returns. */
  ghost function Result(src: seq<Byte>, s: Strategy): (n: int)
    requires |src| <= INT_MAX
  {
    var items := Items(src, s);
    if Forbidden(|src|, s) || |Encode(items)| >= ResultMax(|src|, Clamp(s.minCompRate, 0, 99)) || GivesUp(items, s.firstSuccessBy) then -1
    else |Encode(items)|
  }

  lemma {:induction false} LiteralBodies(items: seq<Item>)
    requires AllFit(items) && forall i :: 0 <= i < |items| ==> items[i].Literal?
    ensures |Bodies(items)| == |items|
  {
    if items != [] { LiteralBodies(items[1..]); }
  }

  ghost predicate LiteralsBefore(items: seq<Item>, i: nat) {
    i < |items| && forall j :: 0 <= j < i ==> items[j].Literal?
  }

  /** Compression gives up exactly if there is an item after some first literals that with their control bytes take up as many
      bytes as the strategy allows before the first match. */
  lemma GivesUpIff(items: seq<Item>, limit: int)
    requires AllFit(items)
    ensures GivesUp(items, limit) <==>
            exists i: nat :: LiteralsBefore(items, i) && i + (i + 7) / 8 >= limit
  {
    hide Bodies, Encode;
    forall i: nat | LiteralsBefore(items, i)
      ensures StopsAt(items, i, limit) <==> i + (i + 7) / 8 >= limit
    {
      EncodeLength(items[..i]);
      LiteralBodies(items[..i]);
    }
    if GivesUp(items, limit) {
      var i: nat :| i < |items| && StopsAt(items, i, limit);
      assert LiteralsBefore(items, i) && i + (i + 7) / 8 >= limit;
    }
    if i: nat :| LiteralsBefore(items, i) && i + (i + 7) / 8 >= limit {
      assert StopsAt(items, i, limit);
    }
  }

  /** A strategy without a good length, or for other sizes of input, refuses. */
  lemma RefusedOutright(src: seq<Byte>, s: Strategy)
    requires |src| <= INT_MAX
    ensures s.matchSizeGood <= 0 || |src| < s.minInputSize || |src| > s.maxInputSize ==> Result(src, s) == -1
  {
    hide Items, GivesUp, ResultMax, Encode;
  }

  /** Without a strategy: inputs under 32 bytes are refused, and a result saves more than a quarter. */
  lemma DefaultResult(src: seq<Byte>)
    requires |src| <= INT_MAX
    ensures |src| < 32 ==> Result(src, STRATEGY_DEFAULT) == -1
    ensures Result(src, STRATEGY_DEFAULT) >= 0 ==> 4 * Result(src, STRATEGY_DEFAULT) < 3 * |src|
  {
    hide Items, GivesUp, ResultMax, Encode;
    ResultMaxIsShare(|src|, 25);
    assert Clamp(25, 0, 99) == 25;
  }

  // ----- The output side: the macros pglz_out_ctrl, pglz_out_literal, pglz_out_tag -----

  class Writer {
    const dest: array<Byte>
    var bp: nat
    var ctrlp: int  // -1 stands for the address of ctrl_dummy
    var ctrlb: int
    var ctrl: int
    ghost var done: seq<Item>  // full groups, completely written
    ghost var cur: seq<Item>   // the current group

    ghost function Emitted(): seq<Item>
      reads this
    {
      done + cur
    }

    ghost predicate Open()
      reads this, dest
    {
      && bp <= dest.Length && |cur| <= 8 && |done| % 8 == 0
      && AllFit(done) && AllFit(cur)
      && 0 <= ctrlp < bp
      && dest[..ctrlp] == Encode(done)
      && dest[ctrlp + 1..bp] == Bodies(cur)
      && ctrlb == Bits(cur)
      && ctrl == Pow2(|cur|) % 256
    }

    ghost predicate Valid()
      reads this, dest
    {
      if cur == [] then done == [] && bp == 0 && ctrlp == -1 && ctrlb == 0 && ctrl == 0
      else Open()
    }

    constructor (d: array<Byte>)
      ensures Valid() && dest == d && Emitted() == []
    {
      dest := d;
      bp, ctrlp, ctrlb, ctrl, done, cur := 0, -1, 0, 0, [], [];
    }

    /** The bytes written so far are the encoding, except that the control byte may still be open. */
    lemma BytesSoFar()
      requires Valid()
      ensures AllFit(Emitted()) && bp == |Encode(Emitted())|
      ensures cur != [] ==> Encode(Emitted()) == dest[..ctrlp] + [Bits(cur)] + dest[ctrlp + 1..bp]
    {
      if cur != [] {
        EncodeAppend(done, cur);
        EncodeGroup(cur);
        ByteBound(cur);
      }
    }

    /** pglz_out_ctrl */
    method OutCtrl()
      requires Valid() && bp < dest.Length
      modifies this, dest
      ensures Open() && |cur| < 8 && Emitted() == old(Emitted())
      ensures old(bp) <= bp <= old(bp) + 1
      ensures forall k :: bp <= k < dest.Length ==> dest[k] == old(dest[k])
    {
      hide Encode, Bodies, Bits, AllFit, Pow2;
      CtrlIsZero(|cur|);
      EmptyGroup();
      if ctrl == 0 {
        BytesSoFar();
        ghost var all := Emitted();
        if ctrlp != -1 {
          ByteBound(cur);
          ghost var was := dest[..];
          assert was[..ctrlp] == dest[..ctrlp] && was[ctrlp + 1..bp] == dest[ctrlp + 1..bp];
          dest[ctrlp] := ctrlb;
          Patched(was, dest[..], ctrlp, ctrlb, bp);
          assert dest[..][..bp] == dest[..bp];
        }
        ctrlp := bp;
        bp := bp + 1;
        ctrlb := 0;
        ctrl := 1;
        done, cur := all, [];
        assert dest[ctrlp + 1..bp] == [];
      }
    }

    /** pglz_out_literal */
    method OutLiteral(b: Byte)
      requires Valid() && bp + 2 <= dest.Length
      modifies this, dest
      ensures Valid() && Emitted() == old(Emitted()) + [Literal(b)]
      ensures old(bp) < bp <= old(bp) + 2
      ensures forall k :: bp <= k < dest.Length ==> dest[k] == old(dest[k])
    {
      hide Encode, Bodies, Bits, AllFit, Pow2, ItemBytes, SetBit;
      OutCtrl();
      ghost var it, body := Literal(b), dest[ctrlp + 1..bp];
      GroupSnoc(cur, it);
      LiteralBytes(b);
      ghost var whole, b0 := dest[..bp], bp;
      dest[bp] := b;
      bp := bp + 1;
      assert dest[..b0] == whole;
      assert dest[..ctrlp] == dest[..b0][..ctrlp] == whole[..ctrlp];
      assert dest[ctrlp + 1..bp] == dest[ctrlp + 1..b0] + [b] == whole[ctrlp + 1..] + [b] == body + ItemBytes(it);
      ctrl := (ctrl * 2) % 256;
      cur := cur + [it];
    }

    /** pglz_out_tag */
    method OutTag(len: int, off: int)
      requires Valid() && bp + 4 <= dest.Length && ItemFits(Tag(len, off))
      modifies this, dest
      ensures Valid() && Emitted() == old(Emitted()) + [Tag(len, off)]
      ensures old(bp) < bp <= old(bp) + 4
      ensures forall k :: bp <= k < dest.Length ==> dest[k] == old(dest[k])
    {
      hide Encode, Bodies, Bits, AllFit, Pow2, ItemBytes, SetBit;
      OutCtrl();
      ghost var it, body := Tag(len, off), dest[ctrlp + 1..bp];
      GroupSnoc(cur, it);
      ctrlb := SetBit(ctrlb, ctrl);
      ctrl := (ctrl * 2) % 256;
      ghost var whole, b0 := dest[..bp], bp;
      bp := PutTag(dest, bp, len, off);
      assert dest[..ctrlp] == dest[..b0][..ctrlp] == whole[..ctrlp];
      assert dest[ctrlp + 1..bp] == dest[..bp][ctrlp + 1..] == (whole + ItemBytes(it))[ctrlp + 1..] == body + ItemBytes(it);
      cur := cur + [it];
    }

    /** Line 669: write out the last control byte. */
    method Finish()
      requires Valid()
      modifies dest
      ensures AllFit(Emitted()) && dest[..bp] == Encode(Emitted())
      ensures forall k :: bp <= k < dest.Length ==> dest[k] == old(dest[k])
    {
      hide Encode, Bodies, Bits, AllFit, Pow2;
      BytesSoFar();
      if ctrlp != -1 {
        ByteBound(cur);
        dest[ctrlp] := ctrlb;
      }
    }
  }

  /** Lines 376-386. */
  method PutTag(dest: array<Byte>, bp: nat, len: int, off: int) returns (bp': nat)
    requires bp + 3 <= dest.Length && ItemFits(Tag(len, off))
    modifies dest
    ensures bp < bp' <= bp + 3 && dest[..bp] == old(dest[..bp])
    ensures dest[..bp'] == old(dest[..bp]) + ItemBytes(Tag(len, off))
    ensures forall k :: bp' <= k < dest.Length ==> dest[k] == old(dest[k])
  {
    assert 0 <= off / 256 <= 15;
    if len > 17 {
      dest[bp] := off / 256 * 16 + 15;
      dest[bp + 1] := off % 256;
      dest[bp + 2] := len - 18;
      bp' := bp + 3;
    } else {
      dest[bp] := off / 256 * 16 + (len - 3);
      dest[bp + 1] := off % 256;
      bp' := bp + 2;
    }
  }

  /** `b | bit` for a single bit. */
  function SetBit(b: int, bit: int): int
    requires bit > 0
  {
    if b / bit % 2 == 1 then b else b + bit
  }

  lemma Patched(was: seq<Byte>, now: seq<Byte>, i: nat, b: Byte, n: nat)
    requires i < n <= |was| && now == was[i := b]
    ensures now[..n] == was[..i] + [b] + was[i + 1..n]
  {
  }

  lemma EmptyGroup()
    ensures Bodies([]) == [] && Bits([]) == 0 && Pow2(0) == 1 && AllFit([])
  {
  }

  /** Adding an item to a group that is not full. */
  lemma GroupSnoc(g: seq<Item>, it: Item)
    requires AllFit(g) && ItemFits(it) && |g| < 8
    ensures AllFit(g + [it]) && Bodies(g + [it]) == Bodies(g) + ItemBytes(it)
    ensures var c := Pow2(|g|) % 256;
            && c > 0
            && (c * 2) % 256 == Pow2(|g + [it]|) % 256
            && Bits(g + [it]) == if it.Tag? then SetBit(Bits(g), c) else Bits(g)
  {
    hide Bodies, ItemBytes, Bits, Pow2, SetBit, AllFit;
    BodiesSnoc(g, it);
    BitsSnoc(g, it);
    BitsBound(g);
    CtrlIsZero(|g|);
    SetClearBit(Bits(g), Pow2(|g|));
  }

  lemma SetClearBit(b: int, bit: int)
    requires 0 <= b < bit
    ensures SetBit(b, bit) == b + bit
  {
    assert b / bit == 0;
  }

  lemma CtrlIsZero(k: nat)
    requires k <= 8
    ensures Pow2(k) % 256 == 0 <==> k == 8
    ensures k < 8 ==> Pow2(k) < 256 && (2 * Pow2(k)) % 256 == Pow2(k + 1) % 256
  {
    assert Pow2(1) == 2 && Pow2(2) == 4 && Pow2(3) == 8 && Pow2(4) == 16 && Pow2(5) == 32;
    assert Pow2(6) == 64 && Pow2(7) == 128 && Pow2(8) == 256;
  }

  // ----- The compressor -----

  lemma ParseStep(src: seq<Byte>, keys: seq<int>, dp: nat, good: nat, drop: nat)
    requires dp <= |src| == |keys| && drop <= 100
    ensures dp == |src| ==> Parse(src, keys, dp, good, drop) == []
    ensures dp < |src| ==>
              var it := NextItem(src, keys, dp, good, drop);
              Parse(src, keys, dp, good, drop) == [it] + Parse(src, keys, dp + Size(it), good, drop)
  {
  }

  lemma Advance(all: seq<Item>, i: nat, src: seq<Byte>, keys: seq<int>, dp: nat, good: nat, drop: nat)
    requires dp < |src| == |keys| && drop <= 100
    requires i <= |all| && all[i..] == Parse(src, keys, dp, good, drop)
    ensures var it := NextItem(src, keys, dp, good, drop);
            && i < |all| && all[i] == it && all[..i] + [it] == all[..i + 1]
            && all[i + 1..] == Parse(src, keys, dp + Size(it), good, drop)
  {
    hide Parse, NextItem;
    ParseStep(src, keys, dp, good, drop);
    assert all[i] == all[i..][0];
    assert all[i + 1..] == all[i..][1..];
  }

  /** For every source and strategy: the result code is `Result`, on success the output is the encoding
      of `Items`, and nothing beyond three bytes past the size limit is ever touched. */
  method Compress(h: History, src: seq<Byte>, dest: array<Byte>, strategy: Option<Strategy>) returns (n: int)
    requires |src| <= INT_MAX && dest.Length >= |src| + 4
    requires h.hs.Length == MAX_HISTORY_LISTS && h.he.Length == HISTORY_SIZE + 1
    requires dest as object != h.hs
    modifies h, h.hs, h.he, dest
    ensures var s := if strategy.Some? then strategy.value else STRATEGY_DEFAULT;
            && n == Result(src, s)
            && (n >= 0 ==> n < ResultMax(|src|, Clamp(s.minCompRate, 0, 99)) && dest[..n] == Encode(Items(src, s)))
            && forall k :: ResultMax(|src|, Clamp(s.minCompRate, 0, 99)) + 3 <= k < dest.Length ==> dest[k] == old(dest[k])
  {
    hide Parse, NextItem, Encode, GivesUp, StopsAt, ResultMax, HashSize, Clamp, AllFit, Chain, Search, KeysOf, Genuine, Linked;
    hide History.Valid, Writer.Valid, Writer.Open;
    var s := if strategy.Some? then strategy.value else STRATEGY_DEFAULT;
    if s.matchSizeGood <= 0 || |src| < s.minInputSize || |src| > s.maxInputSize {
      return -1;
    }
    var good, drop, rate := Clamp(s.matchSizeGood, 17, MAX_MATCH), Clamp(s.matchSizeDrop, 0, 100), Clamp(s.minCompRate, 0, 99);
    var resultMax := ResultMax(|src|, rate);
    var hashsz := HashSize(|src|);
    h.Reset(src, hashsz);
    var w := new Writer(dest);
    var dp, foundMatch := 0, false;
    ghost var keys := h.keys;
    KeysUnique(keys, src, hashsz);
    ghost var all := Parse(src, keys, 0, good, drop);
    assert all == Items(src, s);
    ghost var i := 0;
    assert all[0..] == all;
    while dp < |src|
      invariant dp <= |src| && i <= |all|
      invariant h.Valid() && h.n == dp && h.hashsz == hashsz && h.keys == keys
      invariant w.Valid() && w.dest == dest && w.Emitted() == all[..i]
      invariant all[i..] == Parse(src, keys, dp, good, drop)
      invariant !foundMatch ==> forall j :: 0 <= j < i ==> all[j].Literal?
      invariant foundMatch ==> exists j :: 0 <= j < i && all[j].Tag?
      invariant forall j :: 0 <= j < i ==> !StopsAt(all, j, s.firstSuccessBy)
      invariant w.bp <= resultMax + 3
      invariant forall k :: resultMax + 3 <= k < dest.Length ==> dest[k] == old(dest[k])
      decreases |src| - dp
    {
      w.BytesSoFar();
      if w.bp >= resultMax {
        EncodeMonotone(all, i);
        return -1;
      }
      Advance(all, i, src, keys, dp, good, drop);
      StopsHere(all, i, s.firstSuccessBy, foundMatch);
      if !foundMatch && w.bp >= s.firstSuccessBy {
        GivesUpAt(all, i, s.firstSuccessBy);
        return -1;
      }
      var isTag;
      dp, isTag := EmitOne(h, w, src, dp, hashsz, good, drop);
      foundMatch := foundMatch || isTag;
      i := i + 1;
    }
    ParseStep(src, keys, dp, good, drop);
    assert i == |all| && all[..i] == all;
    w.BytesSoFar();
    w.Finish();
    NeverGivesUp(all, s.firstSuccessBy);
    if w.bp >= resultMax {
      return -1;
    }
    return w.bp;
  }

  /** Lines 633-662: emit the item for position `start` and put the positions it covers into the history. */
  method EmitOne(h: History, w: Writer, src: seq<Byte>, start: nat, size: nat, good: nat, drop: nat) returns (dp: nat, isTag: bool)
    requires h.Valid() && start == h.n < |src| && size == h.hashsz && KeysOf(h.keys, src, size) && drop <= 100
    requires w.Valid() && w.bp + 4 <= w.dest.Length && w.dest as object != h.hs
    modifies h, h.hs, h.he, w, w.dest
    ensures h.Valid() && h.n == dp && h.hashsz == old(h.hashsz) && h.keys == old(h.keys)
    ensures w.Valid() && old(w.bp) < w.bp <= old(w.bp) + 4
    ensures var it := NextItem(src, old(h.keys), start, good, drop);
            w.Emitted() == old(w.Emitted()) + [it] && dp == start + Size(it) && isTag == it.Tag?
    ensures forall k :: w.bp <= k < w.dest.Length ==> w.dest[k] == old(w.dest[k])
  {
    hide NextItem, Encode, Chain, Search, HistIdx, Genuine, Linked, History.Valid, Writer.Valid, Writer.Open;
    NextItemIs(src, h.keys, start, good, drop);
    var found, len, off := h.FindMatch(src, start, size, good, drop);
    isTag := found;
    if found {
      w.OutTag(len, off);
      dp := AddAll(h, src, start, len, size);
    } else {
      w.OutLiteral(src[start]);
      h.Add(src, start, size);
      dp := start + 1;
    }
  }

  /** Lines 641-648. */
  method AddAll(h: History, src: seq<Byte>, start: nat, len: nat, size: nat) returns (dp: nat)
    requires h.Valid() && start == h.n && start + len <= |src| && size == h.hashsz && KeysOf(h.keys, src, size)
    modifies h, h.hs, h.he
    ensures h.Valid() && dp == start + len == h.n && h.hashsz == old(h.hashsz) && h.keys == old(h.keys)
  {
    hide Linked;
    dp := start;
    var rest := len;
    while rest > 0
      invariant h.Valid() && dp == h.n && dp + rest == start + len && h.hashsz == old(h.hashsz) && h.keys == old(h.keys)
    {
      rest := rest - 1;
      h.Add(src, dp, size);
      dp := dp + 1;
    }
  }

  lemma NextItemIs(src: seq<Byte>, keys: seq<int>, dp: nat, good: nat, drop: nat)
    requires dp < |src| == |keys| && drop <= 100
    ensures var c := Chain(keys, Low(dp), dp, keys[dp]);
            && (forall i :: 0 <= i < |c| ==> c[i] < dp)
            && var m := Search(src, dp, c, Match(0, 0), good, drop);
               NextItem(src, keys, dp, good, drop) == if m.len > 2 then Tag(m.len, m.off) else Literal(src[dp])
  {
    ChainFacts(keys, Low(dp), dp, keys[dp]);
  }

  lemma StopsHere(items: seq<Item>, i: nat, limit: int, found: bool)
    requires AllFit(items) && i < |items|
    requires if found then exists j :: 0 <= j < i && items[j].Tag? else forall j :: 0 <= j < i ==> items[j].Literal?
    ensures AllFit(items[..i]) && (StopsAt(items, i, limit) <==> !found && |Encode(items[..i])| >= limit)
  {
  }

  lemma GivesUpAt(items: seq<Item>, i: nat, limit: int)
    requires AllFit(items) && i < |items| && StopsAt(items, i, limit)
    ensures GivesUp(items, limit)
  {
  }

  lemma NeverGivesUp(items: seq<Item>, limit: int)
    requires AllFit(items) && forall i :: 0 <= i < |items| ==> !StopsAt(items, i, limit)
    ensures !GivesUp(items, limit)
  {
  }

  lemma KeysUnique(keys: seq<int>, src: seq<Byte>, hashsz: nat)
    requires KeysOf(keys, src, hashsz)
    ensures keys == Keys(src, hashsz)
  {
    hide HistIdx;
    var other := Keys(src, hashsz);
    forall p | 0 <= p < |keys|
      ensures keys[p] == other[p]
    {
      assert keys[p] == HistIdx(src, p, hashsz);
    }
  }

  /** Compress, then decompress: whenever compression succeeds, every source comes back unchanged, and
      decompressing with a smaller limit `k` and no completeness check gives exactly its first `k` bytes. */
  method RoundTrip(h: History, src: seq<Byte>, buffer: array<Byte>, dest: array<Byte>, strategy: Option<Strategy>, k: nat, slice: bool)
    returns (packed: int, n: int)
    requires |src| <= INT_MAX && buffer.Length >= |src| + 4 && dest.Length >= |src| && k <= |src|
    requires h.hs.Length == MAX_HISTORY_LISTS && h.he.Length == HISTORY_SIZE + 1
    requires buffer as object != h.hs && dest as object != h.hs && dest != buffer
    modifies h, h.hs, h.he, buffer, dest
    ensures packed < 0 || packed < |src|
    ensures packed >= 0 && !slice ==> n == |src| && dest[..n] == src
    ensures packed >= 0 && slice ==> n == k && dest[..n] == src[..k]
  {
    hide Result, Items, Expand, Encode, WellFormed, AllFit, ResultMax, Clamp;
    packed := Compress(h, src, buffer, strategy);
    n := -1;
    if packed >= 0 {
      ghost var s := if strategy.Some? then strategy.value else STRATEGY_DEFAULT;
      ghost var items := Items(src, s);
      ItemsStandForSource(src, s);
      if slice {
        n := Decompress(buffer[..packed], dest, k, false, items);
      } else {
        WholeIsComplete(items);
        n := Decompress(buffer[..packed], dest, |src|, true, items);
        assert src[..|src|] == src;
      }
    }
  }

  /** Asking for exactly the original size passes the completeness check. */
  lemma WholeIsComplete(items: seq<Item>)
    requires WellFormed(items)
    ensures Complete(items, |Expand(items)|)
  {
    hide Expand, WellFormed;
    ExpandNothing();
    if items != [] {
      ExpandPrefix(items, |items| - 1);
    }
  }
}
