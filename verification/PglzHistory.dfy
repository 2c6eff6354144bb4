/** The history table of the pglz compressor (common/pg_lzcompress.c): a ring of 4096
    entries, each on a doubly linked list of the positions that share a hash key. */
module PglzHistory {
  import opened Common

  const MAX_HISTORY_LISTS := 8192
  const HISTORY_SIZE := 4096
  const NULL := -1  // a null `prev` pointer; `next` is never null, 0 is the unused entry

  /** One entry; the pointers of the source are indexes into the entry array. */
  datatype HistEntry = HistEntry(next: int, prev: int, hindex: int, pos: int)

  /** A plain (signed) char as a 32-bit int. */
  function CharToInt32(b: Byte): bv32 {
    (if b < 128 then b else 0xFFFF_FF00 + b) as bv32
  }

  /** The list for the next four characters. Masking with `hashsz - 1` is taking
      the remainder, because the sizes are powers of two. */
  function HistIdx(src: seq<Byte>, p: nat, hashsz: nat): (k: int)
    requires p < |src| && hashsz > 0
    ensures 0 <= k < hashsz
  {
    if |src| - p < 4 then
      (if src[p] < 128 then src[p] else src[p] - 256) % hashsz
    else
      var h := (CharToInt32(src[p]) << 6) ^ (CharToInt32(src[p + 1]) << 4) ^
               (CharToInt32(src[p + 2]) << 2) ^ CharToInt32(src[p + 3]);
      (h as int) % hashsz
  }

  /** The next four bytes of `q` and of `p` are the same. */
  ghost predicate SameFour(src: seq<Byte>, q: nat, p: nat) {
    q + 4 <= |src| && p + 4 <= |src| && src[q..q + 4] == src[p..p + 4]
  }

  /** The key depends on the next four bytes only, or on one byte where fewer than four are left. */
  lemma SameTextSameKey(src: seq<Byte>, q: nat, p: nat, hashsz: nat)
    requires q < |src| && p < |src| && hashsz > 0
    requires SameFour(src, q, p) || (q + 4 > |src| && p + 4 > |src| && src[q] == src[p])
    ensures HistIdx(src, q, hashsz) == HistIdx(src, p, hashsz)
  {
    if SameFour(src, q, p) {
      var a, b := src[q..q + 4], src[p..p + 4];
      assert a[0] == src[q] && a[1] == src[q + 1] && a[2] == src[q + 2] && a[3] == src[q + 3];
      assert b[0] == src[p] && b[1] == src[p + 1] && b[2] == src[p + 2] && b[3] == src[p + 3];
    }
  }

  /** The shifts, the sign of a char and the mask on three texts. */
  lemma KeyExamples()
    ensures HistIdx([97, 98, 99, 100], 0, 8192) == 8072
    ensures HistIdx([200, 1, 2, 3], 0, 512) == 27
    ensures HistIdx([0, 200], 1, 512) == 456
  {
    assert (CharToInt32(97) << 6) ^ (CharToInt32(98) << 4) ^ (CharToInt32(99) << 2) ^ CharToInt32(100) == 8072;
    assert (CharToInt32(200) << 6) ^ (CharToInt32(1) << 4) ^ (CharToInt32(2) << 2) ^ CharToInt32(3) == 0xFFFF_F21B;
  }

  /** `keys` lists the key of every position of `src`. */
  ghost predicate KeysOf(keys: seq<int>, src: seq<Byte>, hashsz: nat) {
    && hashsz > 0 && |keys| == |src|
    && (forall p :: 0 <= p < |keys| ==> 0 <= keys[p] < hashsz)
    && forall p {:trigger HistIdx(src, p, hashsz)} :: 0 <= p < |src| ==> keys[p] == HistIdx(src, p, hashsz)
  }

  ghost function Keys(src: seq<Byte>, hashsz: nat): (keys: seq<int>)
    requires hashsz > 0
    ensures KeysOf(keys, src, hashsz)
  {
    seq(|src|, p requires 0 <= p < |src| => HistIdx(src, p, hashsz))
  }

  method HashKey(src: seq<Byte>, p: nat, hashsz: nat, ghost keys: seq<int>) returns (k: int)
    requires p < |src| && KeysOf(keys, src, hashsz)
    ensures k == keys[p]
  {
    k := HistIdx(src, p, hashsz);
  }

  // ----- Specification: chains as functions of the keys alone -----

  /** The newest position in [lo, p) with key `k`, or -1. */
  ghost function Older(keys: seq<int>, lo: nat, p: nat, k: int): (q: int)
    requires p <= |keys|
    ensures q == -1 || (lo <= q < p && keys[q] == k)
  {
    if p <= lo then -1 else if keys[p - 1] == k then p - 1 else Older(keys, lo, p - 1, k)
  }

  /** The oldest position in [p, n) with key `k`, or -1. */
  ghost function Newer(keys: seq<int>, p: nat, n: nat, k: int): (q: int)
    requires n <= |keys|
    ensures q == -1 || (p <= q < n && keys[q] == k)
    decreases n - p
  {
    if n <= p then -1 else if keys[p] == k then p else Newer(keys, p + 1, n, k)
  }

  /** The positions in [lo, p) with key `k`, newest first. */
  ghost function Chain(keys: seq<int>, lo: nat, p: nat, k: int): (c: seq<nat>)
    requires p <= |keys|
  {
    var q := Older(keys, lo, p, k);
    if q == -1 then [] else [q] + Chain(keys, lo, q, k)
  }

  /** The entry that holds position `p`. */
  ghost function Slot(p: nat): (s: int)
    ensures 1 <= s <= HISTORY_SIZE
  {
    if p < HISTORY_SIZE then p + 1 else Slot(p - HISTORY_SIZE)
  }

  ghost function Link(q: int): (x: int)
    ensures 0 <= x <= HISTORY_SIZE
    ensures x == 0 <==> q < 0
  {
    if q < 0 then 0 else Slot(q)
  }

  ghost function BackLink(q: int): (x: int) {
    if q < 0 then NULL else Slot(q)
  }

  lemma {:induction false} SlotsDiffer(p: nat, q: nat)
    requires p < q < p + HISTORY_SIZE
    ensures Slot(p) != Slot(q)
  {
    if p >= HISTORY_SIZE { SlotsDiffer(p - HISTORY_SIZE, q - HISTORY_SIZE); }
  }

  lemma {:induction false} SlotSucc(p: nat)
    ensures Slot(p + 1) == if Slot(p) == HISTORY_SIZE then 1 else Slot(p) + 1
  {
    if p >= HISTORY_SIZE { SlotSucc(p - HISTORY_SIZE); }
  }

  /** The first live position once `n` have been added. */
  ghost function Low(n: nat): nat {
    if n <= HISTORY_SIZE then 0 else n - HISTORY_SIZE
  }

  /** Entry `e` holds position `p` of the window [lo, n), linked both ways. */
  ghost predicate EntryOk(e: HistEntry, keys: seq<int>, lo: nat, n: nat, p: nat)
    requires lo <= p < n <= |keys|
  {
    && e.pos == p
    && e.hindex == keys[p]
    && e.next == Link(Older(keys, lo, p, keys[p]))
    && e.prev == BackLink(Newer(keys, p + 1, n, keys[p]))
  }

  /** The table holds exactly the positions [lo, n), each on the list of its key. */
  ghost predicate Linked(hs: seq<int>, he: seq<HistEntry>, hashsz: nat, keys: seq<int>, lo: nat, n: nat)
  {
    && |hs| == MAX_HISTORY_LISTS && |he| == HISTORY_SIZE + 1
    && hashsz <= MAX_HISTORY_LISTS
    && lo <= n <= |keys| && n - lo <= HISTORY_SIZE
    && (forall p :: 0 <= p < |keys| ==> 0 <= keys[p] < hashsz)
    && (forall p :: lo <= p < n ==> EntryOk(he[Slot(p)], keys, lo, n, p))
    && (forall k :: 0 <= k < hashsz ==> hs[k] == Link(Older(keys, lo, n, k)))
  }

  lemma {:induction false} OlderIsNewest(keys: seq<int>, lo: nat, p: nat, k: int, r: nat)
    requires lo <= r < p <= |keys| && keys[r] == k
    ensures r <= Older(keys, lo, p, k)
  {
    if keys[p - 1] != k { OlderIsNewest(keys, lo, p - 1, k, r); }
  }

  lemma {:induction false} NewerIsOldest(keys: seq<int>, p: nat, n: nat, k: int, r: nat)
    requires p <= r < n <= |keys| && keys[r] == k
    ensures p <= Newer(keys, p, n, k) <= r
    decreases n - p
  {
    if keys[p] != k { NewerIsOldest(keys, p + 1, n, k, r); }
  }

  /** Dropping the oldest position changes only the link that reached it. */
  lemma {:induction false} OlderAfterDrop(keys: seq<int>, lo: nat, p: nat, k: int)
    requires lo < p <= |keys|
    ensures Older(keys, lo + 1, p, k) == if Older(keys, lo, p, k) == lo then -1 else Older(keys, lo, p, k)
  {
    if p > lo + 1 && keys[p - 1] != k { OlderAfterDrop(keys, lo, p - 1, k); }
  }

  /** Adding a position changes only the link of the newest position with its key. */
  lemma {:induction false} NewerAfterAppend(keys: seq<int>, p: nat, n: nat, k: int)
    requires p <= n < |keys|
    ensures Newer(keys, p, n + 1, k) ==
            (if Newer(keys, p, n, k) != -1 then Newer(keys, p, n, k) else if keys[n] == k then n else -1)
    decreases n - p
  {
    if p < n && keys[p] != k { NewerAfterAppend(keys, p + 1, n, k); }
  }

  /** `Older` and `Newer` are inverse: the doubly linked lists really are symmetric. */
  lemma Symmetric(keys: seq<int>, lo: nat, n: nat, q: nat, p: nat)
    requires lo <= q < p < n <= |keys|
    ensures Older(keys, lo, p, keys[p]) == q <==> keys[q] == keys[p] && Newer(keys, q + 1, n, keys[q]) == p
  {
    var k := keys[p];
    if keys[q] == k {
      NewerIsOldest(keys, q + 1, n, k, p);
      OlderIsNewest(keys, lo, p, k, q);
      var r, t := Older(keys, lo, p, k), Newer(keys, q + 1, n, k);
      if q < r { NewerIsOldest(keys, q + 1, n, k, r); }
      if t < p { OlderIsNewest(keys, lo, p, k, t); }
    }
  }

  /** The head of a list is the one position of its key with nothing newer. */
  lemma HeadHasNoNewer(keys: seq<int>, lo: nat, n: nat, p: nat)
    requires lo <= p < n <= |keys|
    ensures Older(keys, lo, n, keys[p]) == p <==> Newer(keys, p + 1, n, keys[p]) == -1
  {
    var k := keys[p];
    OlderIsNewest(keys, lo, n, k, p);
    var r, t := Older(keys, lo, n, k), Newer(keys, p + 1, n, k);
    if p < r { NewerIsOldest(keys, p + 1, n, k, r); }
    if t != -1 { OlderIsNewest(keys, lo, n, k, t); }
  }

  lemma Sizes(hs: seq<int>, he: seq<HistEntry>, hashsz: nat, keys: seq<int>, lo: nat, n: nat)
    requires Linked(hs, he, hashsz, keys, lo, n)
    ensures |hs| == MAX_HISTORY_LISTS && |he| == HISTORY_SIZE + 1 && hashsz <= MAX_HISTORY_LISTS
  {
  }

  /** The window starts with its chain's tail: recycling never breaks a list in the middle. */
  lemma RecycledIsTail(hs: seq<int>, he: seq<HistEntry>, hashsz: nat, keys: seq<int>, lo: nat, n: nat)
    requires Linked(hs, he, hashsz, keys, lo, n) && lo < n
    ensures |he| == HISTORY_SIZE + 1
    ensures var e := he[Slot(lo)];
            && e.next == 0
            && 0 <= e.hindex < hashsz
            && (e.prev == NULL || (1 <= e.prev <= HISTORY_SIZE && e.prev != Slot(lo)))
  {
    assert EntryOk(he[Slot(lo)], keys, lo, n, lo);
    var r := Newer(keys, lo + 1, n, keys[lo]);
    if r != -1 { SlotsDiffer(lo, r); }
  }

  /** No list starts at the entry that is about to be filled. */
  lemma HeadIsNotFree(hs: seq<int>, he: seq<HistEntry>, hashsz: nat, keys: seq<int>, lo: nat, n: nat, k: int)
    requires Linked(hs, he, hashsz, keys, lo, n) && n - lo < HISTORY_SIZE && 0 <= k < hashsz
    ensures |hs| == MAX_HISTORY_LISTS && hashsz <= |hs|
    ensures 0 <= hs[k] <= HISTORY_SIZE && hs[k] != Slot(n)
  {
    var h := Older(keys, lo, n, k);
    if h != -1 { SlotsDiffer(h, n); }
  }

  /** What lines 301-308 do to the table. */
  ghost predicate DelinkStep(hs: seq<int>, he: seq<HistEntry>, hs': seq<int>, he': seq<HistEntry>, i: int)
  {
    && |hs'| == |hs| && |he'| == |he| == HISTORY_SIZE + 1 && 1 <= i < |he|
    && var e := he[i];
    && hs' == (if e.prev == NULL && 0 <= e.hindex < |hs| then hs[e.hindex := e.next] else hs)
    && (forall i :: 1 <= i < |he| && i != e.prev ==> he'[i] == he[i])
    && (1 <= e.prev < |he| ==> he'[e.prev] == he[e.prev].(next := e.next))
  }

  lemma DelinkedEntry(hs: seq<int>, he: seq<HistEntry>, hs': seq<int>, he': seq<HistEntry>, hashsz: nat, keys: seq<int>, lo: nat, n: nat, p: nat)
    requires Linked(hs, he, hashsz, keys, lo, n) && lo < p < n
    requires DelinkStep(hs, he, hs', he', Slot(lo))
    ensures EntryOk(he'[Slot(p)], keys, lo + 1, n, p)
  {
    assert EntryOk(he[Slot(lo)], keys, lo, n, lo);
    assert EntryOk(he[Slot(p)], keys, lo, n, p);
    Symmetric(keys, lo, n, lo, p);
    OlderAfterDrop(keys, lo, p, keys[p]);
    var r := Newer(keys, lo + 1, n, keys[lo]);
    if r != -1 && p != r {
      if p < r { SlotsDiffer(p, r); } else { SlotsDiffer(r, p); }
    }
  }

  lemma Delinked(hs: seq<int>, he: seq<HistEntry>, hs': seq<int>, he': seq<HistEntry>, hashsz: nat, keys: seq<int>, lo: nat, n: nat)
    requires Linked(hs, he, hashsz, keys, lo, n) && n - lo == HISTORY_SIZE
    requires DelinkStep(hs, he, hs', he', Slot(lo))
    ensures Linked(hs', he', hashsz, keys, lo + 1, n)
  {
    forall p | lo + 1 <= p < n
      ensures EntryOk(he'[Slot(p)], keys, lo + 1, n, p)
    {
      DelinkedEntry(hs, he, hs', he', hashsz, keys, lo, n, p);
    }
    assert EntryOk(he[Slot(lo)], keys, lo, n, lo);
    HeadHasNoNewer(keys, lo, n, lo);
    forall j | 0 <= j < hashsz
      ensures hs'[j] == Link(Older(keys, lo + 1, n, j))
    {
      OlderAfterDrop(keys, lo, n, j);
    }
  }

  /** What lines 309-322 do to the table. */
  ghost predicate AppendStep(hs: seq<int>, he: seq<HistEntry>, hs': seq<int>, he': seq<HistEntry>, k: int, n: nat)
  {
    && 0 <= k < |hs| && |hs'| == |hs| && |he'| == |he| == HISTORY_SIZE + 1
    && hs' == hs[k := Slot(n)]
    && he'[Slot(n)] == HistEntry(hs[k], NULL, k, n)
    && (forall i :: 1 <= i < |he| && i != Slot(n) && i != hs[k] ==> he'[i] == he[i])
    && (1 <= hs[k] < |he| && hs[k] != Slot(n) ==> he'[hs[k]] == he[hs[k]].(prev := Slot(n)))
  }

  lemma AppendedEntry(hs: seq<int>, he: seq<HistEntry>, hs': seq<int>, he': seq<HistEntry>, hashsz: nat, keys: seq<int>, lo: nat, n: nat, p: nat)
    requires Linked(hs, he, hashsz, keys, lo, n) && n < |keys| && n - lo < HISTORY_SIZE
    requires 0 <= keys[n] < hashsz && AppendStep(hs, he, hs', he', keys[n], n) && lo <= p <= n
    ensures EntryOk(he'[Slot(p)], keys, lo, n + 1, p)
  {
    hide Slot, Older, Newer, Linked;
    var h := Older(keys, lo, n, keys[n]);
    LinkedAt(hs, he, hashsz, keys, lo, n, p, keys[n]);
    if p < n {
      SlotsDiffer(p, n);
      NewerAfterAppend(keys, p + 1, n, keys[p]);
      HeadHasNoNewer(keys, lo, n, p);
      if p == h {
        assert he'[Slot(p)] == he[Slot(p)].(prev := Slot(n));
      } else {
        if h != -1 {
          if p < h { SlotsDiffer(p, h); } else { SlotsDiffer(h, p); }
        }
        assert he'[Slot(p)] == he[Slot(p)];
      }
    }
  }

  lemma LinkedAt(hs: seq<int>, he: seq<HistEntry>, hashsz: nat, keys: seq<int>, lo: nat, n: nat, p: nat, k: int)
    requires Linked(hs, he, hashsz, keys, lo, n) && lo <= p <= n && 0 <= k < hashsz
    ensures |hs| == MAX_HISTORY_LISTS && hashsz <= |hs| && |he| == HISTORY_SIZE + 1
    ensures p < n ==> EntryOk(he[Slot(p)], keys, lo, n, p)
    ensures hs[k] == Link(Older(keys, lo, n, k))
  {
  }

  lemma Appended(hs: seq<int>, he: seq<HistEntry>, hs': seq<int>, he': seq<HistEntry>, hashsz: nat, keys: seq<int>, lo: nat, n: nat)
    requires Linked(hs, he, hashsz, keys, lo, n) && n < |keys| && n - lo < HISTORY_SIZE
    requires AppendStep(hs, he, hs', he', keys[n], n)
    ensures Linked(hs', he', hashsz, keys, lo, n + 1)
  {
    forall p | lo <= p < n + 1
      ensures EntryOk(he'[Slot(p)], keys, lo, n + 1, p)
    {
      AppendedEntry(hs, he, hs', he', hashsz, keys, lo, n, p);
    }
  }

  // ----- What the lists are, seen by a walker -----

  /** Following `next` from entry `x` visits exactly the positions `c`, and every `prev`
      points back to the entry before (`back` for the first). */
  ghost predicate ListIs(he: seq<HistEntry>, x: int, back: int, c: seq<nat>)
    requires |he| == HISTORY_SIZE + 1
    decreases |c|
  {
    if c == [] then x == 0
    else
      && x == Slot(c[0])
      && he[x].pos == c[0]
      && he[x].prev == back
      && ListIs(he, he[x].next, x, c[1..])
  }

  lemma {:induction false} ChainFacts(keys: seq<int>, lo: nat, p: nat, k: int)
    requires p <= |keys|
    ensures var c := Chain(keys, lo, p, k);
            && (forall i :: 0 <= i < |c| ==> lo <= c[i] < p)
            && (forall i, j :: 0 <= i < j < |c| ==> c[i] > c[j])
            && (forall q: nat :: q in c <==> lo <= q < p && keys[q] == k)
  {
    var q := Older(keys, lo, p, k);
    if q == -1 {
      forall r: nat | lo <= r < p && keys[r] == k ensures false { OlderIsNewest(keys, lo, p, k, r); }
    } else {
      ChainFacts(keys, lo, q, k);
      forall r: nat | lo <= r < p && keys[r] == k ensures r <= q { OlderIsNewest(keys, lo, p, k, r); }
      var t := Chain(keys, lo, q, k);
      assert Chain(keys, lo, p, k) == [q] + t;
      assert forall r: nat :: r in [q] + t <==> r == q || r in t;
    }
  }

  lemma {:induction false} TailIsList(hs: seq<int>, he: seq<HistEntry>, hashsz: nat, keys: seq<int>, lo: nat, n: nat, q: nat)
    requires Linked(hs, he, hashsz, keys, lo, n) && lo <= q < n
    ensures ListIs(he, he[Slot(q)].next, Slot(q), Chain(keys, lo, q, keys[q]))
    decreases q
  {
    assert EntryOk(he[Slot(q)], keys, lo, n, q);
    var r := Older(keys, lo, q, keys[q]);
    if r != -1 {
      assert EntryOk(he[Slot(r)], keys, lo, n, r);
      Symmetric(keys, lo, n, r, q);
      TailIsList(hs, he, hashsz, keys, lo, n, r);
      assert Chain(keys, lo, q, keys[q])[1..] == Chain(keys, lo, r, keys[q]);
    }
  }

  /** Every hash list is an acyclic doubly linked list that holds exactly the window's
      positions with that key, newest first. */
  lemma ListsAreChains(hs: seq<int>, he: seq<HistEntry>, hashsz: nat, keys: seq<int>, lo: nat, n: nat, k: int)
    requires Linked(hs, he, hashsz, keys, lo, n) && 0 <= k < hashsz
    ensures var c := Chain(keys, lo, n, k);
            && ListIs(he, hs[k], NULL, c)
            && (forall i, j :: 0 <= i < j < |c| ==> c[i] > c[j])
            && (forall q: nat :: q in c <==> lo <= q < n && keys[q] == k)
  {
    ChainFacts(keys, lo, n, k);
    var q := Older(keys, lo, n, k);
    if q != -1 {
      assert EntryOk(he[Slot(q)], keys, lo, n, q);
      TailIsList(hs, he, hashsz, keys, lo, n, q);
      assert Chain(keys, lo, n, k)[1..] == Chain(keys, lo, q, k);
    }
  }

  // ----- Match search -----

  const MAX_MATCH := 273
  const OFFSET_LIMIT := 0x0fff

  /** The text in [b, e) repeats the text `off` bytes before it. */
  ghost predicate Repeats(src: seq<Byte>, b: nat, e: nat, off: nat) {
    off <= b && e <= |src| && forall i :: b <= i < e ==> src[i] == src[i - off]
  }

  /** How far the text at `b` repeats the text at `a`, at most MAX_MATCH. */
  function MatchLen(src: seq<Byte>, a: nat, b: nat, from: nat): (l: nat)
    requires a < b && b + from <= |src| && from <= MAX_MATCH
    ensures from <= l <= MAX_MATCH && b + l <= |src|
    ensures Repeats(src, b + from, b + l, b - a)
    ensures l == MAX_MATCH || b + l == |src| || src[a + l] != src[b + l]
    decreases |src| - from
  {
    if b + from < |src| && src[a + from] == src[b + from] && from < MAX_MATCH then MatchLen(src, a, b, from + 1) else from
  }

  datatype Match = Match(len: nat, off: nat)

  /** The length that is good enough shrinks by this percentage with each entry visited. */
  function Decay(good: nat, drop: nat): (g: nat)
    requires drop <= 100
    ensures g <= good && (drop == 0 ==> g == good)
  {
    assert good * drop / 100 <= good by { Percent(good, drop); }
    good - good * drop / 100
  }

  /** What is taken off is the percentage, rounded down. */
  lemma DecayIsPercent(good: nat, drop: nat)
    requires drop <= 100
    ensures var off := good - Decay(good, drop); 100 * off <= good * drop < 100 * (off + 1)
  {
  }

  lemma Percent(good: nat, drop: nat)
    requires drop <= 100
    ensures 0 <= good * drop / 100 <= good
  {
    assert good * drop <= good * 100;
  }

  function Better(src: seq<Byte>, p: nat, q: nat, best: Match): (m: Match)
    requires q < p <= |src|
    ensures m.len >= best.len && m.len >= MatchLen(src, q, p, 0)
    ensures m == best || (m.len == MatchLen(src, q, p, 0) && m.off == p - q)
  {
    var l := MatchLen(src, q, p, 0);
    if l > best.len then Match(l, p - q) else best
  }

  /** The search over the list of earlier positions `c`, without the memcmp shortcut. */
  ghost function Search(src: seq<Byte>, p: nat, c: seq<nat>, best: Match, good: nat, drop: nat): (m: Match)
    requires p <= |src| && drop <= 100 && forall i :: 0 <= i < |c| ==> c[i] < p
    decreases |c|
  {
    if c == [] || p - c[0] >= OFFSET_LIMIT then best
    else
      var best' := Better(src, p, c[0], best);
      if |c| > 1 && best'.len >= good then best'
      else Search(src, p, c[1..], best', Decay(good, drop), drop)
  }

  /** `m` is a copy of earlier text that fits the tag format. */
  ghost predicate Genuine(src: seq<Byte>, p: nat, m: Match) {
    && 1 <= m.off < OFFSET_LIMIT && m.off <= p
    && m.len <= MAX_MATCH && p + m.len <= |src|
    && Repeats(src, p, p + m.len, m.off)
  }

  ghost predicate GenuineOrEmpty(src: seq<Byte>, p: nat, m: Match) {
    m.len == 0 || Genuine(src, p, m)
  }

  lemma BetterIsGenuine(src: seq<Byte>, p: nat, q: nat, best: Match)
    requires q < p <= |src| && p - q < OFFSET_LIMIT && GenuineOrEmpty(src, p, best)
    ensures GenuineOrEmpty(src, p, Better(src, p, q, best))
  {
  }

  lemma {:induction false} SearchIsGenuine(src: seq<Byte>, p: nat, c: seq<nat>, best: Match, good: nat, drop: nat)
    requires p <= |src| && drop <= 100 && forall i :: 0 <= i < |c| ==> c[i] < p
    requires GenuineOrEmpty(src, p, best)
    ensures GenuineOrEmpty(src, p, Search(src, p, c, best, good, drop))
    decreases |c|
  {
    hide GenuineOrEmpty, Better, Decay;
    if c == [] || p - c[0] >= OFFSET_LIMIT {
    } else {
      var best' := Better(src, p, c[0], best);
      BetterIsGenuine(src, p, c[0], best);
      if |c| > 1 && best'.len >= good {
      } else {
        SearchIsGenuine(src, p, c[1..], best', Decay(good, drop), drop);
      }
    }
  }

  /** What counts as good enough after `k` entries. */
  ghost function Threshold(good: nat, drop: nat, k: nat): (g: nat)
    requires drop <= 100
    ensures drop == 0 ==> g == good
    decreases k
  {
    if k == 0 then good else Threshold(Decay(good, drop), drop, k - 1)
  }

  /** `m` is the match at c[i], and every position before that offers less. */
  ghost predicate FirstWith(src: seq<Byte>, p: nat, c: seq<nat>, i: nat, m: Match)
    requires p <= |src| && i < |c| && forall j :: 0 <= j < |c| ==> c[j] < p
  {
    m == Match(MatchLen(src, c[i], p, 0), p - c[i]) && forall j :: 0 <= j < i ==> MatchLen(src, c[j], p, 0) < m.len
  }

  /** The result after visiting the first `k` positions: the longest of their matches, and the newest of equals, unless
      `best` was as long. */
  ghost predicate BestOf(src: seq<Byte>, p: nat, c: seq<nat>, k: nat, best: Match, m: Match)
    requires p <= |src| && k <= |c| && forall i :: 0 <= i < |c| ==> c[i] < p
  {
    && best.len <= m.len
    && (forall i :: 0 <= i < k ==> p - c[i] < OFFSET_LIMIT && MatchLen(src, c[i], p, 0) <= m.len)
    && (m == best || (best.len < m.len && exists i :: 0 <= i < k && FirstWith(src, p, c, i, m)))
  }

  lemma BestOfNone(src: seq<Byte>, p: nat, c: seq<nat>, best: Match)
    requires p <= |src| && forall i :: 0 <= i < |c| ==> c[i] < p
    ensures BestOf(src, p, c, 0, best, best)
  {
  }

  lemma FirstWithMore(src: seq<Byte>, p: nat, c: seq<nat>, i: nat, m: Match)
    requires p <= |src| && i + 1 < |c| && (forall j :: 0 <= j < |c| ==> c[j] < p)
    requires FirstWith(src, p, c[1..], i, m) && MatchLen(src, c[0], p, 0) < m.len
    ensures FirstWith(src, p, c, i + 1, m)
  {
    hide MatchLen;
    forall j | 0 <= j < i + 1
      ensures MatchLen(src, c[j], p, 0) < m.len
    {
      if j > 0 { assert c[j] == c[1..][j - 1]; }
    }
  }

  lemma BestOfMore(src: seq<Byte>, p: nat, c: seq<nat>, k: nat, best: Match, m: Match)
    requires p <= |src| && 0 < k <= |c| && (forall i :: 0 <= i < |c| ==> c[i] < p) && p - c[0] < OFFSET_LIMIT
    requires BestOf(src, p, c[1..], k - 1, Better(src, p, c[0], best), m)
    ensures BestOf(src, p, c, k, best, m)
  {
    hide MatchLen, FirstWith;
    var t, b := c[1..], Better(src, p, c[0], best);
    forall i | 0 <= i < k
      ensures p - c[i] < OFFSET_LIMIT && MatchLen(src, c[i], p, 0) <= m.len
    {
      if i > 0 { assert c[i] == t[i - 1]; }
    }
    if m != b {
      var i :| 0 <= i < k - 1 && FirstWith(src, p, t, i, m);
      FirstWithMore(src, p, c, i, m);
    } else if m != best {
      FirstIsFirst(src, p, c, m);
    }
  }

  lemma FirstIsFirst(src: seq<Byte>, p: nat, c: seq<nat>, m: Match)
    requires p <= |src| && c != [] && (forall j :: 0 <= j < |c| ==> c[j] < p)
    requires m == Match(MatchLen(src, c[0], p, 0), p - c[0])
    ensures FirstWith(src, p, c, 0, m)
  {
  }

  /** For every good length and drop, the search returns the best match of the positions it visits, and stops only at
      the end of the list, at the first position out of reach, or once the match is good enough. */
  lemma {:induction false} SearchIsBest(src: seq<Byte>, p: nat, c: seq<nat>, best: Match, good: nat, drop: nat) returns (k: nat)
    requires p <= |src| && drop <= 100 && forall i :: 0 <= i < |c| ==> c[i] < p
    ensures k <= |c|
    ensures var m := Search(src, p, c, best, good, drop);
            && BestOf(src, p, c, k, best, m)
            && (k == |c| || p - c[k] >= OFFSET_LIMIT || (k > 0 && m.len >= Threshold(good, drop, k - 1)))
    decreases |c|
  {
    hide Better, Decay, BestOf;
    k := 0;
    if c == [] || p - c[0] >= OFFSET_LIMIT {
      BestOfNone(src, p, c, best);
    } else {
      var best' := Better(src, p, c[0], best);
      if |c| > 1 && best'.len >= good {
        BestOfNone(src, p, c[1..], best');
      } else {
        k := SearchIsBest(src, p, c[1..], best', Decay(good, drop), drop);
      }
      k := k + 1;
      BestOfMore(src, p, c, k, best, Search(src, p, c, best, good, drop));
    }
  }

  /** With the largest good length that pglz_compress allows and no drop, no position in reach offers a longer match. */
  lemma SearchIsLongest(src: seq<Byte>, p: nat, c: seq<nat>, best: Match, good: nat)
    requires p <= |src| && forall i :: 0 <= i < |c| ==> c[i] < p
    requires forall i, j :: 0 <= i < j < |c| ==> c[i] > c[j]
    requires good >= MAX_MATCH
    ensures var m := Search(src, p, c, best, good, 0);
            && best.len <= m.len
            && forall i :: 0 <= i < |c| && p - c[i] < OFFSET_LIMIT ==> MatchLen(src, c[i], p, 0) <= m.len
  {
    hide Search;
    var k := SearchIsBest(src, p, c, best, good, 0);
  }

  /** memcmp on the first `l` bytes is the predicate `Repeats`. */
  lemma MemcmpIsRepeats(src: seq<Byte>, a: nat, b: nat, l: nat)
    requires a < b && b + l <= |src|
    ensures src[b..b + l] == src[a..a + l] <==> Repeats(src, b, b + l, b - a)
  {
    var x, y := src[b..b + l], src[a..a + l];
    if x == y {
      forall i | b <= i < b + l ensures src[i] == src[i - (b - a)] {
        assert x[i - b] == y[i - b];
      }
    }
    if Repeats(src, b, b + l, b - a) {
      forall i | 0 <= i < l ensures x[i] == y[i] {
        assert src[b + i] == src[b + i - (b - a)];
      }
    }
  }

  lemma MatchLenUnique(src: seq<Byte>, a: nat, b: nat, l: nat, m: nat)
    requires a < b && b + l <= |src| && l <= MAX_MATCH
    requires l <= m <= MAX_MATCH && b + m <= |src| && Repeats(src, b + l, b + m, b - a)
    requires m == MAX_MATCH || b + m == |src| || src[b + m] != src[a + m]
    ensures m == MatchLen(src, a, b, l)
  {
    var m' := MatchLen(src, a, b, l);
    assert m' < m ==> src[b + m'] == src[b + m' - (b - a)];
  }

  /** Why comparing the first `l` bytes at once loses nothing. */
  lemma MatchLenSkip(src: seq<Byte>, a: nat, b: nat, l: nat)
    requires a < b && b + l <= |src| && l <= MAX_MATCH
    ensures if src[b..b + l] == src[a..a + l] then MatchLen(src, a, b, 0) == MatchLen(src, a, b, l) else MatchLen(src, a, b, 0) < l
  {
    MemcmpIsRepeats(src, a, b, l);
    var m := MatchLen(src, a, b, 0);
    if src[b..b + l] == src[a..a + l] {
      MatchLenUnique(src, a, b, l, m);
    }
  }

  /** One step along a list. */
  lemma ListStep(he: seq<HistEntry>, x: int, back: int, c: seq<nat>)
    requires |he| == HISTORY_SIZE + 1 && ListIs(he, x, back, c)
    ensures x == 0 <==> c == []
    ensures x != 0 ==> 1 <= x <= HISTORY_SIZE && he[x].pos == c[0] && ListIs(he, he[x].next, x, c[1..])
  {
  }

  lemma SearchStep(src: seq<Byte>, p: nat, c: seq<nat>, best: Match, good: nat, drop: nat)
    requires p <= |src| && drop <= 100 && forall i :: 0 <= i < |c| ==> c[i] < p
    ensures var m := Search(src, p, c, best, good, drop);
            if c == [] || p - c[0] >= OFFSET_LIMIT then m == best
            else
              var best' := Better(src, p, c[0], best);
              m == if |c| > 1 && best'.len >= good then best' else Search(src, p, c[1..], best', Decay(good, drop), drop)
  {
  }

  lemma EmptyMatch(src: seq<Byte>, p: nat)
    ensures GenuineOrEmpty(src, p, Match(0, 0))
  {
  }

  lemma GenuineFits(src: seq<Byte>, p: nat, m: Match)
    requires GenuineOrEmpty(src, p, m) && p <= |src|
    ensures m.len <= MAX_MATCH && p + m.len <= |src|
    ensures m.len > 0 ==> Genuine(src, p, m)
  {
  }

  /** With no early stop, no earlier text in reach that starts with the same four bytes matches for longer. */
  lemma LongestInText(src: seq<Byte>, keys: seq<int>, hashsz: nat, dp: nat, good: nat)
    requires KeysOf(keys, src, hashsz) && dp < |src| && good >= MAX_MATCH
    requires forall i :: 0 <= i < |Chain(keys, Low(dp), dp, keys[dp])| ==> Chain(keys, Low(dp), dp, keys[dp])[i] < dp
    ensures var m := Search(src, dp, Chain(keys, Low(dp), dp, keys[dp]), Match(0, 0), good, 0);
            forall q :: 0 <= q < dp && dp - q < OFFSET_LIMIT && SameFour(src, q, dp) ==> MatchLen(src, q, dp, 0) <= m.len
  {
    hide MatchLen, Search, Chain, HistIdx, SameFour;
    var c := Chain(keys, Low(dp), dp, keys[dp]);
    ChainFacts(keys, Low(dp), dp, keys[dp]);
    SearchIsLongest(src, dp, c, Match(0, 0), good);
    forall q | 0 <= q < dp && dp - q < OFFSET_LIMIT && SameFour(src, q, dp)
      ensures MatchLen(src, q, dp, 0) <= Search(src, dp, c, Match(0, 0), good, 0).len
    {
      SameTextSameKey(src, q, dp, hashsz);
      assert keys[q] == HistIdx(src, q, hashsz) && keys[dp] == HistIdx(src, dp, hashsz);
      var i :| 0 <= i < |c| && c[i] == q;
    }
  }

  class History {
    const hs: array<int>
    const he: array<HistEntry>
    var hn: int
    var recycle: bool
    ghost var keys: seq<int>
    ghost var hashsz: nat
    ghost var n: nat  // positions 0 .. n - 1 have been added

    ghost predicate Valid()
      reads this, hs, he
    {
      && Linked(hs[..], he[..], hashsz, keys, Low(n), n)
      && hn == Slot(n)
      && recycle == (n >= HISTORY_SIZE)
    }

    /** The static work arrays; their contents are arbitrary. */
    constructor ()
      ensures hs.Length == MAX_HISTORY_LISTS && he.Length == HISTORY_SIZE + 1
      ensures fresh(hs) && fresh(he)
    {
      hs := new int[MAX_HISTORY_LISTS];
      he := new HistEntry[HISTORY_SIZE + 1](_ => HistEntry(0, 0, 0, 0));
      hn, recycle, keys, hashsz, n := 1, false, [], 0, 0;
    }

    /** Lines 514-515 and 604: only the start of each list in use is cleared. */
    method Reset(ghost src: seq<Byte>, size: nat)
      requires hs.Length == MAX_HISTORY_LISTS && he.Length == HISTORY_SIZE + 1
      requires 0 < size <= MAX_HISTORY_LISTS
      modifies this, hs
      ensures Valid() && n == 0 && hashsz == size && KeysOf(keys, src, size)
      ensures forall k :: size <= k < hs.Length ==> hs[k] == old(hs[k])
    {
      for k := 0 to size
        invariant forall j :: 0 <= j < k ==> hs[j] == 0
        invariant forall j :: k <= j < hs.Length ==> hs[j] == old(hs[j])
      {
        hs[k] := 0;
      }
      hn, recycle := 1, false;
      keys, hashsz, n := Keys(src, size), size, 0;
    }

    /** Lines 301-308: take the entry about to be recycled off its list. */
    method Delink(e: int)
      requires hs.Length == MAX_HISTORY_LISTS && he.Length == HISTORY_SIZE + 1 && 1 <= e < he.Length
      requires he[e].prev == NULL ==> 0 <= he[e].hindex < hs.Length
      requires he[e].prev != NULL ==> 1 <= he[e].prev < he.Length && he[e].prev != e
      requires he[e].next == 0
      modifies hs, he
      ensures DelinkStep(old(hs[..]), old(he[..]), hs[..], he[..], e)
    {
      if he[e].prev == NULL {
        hs[he[e].hindex] := he[e].next;
      } else {
        var pe := he[e].prev;
        he[pe] := he[pe].(next := he[e].next);
      }
      var ne := he[e].next;
      he[ne] := he[ne].(prev := he[e].prev);
    }

    /** Lines 309-322: put position `dp` in front of list `k`, scribbling on entry 0 if it was empty. */
    method PushFront(e: int, k: int, ghost p: nat, dp: int)
      requires hs.Length == MAX_HISTORY_LISTS && he.Length == HISTORY_SIZE + 1
      requires 0 <= k < hs.Length && 0 <= hs[k] < he.Length && hs[k] != e == Slot(p) && dp == p
      modifies hs, he
      ensures AppendStep(old(hs[..]), old(he[..]), hs[..], he[..], k, p)
    {
      he[e] := HistEntry(hs[k], NULL, k, dp);
      he[hs[k]] := he[hs[k]].(prev := e);
      hs[k] := e;
    }

    /** pglz_hist_add: recycle the next entry if needed and put position `n` on its list. */
    method Add(src: seq<Byte>, dp: nat, size: nat)
      requires Valid() && dp == n < |src| && size == hashsz && KeysOf(keys, src, size)
      modifies this, hs, he
      ensures Valid() && n == old(n) + 1
      ensures hashsz == old(hashsz) && keys == old(keys)
    {
      hide Linked, DelinkStep, AppendStep;
      var hindex := HashKey(src, dp, size, keys);
      ghost var lo := Low(n);
      ghost var hs0, he0 := hs[..], he[..];
      Sizes(hs0, he0, hashsz, keys, lo, n);
      if recycle {
        RecycledIsTail(hs0, he0, hashsz, keys, lo, n);
        Delink(hn);
        Delinked(hs0, he0, hs[..], he[..], hashsz, keys, lo, n);
        lo, hs0, he0 := lo + 1, hs[..], he[..];
      }
      HeadIsNotFree(hs0, he0, hashsz, keys, lo, n, hindex);
      PushFront(hn, hindex, n, dp);
      Appended(hs0, he0, hs[..], he[..], hashsz, keys, lo, n);
      SlotSucc(n);
      hn := hn + 1;
      n := n + 1;
      if hn >= HISTORY_SIZE + 1 {
        hn := 1;
        recycle := true;
      }
    }

    /** pglz_find_match, with the memcmp shortcut; it computes what the plain search computes. */
    method FindMatch(src: seq<Byte>, dp: nat, size: nat, goodMatch: nat, goodDrop: nat) returns (found: bool, len: nat, off: nat)
      requires Valid() && dp == n < |src| && size == hashsz && KeysOf(keys, src, size)
      requires goodDrop <= 100
      ensures var m := Search(src, dp, ChainAt(dp), Match(0, 0), goodMatch, goodDrop);
              found == (m.len > 2) && len == m.len && off == m.off
      ensures found ==> len >= 3 && Genuine(src, dp, Match(len, off))
      ensures goodMatch >= MAX_MATCH && goodDrop == 0 ==>
                forall q :: 0 <= q < dp && dp - q < OFFSET_LIMIT && SameFour(src, q, dp) ==> MatchLen(src, q, dp, 0) <= len
    {
      hide Linked, ListIs, Search, Decay, GenuineOrEmpty, Genuine, Chain, MatchLen;
      ghost var c := ChainAt(dp);
      Sizes(hs[..], he[..], hashsz, keys, Low(n), n);
      ListsAreChains(hs[..], he[..], hashsz, keys, Low(n), n, keys[dp]);
      len, off := 0, 0;
      var good := goodMatch;
      var key := HashKey(src, dp, size, keys);
      var hent := hs[key];
      ghost var rest: seq<nat>, back := c, NULL;
      assert GenuineOrEmpty(src, dp, Match(0, 0)) by { EmptyMatch(src, dp); }
      while hent != 0
        invariant forall i :: 0 <= i < |rest| ==> rest[i] < dp
        invariant ListIs(he[..], hent, back, rest)
        invariant GenuineOrEmpty(src, dp, Match(len, off))
        invariant Search(src, dp, c, Match(0, 0), goodMatch, goodDrop) == Search(src, dp, rest, Match(len, off), good, goodDrop)
        decreases |rest|
      {
        ListStep(he[..], hent, back, rest);
        SearchStep(src, dp, rest, Match(len, off), good, goodDrop);
        var hp := he[hent].pos;
        var thisoff := dp - hp;
        if thisoff >= OFFSET_LIMIT {
          break;
        }
        BetterIsGenuine(src, dp, hp, Match(len, off));
        GenuineFits(src, dp, Match(len, off));
        var thislen := Compare(src, hp, dp, len);
        if thislen > len {
          len, off := thislen, thisoff;
        }
        back := hent;
        hent := he[hent].next;
        rest := rest[1..];
        ListStep(he[..], hent, back, rest);
        if hent != 0 {
          if len >= good {
            break;
          }
          good := Decay(good, goodDrop);
        } else {
          SearchStep(src, dp, rest, Match(len, off), Decay(good, goodDrop), goodDrop);
          SearchStep(src, dp, rest, Match(len, off), good, goodDrop);
        }
      }
      if hent == 0 {
        ListStep(he[..], hent, back, rest);
        SearchStep(src, dp, rest, Match(len, off), good, goodDrop);
      }
      GenuineFits(src, dp, Match(len, off));
      found := len > 2;
      if goodMatch >= MAX_MATCH && goodDrop == 0 { LongestOfChain(src, dp, goodMatch); }
    }

    /** What the longest match on the chain means for the text. */
    lemma LongestOfChain(src: seq<Byte>, dp: nat, good: nat)
      requires dp == n < |src| && KeysOf(keys, src, hashsz) && good >= MAX_MATCH
      ensures var m := Search(src, dp, ChainAt(dp), Match(0, 0), good, 0);
              forall q :: 0 <= q < dp && dp - q < OFFSET_LIMIT && SameFour(src, q, dp) ==> MatchLen(src, q, dp, 0) <= m.len
    {
      hide Search, Chain, MatchLen, SameFour, HistIdx;
      ChainFacts(keys, Low(n), n, keys[n]);
      LongestInText(src, keys, hashsz, dp, good);
    }

    ghost function ChainAt(dp: nat): (c: seq<nat>)
      reads this
      requires dp == n < |keys|
      ensures forall i :: 0 <= i < |c| ==> c[i] < dp
    {
      ChainFacts(keys, Low(n), n, keys[n]);
      Chain(keys, Low(n), n, keys[n])
    }
  }

  /** Lines 434-458: the length of the match at `a` if it beats `len`; a match that cannot is not measured. */
  method Compare(src: seq<Byte>, a: nat, b: nat, len: nat) returns (thislen: nat)
    requires a < b && b + len <= |src| && len <= MAX_MATCH
    ensures if MatchLen(src, a, b, 0) > len then thislen == MatchLen(src, a, b, 0) else thislen <= len
  {
    hide MatchLen;
    thislen := 0;
    if len >= 16 {
      MatchLenSkip(src, a, b, len);
      if src[b..b + len] == src[a..a + len] {
        thislen := Extend(src, a, b, len);
      }
    } else {
      thislen := Extend(src, a, b, 0);
    }
  }

  /** The character-by-character loop of lines 442-447 and 452-457. */
  method Extend(src: seq<Byte>, a: nat, b: nat, from: nat) returns (l: nat)
    requires a < b && b + from <= |src| && from <= MAX_MATCH
    ensures l == MatchLen(src, a, b, from)
  {
    l := from;
    while b + l < |src| && src[b + l] == src[a + l] && l < MAX_MATCH
      invariant from <= l <= MAX_MATCH && b + l <= |src|
      invariant MatchLen(src, a, b, l) == MatchLen(src, a, b, from)
    {
      l := l + 1;
    }
  }
}
