/**
  Canonical ordering (common/unicode_norm.c:355-393; The Unicode Standard, section 3.11).
*/
module UnicodeOrder {
  import opened UnicodeTable

  /** Two neighbours that canonical ordering exchanges. */
  predicate Exchangeable(t: Table, prev: Code, next: Code) {
    0 < Class(t, next) < Class(t, prev)
  }

  ghost predicate Ordered(t: Table, s: seq<Code>) {
    forall i :: 0 < i < |s| ==> !Exchangeable(t, s[i - 1], s[i])
  }

  /** The starters and the characters of class `k`, in order. */
  ghost function Keep(t: Table, s: seq<Code>, k: nat): (r: seq<Code>) {
    if s == [] then []
    else (if Class(t, s[0]) == 0 || Class(t, s[0]) == k then [s[0]] else []) + Keep(t, s[1..], k)
  }

  /** Every class, seen together with the starters, is the same sequence in both: no character passes a starter
      or one of its own class. */
  ghost predicate SameClasses(t: Table, r: seq<Code>, s: seq<Code>) {
    forall k: nat :: Keep(t, r, k) == Keep(t, s, k)
  }

  /** `r` is `s` with each run of non-starters stably sorted by class. */
  ghost predicate CanonicalOrderOf(t: Table, r: seq<Code>, s: seq<Code>) {
    Ordered(t, r) && SameClasses(t, r, s)
  }

  lemma {:induction false} KeepConcat(t: Table, a: seq<Code>, b: seq<Code>, k: nat)
    ensures Keep(t, a + b, k) == Keep(t, a, k) + Keep(t, b, k)
  {
    hide Class;
    if a == [] {
      assert a + b == b;
    } else {
      assert (a + b)[1..] == a[1..] + b;
      KeepConcat(t, a[1..], b, k);
    }
  }

  lemma SameConcat(t: Table, a: seq<Code>, a': seq<Code>, b: seq<Code>, b': seq<Code>)
    requires SameClasses(t, a, a') && SameClasses(t, b, b')
    ensures SameClasses(t, a + b, a' + b')
  {
    forall k: nat
      ensures Keep(t, a + b, k) == Keep(t, a' + b', k)
    {
      KeepConcat(t, a, b, k);
      KeepConcat(t, a', b', k);
    }
  }

  lemma KeepPair(t: Table, x: Code, y: Code, k: nat)
    ensures Keep(t, [x, y], k) == Keep(t, [x], k) + Keep(t, [y], k)
  {
    assert [x, y] == [x] + [y];
    KeepConcat(t, [x], [y], k);
  }

  /** Two non-starters of different classes may change places. */
  lemma PairSwap(t: Table, x: Code, y: Code)
    requires Class(t, x) != 0 && Class(t, y) != 0 && Class(t, x) != Class(t, y)
    ensures SameClasses(t, [x, y], [y, x])
  {
    hide Class;
    forall k: nat
      ensures Keep(t, [x, y], k) == Keep(t, [y, x], k)
    {
      KeepPair(t, x, y, k);
      KeepPair(t, y, x, k);
      assert Class(t, x) != k ==> Keep(t, [x], k) == [];
      assert Class(t, y) != k ==> Keep(t, [y], k) == [];
    }
  }

  lemma SwapSame(t: Table, s: seq<Code>, i: nat)
    requires 0 < i < |s| && Exchangeable(t, s[i - 1], s[i])
    ensures SameClasses(t, s[i - 1 := s[i]][i := s[i - 1]], s)
  {
    hide Keep, Class;
    var a, x, y, b := s[..i - 1], s[i - 1], s[i], s[i + 1..];
    PairSwap(t, y, x);
    SameConcat(t, a, a, [y, x], [x, y]);
    SameConcat(t, a + [y, x], a + [x, y], b, b);
    assert s == a + [x, y] + b;
    assert s[i - 1 := y][i := x] == a + [y, x] + b;
  }

  // ----- Uniqueness -----

  /** In an ordered run classes do not fall. */
  lemma {:induction false} RunRises(t: Table, s: seq<Code>, j: nat)
    requires Ordered(t, s) && j < |s| && forall i :: 0 <= i <= j ==> Class(t, s[i]) != 0
    ensures Class(t, s[0]) <= Class(t, s[j])
  {
    hide Class;
    if j > 0 {
      RunRises(t, s, j - 1);
      assert !Exchangeable(t, s[j - 1], s[j]);
    }
  }

  /** The position of the first kept character. */
  lemma {:induction false} FirstKept(t: Table, s: seq<Code>, k: nat) returns (j: nat)
    requires Keep(t, s, k) != []
    ensures j < |s| && Keep(t, s, k)[0] == s[j]
    ensures Class(t, s[j]) == 0 || Class(t, s[j]) == k
    ensures forall i :: 0 <= i < j ==> Class(t, s[i]) != 0 && Class(t, s[i]) != k
  {
    hide Class;
    if Class(t, s[0]) == 0 || Class(t, s[0]) == k {
      j := 0;
    } else {
      var j' := FirstKept(t, s[1..], k);
      j := j' + 1;
      forall i | 0 <= i < j
        ensures Class(t, s[i]) != 0 && Class(t, s[i]) != k
      {
        if i > 0 { assert s[i] == s[1..][i - 1]; }
      }
    }
  }

  /** The smaller of two different first characters cannot come later in an ordered string. */
  lemma HeadIsLeast(t: Table, r: seq<Code>, s: seq<Code>)
    requires r != [] && s != [] && SameClasses(t, r, s) && Ordered(t, s) && r[0] != s[0]
    ensures Class(t, r[0]) != 0 && Class(t, s[0]) != 0 && Class(t, s[0]) < Class(t, r[0])
  {
    hide Class;
    var k := Class(t, r[0]);
    assert Keep(t, r, k)[0] == r[0];
    assert Keep(t, s, k) == Keep(t, r, k);
    var j := FirstKept(t, s, k);
    assert s[j] == r[0];
    var c := Class(t, s[0]);
    assert Keep(t, s, c)[0] == s[0];
    assert Keep(t, r, c) == Keep(t, s, c);
    if k != 0 {
      RunRises(t, s, j);
    }
  }

  lemma {:induction false} KeepNothing(t: Table, s: seq<Code>)
    requires SameClasses(t, [], s)
    ensures s == []
  {
    var k := if s == [] then 0 else Class(t, s[0]);
    assert Keep(t, [], k) == Keep(t, s, k);
  }

  lemma TailSame(t: Table, r: seq<Code>, s: seq<Code>)
    requires r != [] && s != [] && r[0] == s[0] && SameClasses(t, r, s)
    ensures SameClasses(t, r[1..], s[1..])
  {
    hide Class;
    forall k: nat
      ensures Keep(t, r[1..], k) == Keep(t, s[1..], k)
    {
      var h := if Class(t, r[0]) == 0 || Class(t, r[0]) == k then [r[0]] else [];
      assert Keep(t, r, k) == h + Keep(t, r[1..], k);
      assert Keep(t, s, k) == h + Keep(t, s[1..], k);
      assert Keep(t, r[1..], k) == Keep(t, r, k)[|h|..];
      assert Keep(t, s[1..], k) == Keep(t, s, k)[|h|..];
    }
  }

  /** There is only one canonical ordering. */
  lemma {:induction false} OrderIsUnique(t: Table, r: seq<Code>, s: seq<Code>)
    requires Ordered(t, r) && Ordered(t, s) && SameClasses(t, r, s)
    ensures r == s
  {
    hide Class, Keep;
    if r == [] {
      KeepNothing(t, s);
    } else if s == [] {
      KeepNothing(t, r);
    } else if r[0] == s[0] {
      TailSame(t, r, s);
      OrderIsUnique(t, r[1..], s[1..]);
    } else {
      HeadIsLeast(t, r, s);
      HeadIsLeast(t, s, r);
    }
  }

  // ----- The canonical ordering as a function: insertion from the right -----

  ghost function Insert(t: Table, s: seq<Code>, x: Code): (r: seq<Code>)
    ensures |r| == |s| + 1
  {
    if s == [] || !Exchangeable(t, s[|s| - 1], x) then s + [x]
    else Insert(t, s[..|s| - 1], x) + [s[|s| - 1]]
  }

  ghost function Canonical(t: Table, s: seq<Code>): (r: seq<Code>)
    ensures |r| == |s|
  {
    if s == [] then [] else Insert(t, Canonical(t, s[..|s| - 1]), s[|s| - 1])
  }

  lemma {:induction false} InsertIsOrdered(t: Table, s: seq<Code>, x: Code)
    requires Ordered(t, s)
    ensures Ordered(t, Insert(t, s, x))
    ensures var r := Insert(t, s, x); r[|s|] == x || (|s| > 0 && r[|s|] == s[|s| - 1] && Exchangeable(t, s[|s| - 1], x))
  {
    hide Class;
    if s != [] && Exchangeable(t, s[|s| - 1], x) {
      InsertIsOrdered(t, s[..|s| - 1], x);
    }
  }

  lemma {:induction false} InsertIsSame(t: Table, s: seq<Code>, x: Code)
    ensures SameClasses(t, Insert(t, s, x), s + [x])
  {
    hide Class, Keep;
    if s != [] && Exchangeable(t, s[|s| - 1], x) {
      var a, y := s[..|s| - 1], s[|s| - 1];
      InsertIsSame(t, a, x);
      SameConcat(t, Insert(t, a, x), a + [x], [y], [y]);
      PairSwap(t, x, y);
      SameConcat(t, a, a, [x, y], [y, x]);
      assert a + [x] + [y] == a + [x, y] && a + [y, x] == s + [x];
    }
  }

  lemma {:induction false} CanonicalIsCanonical(t: Table, s: seq<Code>)
    ensures CanonicalOrderOf(t, Canonical(t, s), s)
  {
    hide Class, Keep, Insert;
    if s != [] {
      var a, x := s[..|s| - 1], s[|s| - 1];
      CanonicalIsCanonical(t, a);
      InsertIsOrdered(t, Canonical(t, a), x);
      InsertIsSame(t, Canonical(t, a), x);
      SameConcat(t, Canonical(t, a), a, [x], [x]);
      assert a + [x] == s;
    }
  }

  /** Being the canonical ordering, and being the value of Canonical, are the same thing. */
  lemma CanonicalIff(t: Table, r: seq<Code>, s: seq<Code>)
    ensures r == Canonical(t, s) <==> CanonicalOrderOf(t, r, s)
  {
    hide Canonical, Ordered, Keep;
    CanonicalIsCanonical(t, s);
    if CanonicalOrderOf(t, r, s) {
      OrderIsUnique(t, r, Canonical(t, s));
    }
  }

  // ----- Starters stay, nothing is lost -----

  ghost predicate Rearranged(t: Table, r: seq<Code>, s: seq<Code>) {
    |r| == |s| && multiset(r) == multiset(s) && forall i :: 0 <= i < |s| && Class(t, s[i]) == 0 ==> r[i] == s[i]
  }

  lemma SwapRearranged(t: Table, r: seq<Code>, s: seq<Code>, i: nat)
    requires Rearranged(t, r, s) && 0 < i < |r| && Exchangeable(t, r[i - 1], r[i])
    ensures Rearranged(t, r[i - 1 := r[i]][i := r[i - 1]], s)
  {
  }

  // ----- Termination of the exchange loop -----

  ghost function Below(t: Table, s: seq<Code>, c: nat): nat {
    if s == [] then 0 else (if 0 < Class(t, s[0]) < c then 1 else 0) + Below(t, s[1..], c)
  }

  ghost function Inversions(t: Table, s: seq<Code>): nat {
    if s == [] then 0 else Below(t, s[1..], Class(t, s[0])) + Inversions(t, s[1..])
  }

  lemma {:induction false} BelowSwap(t: Table, s: seq<Code>, i: nat, c: nat)
    requires 0 < i < |s|
    ensures Below(t, s[i - 1 := s[i]][i := s[i - 1]], c) == Below(t, s, c)
  {
    hide Class;
    var s' := s[i - 1 := s[i]][i := s[i - 1]];
    if i == 1 {
      assert s[1..][1..] == s'[1..][1..];
    } else {
      BelowSwap(t, s[1..], i - 1, c);
      assert s'[1..] == s[1..][i - 2 := s[i]][i - 1 := s[i - 1]];
    }
  }

  /** One exchange removes exactly one inversion. */
  lemma {:induction false} SwapDescends(t: Table, s: seq<Code>, i: nat)
    requires 0 < i < |s| && Exchangeable(t, s[i - 1], s[i])
    ensures Inversions(t, s[i - 1 := s[i]][i := s[i - 1]]) == Inversions(t, s) - 1
  {
    hide Class;
    var s' := s[i - 1 := s[i]][i := s[i - 1]];
    if i == 1 {
      assert s[1..][1..] == s'[1..][1..];
    } else {
      assert s'[1..] == s[1..][i - 2 := s[i]][i - 1 := s[i - 1]];
      BelowSwap(t, s[1..], i - 1, Class(t, s[0]));
      SwapDescends(t, s[1..], i - 1);
    }
  }

  /** Ordered as far as the characters before `count`. */
  ghost predicate OrderedUpTo(t: Table, s: seq<Code>, count: nat) {
    forall i :: 0 < i < |s| && i < count ==> !Exchangeable(t, s[i - 1], s[i])
  }

  lemma OrderedMore(t: Table, s: seq<Code>, count: nat)
    requires 0 < count < |s| && OrderedUpTo(t, s, count) && !Exchangeable(t, s[count - 1], s[count])
    ensures OrderedUpTo(t, s, count + 1)
  {
  }

  lemma OrderedLess(t: Table, s: seq<Code>, count: nat)
    requires 0 < count < |s| && OrderedUpTo(t, s, count) && Exchangeable(t, s[count - 1], s[count])
    ensures OrderedUpTo(t, s[count - 1 := s[count]][count := s[count - 1]], if count > 1 then count - 1 else 2)
  {
  }

  /** The exchange loop of unicode_normalize, with its step back, on the first n characters. */
  method Order(t: Table, chars: array<Code>, n: nat)
    requires n <= chars.Length
    modifies chars
    ensures chars[..n] == Canonical(t, old(chars[..n])) && chars[n..] == old(chars[n..])
    ensures Rearranged(t, chars[..n], old(chars[..n]))
  {
    hide Class, Keep, Canonical, Inversions, Rearranged, SameClasses, OrderedUpTo, Exchangeable, Below;
    ghost var was := chars[..n];
    RearrangedSelf(t, was);
    var count := 1;
    while count < n
      invariant 1 <= count && OrderedUpTo(t, chars[..n], count) && (n == 0 || count <= n)
      invariant SameClasses(t, chars[..n], was) && Rearranged(t, chars[..n], was)
      invariant chars[n..] == old(chars[n..])
      decreases Inversions(t, chars[..n]), n - count
    {
      ghost var now := chars[..n];
      var prev, next := chars[count - 1], chars[count];
      if Exchangeable(t, prev, next) {
        chars[count - 1] := next;
        chars[count] := prev;
        assert chars[..n] == now[count - 1 := now[count]][count := now[count - 1]];
        Exchanged(t, now, count, was);
        OrderedLess(t, now, count);
        if count > 1 {
          count := count - 2;
        }
      } else {
        OrderedMore(t, now, count);
      }
      count := count + 1;
    }
    AllOrdered(t, chars[..n], count);
    CanonicalIff(t, chars[..n], was);
  }

  lemma AllOrdered(t: Table, s: seq<Code>, count: nat)
    requires |s| <= count && OrderedUpTo(t, s, count)
    ensures Ordered(t, s)
  {
  }

  lemma RearrangedSelf(t: Table, s: seq<Code>)
    ensures Rearranged(t, s, s) && SameClasses(t, s, s) && OrderedUpTo(t, s, 1)
  {
  }

  lemma Exchanged(t: Table, s: seq<Code>, i: nat, was: seq<Code>)
    requires 0 < i < |s| && Exchangeable(t, s[i - 1], s[i])
    requires SameClasses(t, s, was) && Rearranged(t, s, was)
    ensures var s' := s[i - 1 := s[i]][i := s[i - 1]];
            SameClasses(t, s', was) && Rearranged(t, s', was) && Inversions(t, s') < Inversions(t, s)
  {
    hide Class, Keep, Inversions, Rearranged;
    SwapSame(t, s, i);
    SwapRearranged(t, s, was, i);
    SwapDescends(t, s, i);
  }
}
