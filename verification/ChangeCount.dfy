/**
  The st_changecount protocol of PgBackendStatus (include/pgstat.h:1070-1086, 1172-1201), as interleaved steps:
  one writer that changes its entry one field at a time, and any number of readers that copy it one field at a
  time. Memory is ordered, as the barriers provide; the counter is a 32-bit one and wraps.
*/
module ChangeCount {
  /** Values of the 32-bit counter. */
  const WRAP: nat := 0x1_0000_0000

  /** `start` and `end` are the numbers of increments made before the two looks at the counter. */
  datatype Reader =
    | Idle
    | Reading(start: nat, before: nat, copy: map<nat, int>)
    | Done(start: nat, before: nat, copy: map<nat, int>, end: nat, after: nat)

  /** `total` counts the increments; `whole` holds the entry as it stood after each whole write. */
  datatype State = State(
    count: nat, fields: seq<int>, writing: bool, readers: seq<Reader>,
    total: nat, whole: seq<seq<int>>)

  datatype Action =
    | BeginWrite
    | WriteField(i: nat, v: int)
    | EndWrite
    | BeginRead(r: nat)
    | CopyField(r: nat, i: nat)
    | EndRead(r: nat)

  function Bump(count: nat): nat { (count + 1) % WRAP }

  ghost predicate Init(s: State) {
    && s.count == 0 && s.total == 0 && !s.writing && s.whole == [s.fields]
    && forall r :: 0 <= r < |s.readers| ==> s.readers[r].Idle?
  }

  ghost predicate Enabled(s: State, a: Action) {
    match a
    case BeginWrite => !s.writing
    case WriteField(i, _) => s.writing && i < |s.fields|
    case EndWrite => s.writing
    case BeginRead(r) => r < |s.readers|
    case CopyField(r, i) => r < |s.readers| && s.readers[r].Reading? && i < |s.fields|
    case EndRead(r) => r < |s.readers| && s.readers[r].Reading?
  }

  /** A reader may start over at any time; that forgets what it had copied. */
  ghost function Step(s: State, a: Action): (s': State)
    requires Enabled(s, a)
  {
    match a
    case BeginWrite => s.(count := Bump(s.count), total := s.total + 1, writing := true)
    case WriteField(i, v) => s.(fields := s.fields[i := v])
    case EndWrite => s.(count := Bump(s.count), total := s.total + 1, writing := false, whole := s.whole + [s.fields])
    case BeginRead(r) => s.(readers := s.readers[r := Reading(s.total, s.count, map[])])
    case CopyField(r, i) =>
      var d := s.readers[r];
      s.(readers := s.readers[r := Reading(d.start, d.before, d.copy[i := s.fields[i]])])
    case EndRead(r) =>
      var d := s.readers[r];
      s.(readers := s.readers[r := Done(d.start, d.before, d.copy, s.total, s.count)])
  }

  /** pgstat_read_activity_complete */
  predicate Complete(before: nat, after: nat) { before == after && before % 2 == 0 }

  ghost predicate CopyOf(copy: map<nat, int>, entry: seq<int>) {
    forall i :: i in copy ==> i < |entry| && copy[i] == entry[i]
  }

  // ----- The invariant -----

  ghost predicate ReaderOk(s: State, d: Reader) {
    match d
    case Idle => true
    case Reading(start, before, copy) =>
      && start <= s.total && before == start % WRAP
      && (start == s.total && start % 2 == 0 ==> start / 2 < |s.whole| && CopyOf(copy, s.whole[start / 2]))
    case Done(start, before, copy, end, after) =>
      && start <= end <= s.total && before == start % WRAP && after == end % WRAP
      && (start == end && start % 2 == 0 ==> start / 2 < |s.whole| && CopyOf(copy, s.whole[start / 2]))
  }

  ghost predicate EntryOk(s: State) {
    && s.count == s.total % WRAP
    && |s.whole| == s.total / 2 + 1
    && (s.writing <==> s.total % 2 == 1)
    && (!s.writing ==> s.fields == s.whole[|s.whole| - 1])
  }

  ghost predicate Inv(s: State) {
    EntryOk(s) && forall r :: 0 <= r < |s.readers| ==> ReaderOk(s, s.readers[r])
  }

  lemma InitHolds(s: State)
    requires Init(s)
    ensures Inv(s)
  {
  }

  lemma BumpCounts(count: nat, total: nat)
    requires count == total % WRAP
    ensures Bump(count) == (total + 1) % WRAP
  {
  }

  /** Every step keeps the invariant. */
  lemma StepHolds(s: State, a: Action)
    requires Inv(s) && Enabled(s, a)
    ensures Inv(Step(s, a))
  {
    hide Bump;
    BumpCounts(s.count, s.total);
  }

  // ----- Runs -----

  ghost predicate Runs(s: State, steps: seq<Action>)
    decreases |steps|
  {
    steps == [] || (Enabled(s, steps[0]) && Runs(Step(s, steps[0]), steps[1..]))
  }

  ghost function After(s: State, steps: seq<Action>): (s': State)
    requires Runs(s, steps)
    decreases |steps|
  {
    if steps == [] then s else After(Step(s, steps[0]), steps[1..])
  }

  lemma {:induction false} RunHolds(s: State, steps: seq<Action>)
    requires Inv(s) && Runs(s, steps)
    ensures Inv(After(s, steps))
    decreases |steps|
  {
    hide Inv, Step, Enabled;
    if steps != [] {
      StepHolds(s, steps[0]);
      RunHolds(Step(s, steps[0]), steps[1..]);
    }
  }

  lemma SameCount(start: nat, end: nat)
    requires start <= end
    ensures start % WRAP == end % WRAP <==> (end - start) % WRAP == 0
    ensures end < start + WRAP && (end - start) % WRAP == 0 ==> start == end
  {
    var a, b, d := start / WRAP, end / WRAP, (end - start) / WRAP;
    assert start == WRAP * a + start % WRAP && end == WRAP * b + end % WRAP;
    assert end - start == WRAP * d + (end - start) % WRAP;
  }

  lemma Parity(start: nat)
    ensures (start % WRAP) % 2 == start % 2
  {
    assert start == WRAP * (start / WRAP) + start % WRAP;
  }

  /** In every run, a finished read passes the test exactly when it began between two writes and the counter then made
      some whole number of turns. When it made none, no write began, ended or was under way during the read, and what was
      copied is the entry as it stood after the last whole write. */
  lemma CompleteReadIsWhole(s: State, steps: seq<Action>, r: nat)
    requires Init(s) && Runs(s, steps) && r < |After(s, steps).readers| && After(s, steps).readers[r].Done?
    ensures var e := After(s, steps);
            var d := e.readers[r];
            && d.start <= d.end
            && (Complete(d.before, d.after) <==> (d.end - d.start) % WRAP == 0 && d.start % 2 == 0)
            && (Complete(d.before, d.after) && d.end < d.start + WRAP ==>
                  d.start == d.end && d.start / 2 < |e.whole| && CopyOf(d.copy, e.whole[d.start / 2]))
  {
    hide Runs, After, Step, Enabled, CopyOf;
    InitHolds(s);
    RunHolds(s, steps);
    var e := After(s, steps);
    var d := e.readers[r];
    assert ReaderOk(e, d);
    Parity(d.start);
    SameCount(d.start, d.end);
  }

  /** The counter is even when a write ends, as the macro asserts, and the entry is then recorded as whole. */
  lemma EvenWhenWriteEnds(s: State, steps: seq<Action>)
    requires Init(s) && Runs(s, steps) && Enabled(After(s, steps), EndWrite)
    ensures var e := Step(After(s, steps), EndWrite);
            e.count % 2 == 0 && |e.whole| == e.total / 2 + 1 && e.fields == e.whole[e.total / 2]
  {
    hide Runs, After, Enabled, ReaderOk;
    InitHolds(s);
    RunHolds(s, steps);
    var e := After(s, steps);
    StepHolds(e, EndWrite);
    Parity(e.total + 1);
  }

  // ----- A read that nothing disturbs -----

  /** Reader r copies the fields from i on. */
  ghost function Copies(r: nat, i: nat, n: nat): seq<Action>
    decreases n - i
  {
    if i >= n then [] else [CopyField(r, i)] + Copies(r, i + 1, n)
  }

  ghost function ReadAll(r: nat, n: nat): seq<Action> { [BeginRead(r)] + Copies(r, 0, n) + [EndRead(r)] }

  lemma {:induction false} CopiesRun(s: State, r: nat, i: nat)
    requires r < |s.readers| && s.readers[r].Reading? && i <= |s.fields|
    requires forall k :: 0 <= k < i ==> k in s.readers[r].copy && s.readers[r].copy[k] == s.fields[k]
    ensures Runs(s, Copies(r, i, |s.fields|))
    ensures var e := After(s, Copies(r, i, |s.fields|));
            && e.count == s.count && e.total == s.total && e.fields == s.fields && |e.readers| == |s.readers|
            && e.readers[r].Reading? && e.readers[r].before == s.readers[r].before && e.readers[r].start == s.readers[r].start
            && forall k :: 0 <= k < |s.fields| ==> k in e.readers[r].copy && e.readers[r].copy[k] == s.fields[k]
    decreases |s.fields| - i
  {
    if i < |s.fields| {
      CopiesRun(Step(s, CopyField(r, i)), r, i + 1);
    }
  }

  /** In any state a reader can read the whole entry; the copy is the entry as it then stands, and it passes the test
      exactly when no write is under way. */
  lemma UndisturbedRead(s: State, steps: seq<Action>, r: nat)
    requires Init(s) && Runs(s, steps) && r < |After(s, steps).readers|
    ensures var m := After(s, steps);
            && Runs(m, ReadAll(r, |m.fields|)) && |After(m, ReadAll(r, |m.fields|)).readers| == |m.readers|
            && var d := After(m, ReadAll(r, |m.fields|)).readers[r];
            && d.Done? && (Complete(d.before, d.after) <==> !m.writing)
            && forall k :: 0 <= k < |m.fields| ==> k in d.copy && d.copy[k] == m.fields[k]
  {
    var m := After(s, steps);
    InitHolds(s);
    RunHolds(s, steps);
    Parity(m.total);
    hide Runs, After;
    var a, n := Step(m, BeginRead(r)), |m.fields|;
    CopiesRun(a, r, 0);
    OneStep(m, BeginRead(r));
    RunsConcat(m, [BeginRead(r)], Copies(r, 0, n));
    var b := After(m, [BeginRead(r)] + Copies(r, 0, n));
    OneStep(b, EndRead(r));
    RunsConcat(m, [BeginRead(r)] + Copies(r, 0, n), [EndRead(r)]);
  }

  lemma OneStep(s: State, a: Action)
    requires Enabled(s, a)
    ensures Runs(s, [a]) && After(s, [a]) == Step(s, a)
  {
    hide Step, Enabled;
    assert [a][1..] == [];
  }

  // ----- A read during which the counter wraps -----

  lemma {:induction false} RunsConcat(s: State, a: seq<Action>, b: seq<Action>)
    requires Runs(s, a) && Runs(After(s, a), b)
    ensures Runs(s, a + b) && After(s, a + b) == After(After(s, a), b)
    decreases |a|
  {
    hide Step, Enabled;
    if a == [] {
      assert a + b == b;
    } else {
      assert (a + b)[1..] == a[1..] + b;
      RunsConcat(Step(s, a[0]), a[1..], b);
    }
  }

  /** k writes that change nothing. */
  ghost function IdleWrites(k: nat): seq<Action> {
    if k == 0 then [] else [BeginWrite, EndWrite] + IdleWrites(k - 1)
  }

  lemma {:induction false} IdleWritesRun(s: State, k: nat)
    requires !s.writing && s.count == s.total % WRAP && s.whole != [] && s.fields == s.whole[|s.whole| - 1]
    ensures Runs(s, IdleWrites(k))
    ensures var e := After(s, IdleWrites(k));
            && e.fields == s.fields && e.readers == s.readers && !e.writing
            && e.total == s.total + 2 * k && e.count == e.total % WRAP
            && forall w :: w in e.whole ==> w in s.whole
    decreases k
  {
    if k > 0 {
      OneIdleWrite(s);
      var m := After(s, [BeginWrite, EndWrite]);
      IdleWritesRun(m, k - 1);
      RunsConcat(s, [BeginWrite, EndWrite], IdleWrites(k - 1));
    }
  }

  lemma OneIdleWrite(s: State)
    requires !s.writing && s.count == s.total % WRAP && s.whole != [] && s.fields == s.whole[|s.whole| - 1]
    ensures Runs(s, [BeginWrite, EndWrite])
    ensures After(s, [BeginWrite, EndWrite]) == s.(count := (s.total + 2) % WRAP, total := s.total + 2, whole := s.whole + [s.fields])
  {
    hide Bump;
    BumpCounts(s.count, s.total);
    BumpCounts(Bump(s.count), s.total + 1);
    TwoSteps(s, BeginWrite, EndWrite);
  }

  lemma TwoSteps(s: State, a: Action, b: Action)
    requires Enabled(s, a) && Enabled(Step(s, a), b)
    ensures Runs(s, [a, b]) && After(s, [a, b]) == Step(Step(s, a), b)
  {
    hide Step, Enabled;
    var m := [a, b];
    assert m[1..] == [b] && [b][1..] == [];
    assert Runs(Step(s, a), [b]);
    assert After(Step(s, a), [b]) == After(Step(Step(s, a), b), []);
  }

  const TORN_START := State(0, [0, 0], false, [Idle], 0, [[0, 0]])

  lemma TornMiddle()
    ensures Runs(TORN_START, [BeginRead(0), CopyField(0, 0)] + [BeginWrite, WriteField(0, 1)] + [WriteField(1, 1), EndWrite])
    ensures After(TORN_START, [BeginRead(0), CopyField(0, 0)] + [BeginWrite, WriteField(0, 1)] + [WriteField(1, 1), EndWrite])
            == State(2, [1, 1], false, [Reading(0, 0, map[0 := 0])], 2, [[0, 0], [1, 1]])
  {
    var s0, a, b, c := TORN_START, [BeginRead(0), CopyField(0, 0)], [BeginWrite, WriteField(0, 1)], [WriteField(1, 1), EndWrite];
    TwoSteps(s0, a[0], a[1]);
    var s1 := After(s0, a);
    assert s1.readers == [Reading(0, 0, map[0 := 0])];
    TwoSteps(s1, b[0], b[1]);
    var s2 := After(s1, b);
    assert s2.fields == [1, 0];
    TwoSteps(s2, c[0], c[1]);
    assert After(s2, c).fields == [1, 1];
    RunsConcat(s0, a, b);
    RunsConcat(s0, a + b, c);
  }

  /** When 2^31 whole writes fall inside one read, the test passes on a copy that is no whole entry. */
  lemma TornReadExample() returns (steps: seq<Action>)
    ensures Runs(TORN_START, steps)
    ensures var e := After(TORN_START, steps);
            && |e.readers| == 1 && e.readers[0].Done?
            && e.readers[0].end == e.readers[0].start + WRAP
            && Complete(e.readers[0].before, e.readers[0].after)
            && e.readers[0].copy == map[0 := 0, 1 := 1]
            && forall w :: w in e.whole ==> !CopyOf(e.readers[0].copy, w)
  {
    hide Runs, After, IdleWrites;
    var a := [BeginRead(0), CopyField(0, 0)] + [BeginWrite, WriteField(0, 1)] + [WriteField(1, 1), EndWrite];
    var k, b := WRAP / 2 - 1, [CopyField(0, 1), EndRead(0)];
    TornMiddle();
    var s1 := After(TORN_START, a);
    IdleWritesRun(s1, k);
    var s2 := After(s1, IdleWrites(k));
    TwoSteps(s2, b[0], b[1]);
    RunsConcat(TORN_START, a, IdleWrites(k));
    RunsConcat(TORN_START, a + IdleWrites(k), b);
    steps := a + IdleWrites(k) + b;
    forall w | w in s2.whole
      ensures !CopyOf(map[0 := 0, 1 := 1], w)
    {
      assert w == [0, 0] || w == [1, 1];
      var m := map[0 := 0, 1 := 1];
      assert 0 in m && 1 in m && m[0] != m[1];
    }
  }
}
