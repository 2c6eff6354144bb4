/**
  The striped mutex of common/partition_lock.c: a tag is locked by locking the slot that its hash chooses.
  A mutex is one atomic acquire or release; a thread that finds it taken waits, which is no step.
*/
module PartitionLock {
  import opened Common
  import opened HashBytes

  type Thread = nat
  type Tag = seq<bv8>

  /** A locked tag and the thread that locked it. */
  datatype Hold = Hold(thread: Thread, tag: Tag)

  function AsNat(hash: bv32): nat { hash as nat }

  function Remainder(x: nat, n: nat): (r: nat)
    requires n > 0
    ensures r < n
  {
    x % n
  }

  ghost function Pos(tag: Tag, big: bool, slotNum: nat): (p: nat)
    requires slotNum > 0
    ensures p < slotNum
  {
    Remainder(AsNat(Hash(tag, big)), slotNum)
  }

  /** The hash less the slot number is a multiple of the number of slots. */
  lemma PosIsRemainder(tag: Tag, big: bool, slotNum: nat) returns (k: nat)
    requires slotNum > 0
    ensures AsNat(Hash(tag, big)) == k * slotNum + Pos(tag, big, slotNum)
  {
    hide Hash, AsNat;
    k := AsNat(Hash(tag, big)) / slotNum;
  }

  // ----- Runs of many threads -----

  /** `holds` are the calls of PartitionLock that returned and were not yet undone by PartitionUnlock. */
  datatype State = State(slots: seq<Option<Thread>>, holds: set<Hold>)

  datatype Action = Lock(thread: Thread, tag: Tag) | Unlock(thread: Thread, tag: Tag)

  ghost function Initial(slotNum: nat): State { State(seq(slotNum, _ => None), {}) }

  /** Locking waits for the slot; a thread unlocks only what it has locked. */
  ghost predicate Enabled(s: State, a: Action, big: bool)
    requires |s.slots| > 0
  {
    match a
    case Lock(_, tag) => s.slots[Pos(tag, big, |s.slots|)] == None
    case Unlock(thread, tag) => Hold(thread, tag) in s.holds
  }

  ghost function Step(s: State, a: Action, big: bool): (s': State)
    requires |s.slots| > 0
    ensures |s'.slots| == |s.slots|
  {
    var p := Pos(a.tag, big, |s.slots|);
    match a
    case Lock(thread, tag) => State(s.slots[p := Some(thread)], s.holds + {Hold(thread, tag)})
    case Unlock(thread, tag) => State(s.slots[p := None], s.holds - {Hold(thread, tag)})
  }

  /** A slot is taken by the thread of the one hold that hashes to it, and free when there is none. */
  ghost predicate Inv(s: State, big: bool) {
    && |s.slots| > 0
    && (forall h :: h in s.holds ==> s.slots[Pos(h.tag, big, |s.slots|)] == Some(h.thread))
    && (forall g, h :: g in s.holds && h in s.holds && Pos(g.tag, big, |s.slots|) == Pos(h.tag, big, |s.slots|) ==> g == h)
    && (forall p :: 0 <= p < |s.slots| && s.slots[p].Some? ==> Taken(s, p, big))
  }

  ghost predicate Taken(s: State, p: nat, big: bool)
    requires |s.slots| > 0
  {
    exists h :: h in s.holds && Pos(h.tag, big, |s.slots|) == p
  }

  lemma StepHolds(s: State, a: Action, big: bool)
    requires Inv(s, big) && Enabled(s, a, big)
    ensures Inv(Step(s, a, big), big)
  {
    hide Pos;
    var s' := Step(s, a, big);
    forall p | 0 <= p < |s'.slots| && s'.slots[p].Some?
      ensures Taken(s', p, big)
    {
      StaysTaken(s, a, big, p);
    }
  }

  lemma StaysTaken(s: State, a: Action, big: bool, p: nat)
    requires Inv(s, big) && Enabled(s, a, big) && p < |s.slots| && Step(s, a, big).slots[p].Some?
    ensures Taken(Step(s, a, big), p, big)
  {
    hide Pos;
    var s' := Step(s, a, big);
    if a.Lock? && Pos(a.tag, big, |s.slots|) == p {
      assert Hold(a.thread, a.tag) in s'.holds;
    } else {
      assert Taken(s, p, big);
      var h :| h in s.holds && Pos(h.tag, big, |s.slots|) == p;
      assert h in s'.holds;
    }
  }

  ghost predicate Runs(s: State, steps: seq<Action>, big: bool)
    requires |s.slots| > 0
    decreases |steps|
  {
    steps == [] || (Enabled(s, steps[0], big) && Runs(Step(s, steps[0], big), steps[1..], big))
  }

  ghost function After(s: State, steps: seq<Action>, big: bool): (s': State)
    requires |s.slots| > 0 && Runs(s, steps, big)
    decreases |steps|
  {
    if steps == [] then s else After(Step(s, steps[0], big), steps[1..], big)
  }

  lemma {:induction false} RunHolds(s: State, steps: seq<Action>, big: bool)
    requires Inv(s, big) && Runs(s, steps, big)
    ensures Inv(After(s, steps, big), big)
    decreases |steps|
  {
    hide Step, Enabled, Pos;
    if steps != [] {
      StepHolds(s, steps[0], big);
      RunHolds(Step(s, steps[0], big), steps[1..], big);
    }
  }

  /** In every run two threads never hold equal tags; more than that, no two held tags share a slot. */
  lemma MutualExclusion(slotNum: nat, steps: seq<Action>, big: bool, g: Hold, h: Hold)
    requires slotNum > 0 && Runs(Initial(slotNum), steps, big)
    requires var s := After(Initial(slotNum), steps, big); g in s.holds && h in s.holds
    ensures g.tag == h.tag ==> g.thread == h.thread
    ensures Pos(g.tag, big, slotNum) == Pos(h.tag, big, slotNum) ==> g == h
  {
    hide Step, Enabled, Pos, Runs, After;
    RunHolds(Initial(slotNum), steps, big);
    KeepsSlots(Initial(slotNum), steps, big);
  }

  lemma {:induction false} KeepsSlots(s: State, steps: seq<Action>, big: bool)
    requires |s.slots| > 0 && Runs(s, steps, big)
    ensures |After(s, steps, big).slots| == |s.slots|
    decreases |steps|
  {
    hide Step, Enabled;
    if steps != [] { KeepsSlots(Step(s, steps[0], big), steps[1..], big); }
  }

  /** A thread has to wait exactly when some held tag hashes to the same slot. */
  lemma WaitsIff(slotNum: nat, steps: seq<Action>, big: bool, thread: Thread, tag: Tag)
    requires slotNum > 0 && Runs(Initial(slotNum), steps, big)
    ensures var s := After(Initial(slotNum), steps, big);
            |s.slots| > 0 && (!Enabled(s, Lock(thread, tag), big) <==> Taken(s, Pos(tag, big, |s.slots|), big))
  {
    hide Step, Pos, Runs, After;
    RunHolds(Initial(slotNum), steps, big);
  }

  /** Unlocking undoes locking: the slot is free again and nothing else has changed. */
  lemma UnlockUndoesLock(s: State, thread: Thread, tag: Tag, big: bool)
    requires Inv(s, big) && Enabled(s, Lock(thread, tag), big)
    ensures Step(Step(s, Lock(thread, tag), big), Unlock(thread, tag), big) == s
  {
    hide Pos;
    assert Hold(thread, tag) !in s.holds;
    var r := Step(Step(s, Lock(thread, tag), big), Unlock(thread, tag), big);
    assert r.holds == s.holds;
    assert r.slots == s.slots;
  }

  // ----- The program -----

  class PartitionMutex {
    const slots: array<Option<Thread>>
    const keySize: nat
    const big: bool
    ghost var holds: set<Hold>

    ghost function Value(): State
      reads this, slots
    {
      State(slots[..], holds)
    }

    /** InitializePartitionMutex */
    constructor (slotNum: nat, keySize: nat, big: bool)
      ensures fresh(slots) && Value() == Initial(slotNum)
      ensures this.keySize == keySize && this.big == big
    {
      var list := new Option<Thread>[slotNum];
      for i := 0 to slotNum
        invariant forall j :: 0 <= j < i ==> list[j] == None
      {
        list[i] := None;
      }
      this.slots, this.keySize, this.big, holds := list, keySize, big, {};
    }

    /** tag_hash, modulo the number of slots; the address of the tag does not matter. */
    method LockPos(tag: Tag, aligned: bool) returns (p: nat)
      requires slots.Length > 0 && |tag| == keySize
      ensures p == Pos(tag, big, slots.Length)
    {
      hide Hash, AsNat, Remainder;
      var h := HashKey(tag, aligned, big);
      p := Remainder(AsNat(h), slots.Length);
    }

    /** PartitionLock, at the moment the slot is free. */
    method Acquire(thread: Thread, tag: Tag, aligned: bool)
      requires slots.Length > 0 && |tag| == keySize && Enabled(Value(), Lock(thread, tag), big)
      modifies this, slots
      ensures Value() == Step(old(Value()), Lock(thread, tag), big)
    {
      hide Pos;
      var p := LockPos(tag, aligned);
      slots[p] := Some(thread);
      holds := holds + {Hold(thread, tag)};
    }

    /** PartitionUnlock, possibly through another copy of the tag. */
    method Release(thread: Thread, tag: Tag, aligned: bool)
      requires slots.Length > 0 && |tag| == keySize && Enabled(Value(), Unlock(thread, tag), big)
      modifies this, slots
      ensures Value() == Step(old(Value()), Unlock(thread, tag), big)
    {
      hide Pos;
      var p := LockPos(tag, aligned);
      slots[p] := None;
      holds := holds - {Hold(thread, tag)};
    }
  }
}
