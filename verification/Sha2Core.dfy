/** The compression step (common/sha2.c:374-461 and 700-787): sixteen words of schedule kept in a ring
    that lives in the context's own byte buffer, against the schedule of FIPS 180-4 sections 6.2.2 and
    6.4.2. One algorithm record covers the 32-bit and the 64-bit family. */
module Sha2Core {
  import opened Sha2Words

  /** What differs between the SHA-256 and the SHA-512 family. The round constants are arbitrary. */
  datatype Alg<!W> = Alg(
    rounds: nat,
    wordLen: nat,
    add: (W, W) -> W,
    bigSigma0: W -> W, bigSigma1: W -> W, sigma0: W -> W, sigma1: W -> W,
    ch: (W, W, W) -> W, maj: (W, W, W) -> W,
    k: seq<W>,
    load: seq<Byte> -> W,    // a big-endian load
    store: W -> seq<Byte>,   // a big-endian store
    reverse: W -> W,         // REVERSE32, REVERSE64
    host: W -> seq<Byte>,    // the word as it lies in memory
    unhost: seq<Byte> -> W)

  /** The laws of the word operations that the proof needs. */
  ghost predicate Laws<W(!new)>(alg: Alg<W>) {
    && 16 <= alg.rounds == |alg.k|
    && (alg.wordLen == 4 || alg.wordLen == 8)
    && (forall w :: |alg.host(w)| == alg.wordLen && alg.unhost(alg.host(w)) == w)
    && (forall w :: alg.host(alg.reverse(w)) == alg.store(w))
    && (forall x, y :: alg.add(x, y) == alg.add(y, x))
  }

  function BlockLen<W>(alg: Alg<W>): nat { 16 * alg.wordLen }

  datatype Regs<W> = Regs(a: W, b: W, c: W, d: W, e: W, f: W, g: W, h: W)

  // ----- FIPS 180-4 -----

  /** Section 6.2.2 step 1: the message schedule. */
  ghost function Schedule<W>(alg: Alg<W>, block: seq<Byte>, t: nat): W
    requires |block| == BlockLen(alg)
    decreases t
  {
    if t < 16 then
      WordBounds(alg.wordLen, t);
      alg.load(block[t * alg.wordLen..(t + 1) * alg.wordLen])
    else
      alg.add(alg.add(alg.add(alg.sigma1(Schedule(alg, block, t - 2)), Schedule(alg, block, t - 7)),
                      alg.sigma0(Schedule(alg, block, t - 15))), Schedule(alg, block, t - 16))
  }

  /** Section 6.2.2 step 3: one round. */
  function Round<W>(alg: Alg<W>, r: Regs<W>, kt: W, wt: W): Regs<W> {
    var t1 := alg.add(alg.add(alg.add(alg.add(r.h, alg.bigSigma1(r.e)), alg.ch(r.e, r.f, r.g)), kt), wt);
    var t2 := alg.add(alg.bigSigma0(r.a), alg.maj(r.a, r.b, r.c));
    Regs(alg.add(t1, t2), r.a, r.b, r.c, alg.add(r.d, t1), r.e, r.f, r.g)
  }

  ghost function Rounds<W>(alg: Alg<W>, r: Regs<W>, block: seq<Byte>, t: nat): Regs<W>
    requires |block| == BlockLen(alg) && t <= |alg.k|
    decreases t
  {
    if t == 0 then r else Round(alg, Rounds(alg, r, block, t - 1), alg.k[t - 1], Schedule(alg, block, t - 1))
  }

  function AddRegs<W>(alg: Alg<W>, s: Regs<W>, r: Regs<W>): Regs<W> {
    Regs(alg.add(s.a, r.a), alg.add(s.b, r.b), alg.add(s.c, r.c), alg.add(s.d, r.d),
         alg.add(s.e, r.e), alg.add(s.f, r.f), alg.add(s.g, r.g), alg.add(s.h, r.h))
  }

  /** Section 6.2.2 step 4: the next intermediate hash value. */
  ghost function Compress<W>(alg: Alg<W>, s: Regs<W>, block: seq<Byte>): Regs<W>
    requires |block| == BlockLen(alg) && alg.rounds <= |alg.k|
  {
    AddRegs(alg, s, Rounds(alg, s, block, alg.rounds))
  }

  // ----- Words inside the buffer -----

  lemma WordBounds(wordLen: nat, i: nat)
    requires i < 16
    ensures 0 <= i * wordLen <= (i + 1) * wordLen <= 16 * wordLen && (i + 1) * wordLen == i * wordLen + wordLen
  {
    assert (15 - i) * wordLen >= 0;
  }

  /** Where word `i` starts. */
  function At(wordLen: nat, i: nat): (p: nat)
    requires i < 16
    ensures p + wordLen <= 16 * wordLen
  {
    WordBounds(wordLen, i);
    i * wordLen
  }

  lemma AtApart(wordLen: nat, i: nat, j: nat)
    requires i < j < 16
    ensures At(wordLen, i) + wordLen <= At(wordLen, j)
  {
    assert (j - i - 1) * wordLen >= 0;
  }

  ghost function WordAt<W>(alg: Alg<W>, buffer: seq<Byte>, i: nat): W
    requires |buffer| == BlockLen(alg) && i < 16
  {
    alg.unhost(buffer[At(alg.wordLen, i)..At(alg.wordLen, i) + alg.wordLen])
  }

  method GetWord<W(!new)>(alg: Alg<W>, buffer: array<Byte>, i: nat) returns (w: W)
    requires Laws(alg) && buffer.Length == BlockLen(alg) && i < 16
    ensures w == WordAt(alg, buffer[..], i)
  {
    var p := At(alg.wordLen, i);
    assert buffer[..][p..p + alg.wordLen] == buffer[p..p + alg.wordLen];
    w := alg.unhost(buffer[p..p + alg.wordLen]);
  }

  /** W256[i] = w through the aliasing pointer. */
  method SetWord<W(!new)>(alg: Alg<W>, buffer: array<Byte>, i: nat, w: W)
    requires Laws(alg) && buffer.Length == BlockLen(alg) && i < 16
    modifies buffer
    ensures WordAt(alg, buffer[..], i) == w
    ensures forall j :: 0 <= j < 16 && j != i ==> WordAt(alg, buffer[..], j) == WordAt(alg, old(buffer[..]), j)
    ensures forall q :: At(alg.wordLen, i) + alg.wordLen <= q < buffer.Length ==> buffer[q] == old(buffer[q])
  {
    hide At;
    var p, bytes := At(alg.wordLen, i), alg.host(w);
    ghost var before := buffer[..];
    forall q | 0 <= q < |bytes| {
      buffer[p + q] := bytes[q];
    }
    assert buffer[..][p..p + alg.wordLen] == bytes;
    forall j | 0 <= j < 16 && j != i
      ensures WordAt(alg, buffer[..], j) == WordAt(alg, before, j)
    {
      if i < j { AtApart(alg.wordLen, i, j); } else { AtApart(alg.wordLen, j, i); }
      var p' := At(alg.wordLen, j);
      assert buffer[..][p'..p' + alg.wordLen] == before[p'..p' + alg.wordLen];
    }
  }

  // ----- The transform -----

  /** The ring holds the last sixteen words of the schedule. */
  ghost predicate Ring<W>(alg: Alg<W>, buffer: seq<Byte>, block: seq<Byte>, j: nat)
    requires |buffer| == |block| == BlockLen(alg)
  {
    forall t :: 0 <= t < j && j <= t + 16 ==> WordAt(alg, buffer, t % 16) == Schedule(alg, block, t)
  }

  /** Lines 404-423: the first sixteen rounds. When the block is the buffer itself (`data` is None), each
      word is read before its place is overwritten. */
  method LoadRounds<W(!new)>(alg: Alg<W>, buffer: array<Byte>, inPlace: bool, data: seq<Byte>, s: Regs<W>, ghost block: seq<Byte>)
    returns (r: Regs<W>)
    requires Laws(alg) && buffer.Length == |block| == BlockLen(alg)
    requires if inPlace then buffer[..] == block else data == block
    modifies buffer
    ensures r == Rounds(alg, s, block, 16) && Ring(alg, buffer[..], block, 16)
  {
    hide WordAt, At, Schedule, Round, Rounds, Ring;
    r := s;
    NoRounds(alg, s, block);
    for j := 0 to 16
      invariant r == Rounds(alg, s, block, j)
      invariant forall t :: 0 <= t < j ==> WordAt(alg, buffer[..], t) == Schedule(alg, block, t)
      invariant inPlace ==> Untouched(alg, buffer[..], block, j)
    {
      var w := LoadWord(alg, buffer, inPlace, data, j, block);
      OneRound(alg, s, block, j);
      r := Round(alg, r, alg.k[j], w);
    }
    FirstRing(alg, buffer[..], block);
  }

  /** The bytes from word `j` on are still the block's. */
  ghost predicate Untouched<W>(alg: Alg<W>, buffer: seq<Byte>, block: seq<Byte>, j: nat)
    requires |buffer| == |block| == BlockLen(alg)
  {
    j < 16 ==> forall q :: At(alg.wordLen, j) <= q < |block| ==> buffer[q] == block[q]
  }

  /** Lines 407-409. */
  method LoadWord<W(!new)>(alg: Alg<W>, buffer: array<Byte>, inPlace: bool, data: seq<Byte>, j: nat, ghost block: seq<Byte>) returns (w: W)
    requires Laws(alg) && buffer.Length == |block| == BlockLen(alg) && j < 16
    requires if inPlace then Untouched(alg, buffer[..], block, j) else data == block
    modifies buffer
    ensures w == Schedule(alg, block, j) == WordAt(alg, buffer[..], j)
    ensures forall i :: 0 <= i < 16 && i != j ==> WordAt(alg, buffer[..], i) == WordAt(alg, old(buffer[..]), i)
    ensures inPlace ==> Untouched(alg, buffer[..], block, j + 1)
  {
    hide WordAt, At, Schedule;
    var p := At(alg.wordLen, j);
    var bytes := if inPlace then buffer[p..p + alg.wordLen] else data[p..p + alg.wordLen];
    assert bytes == block[p..p + alg.wordLen];
    w := alg.load(bytes);
    FirstWords(alg, block, j);
    SetWord(alg, buffer, j, w);
    if j < 15 { AtApart(alg.wordLen, j, j + 1); }
  }

  lemma FirstRing<W>(alg: Alg<W>, buffer: seq<Byte>, block: seq<Byte>)
    requires |buffer| == |block| == BlockLen(alg)
    requires forall t :: 0 <= t < 16 ==> WordAt(alg, buffer, t) == Schedule(alg, block, t)
    ensures Ring(alg, buffer, block, 16)
  {
    hide WordAt, Schedule;
    forall t | 0 <= t < 16
      ensures WordAt(alg, buffer, t % 16) == Schedule(alg, block, t)
    {
      assert t % 16 == t;
    }
  }

  lemma NoRounds<W>(alg: Alg<W>, s: Regs<W>, block: seq<Byte>)
    requires |block| == BlockLen(alg)
    ensures Rounds(alg, s, block, 0) == s
  {
  }

  lemma OneRound<W>(alg: Alg<W>, s: Regs<W>, block: seq<Byte>, t: nat)
    requires |block| == BlockLen(alg) && t < |alg.k|
    ensures Rounds(alg, s, block, t + 1) == Round(alg, Rounds(alg, s, block, t), alg.k[t], Schedule(alg, block, t))
  {
  }

  /** Lines 425-447: the remaining rounds, each word of the schedule replacing the one sixteen before it. */
  method RingRounds<W(!new)>(alg: Alg<W>, buffer: array<Byte>, first: Regs<W>, ghost s: Regs<W>, ghost block: seq<Byte>) returns (r: Regs<W>)
    requires Laws(alg) && buffer.Length == |block| == BlockLen(alg)
    requires first == Rounds(alg, s, block, 16) && Ring(alg, buffer[..], block, 16)
    modifies buffer
    ensures r == Rounds(alg, s, block, alg.rounds)
  {
    hide WordAt, Schedule, Round, Rounds, Ring;
    r := first;
    for j := 16 to alg.rounds
      invariant r == Rounds(alg, s, block, j) && Ring(alg, buffer[..], block, j)
    {
      var w1 := GetWord(alg, buffer, (j + 1) % 16);
      var w14 := GetWord(alg, buffer, (j + 14) % 16);
      var w9 := GetWord(alg, buffer, (j + 9) % 16);
      var w0 := GetWord(alg, buffer, j % 16);
      var s0, s1 := alg.sigma0(w1), alg.sigma1(w14);
      var w := alg.add(w0, alg.add(alg.add(s1, w9), s0));
      ghost var before := buffer[..];
      RingNext(alg, before, block, j);
      SetWord(alg, buffer, j % 16, w);
      RingStep(alg, before, buffer[..], block, j);
      OneRound(alg, s, block, j);
      r := Round(alg, r, alg.k[j], w);
    }
  }

  /** What the four ring slots hold, and that their combination is the next word of the schedule. */
  lemma RingNext<W(!new)>(alg: Alg<W>, buffer: seq<Byte>, block: seq<Byte>, j: nat)
    requires Laws(alg) && |buffer| == |block| == BlockLen(alg) && j >= 16 && Ring(alg, buffer, block, j)
    ensures alg.add(WordAt(alg, buffer, j % 16),
                    alg.add(alg.add(alg.sigma1(WordAt(alg, buffer, (j + 14) % 16)), WordAt(alg, buffer, (j + 9) % 16)),
                            alg.sigma0(WordAt(alg, buffer, (j + 1) % 16)))) == Schedule(alg, block, j)
  {
    hide WordAt;
    assert (j - 16) % 16 == j % 16 && (j - 2) % 16 == (j + 14) % 16 && (j - 7) % 16 == (j + 9) % 16 && (j - 15) % 16 == (j + 1) % 16;
    assert WordAt(alg, buffer, (j - 16) % 16) == Schedule(alg, block, j - 16);
    assert WordAt(alg, buffer, (j - 2) % 16) == Schedule(alg, block, j - 2);
    assert WordAt(alg, buffer, (j - 7) % 16) == Schedule(alg, block, j - 7);
    assert WordAt(alg, buffer, (j - 15) % 16) == Schedule(alg, block, j - 15);
  }

  lemma RingStep<W>(alg: Alg<W>, before: seq<Byte>, buffer: seq<Byte>, block: seq<Byte>, j: nat)
    requires |before| == |buffer| == |block| == BlockLen(alg) && j >= 16 && Ring(alg, before, block, j)
    requires WordAt(alg, buffer, j % 16) == Schedule(alg, block, j)
    requires forall i :: 0 <= i < 16 && i != j % 16 ==> WordAt(alg, buffer, i) == WordAt(alg, before, i)
    ensures Ring(alg, buffer, block, j + 1)
  {
    hide WordAt, Schedule;
    forall t | 0 <= t < j + 1 && j + 1 <= t + 16
      ensures WordAt(alg, buffer, t % 16) == Schedule(alg, block, t)
    {
      if t < j {
        assert t % 16 != j % 16;
        assert WordAt(alg, before, t % 16) == Schedule(alg, block, t);
      }
    }
  }

  /** SHA256_Transform and SHA512_Transform: the new state is the compression function of the old state and
      the block, whether the block is the caller's data or the buffer itself; the buffer is left clobbered. */
  method Transform<W(!new)>(alg: Alg<W>, buffer: array<Byte>, inPlace: bool, data: seq<Byte>, state: Regs<W>, ghost block: seq<Byte>)
    returns (state': Regs<W>)
    requires Laws(alg) && buffer.Length == |block| == BlockLen(alg)
    requires if inPlace then buffer[..] == block else data == block
    modifies buffer
    ensures state' == Compress(alg, state, block)
  {
    hide Rounds, Ring;
    var r := LoadRounds(alg, buffer, inPlace, data, state, block);
    r := RingRounds(alg, buffer, r, state, block);
    state' := AddRegs(alg, state, r);
  }

  lemma FirstWords<W>(alg: Alg<W>, block: seq<Byte>, t: nat)
    requires |block| == BlockLen(alg) && t < 16
    ensures Schedule(alg, block, t) == alg.load(block[At(alg.wordLen, t)..At(alg.wordLen, t) + alg.wordLen])
  {
    WordBounds(alg.wordLen, t);
  }
}
