/** The streaming interface (common/sha2.c:464-589, 790-918) against one-shot hashing of the padded
    message (FIPS 180-4 sections 5.1 and 6.2). */
module Sha2Stream {
  import opened Sha2Words
  import opened Sha2Core

  const TWO64: int := 0x1_0000_0000_0000_0000

  // ----- One-shot hashing -----

  /** The hash value after whole blocks. */
  ghost function HashBlocks<W>(alg: Alg<W>, iv: Regs<W>, msg: seq<Byte>): Regs<W>
    requires Sized(alg) && |msg| % BlockLen(alg) == 0
    decreases |msg|
  {
    if msg == [] then iv else
      var n := |msg| - BlockLen(alg);
      Whole(|msg|, BlockLen(alg));
      Compress(alg, HashBlocks(alg, iv, msg[..n]), msg[n..])
  }

  ghost predicate Sized<W>(alg: Alg<W>) {
    (alg.wordLen == 4 || alg.wordLen == 8) && alg.rounds <= |alg.k|
  }

  lemma Whole(n: nat, b: nat)
    requires (b == 64 || b == 128) && n > 0 && n % b == 0
    ensures n >= b && (n - b) % b == 0
  {
  }

  function LengthLen<W>(alg: Alg<W>): nat { 2 * alg.wordLen }

  /** The smallest number of zero bytes that makes a whole block (sections 5.1.1 and 5.1.2). */
  function ZeroCount<W>(alg: Alg<W>, n: nat): (z: nat)
    requires Sized(alg)
  {
    var r := (n + 1 + LengthLen(alg)) % BlockLen(alg);
    if r == 0 then 0 else BlockLen(alg) - r
  }

  function Zeros(n: nat): (s: seq<Byte>)
    ensures |s| == n
  {
    seq(n, _ => 0)
  }

  /** The message length in bits, big-endian, in one or two 64-bit words. */
  ghost function LengthField<W>(alg: Alg<W>, n: nat): (s: seq<Byte>) {
    (if alg.wordLen == 8 then LengthWord(8 * n / TWO64 % TWO64) else []) + LengthWord(8 * n % TWO64)
  }

  ghost function LengthWord(x: nat): (s: seq<Byte>)
    requires x < TWO64
    ensures |s| == 8
  {
    Big64(x as bv64)
  }

  ghost function Padded<W>(alg: Alg<W>, msg: seq<Byte>): (s: seq<Byte>)
    requires Sized(alg)
  {
    msg + [0x80] + Zeros(ZeroCount(alg, |msg|)) + LengthField(alg, |msg|)
  }

  ghost function Bytes<W>(alg: Alg<W>, r: Regs<W>): seq<Byte> {
    alg.store(r.a) + alg.store(r.b) + alg.store(r.c) + alg.store(r.d) + alg.store(r.e) + alg.store(r.f) + alg.store(r.g) + alg.store(r.h)
  }

  // ----- The running bit count -----

  /** ADDINC128, and the plain addition of the 64-bit count, as one step. */
  function AddInc(low: nat, high: nat, n: nat): (r: (nat, nat)) {
    var low' := (low + n) % TWO64;
    (low', if low' < n then (high + 1) % TWO64 else high)
  }

  /** The two words count modulo 2^128; the low word alone counts modulo 2^64. */
  lemma AddIncCounts(bits: nat, n: nat)
    requires n < TWO64
    ensures AddInc(bits % TWO64, bits / TWO64 % TWO64, n) == ((bits + n) % TWO64, (bits + n) / TWO64 % TWO64)
  {
    var low, rest := bits % TWO64, bits / TWO64;
    assert bits == rest * TWO64 + low;
    if low + n < TWO64 {
      assert (bits + n) / TWO64 == rest;
    } else {
      assert (bits + n) / TWO64 == rest + 1;
      assert (bits + n) % TWO64 == low + n - TWO64;
    }
  }

  /** The space used is the message length modulo the block length, however often the count has wrapped. */
  lemma UsedSpace(n: nat, b: nat)
    requires b == 64 || b == 128
    ensures 8 * n % TWO64 / 8 % b == n % b
  {
    var q, low := 8 * n / TWO64, 8 * n % TWO64;
    assert low / 8 == n - q * 0x2000_0000_0000_0000;
    if b == 64 {
      SameRemainder64(n, q);
    } else {
      SameRemainder128(n, q);
    }
  }

  lemma SameRemainder64(n: nat, q: nat)
    ensures (n - q * 0x2000_0000_0000_0000) % 64 == n % 64
  {
    Remainder64(n - q * 0x2000_0000_0000_0000, n / 64 - q * 0x80_0000_0000_0000, n % 64);
  }

  lemma Remainder64(x: int, t: int, r: nat)
    requires r < 64 && x == 64 * t + r
    ensures x % 64 == r
  {
  }

  lemma SameRemainder128(n: nat, q: nat)
    ensures (n - q * 0x2000_0000_0000_0000) % 128 == n % 128
  {
    Remainder128(n - q * 0x2000_0000_0000_0000, n / 128 - q * 0x40_0000_0000_0000, n % 128);
  }

  lemma Remainder128(x: int, t: int, r: nat)
    requires r < 128 && x == 128 * t + r
    ensures x % 128 == r
  {
  }

  // ----- Bookkeeping of the message -----

  /** Where the unprocessed tail starts. */
  ghost function Done<W>(alg: Alg<W>, n: nat): (d: nat)
    requires Sized(alg)
    ensures d <= n && d % BlockLen(alg) == 0 && n - d < BlockLen(alg)
  {
    n - n % BlockLen(alg)
  }

  lemma AppendBlock<W>(alg: Alg<W>, iv: Regs<W>, msg: seq<Byte>, block: seq<Byte>)
    requires Sized(alg) && |msg| % BlockLen(alg) == 0 && |block| == BlockLen(alg)
    ensures |msg + block| % BlockLen(alg) == 0
    ensures HashBlocks(alg, iv, msg + block) == Compress(alg, HashBlocks(alg, iv, msg), block)
  {
    hide Compress;
    var m := msg + block;
    assert m[..|m| - BlockLen(alg)] == msg && m[|m| - BlockLen(alg)..] == block;
  }

  /** The context after message `msg`: whole blocks are in the state, the tail is in the buffer. */
  ghost predicate Absorbed<W>(alg: Alg<W>, iv: Regs<W>, msg: seq<Byte>, state: Regs<W>, buffer: seq<Byte>)
  {
    && Sized(alg) && |buffer| == BlockLen(alg)
    && var d := Done(alg, |msg|);
    && state == HashBlocks(alg, iv, msg[..d])
    && buffer[..|msg| - d] == msg[d..]
  }

  ghost predicate Counts<W>(alg: Alg<W>, n: nat, low: nat, high: nat) {
    low == 8 * n % TWO64 && (alg.wordLen == 8 ==> high == 8 * n / TWO64 % TWO64)
  }

  /** Less than a block's worth was added to the buffer. */
  lemma BufferedMore<W>(alg: Alg<W>, iv: Regs<W>, msg: seq<Byte>, part: seq<Byte>, state: Regs<W>, before: seq<Byte>, buffer: seq<Byte>)
    requires Absorbed(alg, iv, msg, state, before) && |buffer| == |before|
    requires var used := |msg| % BlockLen(alg);
             used + |part| < BlockLen(alg) && buffer[..used] == before[..used] && buffer[used..used + |part|] == part
    ensures Absorbed(alg, iv, msg + part, state, buffer)
  {
    hide HashBlocks;
    var d, m := Done(alg, |msg|), msg + part;
    assert Done(alg, |m|) == d by { SameDone(alg, |msg|, |part|); }
    assert m[..d] == msg[..d];
    assert m[d..] == msg[d..] + part;
    var used := |msg| - d;
    assert buffer[..used + |part|] == buffer[..used] + buffer[used..used + |part|];
  }

  lemma SameDone<W>(alg: Alg<W>, n: nat, k: nat)
    requires Sized(alg) && n % BlockLen(alg) + k < BlockLen(alg)
    ensures Done(alg, n + k) == Done(alg, n)
  {
  }

  /** The buffer was filled and processed. */
  lemma BufferFilled<W>(alg: Alg<W>, iv: Regs<W>, msg: seq<Byte>, part: seq<Byte>, state: Regs<W>, before: seq<Byte>, block: seq<Byte>, after: seq<Byte>)
    requires Absorbed(alg, iv, msg, state, before) && |block| == |after| == |before|
    requires var used := |msg| % BlockLen(alg);
             used + |part| == BlockLen(alg) && block == before[..used] + part
    ensures Absorbed(alg, iv, msg + part, Compress(alg, state, block), after)
  {
    hide HashBlocks, Compress;
    var d, m := Done(alg, |msg|), msg + part;
    assert Done(alg, |m|) == |m| by { FullDone(alg, |msg|, |part|); }
    assert m == msg[..d] + block;
    assert m[..|m|] == m && m[|m|..] == [];
    AppendBlock(alg, iv, msg[..d], block);
  }

  lemma FullDone<W>(alg: Alg<W>, n: nat, k: nat)
    requires Sized(alg) && n % BlockLen(alg) + k == BlockLen(alg)
    ensures Done(alg, n + k) == n + k
  {
  }

  // ----- Padding, block by block -----

  /** The tail, the mark, zeros and the length in one block. */
  ghost predicate OneBlock<W>(alg: Alg<W>, n: nat, used: nat, buffer: seq<Byte>, block: seq<Byte>) {
    && used <= |buffer|
    && used + 1 + LengthLen(alg) <= BlockLen(alg)
    && block == buffer[..used] + [0x80] + Zeros(BlockLen(alg) - LengthLen(alg) - used - 1) + LengthField(alg, n)
  }

  /** The tail, the mark and zeros in one block, more zeros and the length in another. */
  ghost predicate TwoBlocks<W>(alg: Alg<W>, n: nat, used: nat, buffer: seq<Byte>, b1: seq<Byte>, b2: seq<Byte>) {
    && used <= |buffer| && LengthLen(alg) <= BlockLen(alg)
    && used + 1 <= BlockLen(alg) < used + 1 + LengthLen(alg)
    && b1 == buffer[..used] + [0x80] + Zeros(BlockLen(alg) - used - 1)
    && b2 == Zeros(BlockLen(alg) - LengthLen(alg)) + LengthField(alg, n)
  }

  /** The padding fits into the block that holds the tail. */
  lemma PadOne<W>(alg: Alg<W>, iv: Regs<W>, msg: seq<Byte>, state: Regs<W>, buffer: seq<Byte>, block: seq<Byte>)
    requires Absorbed(alg, iv, msg, state, buffer) && |block| == BlockLen(alg)
    requires OneBlock(alg, |msg|, |msg| % BlockLen(alg), buffer, block)
    ensures |Padded(alg, msg)| % BlockLen(alg) == 0
    ensures Compress(alg, state, block) == HashBlocks(alg, iv, Padded(alg, msg))
  {
    hide HashBlocks, Compress, LengthField;
    var d := Done(alg, |msg|);
    OneBlockZeros(alg, |msg|);
    FieldLength(alg, |msg|);
    assert Padded(alg, msg) == msg[..d] + block;
    AppendBlock(alg, iv, msg[..d], block);
  }

  lemma FieldLength<W>(alg: Alg<W>, n: nat)
    requires Sized(alg)
    ensures |LengthField(alg, n)| == LengthLen(alg)
  {
  }

  lemma OneBlockZeros<W>(alg: Alg<W>, n: nat)
    requires Sized(alg) && n % BlockLen(alg) + 1 + LengthLen(alg) <= BlockLen(alg)
    ensures ZeroCount(alg, n) == BlockLen(alg) - LengthLen(alg) - n % BlockLen(alg) - 1
  {
  }

  /** The padding spills into a second block. */
  lemma PadTwo<W>(alg: Alg<W>, iv: Regs<W>, msg: seq<Byte>, state: Regs<W>, buffer: seq<Byte>, b1: seq<Byte>, b2: seq<Byte>)
    requires Absorbed(alg, iv, msg, state, buffer) && |b1| == |b2| == BlockLen(alg)
    requires TwoBlocks(alg, |msg|, |msg| % BlockLen(alg), buffer, b1, b2)
    ensures |Padded(alg, msg)| % BlockLen(alg) == 0
    ensures Compress(alg, Compress(alg, state, b1), b2) == HashBlocks(alg, iv, Padded(alg, msg))
  {
    hide HashBlocks, Compress, LengthField;
    var d, used := Done(alg, |msg|), |msg| % BlockLen(alg);
    TwoBlockZeros(alg, |msg|);
    FieldLength(alg, |msg|);
    assert Zeros(ZeroCount(alg, |msg|)) == Zeros(BlockLen(alg) - used - 1) + Zeros(BlockLen(alg) - LengthLen(alg));
    assert Padded(alg, msg) == msg[..d] + b1 + b2;
    AppendBlock(alg, iv, msg[..d], b1);
    AppendBlock(alg, iv, msg[..d] + b1, b2);
  }

  lemma TwoBlockZeros<W>(alg: Alg<W>, n: nat)
    requires Sized(alg) && n % BlockLen(alg) + 1 + LengthLen(alg) > BlockLen(alg)
    ensures ZeroCount(alg, n) == 2 * BlockLen(alg) - LengthLen(alg) - n % BlockLen(alg) - 1
  {
  }

  // ----- The context -----

  class Context<W(!new)> {
    const alg: Alg<W>
    const buffer: array<Byte>
    var state: Regs<W>
    var low: nat   // bitcount, or bitcount[0]
    var high: nat  // bitcount[1]; not used by the 32-bit family
    ghost const iv: Regs<W>
    ghost var msg: seq<Byte>  // everything fed so far

    ghost predicate Valid()
      reads this, buffer
    {
      && Laws(alg)
      && Absorbed(alg, iv, msg, state, buffer[..])
      && Counts(alg, |msg|, low, high)
    }

    /** pg_sha256_init and its siblings. */
    constructor (a: Alg<W>, init: Regs<W>)
      requires Laws(a)
      ensures Valid() && alg == a && iv == init && msg == [] && fresh(buffer)
    {
      alg, iv, state := a, init, init;
      buffer := new Byte[16 * a.wordLen](_ => 0);
      low, high := 0, 0;
      msg := [];
    }

    /** memcpy into the buffer. */
    method Copy(at: nat, part: seq<Byte>)
      requires at + |part| <= buffer.Length
      modifies buffer
      ensures buffer[..at] == old(buffer[..at]) && buffer[at..at + |part|] == part
      ensures buffer[at + |part|..] == old(buffer[at + |part|..])
    {
      forall i | 0 <= i < |part| {
        buffer[at + i] := part[i];
      }
    }

    method AddBits(n: nat)
      requires n < TWO64
      modifies this`low, this`high
      ensures (low, high) == AddInc(old(low), old(high), n)
    {
      low := (low + n) % TWO64;
      if low < n {
        high := (high + 1) % TWO64;
      }
    }

    /** Lines 492-493 and 510-511: less than fills the buffer. */
    method Keep(used: nat, part: seq<Byte>)
      requires Valid() && used == |msg| % BlockLen(alg) && used + |part| < BlockLen(alg)
      modifies this, buffer
      ensures Valid() && msg == old(msg) + part
    {
      hide Laws, Absorbed, Counts;
      Lengths(alg, iv, msg, state, buffer[..]);
      ghost var before := buffer[..];
      Copy(used, part);
      assert buffer[..][..used] == before[..used] && buffer[..][used..used + |part|] == part;
      AddBits(8 * |part|);
      BufferedMore(alg, iv, msg, part, state, before, buffer[..]);
      CountMore(alg, |msg|, |part|, old(low), old(high));
      msg := msg + part;
    }

    /** Lines 483-487: fill the buffer completely and process it where it lies. */
    method Fill(used: nat, part: seq<Byte>)
      requires Valid() && used == |msg| % BlockLen(alg) && used + |part| == BlockLen(alg)
      modifies this, buffer
      ensures Valid() && msg == old(msg) + part
    {
      hide Laws, Absorbed, Counts, Compress;
      Lengths(alg, iv, msg, state, buffer[..]);
      ghost var before := buffer[..];
      Copy(used, part);
      ghost var block := buffer[..];
      assert block == block[..used] + block[used..];
      assert block[..used] == before[..used] && block[used..] == part;
      AddBits(8 * |part|);
      ghost var s0 := state;
      state := Transform(alg, buffer, true, [], state, block);
      BufferFilled(alg, iv, msg, part, s0, before, block, buffer[..]);
      CountMore(alg, |msg|, |part|, old(low), old(high));
      msg := msg + part;
    }

    /** Lines 502-503: a whole block straight from the caller's data; the buffer is only scratch space. */
    method Process(block: seq<Byte>)
      requires Valid() && |msg| % BlockLen(alg) == 0 && |block| == BlockLen(alg)
      modifies this, buffer
      ensures Valid() && msg == old(msg) + block
    {
      hide Laws, Absorbed, Counts, Compress;
      Lengths(alg, iv, msg, state, buffer[..]);
      ghost var s0, before := state, buffer[..];
      state := Transform(alg, buffer, false, block, state, block);
      AddBits(8 * |block|);
      assert before[..0] + block == block;
      BufferFilled(alg, iv, msg, block, s0, before, block, buffer[..]);
      CountMore(alg, |msg|, |block|, old(low), old(high));
      msg := msg + block;
    }

    /** pg_sha256_update and pg_sha512_update. */
    method Update(data: seq<Byte>)
      requires Valid()
      modifies this, buffer
      ensures Valid() && msg == old(msg) + data
    {
      hide Laws, Absorbed, Counts;
      if |data| == 0 {
        assert msg + data == msg;
        return;
      }
      var b := BlockLen(alg);
      var rest := data;
      Lengths(alg, iv, msg, state, buffer[..]);
      CountGives(alg, |msg|, low, high);
      var used := low / 8 % b;
      if used > 0 {
        var free := b - used;
        if |rest| >= free {
          Fill(used, rest[..free]);
          assert rest[..free] + rest[free..] == data;
          FullDone(alg, |old(msg)|, free);
          rest := rest[free..];
        } else {
          Keep(used, rest);
          return;
        }
      }
      while |rest| >= b
        invariant Valid() && |msg| % b == 0 && msg + rest == old(msg) + data
        decreases |rest|
      {
        assert msg + rest[..b] + rest[b..] == msg + rest;
        FullDone(alg, |msg|, b);
        Process(rest[..b]);
        rest := rest[b..];
      }
      if |rest| > 0 {
        Keep(0, rest);
      } else {
        assert msg + rest == msg;
      }
    }

    /** memset to zero. */
    method Clear(at: nat, n: nat)
      requires at + n <= buffer.Length
      modifies buffer
      ensures buffer[..at] == old(buffer[..at]) && buffer[at..at + n] == Zeros(n)
      ensures buffer[at + n..] == old(buffer[at + n..])
    {
      forall i | 0 <= i < n {
        buffer[at + i] := 0;
      }
    }

    /** Lines 525, 559 and 851-852, 886-887: the bit count goes into the last bytes, each word reversed and
        stored in host order. */
    method PutLength()
      requires Sized(alg) && buffer.Length == BlockLen(alg) && Counts(alg, |msg|, low, high)
      modifies buffer
      ensures buffer[..] == old(buffer[..buffer.Length - LengthLen(alg)]) + LengthField(alg, |msg|)
    {
      hide LengthWord, LengthField, Counts;
      var short := BlockLen(alg) - LengthLen(alg);
      ghost var before := buffer[..short];
      FieldIs(alg, |msg|, low, high);
      if alg.wordLen == 8 {
        Put64(short, high);
        ghost var field := buffer[short..short + 8];
        assert buffer[..short] == before;
        Put64(short + 8, low);
        assert buffer[..short] == buffer[..short + 8][..short] == before;
        assert buffer[short..short + 8] == buffer[..short + 8][short..] == field;
        assert buffer[..] == buffer[..short] + buffer[short..short + 8] + buffer[short + 8..];
      } else {
        Put64(short, low);
        assert buffer[..] == buffer[..short] + buffer[short..];
      }
    }

    method Put64(at: nat, x: nat)
      requires at + 8 <= buffer.Length && x < TWO64
      modifies buffer
      ensures buffer[..at] == old(buffer[..at]) && buffer[at..at + 8] == LengthWord(x)
      ensures buffer[at + 8..] == old(buffer[at + 8..])
    {
      hide Big64, Little64, Reverse64;
      var w := x as bv64;
      Words64(w);
      Copy(at, Little64(Reverse64(w)));
    }

    /** SHA256_Last and SHA512_Last. */
    method Last()
      requires Valid()
      modifies this`state, buffer
      ensures |Padded(alg, msg)| % BlockLen(alg) == 0 && state == HashBlocks(alg, iv, Padded(alg, msg))
    {
      hide Laws, Absorbed, Counts, HashBlocks, LengthField, Padded;
      Lengths(alg, iv, msg, state, buffer[..]);
      CountGives(alg, |msg|, low, high);
      var used := low / 8 % BlockLen(alg);
      if used > 0 {
        if used + 1 <= BlockLen(alg) - LengthLen(alg) {
          LastInOne(used);
        } else {
          LastInTwo(used);
        }
      } else {
        LastEmpty();
      }
    }

    /** Lines 527-536 and 558-562. */
    method LastInOne(used: nat)
      requires Valid() && 0 < used == |msg| % BlockLen(alg) && used + 1 + LengthLen(alg) <= BlockLen(alg)
      modifies this`state, buffer
      ensures |Padded(alg, msg)| % BlockLen(alg) == 0 && state == HashBlocks(alg, iv, Padded(alg, msg))
    {
      hide Laws, Absorbed, Counts, HashBlocks, Compress, LengthField, Padded;
      var short := BlockLen(alg) - LengthLen(alg);
      Lengths(alg, iv, msg, state, buffer[..]);
      FieldLength(alg, |msg|);
      ghost var before := buffer[..];
      Copy(used, [0x80]);
      ghost var marked := buffer[..used + 1];
      assert marked == before[..used] + [0x80] by { assert buffer[..used] == before[..used]; }
      Clear(used + 1, short - (used + 1));
      assert buffer[..short] == buffer[..used + 1] + buffer[used + 1..short] == marked + Zeros(short - used - 1);
      PutLength();
      ghost var block := buffer[..];
      PadOne(alg, iv, msg, state, before, block);
      state := Transform(alg, buffer, true, [], state, block);
    }

    /** Lines 537-549 and 558-562. */
    method LastInTwo(used: nat)
      requires Valid() && 0 < used == |msg| % BlockLen(alg) && used + 1 + LengthLen(alg) > BlockLen(alg)
      modifies this`state, buffer
      ensures |Padded(alg, msg)| % BlockLen(alg) == 0 && state == HashBlocks(alg, iv, Padded(alg, msg))
    {
      hide Laws, Absorbed, Counts, HashBlocks, Compress, LengthField, Padded;
      var b, short := BlockLen(alg), BlockLen(alg) - LengthLen(alg);
      Lengths(alg, iv, msg, state, buffer[..]);
      FieldLength(alg, |msg|);
      ghost var before := buffer[..];
      Copy(used, [0x80]);
      ghost var marked := buffer[..used + 1];
      assert marked == before[..used] + [0x80] by { assert buffer[..used] == before[..used]; }
      if used + 1 < b {
        Clear(used + 1, b - (used + 1));
      }
      ghost var b1 := buffer[..];
      assert b1 == buffer[..used + 1] + buffer[used + 1..] == marked + Zeros(b - used - 1);
      ghost var s0 := state;
      state := Transform(alg, buffer, true, [], state, b1);
      var n := if alg.wordLen == 8 then b - 2 else short;
      Clear(0, n);
      assert buffer[..short] == buffer[0..n][..short] == Zeros(short);
      PutLength();
      ghost var b2 := buffer[..];
      PadTwo(alg, iv, msg, s0, before, b1, b2);
      state := Transform(alg, buffer, true, [], state, b2);
    }

    /** Lines 550-557 and 558-562. */
    method LastEmpty()
      requires Valid() && |msg| % BlockLen(alg) == 0
      modifies this`state, buffer
      ensures |Padded(alg, msg)| % BlockLen(alg) == 0 && state == HashBlocks(alg, iv, Padded(alg, msg))
    {
      hide Laws, Absorbed, Counts, HashBlocks, Compress, LengthField, Padded;
      var short := BlockLen(alg) - LengthLen(alg);
      Lengths(alg, iv, msg, state, buffer[..]);
      FieldLength(alg, |msg|);
      ghost var before := buffer[..];
      Clear(0, short);
      ghost var cleared := buffer[1..];
      assert cleared[..short - 1] == buffer[0..short][1..] == Zeros(short - 1);
      Copy(0, [0x80]);
      assert buffer[1..] == cleared;
      assert buffer[..short] == buffer[0..1] + buffer[1..][..short - 1] == before[..0] + [0x80] + Zeros(short - 1);
      PutLength();
      ghost var block := buffer[..];
      PadOne(alg, iv, msg, state, before, block);
      state := Transform(alg, buffer, true, [], state, block);
    }

    /** pg_sha256_final and its siblings: the digest, if there is a buffer for it, is the big-endian hash of the padded
        message; the context is zeroed in any case. */
    method Final(digestLen: nat, wanted: bool) returns (digest: seq<Byte>)
      requires Valid() && digestLen <= 8 * alg.wordLen
      modifies this, buffer
      ensures msg == old(msg)
      ensures wanted ==>
                && |Padded(alg, msg)| % BlockLen(alg) == 0
                && var image := Bytes(alg, HashBlocks(alg, iv, Padded(alg, msg)));
                   digestLen <= |image| && digest == image[..digestLen]
      ensures !wanted ==> digest == []
      ensures low == high == 0 && buffer[..] == Zeros(buffer.Length)
      ensures var z := alg.unhost(Zeros(alg.wordLen)); state == Regs(z, z, z, z, z, z, z, z)
    {
      hide Absorbed, Counts, HashBlocks, Padded;
      digest := [];
      if wanted {
        Last();
        var r := state;
        var image := alg.host(alg.reverse(r.a)) + alg.host(alg.reverse(r.b)) + alg.host(alg.reverse(r.c)) + alg.host(alg.reverse(r.d))
                     + alg.host(alg.reverse(r.e)) + alg.host(alg.reverse(r.f)) + alg.host(alg.reverse(r.g)) + alg.host(alg.reverse(r.h));
        digest := image[..digestLen];
      }
      low, high := 0, 0;
      var z := alg.unhost(Zeros(alg.wordLen));
      state := Regs(z, z, z, z, z, z, z, z);
      Clear(0, buffer.Length);
    }
  }

  ghost function Concat(chunks: seq<seq<Byte>>): seq<Byte> {
    if chunks == [] then [] else Concat(chunks[..|chunks| - 1]) + chunks[|chunks| - 1]
  }

  /** However a message is cut into update calls, the digest is that of the whole message, padded. */
  method HashChunks<W(!new)>(alg: Alg<W>, iv: Regs<W>, chunks: seq<seq<Byte>>, digestLen: nat) returns (digest: seq<Byte>)
    requires Laws(alg) && digestLen <= 8 * alg.wordLen
    ensures |Padded(alg, Concat(chunks))| % BlockLen(alg) == 0
    ensures digestLen <= |Bytes(alg, HashBlocks(alg, iv, Padded(alg, Concat(chunks))))|
    ensures digest == Bytes(alg, HashBlocks(alg, iv, Padded(alg, Concat(chunks))))[..digestLen]
  {
    hide HashBlocks, Padded, Bytes;
    var c := new Context(alg, iv);
    for i := 0 to |chunks|
      invariant c.Valid() && c.alg == alg && c.iv == iv && c.msg == Concat(chunks[..i]) && fresh(c) && fresh(c.buffer)
    {
      c.Update(chunks[i]);
      assert chunks[..i + 1][..i] == chunks[..i];
    }
    assert chunks[..|chunks|] == chunks;
    digest := c.Final(digestLen, true);
  }

  lemma Lengths<W>(alg: Alg<W>, iv: Regs<W>, msg: seq<Byte>, state: Regs<W>, buffer: seq<Byte>)
    requires Absorbed(alg, iv, msg, state, buffer)
    ensures Sized(alg) && |buffer| == BlockLen(alg) && (BlockLen(alg) == 64 || BlockLen(alg) == 128)
  {
  }

  lemma FieldIs<W>(alg: Alg<W>, n: nat, low: nat, high: nat)
    requires Counts(alg, n, low, high)
    ensures low < TWO64 && (alg.wordLen == 8 ==> high < TWO64)
    ensures LengthField(alg, n) == if alg.wordLen == 8 then LengthWord(high) + LengthWord(low) else LengthWord(low)
  {
    hide LengthWord;
    assert [] + LengthWord(low) == LengthWord(low);
  }

  lemma CountMore<W>(alg: Alg<W>, n: nat, k: nat, low: nat, high: nat)
    requires Counts(alg, n, low, high) && 8 * k < TWO64
    ensures var (l, h) := AddInc(low, high, 8 * k); Counts(alg, n + k, l, h)
  {
    AddIncCounts(8 * n, 8 * k);
  }

  lemma CountGives<W>(alg: Alg<W>, n: nat, low: nat, high: nat)
    requires Sized(alg) && Counts(alg, n, low, high)
    ensures low / 8 % BlockLen(alg) == n % BlockLen(alg)
  {
    UsedSpace(n, BlockLen(alg));
  }

  // ----- The real word operations -----

  function Rotr32(x: bv32, n: bv6): bv32
    requires 0 < n < 32
  {
    (x >> n) | (x << (32 - n))
  }

  function Rotr64(x: bv64, n: bv7): bv64
    requires 0 < n < 64
  {
    (x >> n) | (x << (64 - n))
  }

  // The logical functions, common/sha2.c:127-141.
  function Add32(x: bv32, y: bv32): bv32 { x + y }
  function Ch32(x: bv32, y: bv32, z: bv32): bv32 { (x & y) ^ (!x & z) }
  function Maj32(x: bv32, y: bv32, z: bv32): bv32 { (x & y) ^ (x & z) ^ (y & z) }
  function BigSigma0x32(x: bv32): bv32 { Rotr32(x, 2) ^ Rotr32(x, 13) ^ Rotr32(x, 22) }
  function BigSigma1x32(x: bv32): bv32 { Rotr32(x, 6) ^ Rotr32(x, 11) ^ Rotr32(x, 25) }
  function Sigma0x32(x: bv32): bv32 { Rotr32(x, 7) ^ Rotr32(x, 18) ^ (x >> 3) }
  function Sigma1x32(x: bv32): bv32 { Rotr32(x, 17) ^ Rotr32(x, 19) ^ (x >> 10) }

  function Add64(x: bv64, y: bv64): bv64 { x + y }
  function Ch64(x: bv64, y: bv64, z: bv64): bv64 { (x & y) ^ (!x & z) }
  function Maj64(x: bv64, y: bv64, z: bv64): bv64 { (x & y) ^ (x & z) ^ (y & z) }
  function BigSigma0x64(x: bv64): bv64 { Rotr64(x, 28) ^ Rotr64(x, 34) ^ Rotr64(x, 39) }
  function BigSigma1x64(x: bv64): bv64 { Rotr64(x, 14) ^ Rotr64(x, 18) ^ Rotr64(x, 41) }
  function Sigma0x64(x: bv64): bv64 { Rotr64(x, 1) ^ Rotr64(x, 8) ^ (x >> 7) }
  function Sigma1x64(x: bv64): bv64 { Rotr64(x, 19) ^ Rotr64(x, 61) ^ (x >> 6) }

  /** SHA-224 and SHA-256, for any round constants. */
  function Sha256(k: seq<bv32>): Alg<bv32> {
    Alg(64, 4, Add32, BigSigma0x32, BigSigma1x32, Sigma0x32, Sigma1x32, Ch32, Maj32,
        k, LoadBig32, Big32, Reverse32, Little32, LoadLittle32)
  }

  /** SHA-384 and SHA-512, for any round constants. */
  function Sha512(k: seq<bv64>): Alg<bv64> {
    Alg(80, 8, Add64, BigSigma0x64, BigSigma1x64, Sigma0x64, Sigma1x64, Ch64, Maj64,
        k, LoadBig64, Big64, Reverse64, Little64, LoadLittle64)
  }

  lemma Sha256Laws(k: seq<bv32>)
    requires |k| == 64
    ensures Laws(Sha256(k))
  {
    hide Big32, Little32, LoadLittle32, Reverse32;
    forall w: bv32
      ensures |Little32(w)| == 4 && LoadLittle32(Little32(w)) == w && Little32(Reverse32(w)) == Big32(w)
    {
      Words32(w);
    }
  }

  lemma Sha512Laws(k: seq<bv64>)
    requires |k| == 80
    ensures Laws(Sha512(k))
  {
    hide Big64, Little64, LoadLittle64, Reverse64;
    forall w: bv64
      ensures |Little64(w)| == 8 && LoadLittle64(Little64(w)) == w && Little64(Reverse64(w)) == Big64(w)
    {
      Words64(w);
    }
  }
}
