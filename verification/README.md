# Verified models of PostgreSQL 13 / GroundDB algorithms

A Dafny model of the algorithmic cores of the tree under `src`, with proofs about every input or every run.
`dafny verify dfyconfig.toml` verifies the whole project. The modules follow the source files.

- **pglz** (`PglzHistory`, `PglzFormat`, `PglzCompress`, `PglzDecompress`; `common/pg_lzcompress.c`). The compressor
  with its recycled, hash-chained, doubly linked history arrays, the control-byte and tag format, and the
  decompressor with its offset-doubling copy, all updated in place. The format is defined on its own as a list of
  items, what they expand to and how they are encoded; compressor and decompressor are both proved against it, and
  together they give the round trip. What the compressor finds is said of the text alone.
- **Ryu printing** (`RyuDigits`, `RyuMul`, `RyuInterval`, `RyuPrint`, `RyuRead`, `RyuLayout`; `common/d2s.c`,
  `common/d2s_intrinsics.h`). The digit removal of step 4 against "shortest, then closest"; the three-word multiplication
  without 128-bit integers against exact floors; the digit writer against a reader that shares nothing with it; and the layout, said of the text
  and the value alone.
- **SHA-2** (`Sha2Words`, `Sha2Core`, `Sha2Stream`, `Sha2Bits`, `Sha2Example`, `WordBits`; `common/sha2.c`). One
  generic algorithm with a 32-bit and a 64-bit instance. The message schedule overwrites the buffer it is computed from, as in the source. The reference is one
  hash of the padded message as FIPS 180-4 defines it; the word functions are those of the standard bit by bit.
- **JSON** (`JsonNumbers`, `JsonStrings`, `JsonEscapes`, `JsonTokens`, `JsonGrammar`, `JsonParser`, `JsonEvents`, `JsonPrint`;
  `common/jsonapi.c`). The mutable lexer, the recursive descent with callbacks and nesting level, and the look-ahead count. Numbers, tokens, values and
  documents are accepted exactly as the grammar of RFC 8259 derives them from the text, up to what strings are accepted:
  the two modes of string lexing each depart from section 7 of the RFC, in ways that are characterised below.
  Escapers, a UTF-8 decoder, a printer and a consumer of the callbacks, all defined apart, give characters and documents
  back. A `char` stands for a byte.
- **Unicode normalisation** (`UnicodeTable`, `UnicodeOrder`, `UnicodeNorm`, `UnicodeForms`; `common/unicode_norm.c`). The size and
  fill passes, the exchange loop with its step back, recomposition and algorithmic Hangul, for any decomposition
  table that is well-founded, has one entry per code point and leaves Hangul to the algorithm.
- **st_changecount** (`ChangeCount`; `include/pgstat.h`). The seqlock-like protocol as interleaved steps of one writer
  and any number of readers, with a wrapping 32-bit counter.
- **Partition locks** (`HashBytes`, `PartitionLock`; `common/hashfn.c`, `common/partition_lock.c`). `hash_bytes` on its
  four code paths, and the striped mutex as runs of any number of threads.
- **Dollar quoting** (`DollarQuote`; `fe_utils/string_utils.c`) and **base64** (`Base64`; `common/base64.c`), each with
  its inverse. `Common` holds what several modules use.

Some properties turn out not to hold on all inputs; for each there is a witness and the exact condition.

- De-escaping a string refuses some strings of RFC 8259: \u0000, surrogates without a partner and, when the encoding is
  not UTF-8, every \u escape above ASCII (`RfcStringIff`, `DeEscapeRefusesZero`). Without de-escaping all are accepted.
- Lexing a string without de-escaping also accepts a backslash before NUL, because `strchr` finds the terminator
  (`PlainIsRfcIff`, `PlainTakesNul`).
- Recomposition drops U+11A7 after a leading consonant and a vowel, so the composed form is then not equivalent to its
  string (`ComposedIsEquivalentIff`, `OpenTailIsDropped`).
- Recomposing the empty string needs one element more than its buffer has (`Recompose`).
- With '$' in the prefix a dollar-quoted literal never reads back as its string (`LiteralReadsBack`, `DollarInPrefix`).
- On arbitrary intervals, step 4 of `d2d` need not return the number closest to a value with a fraction (`ClosestIff`,
  `NarrowExample`). This does not concern what `d2d` prints: for intervals at least eleven wide the digits are closest
  (`WideIsClosest`, `ShortestDigits`). That the intervals of `d2d` are that wide whenever the value has a fraction is a fact
  about its constants outside the proofs.
- The 64-bit-only `mulShiftAll` with `mmShift` = 0 loses a carry on some multipliers (`MulShiftAllUneven`,
  `CarryLostAtHiddenBit`, `CarryLostExample`). This is about the function on arbitrary multipliers, not about `d2d`: that
  none of the 618 entries of the power-of-five tables meets the condition is a fact about constants outside the proofs.
- Base64 decoding accepts more than RFC 4648 encodings: padding in the middle and characters after it (`AcceptsIff`,
  `PadsInTheMiddle`).
- A read of a backend entry passes its test if the counter turns over a whole number of times during it, and if it does
  so at least once the copy can be torn (`CompleteReadIsWhole`, `TornReadExample`).

## Model

| member | source | states |
|---|---|---|
| PglzHistory.SameTextSameKey | common/pg_lzcompress.c:263-282 | positions with the same next four bytes have the same list key, whatever the hash size |
| PglzHistory.KeyExamples | common/pg_lzcompress.c:277-282 | the key of given bytes, inside the input and at its end |
| PglzHistory.ListsAreChains | common/pg_lzcompress.c:296-327 | following `next` from a list head visits exactly the live positions with that key, newest first, with every `prev` pointing back: an acyclic doubly linked list |
| PglzHistory.ChainFacts | common/pg_lzcompress.c:285-327 | the chain of a key holds each live position with that key once, in falling order, and nothing else |
| PglzHistory.Symmetric | common/pg_lzcompress.c:296-327 | position q is the next older one of p exactly when p is the next newer one of q: `next` and `prev` are inverse |
| PglzHistory.HeadHasNoNewer | common/pg_lzcompress.c:296-327 | a list head is the one live position of its key with nothing newer |
| PglzHistory.RecycledIsTail | common/pg_lzcompress.c:299-308 | the entry about to be recycled is the tail of its list, so recycling never cuts a list in the middle |
| PglzHistory.HeadIsNotFree | common/pg_lzcompress.c:299-322 | no list starts at the entry that is about to be filled |
| PglzHistory.Delinked | common/pg_lzcompress.c:299-308 | taking the oldest entry off its list leaves a table that holds exactly the window without it |
| PglzHistory.Appended | common/pg_lzcompress.c:309-322 | putting the next position in front of its list gives a table that holds exactly the window with it |
| PglzHistory.History.Reset | common/pg_lzcompress.c:582-604 | clearing only the list heads in use gives a valid empty table, whatever the entries held before |
| PglzHistory.History.Delink | common/pg_lzcompress.c:299-308 | the in-place update is the delinking step and touches nothing else |
| PglzHistory.History.PushFront | common/pg_lzcompress.c:309-322 | the in-place update is the insertion step and touches nothing else |
| PglzHistory.History.Add | common/pg_lzcompress.c:296-327 | the table stays valid and holds exactly the last 4096 positions after every addition |
| PglzHistory.SearchIsGenuine | common/pg_lzcompress.c:398-498 | whatever the search returns is a copy of earlier text, with 1 <= off <= 4094 reaching no further back than the start, and at most 273 bytes |
| PglzHistory.SearchIsBest | common/pg_lzcompress.c:398-498 | for every good length and drop the search returns the longest match of the positions it visits, the newest of equals, and stops only at the end of the list, at the first position out of reach, or when the match reaches the length that is good enough by then |
| PglzHistory.SearchIsLongest | common/pg_lzcompress.c:410-489 | with a good length of 273 or more and no drop, no position on the list within reach of a tag has a longer match |
| PglzHistory.DecayIsPercent | common/pg_lzcompress.c:480-483 | each step lowers the good length by the stated percentage, rounded |
| PglzHistory.MatchLenSkip | common/pg_lzcompress.c:432-447 | comparing the first len bytes at once and measuring from there gives the same length as measuring from the start |
| PglzHistory.MemcmpIsRepeats | common/pg_lzcompress.c:437-447 | the block comparison succeeds exactly when the text repeats at that offset |
| PglzHistory.Compare | common/pg_lzcompress.c:434-458 | the measured length is the true match length if that beats the best so far, and no better than the best otherwise |
| PglzHistory.Extend | common/pg_lzcompress.c:442-457 | the character loop stops exactly at the match length |
| PglzHistory.History.FindMatch | common/pg_lzcompress.c:398-498 | walking the linked list with the memcmp shortcut terminates and returns what the plain search over the chain returns; said of the text alone, with a good length of 273 and no drop no position in reach that begins with the same four bytes has a longer match |
| PglzFormat.CopyBackAt | common/pg_lzcompress.c:725-782 | each byte of a copy is the byte `off` before it, and what was there stays |
| PglzFormat.Periodic | common/pg_lzcompress.c:740-773 | text repeated every off bytes is repeated every m * off bytes |
| PglzFormat.ExpandPrefix | common/pg_lzcompress.c:705-788 | a longer item list only adds to the output, so output is decided from the front |
| PglzFormat.EncodeAppend | common/pg_lzcompress.c:336-387 | whole groups of eight items encode independently of what follows them |
| PglzFormat.EncodeLength | common/pg_lzcompress.c:336-387 | the encoded length is the item bytes plus one control byte per group of eight |
| PglzFormat.EncodeMonotone | common/pg_lzcompress.c:606-668 | adding items never shortens the encoding, so giving up early on the size limit is right |
| PglzFormat.FormatExample | common/pg_lzcompress.c:336-387 | the bytes of a control byte, literals, a two-byte and a three-byte tag |
| PglzDecompress.CopyMatch | common/pg_lzcompress.c:740-773 | the copy that doubles its offset equals the byte-at-a-time copy, for every offset within the output so far, and writes nothing else |
| PglzDecompress.CopyBackShorter | common/pg_lzcompress.c:734-739 | cutting a copy short gives the front of the full copy |
| PglzDecompress.TagBytes | common/pg_lzcompress.c:371-387 | the two or three tag bytes give back length and offset |
| PglzDecompress.OneItem | common/pg_lzcompress.c:714-782 | reading one item consumes its bytes and appends what it stands for, cut off at the output limit |
| PglzDecompress.Decompress | common/pg_lzcompress.c:688-803 | for every well-formed stream and every output limit the output is the expansion cut off at the limit; with the completeness test the result is -1 unless the limit falls inside or at the end of the last item |
| PglzCompress.ResultMaxIsShare | common/pg_lzcompress.c:563-580 | the size limit is the wanted share of the input rounded down, exactly below INT_MAX / 100 and within the share of a hundred bytes above |
| PglzCompress.HashSizeIs | common/pg_lzcompress.c:582-598 | the number of lists is the smallest power of two above four times the input, between 512 and 8192 |
| PglzCompress.CopyIsText | common/pg_lzcompress.c:633-650 | where the text repeats, copying back gives the text itself |
| PglzCompress.ItemIsText | common/pg_lzcompress.c:606-663 | expanding one emitted item after the text so far gives the text up to the next position |
| PglzCompress.ParseExpands | common/pg_lzcompress.c:606-663 | from any position on, the emitted items complete whatever prefix of the source is already there |
| PglzCompress.ItemsStandForSource | common/pg_lzcompress.c:509-676 | for every source and strategy the items are well formed, every tag has 3 <= len <= 273 and 1 <= off <= 4094, and they expand to exactly the source |
| PglzCompress.RepetitionsAreFound | common/pg_lzcompress.c:606-663 | said of the text alone: with every strategy a text that repeats from one byte back becomes tags; with a good length of 273 and no drop, every repetition of four bytes in reach is found at its full length |
| PglzCompress.GoodLengthStops | common/pg_lzcompress.c:398-498 | with no drop, a match of three bytes or more with a position of the same key in reach is taken, and a longer one is passed over only for one of the good length, at least 17 and at most 273 |
| PglzCompress.GivesUpIff | common/pg_lzcompress.c:619-627 | compression gives up exactly if first literals with their control bytes take up the allowed number of bytes and more input follows |
| PglzCompress.RefusedOutright | common/pg_lzcompress.c:536-546 | a strategy without a good length, or for other sizes of input, refuses |
| PglzCompress.DefaultResult | common/pg_lzcompress.c:222-237 | without a strategy inputs under 32 bytes are refused and a result saves more than a quarter |
| PglzCompress.GroupSnoc | common/pg_lzcompress.c:336-387 | setting the next control bit and appending the item bytes is adding the item to the open group |
| PglzCompress.Writer.OutCtrl | common/pg_lzcompress.c:336-346 | a full group is closed and a new control byte opened without changing what was emitted |
| PglzCompress.Writer.OutLiteral | common/pg_lzcompress.c:355-360 | one literal item is appended to what was emitted |
| PglzCompress.Writer.OutTag | common/pg_lzcompress.c:371-387 | one tag item is appended to what was emitted |
| PglzCompress.Writer.BytesSoFar | common/pg_lzcompress.c:336-387 | the output position is the length of the encoding of what was emitted |
| PglzCompress.Writer.Finish | common/pg_lzcompress.c:665-671 | after the last control byte the buffer holds the encoding of everything emitted |
| PglzCompress.PutTag | common/pg_lzcompress.c:376-386 | the bytes written are those of the tag |
| PglzCompress.EmitOne | common/pg_lzcompress.c:626-663 | one step emits the item for the position and adds every position it covers to the history |
| PglzCompress.Compress | common/pg_lzcompress.c:508-676 | the result code is -1 exactly when the input is refused, no match came in time or the encoding reaches the limit; on success it is the encoded length, below the limit, and nothing from result_max + 3 on is ever touched |
| PglzCompress.RoundTrip | common/pg_lzcompress.c:508-803 | whenever compression succeeds, decompression returns the source size and exactly the source; with a smaller limit k and no completeness test, exactly its first k bytes |
| PglzCompress.WholeIsComplete | common/pg_lzcompress.c:790-802 | asking for exactly the original size passes the completeness test |
| RyuDigits.RoundUpFits | common/d2s.c:548-558 | rounding up stays inside the interval, because the value is no closer to the upper bound |
| RyuDigits.ChoiceIsClosest | common/d2s.c:548-558 | the rounded digit string is a legal one closest to the value, ties to even when the value is exact |
| RyuDigits.General | common/d2s.c:501-559 | the digit-by-digit loop, tracking the last removed digit and exactness, returns the shortest and closest legal decimal |
| RyuDigits.CommonCase | common/d2s.c:560-618 | the loop with the two-digit shortcut returns the shortest and closest legal decimal |
| RyuDigits.RemoveDigits | common/d2s.c:492-621 | for every interval, output * 10^k is in (vm, vp], nothing shorter is, and nothing legal of that length is closer to vr |
| RyuDigits.AnswerIsUnique | common/d2s.c:492-621 | there is only one such answer |
| RyuDigits.OneDigitLoop | common/d2s.c:583-618 | the loop without the two-digit shortcut returns the shortest and closest legal decimal |
| RyuDigits.ShortcutAgrees | common/d2s.c:560-618 | with and without the two-digit shortcut the loop gives the same digits and the same number of removed ones |
| RyuDigits.RemovesIff | common/d2s.c:566-618 | a digit is removed if and only if vp / 10 > vm / 10, the guard of the loop, holds at the start |
| RyuDigits.ClosestIff | common/d2s.c:560-618 | the answer is closest to the value itself, of which vr is the whole part, if and only if that guard holds, vr or vr + 1 is outside the interval, or the fraction is at most one half |
| RyuDigits.WideIsClosest | common/d2s.c:560-618 | for every interval at least ten wide and every fraction the answer is closest to the value itself |
| RyuDigits.NarrowExample | common/d2s.c:560-618 | an interval, narrower than d2d ever uses for a value with a fraction, on which it is not |
| RyuMul.Umul128Correct | common/d2s_intrinsics.h:64-97 | the schoolbook product is the exact 128-bit product; no intermediate sum overflows |
| RyuMul.ShiftIsFloor | common/d2s_intrinsics.h:99-112 | the two-word shift is the floor of the number over 2^dist, in its low 64 bits |
| RyuMul.ProductCorrect | common/d2s.c:223-230 | the three words are exactly 2m times the multiplier |
| RyuMul.PlusCorrect | common/d2s.c:232-234 | the hand-written carries add the multiplier exactly |
| RyuMul.MinusCorrect | common/d2s.c:240-253 | the hand-written borrows subtract the multiplier exactly |
| RyuMul.DoubleCorrect | common/d2s.c:248-250 | doubling is exact unless the middle word is all ones and receives a carry, and then loses exactly 2^128 |
| RyuMul.MulShiftAllCorrect | common/d2s.c:219-259 | with mmShift = 1 the three results are the floors of 4m, 4m + 2 and 4m - 2 times the multiplier over 2^j, for every 53-bit m and 124-bit multiplier |
| RyuMul.MulShiftAllUneven | common/d2s.c:245-256 | with mmShift = 0 the third result is the floor of 4m - 1 times the multiplier over 2^j if and only if the carry of the middle word is not lost |
| RyuMul.CarryLostAtHiddenBit | common/d2s.c:245-256 | at mantissa 2^52, the only one that comes with mmShift = 0, the carry is lost if and only if bits 10 to 74 of the multiplier are all ones |
| RyuMul.CarryLostExample | common/d2s.c:245-256 | a multiplier of the stated size on which, at that mantissa, the carry is lost |
| RyuInterval.FloorsAreInterval | common/d2s.c:395-490 | the floors of a value and of its two bounds are an interval that digit removal accepts, also when a whole upper bound is excluded |
| RyuInterval.MulShiftGivesInterval | common/d2s.c:395-490 | what mulShiftAll computes without wrap-around is such an interval, for both values of mmShift, when the bounds are more than one apart and no carry is lost |
| RyuInterval.LegalIff | common/d2s.c:380-490 | a number is in the interval of floors if and only if it is in the real rounding interval |
| RyuInterval.ShortestDigits | common/d2s.c:400-621 | for any real rounding interval given by its floors, the digits lie inside it, nothing shorter does, and they are nearest to the value itself if that is whole or the interval is at least eleven wide |
| RyuInterval.FlagIsSafe | common/d2s.c:474-489 | the flag for an exact value, which asks for one factor of two too few, is only ever set when the value is whole or its whole part ends in 2 or 7, where no exact half can arise |
| RyuPrint.LengthIsDigits | common/d2s.c:263-336 | the chain of comparisons gives the number of decimal digits |
| RyuPrint.PutDigits | common/d2s.c:687-730 | writing pairs from the right leaves the last i digits of the number in place, and the one or two first digits to write |
| RyuPrint.PutAll | common/d2s.c:687-740 | the buffer holds exactly the decimal digits of the number |
| RyuPrint.InsertPoint | common/d2s.c:751-770 | moving runs of 8, 4, 2 and 1 digits one place left makes room for the point exactly at its place |
| RyuPrint.ToCharsDf | common/d2s.c:630-784 | the fixed layout is the digits with zeros before or after or a point inside, and the returned length is its length |
| RyuPrint.StripZeros | common/d2s.c:825-837 | all trailing zeros and no other digits are removed |
| RyuPrint.PutMantissa | common/d2s.c:852-932 | the digits with a point after the first, written from the right |
| RyuPrint.PutExponent | common/d2s.c:934-956 | e, the sign, and two or three digits of the exponent |
| RyuPrint.ToChars | common/d2s.c:786-959 | for every mantissa below 10^17 and display exponent below 1000 the text is the specified one, the returned length is its length, and a buffer of 24 characters suffices |
| RyuRead.FixedReads | common/d2s.c:630-784 | the fixed layout reads back as exactly the number, by a reader that knows nothing of the writer |
| RyuRead.ScientificReads | common/d2s.c:839-958 | the scientific layout reads back as exactly the number |
| RyuRead.StripValue | common/d2s.c:825-837 | each zero taken off the mantissa is one more in the exponent |
| RyuRead.TextReadsBack | common/d2s.c:630-959 | the text of to_chars reads back as exactly sign * mantissa * 10^exponent, in both layouts |
| RyuLayout.LayoutIff | common/d2s.c:792-808 | the text has an exponent if and only if the value is below 10^-4 or at least 10^15 |
| RyuLayout.FixedShape | common/d2s.c:630-784 | without an exponent: as many decimals as the exponent asks for, and no superfluous leading zero |
| RyuLayout.ScientificShape | common/d2s.c:809-958 | with an exponent: one digit other than zero before the point, a sign and two or three digits after e; all digits of the number, or no trailing zero if its exponent is 0 |
| Sha2Words.Words32 | common/sha2.c:83-88 | storing a byte-reversed word in host order stores it big-endian, and loads undo stores |
| Sha2Words.Words64 | common/sha2.c:89-97 | the same for 64-bit words |
| Sha2Core.SetWord | common/sha2.c:374-461 | a word written through the pointer that aliases the buffer changes those bytes and no others |
| Sha2Core.LoadRounds | common/sha2.c:402-423 | the first sixteen rounds read the block ahead of the schedule words that overwrite it |
| Sha2Core.RingNext | common/sha2.c:425-447 | the four ring slots hold the schedule words of FIPS 180-4, section 6.2.2, and combine to the next one |
| Sha2Core.RingRounds | common/sha2.c:425-447 | the remaining rounds on the sixteen-word ring are the rounds on the full schedule |
| Sha2Core.Transform | common/sha2.c:374-461 | the new state is the compression function of the old state and the block, even when the block lies in the buffer that the schedule destroys |
| Sha2Stream.AddIncCounts | common/sha2.c:99-114 | the two-word counter counts modulo 2^128, its low word modulo 2^64 |
| Sha2Stream.UsedSpace | common/sha2.c:475-475 | the space used in the buffer is the message length modulo the block length, however often the count has wrapped |
| Sha2Stream.PadOne | common/sha2.c:527-536 | the tail, the mark, zeros and the length in one block complete the padded message of FIPS 180-4, sections 5.1.1 and 5.1.2 |
| Sha2Stream.PadTwo | common/sha2.c:537-549 | the same when the padding spills into a second block |
| Sha2Stream.Context.Keep | common/sha2.c:490-513 | less than fills the buffer is appended to the unprocessed tail |
| Sha2Stream.Context.Fill | common/sha2.c:480-488 | the buffer is filled and processed where it lies |
| Sha2Stream.Context.Process | common/sha2.c:498-506 | a whole block straight from the caller is absorbed |
| Sha2Stream.Context.Update | common/sha2.c:464-514 | the context has absorbed the old message and the new data; buffer[..usedspace] is the unprocessed tail |
| Sha2Stream.Context.PutLength | common/sha2.c:524-559 | the bit count of the whole message stands big-endian at the end of the block |
| Sha2Stream.Context.Last | common/sha2.c:517-563 | the state is the hash value of the padded message, in each of the three cases |
| Sha2Stream.Context.Final | common/sha2.c:565-591 | the digest, if there is a buffer for it, is the big-endian hash value of the padded message; the whole context is zeroed in any case |
| Sha2Stream.HashChunks | common/sha2.c:464-591 | however a message is cut into update calls, the digest is that of the whole padded message |
| Sha2Stream.Sha256Laws | common/sha2.c:83-135 | the 32-bit instance meets all the laws that the proofs use |
| Sha2Stream.Sha512Laws | common/sha2.c:83-141 | the 64-bit instance meets all the laws that the proofs use, so the results hold for SHA-384 and SHA-512 (lines 593-961) |
| Sha2Bits.Sha256IsFips | common/sha2.c:120-135 | bit by bit: Ch chooses, Maj is the majority, the sigmas are the parity of three rotated or shifted bits, and addition wraps, as sections 4.1.2 and 3.2 of FIPS 180-4 say |
| Sha2Bits.Sha512IsFips | common/sha2.c:120-141 | the same for 64 bits, section 4.1.3 |
| Sha2Bits.Rotation32 | common/sha2.c:122-123 | a rotation by any n brings bit (i + n) mod 32 to place i |
| Sha2Bits.Rotation64 | common/sha2.c:124-125 | a rotation by any n brings bit (i + n) mod 64 to place i |
| Sha2Example.WordOrder | common/sha2.c:407-408 | which byte of a 32-bit word comes first in a big-endian and a little-endian load |
| Sha2Example.WordOrder64 | common/sha2.c:731-734 | the same for 64 bits |
| Sha2Example.PaddedExample | common/sha2.c:517-563 | the padded block of "abc" |
| Sha2Example.ScheduleExample | common/sha2.c:425-436 | the first computed schedule word of a block with all words different |
| Sha2Example.RoundExample | common/sha2.c:402-423 | round 0 of the one-block example of FIPS 180-4 |
| Sha2Example.RoundsInOrder | common/sha2.c:402-447 | the rounds take constants and schedule words from the first on |
| Sha2Example.DigestExample | common/sha2.c:449-461 | registers are added one to one, and written in order with the first byte first |
| JsonNumbers.LexNumber | common/jsonapi.c:913-1006 | the loop finds the end and the error that the parts of a number define |
| JsonNumbers.NumberSound | common/jsonapi.c:913-1006 | what is accepted is a number of RFC 8259, section 6 |
| JsonNumbers.NumberComplete | common/jsonapi.c:913-1006 | every number of the grammar that is not followed by more word characters is accepted whole |
| JsonNumbers.IsValidJsonNumber | common/jsonapi.c:102-144 | true exactly on the numbers of the grammar with an optional minus sign |
| JsonPrint.NumberExamples | common/jsonapi.c:102-144 | texts that are numbers |
| JsonPrint.NoNumberExamples | common/jsonapi.c:102-144 | texts that are not: a superfluous zero, a plus sign, missing digits |
| JsonStrings.ScanFindsPiece | common/jsonapi.c:694-865 | a plain character, a two-character escape or a \u escape is found exactly where its text stands |
| JsonStrings.FeedIsMeaning | common/jsonapi.c:745-863 | the one-pass treatment of surrogates gives the meaning defined by looking ahead for the partner, and fails exactly when there is none |
| JsonStrings.StringIff | common/jsonapi.c:677-883 | in both modes a string is accepted, up to that byte and with that value, exactly when the grammar and the meaning say so |
| JsonStrings.MeaningIff | common/jsonapi.c:745-863 | de-escaping has a value for a string if and only if every piece of it is decodable: a known escape, no \u0000, the halves of surrogate pairs next to each other, and only ASCII when the encoding is not UTF-8 |
| JsonStrings.RfcStringIff | common/jsonapi.c:677-883 | every string of RFC 8259, section 7, is accepted whole without de-escaping, and with it if and only if every piece is decodable |
| JsonStrings.DeEscapeRefusesZero | common/jsonapi.c:774-780 | a string of the RFC that de-escaping refuses |
| JsonStrings.PlainAcceptsMore | common/jsonapi.c:677-883 | lexing without de-escaping accepts everything that de-escaping accepts, up to the same byte |
| JsonStrings.PlainIsRfcIff | common/jsonapi.c:854-863 | a string accepted without de-escaping has only the escapes of RFC 8259, section 7, if and only if it contains no NUL byte |
| JsonStrings.PlainTakesNul | common/jsonapi.c:854-863 | a backslash before NUL is accepted without de-escaping and refused with it |
| JsonStrings.LexHex | common/jsonapi.c:717-744 | up to four hexadecimal digits are read, and their value is computed |
| JsonEscapes.Utf8Reads | common/wchar.c:482-511 | a decoder of RFC 3629, defined apart, reads every character back from its UTF-8 |
| JsonEscapes.PairOfHalves | include/mb/pg_wchar.h:524-539 | splitting a character into two ten-bit halves and joining them gives it back |
| JsonEscapes.HalvesOfPair | include/mb/pg_wchar.h:524-539 | joining two surrogates and splitting gives them back |
| JsonEscapes.FourDigitsRead | common/jsonapi.c:717-744 | four written hexadecimal digits, in either case, have the value written |
| JsonEscapes.ShortIff | common/jsonapi.c:817-853 | a letter un-escapes to a character exactly when section 7 of RFC 8259 writes the character with that letter |
| JsonEscapes.StringReadsBack | common/jsonapi.c:677-883 | any characters but NUL, each written as itself, by a short escape or by one or two \u escapes, lex to a value that decodes to exactly these characters |
| JsonEscapes.EscapeErrors | common/jsonapi.c:745-813 | which error each misplaced \u escape gives |
| JsonEscapes.ScanErrors | common/jsonapi.c:694-744 | which error an unfinished text, a control character, an unknown escape or an unfinished pair gives |
| JsonStrings.LexString | common/jsonapi.c:677-883 | the loop computes the result that the specification defines, error by error |
| JsonTokens.TokenIff | common/jsonapi.c:525-672 | the lexer finds a token at a position exactly where the grammar spells one |
| JsonTokens.StreamIff | common/jsonapi.c:525-672 | the lexer finds a list of tokens and then the end if and only if the text spells those tokens with white space around them |
| JsonTokens.DerivedIff | common/jsonapi.c:525-672 | where no two scalars are next to each other, a text that can be cut into texts of the tokens is spelled by them with longest match too |
| JsonTokens.StreamErase | common/jsonapi.c:525-672 | without de-escaping the token stream is the same but for the string values, at least as far as the de-escaping lexer gets |
| JsonGrammar.ValueIff | common/jsonapi.c:272-520 | a value is parsed, as that tree and up to that token, exactly when the grammar derives those tokens |
| JsonGrammar.DocumentIff | common/jsonapi.c:178-208 | a document is accepted as tree j exactly when its tokens are the tokens of j and the end |
| JsonGrammar.FlattenSeparated | common/jsonapi.c:272-520 | in a document no two scalars are next to each other |
| JsonGrammar.FlattenErase | common/jsonapi.c:218-261 | dropping the string values of a tree drops them from its tokens |
| JsonGrammar.ErasedArray | common/jsonapi.c:218-261 | if a token stream parses as an array, so does the stream without string values, with as many elements |
| JsonParser.StepToken | common/jsonapi.c:549-669 | the switch on the first character leaves the lexer fields describing the token, or the error |
| JsonParser.Parser.Lex | common/jsonapi.c:525-672 | one step moves to the next token of the stream, or reports its error; at the end it stays |
| JsonParser.Parser.Expect | common/jsonapi.c:87-99 | an expected token is stepped over, another one is reported |
| JsonParser.Parser.ParseScalar | common/jsonapi.c:272-314 | a scalar is consumed with its callback, anything else is the error of a missing value |
| JsonParser.Parser.ParseElement | common/jsonapi.c:433-468 | the element callbacks stand around those of the value |
| JsonParser.Parser.ParseArray | common/jsonapi.c:470-520 | position, error, callbacks and level are those of the specification; the level is restored on success |
| JsonParser.Parser.ParseField | common/jsonapi.c:316-367 | the field callbacks, with the de-escaped name, stand around those of the value |
| JsonParser.Parser.ParseObject | common/jsonapi.c:369-431 | position, error, callbacks and level are those of the specification; the level is restored on success |
| JsonParser.Parser.Parse | common/jsonapi.c:178-208 | the result is the specified one, with exactly the nested callbacks of the tree, and the level is restored |
| JsonParser.DocumentText | common/jsonapi.c:525-672 | the lexer sees the tokens of a document in a text if and only if the text can be cut into texts of those tokens, with white space around them |
| JsonParser.ParseText | common/jsonapi.c:178-208 | a whole run succeeds if and only if the text can be cut into texts of the tokens of some document, with white space around them, and the callbacks made are those of that document |
| JsonEvents.LogBuildsDocument | common/jsonapi.c:272-520 | with every callback installed, a consumer that checks nesting, levels and null flags builds exactly the document from the callbacks |
| JsonEvents.FewerCallbacks | common/jsonapi.c:272-520 | callbacks that are not installed are left out of the log and nothing else changes |
| JsonPrint.PrintedIsDocument | common/jsonapi.c:178-208 | every document printed by the grammar of RFC 8259, with any white space between tokens, is accepted as that tree and no other |
| JsonPrint.WhiteIff | common/jsonapi.c:531-545 | white space is space, tab, line feed and carriage return, and nothing else |
| JsonPrint.ValueErrors | common/jsonapi.c:272-314 | the error where a value is wanted |
| JsonPrint.ArrayErrors | common/jsonapi.c:470-520 | the error after the elements of an array |
| JsonPrint.ObjectErrors | common/jsonapi.c:369-431 | the errors at the start of an object and after its members |
| JsonPrint.FieldErrors | common/jsonapi.c:316-367 | the errors at the name of a member and at its colon |
| JsonPrint.DocumentErrors | common/jsonapi.c:178-208 | the error after the value of a document |
| JsonParser.PlainAcceptsDocument | common/jsonapi.c:178-208 | every document accepted with de-escaping is accepted without it, as the same tree |
| JsonParser.Parser.CountArrayElements | common/jsonapi.c:218-261 | whenever the array parses, counting succeeds with the number of its elements, and the caller's lexer is unchanged |
| UnicodeTable.DecomposeIsFixed | common/unicode_norm.c:240-300 | what decomposition yields does not decompose any further |
| UnicodeTable.GetDecomposedSize | common/unicode_norm.c:103-151 | the size pass gives the number of code points that the fill pass writes |
| UnicodeTable.DecomposeCode | common/unicode_norm.c:233-300 | the fill pass writes exactly the decomposition at the caller's position and nothing else |
| UnicodeTable.RecomposeCode | common/unicode_norm.c:159-222 | Hangul by arithmetic, otherwise the first table entry that composes the pair |
| UnicodeTable.ComposeDecomposes | common/unicode_norm.c:159-222 | a recomposed pair decomposes to what its parts decompose to, if and only if no trailing U+11A7 was dropped |
| UnicodeTable.LeadVowelSyllable | common/unicode_norm.c:167-177 | leading consonant and vowel compose to the syllable that decomposes to them |
| UnicodeTable.OpenTailSyllable | common/unicode_norm.c:178-188 | a trailing consonant other than U+11A7 is added to the syllable and comes back on decomposition |
| UnicodeOrder.SwapSame | common/unicode_norm.c:376-388 | exchanging an exchangeable pair moves no character past a starter or past one of its own class |
| UnicodeOrder.SwapDescends | common/unicode_norm.c:384-393 | each exchange removes exactly one inversion, so the loop with its step back terminates |
| UnicodeOrder.OrderIsUnique | common/unicode_norm.c:355-394 | only one ordering is ordered and keeps every class in sequence among the starters |
| UnicodeOrder.CanonicalIff | common/unicode_norm.c:355-394 | the canonical ordering of The Unicode Standard, section 3.11, as a function and as a property are the same |
| UnicodeOrder.Order | common/unicode_norm.c:355-394 | the exchange loop ends with the canonical ordering: every starter stays in place, each run of non-starters is stably sorted by class, nothing is lost |
| UnicodeNorm.EffectiveIff | common/unicode_norm.c:178-188 | recomposition drops nothing exactly when U+11A7 never follows a leading consonant and a vowel |
| UnicodeNorm.DecomposeRecomposed | common/unicode_norm.c:396-447 | decomposing and ordering a recomposed string gives back the decomposed string, but for dropped characters |
| UnicodeNorm.NormalTwice | common/unicode_norm.c:302-447 | normalising twice is normalising once, in all four forms |
| UnicodeNorm.ComposedIsEquivalentIff | common/unicode_norm.c:302-447 | the composed form has the same decomposed form as its string, that is, is equivalent to it, if and only if U+11A7 never follows a leading consonant and a vowel there |
| UnicodeNorm.OpenTailIsDropped | common/unicode_norm.c:178-188 | the smallest string that recomposes to an inequivalent one |
| UnicodeNorm.HangulIsComposed | common/unicode_norm.c:302-447 | the composed forms leave every non-empty string of Hangul syllables as it is |
| UnicodeForms.DecomposesAs | common/unicode_norm.c:260-300 | a code with a usable entry stands for the decompositions of the codes of its entry |
| UnicodeForms.DecomposedIsTerminal | common/unicode_norm.c:302-394 | a decomposed form holds only codes whose entries leave nothing to decompose |
| UnicodeForms.ClassIs | common/unicode_norm.c:364-380 | the combining class is that of the entry, and 0 without one |
| UnicodeForms.FormsDiffer | common/unicode_norm.c:302-447 | a compatibility mapping is left alone by NFD and NFC and is gone from NFKD and NFKC |
| UnicodeForms.PairIff | common/unicode_norm.c:191-221 | outside Hangul a pair recomposes to a code whose entry is that pair, neither excluded nor a compatibility mapping, and to nothing only if there is none |
| UnicodeForms.ComposedContent | common/unicode_norm.c:302-447 | in a composed form every code with a canonical decomposition has a pair that is not excluded |
| UnicodeForms.PrimaryComposite | common/unicode_norm.c:302-447 | a code whose entry is such a pair, of terminal codes with a starter first and shared by no other entry, is its own composed form and that of the pair |
| UnicodeForms.StepIsStandard | common/unicode_norm.c:396-442 | each step composes a character with the last starter exactly if it is not blocked from it and the pair recomposes (definitions D115 and D117) |
| UnicodeForms.SyllableExample | common/unicode_norm.c:240-262 | the syllable of the example of section 3.12 of the Unicode standard |
| UnicodeNorm.Recompose | common/unicode_norm.c:396-442 | the loop writes the specified recomposition and terminates it; that fits the buffer sized for the decomposed string if and only if the string is not empty |
| UnicodeNorm.TotalSize | common/unicode_norm.c:334-340 | the size pass over the input gives the length of the decomposed string |
| UnicodeNorm.Fill | common/unicode_norm.c:342-353 | the fill pass fills a buffer of that size exactly |
| UnicodeNorm.Normalize | common/unicode_norm.c:302-447 | the result is the normal form, terminated; its terminator lies inside the buffer unless an empty string is recomposed |
| ChangeCount.StepHolds | include/pgstat.h:1172-1201 | every step of the writer or of a reader keeps the invariant |
| ChangeCount.CompleteReadIsWhole | include/pgstat.h:1070-1086 | in every interleaving, a finished read passes the test if and only if it began between two writes and the counter then made a whole number of turns; when it made none, every copied field is that of the entry as it stood after the last whole write |
| ChangeCount.EvenWhenWriteEnds | include/pgstat.h:1179-1185 | the counter is even whenever a write ends, as the macro asserts |
| ChangeCount.UndisturbedRead | include/pgstat.h:1187-1201 | in every reachable state a reader can copy the whole entry as it stands, and passes the test exactly when no write is under way |
| ChangeCount.TornReadExample | include/pgstat.h:1199-1201 | if the 32-bit counter wraps exactly once during a read, the test passes on a copy that is no whole entry |
| HashBytes.MixIsReversible | common/hashfn.c:48-90 | mix loses nothing: it has an inverse on both sides |
| HashBytes.FinalIsReversible | common/hashfn.c:92-125 | final loses nothing of (a, b, c) either: it has an inverse on both sides |
| HashBytes.HashExample | common/hashfn.c:145-361 | the hash of the 23 bytes 1, 2, ..., 23 |
| HashBytes.OrderExample | common/hashfn.c:157-351 | the byte order of words and of the last bytes on both kinds of machine |
| HashBytes.AlignedBlocks | common/hashfn.c:157-171 | the word-wide loop absorbs the same blocks |
| HashBytes.UnalignedBlocks | common/hashfn.c:252-270 | the byte-wide loop absorbs the same blocks |
| HashBytes.AlignedTail | common/hashfn.c:173-245 | the switch adds the last bytes as zero-padded words, with the low byte of the third left for the length |
| HashBytes.UnalignedTail | common/hashfn.c:272-351 | the switch that falls through adds the same words |
| HashBytes.HashKey | common/hashfn.c:145-361 | for every key, length and byte order the aligned and the unaligned path give the same hash |
| PartitionLock.StepHolds | common/partition_lock.c:36-62 | every lock and unlock keeps each taken slot tied to exactly one hold |
| PartitionLock.MutualExclusion | common/partition_lock.c:36-62 | in every run two threads never hold equal tags, nor any two tags of one slot |
| PartitionLock.WaitsIff | common/partition_lock.c:36-51 | in every run a thread has to wait exactly when some held tag hashes to the same slot |
| PartitionLock.UnlockUndoesLock | common/partition_lock.c:53-62 | unlocking the tag just locked restores the state |
| PartitionLock.PartitionMutex.constructor | common/partition_lock.c:9-23 | all slots start free |
| PartitionLock.PartitionMutex.LockPos | common/hashfn.c:676-680 | the slot depends on the bytes of the tag only, not on its address |
| PartitionLock.PosIsRemainder | common/partition_lock.c:36-44 | the slot is the remainder of the hash by the number of slots |
| PartitionLock.PartitionMutex.Acquire | common/partition_lock.c:36-51 | locking is the lock step of the runs |
| PartitionLock.PartitionMutex.Release | common/partition_lock.c:53-62 | unlocking, through any copy of the tag, is the unlock step of the runs and frees the same slot |
| DollarQuote.Choose | fe_utils/string_utils.c:338-353 | the search ends, with the fewest suffix characters, on a text that is not in the string |
| DollarQuote.SuffixAt | fe_utils/string_utils.c:333-353 | the characters added to the delimiter are an underscore, seven times X, and so on |
| DollarQuote.AppendStringLiteralDQ | fe_utils/string_utils.c:330-362 | the buffer gains the string between two copies of the chosen delimiter |
| DollarQuote.PlainDoesNotOverlap | fe_utils/string_utils.c:343-353 | a delimiter with '$' only at its ends overlaps no string |
| DollarQuote.LiteralReadsBack | fe_utils/string_utils.c:321-362 | for every string and every prefix the literal reads back as the string, whatever follows it, if and only if there is no '$' in the prefix |
| DollarQuote.DollarInPrefix | fe_utils/string_utils.c:330-362 | a string that reads back as the empty one because of a '$' in the prefix |
| Base64.LookupDigit | common/base64.c:26-40 | the two tables are inverse |
| Base64.AlphabetIs | common/base64.c:27-28 | the alphabet is that of table 1 of RFC 4648 |
| Base64.EncodeExamples | common/base64.c:48-107 | examples of section 10 of RFC 4648, with and without padding |
| Base64.RoundTrip | common/base64.c:48-216 | decoding the encoding of any byte string gives it back |
| Base64.AcceptsIff | common/base64.c:116-216 | a text is accepted if and only if its length is a multiple of four, every character is in the alphabet or padding, and the first padding is the third or fourth character of its group |
| Base64.PadsInTheMiddle | common/base64.c:141-159 | accepted texts that are not RFC 4648 encodings |
| Base64.BuffersSuffice | common/base64.c:218-242 | buffers of the advertised sizes hold the encoding of every source and the decoding of every text |
| Base64.Encode | common/base64.c:48-107 | the text if the buffer holds it, otherwise -1 with the buffer zeroed |
| Base64.Decode | common/base64.c:116-216 | the decoded bytes if the text is accepted and they fit, otherwise -1 with the buffer zeroed |

## Left out

- `pglz_maximum_compressed_size`, and decompression of streams that are not well formed: offset 0 and truncated tags are outside what the loop is written for, so `Decompress` takes a stream that some item list encodes to.
- pglz arithmetic on `int16` and pointers: entries are indexes into the entry array, with -1 for a null `prev`.
- `d2d` before step 4 (the power-of-five tables, `pow5Factor`, the logarithm approximations): finite facts about constants; the multipliers and the interval handed to step 4 are arbitrary.
- RyuDigits.General: `acceptBounds` is false, as the source sets it, so lower-bound digits are not tracked.
- `d2d_small_int`, NaN, infinities and zero, and `common/f2s.c`: easy members or the same shape again.
- Sha2Core.Transform: the non-unrolled variant only; round constants and initial values are arbitrary parameters.
- JSON error positions, line numbers, `json_errdetail`, the stack-depth test and `pg_unicode_to_server`: de-escaping to a non-UTF-8 encoding is the source's ASCII-only branch.
- JsonParser.Parser.Call: a callback is recorded, not run, so a callback that changes the lexer is not modelled.
- UnicodeTable.Find: the binary search of the C library is taken as a lookup; that the table is sorted is then not needed.
- UnicodeNorm.Normalize: strings are sequences without their terminator; running out of memory, and what the write past the buffer does when an empty string is recomposed, are not modelled.
- `unicode_is_normalized_quickcheck`: depends on property tables that are constants.
- RyuInterval.ShortestDigits: that the floors of the scaled bounds with the table multipliers are those of the exact bounds, and how the flags for whole bounds are computed, is taken as given, except for the flag of `FlagIsSafe`.
- RyuInterval.MulShiftGivesInterval: that the table entries keep the results below 2^64 and the bounds more than one apart is taken as given, like everything about the tables.
- ChangeCount.CompleteReadIsWhole: takes memory as ordered, which is what the barriers are for.
- PartitionLock.PartitionMutex.Acquire: stands for the moment the mutex is obtained; waiting and fairness are the C library's. A thread unlocks only tags it holds, as callers do.
- `DestroyPartitionMutex` and the other hash functions of `common/hashfn.c` (`hash_bytes_extended`, `string_hash`, `uint32_hash`).
- DollarQuote.LiteralReadsBack: the reader takes any characters but '$' in a tag; the server allows fewer. Strings contain no NUL.
- Base64.Decode: encode after decode is not the identity, because non-canonical text is accepted; `AcceptsIff` says which.
- Base64.EncLen, Base64.DecLen: stated for lengths on which the C int arithmetic does not overflow.
- Everything with I/O, terminals, processes or the network, and the OpenSSL variants.
