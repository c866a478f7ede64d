# Verified model of the message server

This project models, in Dafny 4.11, the parts of a client-server application whose correctness is
hard to see: the cryptographic arithmetic it compiles in, the protocol that spreads a batch of
requests over worker threads, the matching of requests with ads, and the path of a request from the
source file to the reply. `dafny verify dfyconfig.toml` checks everything.

The code works by changing things step by step, and the model has the same form: limb arrays and
contexts are arrays and classes whose methods have loops and invariants; each is proved against a
specification over unbounded integers or over the whole message. The worker protocol is a
small-step system: one step for each access to the shared counter and phase, to the barrier and to
the queue, and one for the work on an index, whose slots are disjoint (`TaskController.WorkKept`).
What is proved holds for every interleaving of the steps.

| modules | what they are about |
|---|---|
| `Words`, `Limbs`, `Chunks`, `Options` | machine words, limb arithmetic, little-endian bytes; fixed-width types make the verifier check every operation for overflow |
| `ModL`, `Scalars`, `Montgomery` | Barrett and Montgomery reduction modulo the group order, scalar inversion |
| `Field`, `FieldCodec` | GF(2^255-19) in ten signed limbs, canonical encoding |
| `Poly1305`, `Blake2b`, `ChaCha20`, `Aead` | streaming contexts, and authenticated encryption with a ratcheting key |
| `Group`, `Slide`, `Comb` | scalar recodings and the double-and-add loops, in any abelian group |
| `Argon2` | reference blocks, fill order, the variable-length hash |
| `SizeKey`, `Sorting` | the keys of requests and ads; sorting by a comparison |
| `TaskController` | workers, barrier, queue, promises |
| `Transaction` | keyword intersection, winning bid, per-thread cache |
| `Utility`, `Lines`, `Decimal`, `Header`, `Batching` | splitting, the sliding-buffer reader, numbers as text, framing, and the whole way of a source through client and server |

What a function needs from outside its file is a parameter: the twenty rounds of ChaCha20, the
compression function of BLAKE2b, the permutation and the fixed-size hash of Argon2, the group, the
meaning of the point tables, the key of a request, the rounding of amounts.

## Where the code and its documentation disagree

The model follows the code.

- The comment above `FE_CARRY` allows |t0| < 2^63; its first addition overflows from 2^63 - 2^25 on
  (`Field.DocumentedCarryBound`). All callers stay far below.
- The comment above `add_xl` says that s + (x*L) fits in 256 bits "iff s fits in 255 bits"; the exact
  condition is s + 7L < 2^256, which is weaker (`Montgomery.AddXLFits`).
- Sliding windows return the scalar if and only if it is below 2^253 (`Slide.RecodingIsExact`), as
  the comment in `slide_init` relies on.
- `deserialize` parses the fourth size from the third slice, so a header with four sizes does not
  come back; four payloads do if and only if the third is at least as long as the fourth
  (`Header.HeaderRoundTripIff`, `Header.FourPayloadsIff`).
- A size of eleven digits or more is cut to ten when it is printed in fixed size
  (`Decimal.FixedRoundTrip`).
- `findWinningBid` cuts a `long` to an `int`; it is right for all bids of a range of amounts if and
  only if the range lies in one 32-bit window (`Transaction.WinnerIsRightIff`).
- The per-thread cache starts at size 0x0 with no ads; it holds the ads of its key if and only if
  the table has none of that size (`Transaction.CacheIsExactIff`). No reply depends on it, because a
  request of size 0x0 has no keywords (`Transaction.CachedMatches`).
- The line reader takes an empty line for the end of the input (`Lines.EmptyLineInside`), and throws
  when a line ends on the last byte of its buffer while there is more input (`Lines.LineOnLastByte`).
  It reads a source to its end if and only if all lines fit and neither happens
  (`Lines.ReadsWholeIff`).
- After a last line without a delimiter the reader looks at a byte past the data in use. The line gets
  a delimiter it does not have if and only if that byte is one (`Lines.StringLines.GetLine`), which can
  be told from the source unless the buffer never moves (`Lines.StaleIff`); it happens for the source
  of `Lines.DelimiterFromStaleByte`. So the tests that put the lines together again and expect the
  source hold exactly for the sources of `Lines.CopyLines`.
- The server does not answer a last line without a delimiter (`Batching.UnterminatedIsDropped`,
  `Batching.EchoSource`), and the client has ids for 10000 lines only (`Batching.BuildTask`).
- The IETF variant of ChaCha20 carries its 32-bit counter into the nonce; it is RFC 8439 exactly until
  then (`ChaCha20.IetfIsRfcIff`).

## Model

| member | source | states |
|---|---|---|
| `Words.OrShifted` | common/monocypher.cpp:1218-1225 | OR-ing y shifted by l bits into x below 2^l adds it, in 32 bits |
| `Words.LEConcat` | common/monocypher.cpp:100-135 | little-endian values of concatenated byte strings add up with the weight of the first |
| `Words.LoadLimbs` | common/monocypher.cpp:128-130 | the limbs loaded from bytes have the value of the bytes |
| `Words.StoreLimbs` | common/monocypher.cpp:134-136 | the bytes stored from limbs have the value of the limbs |
| `Words.Load32IsOr` | common/monocypher.cpp:100-107 | the OR of the four shifted bytes is the little-endian value |
| `Limbs.AddProduct` | common/monocypher.cpp:1605-1616 | p += a*b on limbs of any length, with no 64-bit overflow and no carry lost; the carry out is stored above |
| `Limbs.AddProductLow` | common/monocypher.cpp:1664-1676 | the truncated product: p = (p + a*b) mod 2^(32n) |
| `Limbs.AddLimbs` | common/monocypher.cpp:1618-1643 | out + carry*2^(32n) = x + y + carry-in; the form of every carry chain of the scalar code |
| `ModL.ValBarrett` | common/monocypher.cpp:1649-1652 | the nine-limb constant is exactly floor(2^512 / L) |
| `ModL.IsAboveL` | common/monocypher.cpp:1618-1629 | 1 if and only if x >= L |
| `ModL.RemoveL` | common/monocypher.cpp:1630-1643 | x mod L for every x below 2L |
| `ModL.BarrettQuotient` | common/monocypher.cpp:1646-1688 | for every x below 2^512 the Barrett quotient leaves a remainder in [0, 2L) |
| `ModL.ReduceModL` | common/monocypher.cpp:1646-1688 | x mod L for every 512-bit x |
| `ModL.EddsaReduce` | common/monocypher.cpp:1690-1697 | the same on bytes |
| `ModL.EddsaMulAdd` | common/monocypher.cpp:1699-1710 | (a*b + c) mod L for all 256-bit a, b, c |
| `Scalars.ScalarBitIs` | common/monocypher.cpp:1510-1514 | the bit read by byte and shift is the binary digit of the little-endian number |
| `Scalars.TrimRange` | common/monocypher.cpp:1501-1507 | a trimmed scalar is a multiple of 8 in [2^254, 2^255) |
| `Scalars.TrimBits` | common/monocypher.cpp:1501-1507 | trimming clears bits 0, 1, 2 and 255, sets bit 254, and leaves the others |
| `Montgomery.Constants` | common/monocypher.cpp:2784-2835 | the constants: k*L = -1 mod 2^256, the Montgomery form of 1, and L - 2 |
| `Montgomery.Redc` | common/monocypher.cpp:2784-2820 | for x < L*2^256: the result is below L and is x*2^-256 mod L, the low half cancels and no carry is lost |
| `Montgomery.MontMul` | common/monocypher.cpp:2855-2862 | multiplying Montgomery forms gives the Montgomery form of the product |
| `Montgomery.PowerLMinus2` | common/monocypher.cpp:2840-2869 | the square-and-multiply loop ends at scalar^(L-2) mod L, below L |
| `Montgomery.AddXL` | common/monocypher.cpp:2453-2462 | s + (x mod 8)*L modulo 2^256 |
| `Montgomery.AddXLFits` | common/monocypher.cpp:2446-2462 | nothing is lost for all x exactly when s + 7L < 2^256, as for every s below 2^255 |
| `Montgomery.CofactorCleared` | common/monocypher.cpp:2871-2876 | the added multiple of L makes the scalar a multiple of 8 and keeps it modulo L |
| `Montgomery.InverseScalar` | common/monocypher.cpp:2822-2876 | trim, invert, clear the cofactor: (trimmed key)^(L-2) mod L, and a multiple of 8 |
| `Montgomery.PowerIsInverse` | common/monocypher.cpp:2852-2876 | given Fermat's little theorem for the key, the result is its inverse modulo L |
| `Field.FeCarry` | common/monocypher.cpp:1137-1153 | carrying keeps the number modulo 2^255-19 and leaves limbs within 1.1*2^25 and 1.1*2^24; no 64-bit step overflows |
| `Field.DocumentedCarryBound` | common/monocypher.cpp:1077-1139 | the first addition overflows exactly from 2^63 - 2^25 on, so the documented bound 2^63 is not enough |
| `Field.FeMul` | common/monocypher.cpp:1257-1311 | for all limbs within 1.65*2^26 and 1.65*2^25: no overflow, carried limbs, and the product modulo 2^255-19; in place too |
| `Field.FeSq` | common/monocypher.cpp:1313-1357 | the same for squaring |
| `Field.SqIsMul` | common/monocypher.cpp:1313-1346 | the ten sums of the squaring are those of multiplying by itself |
| `Field.FeMulSmall` | common/monocypher.cpp:1237-1248 | multiplication by any 32-bit integer |
| `Field.ProductReduced` | common/monocypher.cpp:1257-1311 | folding the columns above 2^255 with 19 keeps the product modulo 2^255-19 |
| `FieldCodec.FeFromBytesMask` | common/monocypher.cpp:1160-1174 | the decoded element is the little-endian value without its top bits, modulo 2^255-19 |
| `FieldCodec.FeToBytes` | common/monocypher.cpp:1193-1228 | for every carried element, negative or not, exactly its value mod 2^255-19 |
| `FieldCodec.Canonicalize` | common/monocypher.cpp:1160-1228 | decoding then encoding is reduction: LE(r) = LE(s) mod 2^255 mod p |
| `FieldCodec.FeIsEqual` | common/monocypher.cpp:1370-1380 | equal encodings if and only if equal modulo 2^255-19 |
| `Poly1305.PolyBlock` | common/monocypher.cpp:330-359 | one round: (h + c)*r mod 2^130-5, h stays at most 4_ffffffff_..., no 64-bit overflow |
| `Poly1305.BlockIdentity` | common/monocypher.cpp:315-343 | the unreduced sums are the product, because r1..r3 are multiples of 4 |
| `Poly1305.SubtractionCount` | common/monocypher.cpp:425-434 | the carry of h + 5 tells whether to subtract 2^130-5, zero times or once |
| `Poly1305.Finish` | common/monocypher.cpp:425-439 | the tag is (h mod 2^130-5 + pad) mod 2^128 |
| `Poly1305.Context.constructor` | common/monocypher.cpp:367-376 | an empty message under a key, r clamped |
| `Poly1305.ClampIsRfc` | common/monocypher.cpp:373-375 | clamping word by word is the AND with 0x0ffffffc0ffffffc0ffffffc0fffffff of section 2.5 of RFC 8439 |
| `Poly1305.Context.PolyBlocks` | common/monocypher.cpp:311-365 | absorbing full blocks continues the polynomial |
| `Poly1305.Context.Update` | common/monocypher.cpp:378-412 | the context holds the message so far, whatever the lengths |
| `Poly1305.Context.Final` | common/monocypher.cpp:414-441 | the tag of section 2.5 of RFC 8439 for the message so far |
| `Poly1305.Authenticate` | common/monocypher.cpp:443-450 | any way to cut a message into updates gives the same tag |
| `Slide.WindowPays` | common/monocypher.cpp:1976-1982 | a window of w bits is worth exactly the bits it consumes |
| `Slide.WindowRange` | common/monocypher.cpp:1970-1984 | where two bits differ the window is not zero and at most 2^(w-1) in size |
| `Slide.LowestBitDivides` | common/monocypher.cpp:1983 | v & -v is the largest power of two dividing v, on two's complement |
| `Slide.OddDigit` | common/monocypher.cpp:1983-1989 | shifting by the masked logarithm leaves an odd digit that fits its table |
| `Slide.SlideCtx.constructor` | common/monocypher.cpp:1949-1968 | the first check is one above the highest bit, and nothing is owed yet |
| `Slide.SlideCtx.Step` | common/monocypher.cpp:1970-1994 | every step keeps digits returned + digit pending = bits consumed; a digit is 0 or odd and in range |
| `Slide.SlideCtx.Window` | common/monocypher.cpp:1975-1990 | a window yields one pending digit inside it and moves the check below it, with the wrap-around of the 8-bit field |
| `Slide.RecodingIsExact` | common/monocypher.cpp:1950-1961 | the digits add up to the scalar if and only if it is below 2^253 |
| `Slide.OddTable` | common/monocypher.cpp:2020-2030 | lutA[k] = (2k+1) times the point |
| `Slide.Ladder` | common/monocypher.cpp:2032-2050 | in any abelian group the fused loop ends at [s]B + [h](-A), each scalar as its digits say |
| `Slide.CheckEquation` | common/monocypher.cpp:2000-2066 | for every 32-byte h and s: accepts if and only if both points decode, s < L and [8]([s]B - [h]A - R) = 0, where h stands for the number its digits make: h itself if and only if h < 2^253 |
| `Comb.HalfConstants` | common/monocypher.cpp:2196-2205 | 2*half_mod_L = 1 + L and 2*half_ones = 2^256-1 - 15L |
| `Comb.AllBitsSet` | common/monocypher.cpp:2207-2209 | with bits worth 1 or -1 the recoded scalar is congruent to the scalar modulo L |
| `Comb.IndexIs` | common/monocypher.cpp:2173-2178 | the index is the teeth, complemented when the fourth is absent |
| `Comb.LookupAdd` | common/monocypher.cpp:2170-2189 | adds the multiple that the four teeth stand for, with their signs |
| `Comb.CombsTotal` | common/monocypher.cpp:2211-2228 | the 32 steps over 8 teeth give 2s - (2^256-1) |
| `Comb.ScalarMultBase` | common/monocypher.cpp:2192-2238 | [scalar]B for every 256-bit scalar, given [L]B = 0 and the documented tables |
| `Blake2b.WordAppended` | common/monocypher.cpp:571-576 | OR-ing a shifted byte into the zero-padded block appends it |
| `Blake2b.CountNext` | common/monocypher.cpp:479-485 | the two-word count with carry is the 128-bit byte count |
| `Blake2b.AllFeedsIs` | common/monocypher.cpp:628-630 | the buffered block is the last block of the one-shot hash |
| `Blake2b.Context.constructor` | common/monocypher.cpp:531-553 | initial state, and the key as a whole padded block |
| `Blake2b.IVAreRootFractions` | common/monocypher.cpp:455-460 | each word is the first 64 bits of the fraction of the square root of one of the first eight primes, section 2.6 of RFC 7693 |
| `Blake2b.ParametersTakenIn` | common/monocypher.cpp:535-536 | the first word is XORed with the parameters of section 2.5 of RFC 7693, the others are those of the IV |
| `Blake2b.Context.Compress` | common/monocypher.cpp:462-496 | feeds the buffered words, the count including this block, and the flag |
| `Blake2b.Context.AlignWord` | common/monocypher.cpp:568-579 | the first alignment step appends bytes up to a word boundary |
| `Blake2b.Context.AlignBlock` | common/monocypher.cpp:581-588 | the second appends words up to a block boundary, or leaves fewer than 8 bytes |
| `Blake2b.Context.Update` | common/monocypher.cpp:560-626 | appends to the data; the words that remain are loaded at word 0 because none is left unless the buffer is empty; the buffer is never empty once there is data, so the final block is never compressed early |
| `Blake2b.Context.Final` | common/monocypher.cpp:628-638 | the feeds of the compression function are those of the one-shot hash, and the output is the state cut to size |
| `Blake2b.HashChunks` | common/monocypher.cpp:640-648 | for every way to cut the message, the hash of sections 3.2 and 3.3 of RFC 7693 |
| `ChaCha20.CounterNext` | common/monocypher.cpp:250-253 | the 32-bit word carries into the next: the counter is 64 bits |
| `ChaCha20.XorOfWord` | common/monocypher.cpp:237-240 | XOR of words is XOR of their bytes |
| `ChaCha20.Djb` | common/monocypher.cpp:220-277 | output = text XOR keystream by counter, for a text or none; returns the first unused counter |
| `ChaCha20.ConstantIsText` | common/monocypher.cpp:203-225 | the four constant words are the text "expand 32-byte k" |
| `ChaCha20.CryptInvolution` | common/monocypher.cpp:220-277 | encrypting twice gives the text back |
| `ChaCha20.CryptCut` | common/monocypher.cpp:220-277 | a text can be cut at any 64-byte boundary and continued at the counter that follows |
| `ChaCha20.IetfState` | common/monocypher.cpp:279-286 | the state of every block of the IETF variant: word 12 is the counter modulo 2^32, and what it carries is added to the first word of the nonce, word 13 |
| `ChaCha20.IetfIsRfcIff` | common/monocypher.cpp:279-286 | all blocks have the states of section 2.3 of RFC 8439 if and only if ctr plus the number of blocks is at most 2^32 |
| `ChaCha20.Ietf` | common/monocypher.cpp:279-286 | encrypts with the 64-bit counter, which is the stream of section 2.4 of RFC 8439 as long as the counter stays within 32 bits; returns the next counter modulo 2^32 |
| `Aead.Neq0` | common/monocypher.cpp:144-151 | 0 for 0, else -1, through the 64-bit wrap-around |
| `Aead.Verify16` | common/monocypher.cpp:153-160 | 0 if and only if the 16 bytes are equal |
| `Aead.LockAuth` | common/monocypher.cpp:2890-2905 | the tag of the padded additional data, the padded ciphertext and the two lengths |
| `Aead.Context.Djb` | common/monocypher.cpp:2915-2921 | initial session from an 8-byte nonce |
| `Aead.Context.Ietf` | common/monocypher.cpp:2923-2929 | initial session from a 12-byte nonce |
| `Aead.Context.Write` | common/monocypher.cpp:2931-2942 | seals with the one-time key of the current counter, and ratchets the key |
| `Aead.Context.Read` | common/monocypher.cpp:2944-2961 | opens and ratchets if and only if the tag is right; otherwise nothing changes and nothing is written |
| `Aead.OpenSeal` | common/monocypher.cpp:2931-2961 | what is sealed is authentic and opens to the same text |
| `Aead.FirstMessageIsRfc` | common/monocypher.cpp:2923-2942 | the first message of an IETF session is sealed by the AEAD of section 2.8 of RFC 8439 |
| `Aead.Conversation` | common/monocypher.cpp:2931-2961 | any run of messages written, then read in order, comes back, with equal contexts |
| `Argon2.SegmentSize` | common/monocypher.cpp:754-756 | with at least 8 blocks per lane a segment has at least 2 |
| `Argon2.ConfigIsRunnable` | common/monocypher.cpp:754-756 | every number of blocks, lanes and passes that the interface allows can be run |
| `Argon2.SelectorInWindow` | common/monocypher.cpp:877-882 | the selection formula stays inside the window |
| `Argon2.WindowIs` | common/monocypher.cpp:865-875 | the window size is exact despite the 32-bit wrap-around, and never zero |
| `Argon2.ReferenceIsConstructed` | common/monocypher.cpp:862-884 | the reference is in range, already computed, never the current or previous block, and never in the current slice of another lane |
| `Argon2.ReferenceLaneIsRfc` | common/monocypher.cpp:868-871 | the lane is J_2 modulo the number of lanes, as in section 3.4.1 of RFC 9106 |
| `Argon2.WindowInOrder` | common/monocypher.cpp:862-875 | the numbers below the window size stand for blocks of the window of section 3.4.2 of RFC 9106, from the oldest to the newest |
| `Argon2.WindowComplete` | common/monocypher.cpp:862-875 | every block of that window has a number |
| `Argon2.ReferenceFromWindow` | common/monocypher.cpp:877-884 | the reference is the block of the window that the selector selects |
| `Argon2.SelectedOrder` | common/monocypher.cpp:878-881 | selector 0 selects the newest block, and a greater selector never a newer one |
| `Argon2.MixedIsRfc` | common/monocypher.cpp:886-894 | the new block is G of the previous and the reference block, XORed with the old one from the second pass on |
| `Argon2.ShuffleIsRfc` | common/monocypher.cpp:849-854 | shuffling is G with a zero block |
| `Argon2.IndexBlockIsRfc` | common/monocypher.cpp:835-857 | the indices are G(0, G(0, Z)) of section 3.4.1.2 of RFC 9106 |
| `Argon2.NextBlockLocal` | common/monocypher.cpp:823-894 | a block depends on its lane and on other lanes outside the slice only |
| `Argon2.AnyOrder` | common/monocypher.cpp:817-897 | every interleaving of the segments of a slice gives the same memory |
| `Argon2.FirstPassFilled` | common/monocypher.cpp:804-897 | the first pass reads filled blocks only |
| `Argon2.GarbageIgnored` | common/monocypher.cpp:791-897 | the filled memory does not depend on what the work area held |
| `Argon2.Indices` | common/monocypher.cpp:833-860 | the refreshed index block at block b is number b/128 + 1 |
| `Argon2.FillBlock` | common/monocypher.cpp:862-894 | one block in the flat work area |
| `Argon2.FillSliceInPlace` | common/monocypher.cpp:805-896 | the sequential loop gives the slice as if every lane had run alone |
| `Argon2.FillMemory` | common/monocypher.cpp:791-897 | all passes and slices, with the switch of Argon2id |
| `Argon2.XorLastBlocks` | common/monocypher.cpp:903-909 | the XOR of the last blocks of all lanes |
| `Argon2.FinalBlock` | common/monocypher.cpp:776-909 | the block to be hashed, whatever the work area held |
| `Argon2.ExtendedHash` | common/monocypher.cpp:688-714 | H' of section 3.3 of RFC 9106, with its overlapping writes, over any hash that is right for sizes up to 64 |
| `Argon2.Blake2bIsSized` | common/monocypher.cpp:688-695 | BLAKE2b is such a hash |
| `TaskController.StepInv` | TaskController.cpp:34-127 | every step of workers, completions and sessions keeps the invariant |
| `TaskController.WorkKept` | Task.cpp:43-65 | work on one index never overwrites another slot |
| `TaskController.BarrierMeansDone` | TaskController.cpp:111-127 | when all workers are at the barrier, every index was worked on exactly once |
| `TaskController.EqualKeysTogether` | Task.cpp:28-33 | sorting brings requests with equal keys together |
| `TaskController.FinishAnswered` | TaskController.cpp:41-43 | the promise is kept with every slot answered, sorted or not |
| `TaskController.ExactlyOnce` | TaskController.cpp:34-49 | at each completion of every run, every index was fetched by one worker and worked on once |
| `TaskController.NoSharedIndex` | Task.cpp:34-44 | no two workers hold the same index; all run the same phase |
| `TaskController.IndexBound` | Task.cpp:34-44 | _index is at most _size plus the number of workers |
| `TaskController.WorkerStepDecreases` | TaskController.cpp:111-127 | each worker step reduces the work left in the phase |
| `TaskController.PhaseTerminates` | TaskController.cpp:111-127 | no phase goes on for ever, whatever sessions do meanwhile |
| `TaskController.NoDeadlock` | TaskController.cpp:34-127 | some step is possible unless the controller waits for a batch |
| `TaskController.RunsEnd` | TaskController.cpp:34-127 | without pushes every run ends: a stretch of it has at most as many steps as were left at its beginning, for any number of batches in the queue |
| `TaskController.NothingLeftBehind` | TaskController.cpp:34-69 | if nothing but a push is possible, every session is idle |
| `TaskController.PushPossible` | TaskController.cpp:59-69 | an idle session can push any batch |
| `TaskController.FinishedInPushOrder` | TaskController.cpp:59-78 | tasks finish in push order |
| `TaskController.PromisesKeptOnce` | TaskController.cpp:41-43 | each pushed batch has its promise kept exactly once |
| `TaskController.ReturnsAnswered` | TaskController.cpp:65-69 | processTask returns only with every slot holding the result for its input |
| `TaskController.ReturnHasPush` | TaskController.cpp:65-69 | every return belongs to a push, with the session busy in between |
| `TaskController.PushHasReturn` | TaskController.cpp:65-69 | in a run that cannot go on without a push, every push has its return |
| `TaskController.PushedIsAnswered` | Task.cpp:16-65 | what comes back are the replies to the requests that were pushed, in their order |
| `TaskController.NotTouched` | TaskController.cpp:41-45 | nobody touches a task from its promise to its next push |
| `TaskController.InputsKept` | Task.cpp:16-26 | the inputs stay as they are until the next push |
| `TaskController.PushedInputs` | Task.cpp:16-26 | from a push on, the inputs are those that were pushed |
| `TaskController.ModeDoesNotMatter` | Task.cpp:28-65 | sorted and unsorted runs return the same responses for batches pushed with the same inputs |
| `Transaction.SortedIsUnique` | business/Transaction.cpp:217-220 | sorted keywords do not depend on the sorting algorithm |
| `Transaction.SetIntersection` | business/Transaction.cpp:201-207 | the merge keeps, per keyword, as many of the first bids as the request has that keyword |
| `Transaction.KeptCounts` | business/Transaction.cpp:201-207 | as a multiset it is the intersection |
| `Transaction.FindWinningBid` | business/Transaction.cpp:178-189 | the earliest maximum of the amounts cut to 32 bits |
| `Transaction.WinnerHasMostMoney` | business/Transaction.cpp:178-189 | within the 32-bit range the winner has the most money |
| `Transaction.WinnerIsRightIff` | business/Transaction.cpp:178-189 | for amounts in a range the winner is always right if and only if the range lies in one 32-bit window |
| `Transaction.ParseArray` | business/Ad.cpp:54-71 | the parsed bids, with the default for no money, in keyword order |
| `Transaction.BidsParsed` | business/Ad.cpp:58-64 | bid number i is made of strings 2i and 2i + 1 |
| `Transaction.ReadAds` | business/Ad.cpp:82-99 | the table has the ads of each size in file order |
| `Transaction.CacheIsExactIff` | business/Transaction.cpp:87-92 | the cached ads are those of the cached key after all request series, if and only if there are no ads of size 0x0 |
| `Transaction.CachedMatches` | business/Transaction.cpp:87-93 | a stale cache changes no match |
| `Transaction.SplitIdIff` | business/Transaction.cpp:66-70 | the id is what the first right bracket ends, if the input starts with the left one |
| `Transaction.KeywordsParsed` | business/Transaction.cpp:217-236 | in both formats, the words joined by plus signs up to an ampersand are the keywords |
| `Transaction.Processor.Parse` | business/Transaction.cpp:59-74 | id, request and sorted keywords of an input |
| `Transaction.Processor.MatchAds` | business/Transaction.cpp:201-215 | the matches ad by ad |
| `Transaction.ReplyNamesWinner` | business/Transaction.cpp:213-262 | if bids match, both forms of the reply name the first one with the greatest truncated amount; otherwise they say that there is none |
| `Transaction.ReplyToInvalid` | business/Transaction.cpp:78-103 | what an empty input, a zero size, and an input without an id are answered |
| `Transaction.Processor.ProcessRequestSort` | business/Transaction.cpp:78-103 | the reply is that of a direct lookup, whatever the cache holds |
| `Transaction.Processor.ProcessRequestNoSort` | business/Transaction.cpp:105-129 | the same, so both modes reply alike |
| `Transaction.ProcessBatch` | business/Transaction.cpp:78-129 | any schedule over any workers gives the same responses, in request order |
| `Utility.FindCharFirst` | common/Utility.h:42 | the search finds the first delimiter |
| `Utility.FindString` | business/Transaction.cpp:223-236 | `find`: the first occurrence of a key such as "kw=", or none if there is none |
| `Utility.RowsMakeText` | common/Utility.h:38-49 | rows with their delimiters concatenate to the text |
| `Utility.RowCount` | common/Utility.h:66-83 | one row per delimiter, and one more for an unterminated end |
| `Utility.Split` | common/Utility.h:38-49 | appends the rows of the text |
| `Utility.SplitReversedOrder` | common/Utility.h:53-63 | the rows in reverse, in front |
| `Utility.SplitReuseVector` | common/Utility.h:66-83 | overwrites stale rows and returns the number of terminated rows |
| `Lines.ReadingIsSplit` | common/Lines.cpp:14-43 | for lines that fit the buffer, what is read is a prefix of the split of the whole source, and all of it if reading finishes |
| `Lines.FinishesIffNoEmptyLine` | common/Lines.cpp:24-27 | for lines that fit, a reading that does not throw reaches the end of the source if and only if no line is empty |
| `Lines.ReadsWholeIff` | common/Lines.cpp:14-43 | for every source and capacity: reading reaches the end if and only if every line fits, none is empty, and no buffer ends a line while there is more input; then the lines are those of the whole source split at once |
| `Lines.ThrowsOnBufferEnd` | common/Lines.cpp:18-21 | for lines that fit and are not empty, reading throws if and only if the buffer, at the start or after some move, ends with a line and not with the source |
| `Lines.ThrowsIff` | common/Lines.cpp:18-21 | for lines that fit, a call throws if and only if the next line starts where the buffer ends, with input left |
| `Lines.WholeSourceFits` | common/Lines.cpp:18-27 | with a buffer that holds the whole source, reading reaches its end if and only if no line is empty |
| `Lines.LineOnLastByte` | common/Lines.cpp:18-21 | a source whose lines fit, of which a line is lost: the one before ends on the last byte of the buffer |
| `Lines.EmptyLineInside` | common/Lines.cpp:24-27 | a source the buffer holds whole, of which a line is lost: an empty line comes before it |
| `Lines.StringLines.constructor` | common/StringLines.cpp:7-12 | the first window of the source |
| `Lines.StringLines.RefillBuffer` | common/StringLines.cpp:18-28 | the window grows to the capacity or the end of the source |
| `Lines.StringLines.RemoveProcessedLines` | common/Lines.cpp:36-43 | moves the rest to the front; throws exactly when nothing or everything was processed |
| `Lines.StringLines.Locate` | common/Lines.cpp:15-24 | finds the end of the next line across a refill, or throws exactly when an incomplete line begins or ends the buffer |
| `Lines.StringLines.GetLine` | common/Lines.cpp:14-34 | for every source and capacity: the next expected line, its ordinal, and whether it is the last. A stale byte is taken for a delimiter if and only if the next line is the last, has none, and the byte that follows it in the buffer after a move is one; whether a later call will do so does not change |
| `Lines.StaleIff` | common/Lines.cpp:14-43 | some call takes a stale byte for a delimiter if and only if the source is read to its end, has no delimiter there, and the byte behind the last buffer is one: a byte of the source that the buffer before held, or, if the buffer never moves, what was in it at first |
| `Lines.CopyLines` | test_src/Tests.cpp:201-208 | the lines put together again are the source if and only if it is read to its end and no delimiter is added; otherwise they are the source with a delimiter added, or a part of it from its beginning |
| `Lines.DelimiterFromStaleByte` | common/Lines.cpp:14-34 | a source of three lines whose last one is returned with a delimiter it does not have |
| `Batching.EchoStripsId` | policy/EchoPolicy.cpp:19-29 | the echo removes exactly the id, even before a line that looks like one |
| `Batching.IdLengthIff` | policy/EchoPolicy.cpp:14-27 | an id is a bracket, at least one digit, and a bracket |
| `Batching.NoIdEchoed` | policy/EchoPolicy.cpp:19-29 | a line that does not start with an id is echoed as it is |
| `Batching.BatchSplits` | common/Utility.h:66-83 | splitting numbered lines gives them back, all terminated |
| `Batching.Serve` | Task.cpp:16-26 | the reply depends on the request alone, whatever the reused vectors hold |
| `Batching.EchoesLines` | Session.cpp:66-71 | the reply to numbered lines is the lines |
| `Batching.TaskBuilder.StoreSubtask` | client_src/TaskBuilder.cpp:78-116 | the batch becomes the next subtask |
| `Batching.TaskBuilder.CreateSubtask` | client_src/TaskBuilder.cpp:62-74 | numbered lines that fill the buffer, but not without the last one, or that the source ends with; how reading ended |
| `Batching.BuildTask` | client_src/TaskBuilder.cpp:17-33 | for every source: it becomes a task, of all its lines in order, cut where the buffer is full, if and only if it is not empty, is read to its end, gains no delimiter and has at most 10000 lines; and when there is an error, no status, or a use of what the language leaves undefined |
| `Batching.GroupsAreUnique` | client_src/TaskBuilder.cpp:62-74 | the lines and the size of the buffer determine the subtasks |
| `Batching.UnterminatedIsDropped` | Task.cpp:16-26 | a last row without a delimiter changes nothing in the reply |
| `Batching.EchoesPieces` | Session.cpp:66-71 | numbered lines, the last of which may have no delimiter, are echoed up to the last delimiter |
| `Batching.EchoSource` | client_src/TaskBuilder.cpp:17-116 | end to end, for every source: which ones become a task; then what comes back is the source up to its last delimiter, byte for byte, which is all of it if and only if it ends with one |
| `Decimal.ToCharsValue` | common/IOUtility.h:69-79 | the digits of a number have its value |
| `Decimal.ToCharsLength` | common/IOUtility.h:69-79 | k digits suffice exactly below 10^k |
| `Decimal.FixedRoundTrip` | common/IOUtility.h:50-79 | the ten-byte form parses back if and only if the number is below 10^10 |
| `Decimal.FreeRoundTrip` | common/IOUtility.h:50-79 | the free form always parses back |
| `Decimal.RemoveNonDigits` | common/IOUtility.h:25-34 | drops exactly the leading non-digits |
| `Header.Serialize` | common/Header.cpp:106-116 | 44 bytes that parse back, whatever follows them, to the header with its fourth size replaced by the third, or that are rejected if a code is invalid; for all sizes below 10^10 |
| `Header.EnumeratedIff` | common/Header.h:142-148 | the codes that pass are those of the enumerators, with no gaps |
| `Header.Deserialize` | common/Header.cpp:118-146 | accepts if and only if four codes are those of enumerators and the sizes parse; otherwise rejects or throws; the fourth size is read from the third slice |
| `Header.HeaderRoundTrip` | common/Header.cpp:106-146 | all comes back but the fourth size, which comes back as the third |
| `Header.EnumeratorsComeBack` | common/Header.h:28-89 | every combination of enumerators comes back |
| `Header.HeaderOfInjective` | common/Header.h:28-89 | headers with different enumerators have different codes |
| `Header.HeaderRoundTripIff` | common/Header.cpp:106-146 | a header comes back if and only if its last two sizes are equal |
| `Header.AcceptedIff` | common/Header.cpp:118-146 | accepted if and only if the four codes are those of enumerators |
| `Header.ProcessMessage` | common/IOUtility.cpp:44-64 | cuts the payload by the sizes; leaves a string alone for size 0; throws past the end |
| `Header.ThreePayloads` | common/IOUtility.cpp:44-64 | up to three payloads come back into fresh strings |
| `Header.FourPayloadsIff` | common/IOUtility.cpp:44-64 | four come back if and only if the third is at least as long as the fourth |

## Left out

- Sockets, timers, named pipes, file streams, signals, logging, options and JSON: input and output. The source is a string.
- Compression and encryption of subtasks and replies: calls into other libraries; a batch is its text.
- The curve's group laws, the primality of 2^255-19 and of L, and the numbers in the point tables: hypotheses of the theorems that need them.
- The x-coordinate ladder of `scalarmult`, Elligator and the dirty keys: they rest on curve equations.
- `ge_frombytes_neg_vartime` and `ge_tobytes`: a decoded point, or the failure to decode, is a parameter of the check; the last comparison is equality with the neutral element.
- The rounds of ChaCha20, BLAKE2b and Argon2, and `crypto_chacha20_h`: straight-line word mixing, a parameter where it is used.
- The initial hash of Argon2 and its final call of H': concatenations of parameters; the first two blocks of each lane are a parameter.
- Wiping of buffers, constant-time behaviour and secrecy: not about results.
- Output buffers that overlap inputs: `fe_mul` and `fe_sq` are proved in place, the stream functions return new strings.
- The thread pools, and the races of `TaskController::stop`: runs end before `stop`.
- `std::sort` and the atomic operations themselves: sorting is any reordering that leaves no pair the wrong way round, and each atomic access is one step.
- Regular expressions of `createSizeKey`, and requests on which it throws: the key of a request is a total function.
- Amounts as floating point, and the text of replies: amounts are integer cents, and a reply is the data that gets printed.
- `Ad::parseAttributes` and the split on a set of separators: an ad is its id, size and bids, or the failure to parse.
- What happens after the reader took a stale byte for the delimiter of an unterminated last line, or after an id past the end of the table of ids was asked for: the language leaves both undefined, and the model says exactly when they are reached.
- Views into the reader's buffer: a line is a copy, so what happens to an earlier view when the buffer moves is not modelled.
- The mutex and the stopped state of `TaskBuilder`: one thread builds.
- The formulas of the group operations in coordinates: the group is any abelian group.
