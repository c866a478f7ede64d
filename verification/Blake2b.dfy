/** Incremental BLAKE2b (common/monocypher.cpp:455-650; sections 3.2 and 3.3 of RFC 7693).
The compression function itself is a parameter. */
module Blake2b {
  import opened Words
  import opened Chunks

  // --------------------------------------------------------------------- specification

  /** The chained state. */
  type State = s: seq<u64> | |s| == 8 witness [0, 0, 0, 0, 0, 0, 0, 0]

  /** What one call of the compression function is given besides the state: the 16 message words,
  the 128-bit byte count, and the last-block flag. */
  datatype Feed = Feed(block: seq<u64>, count0: u64, count1: u64, last: bool)

  type Compression = (State, Feed) -> State

  const IV: State := [
    0x6a09e667f3bcc908, 0xbb67ae8584caa73b, 0x3c6ef372fe94f82b, 0xa54ff53a5f1d36f1,
    0x510e527fade682d1, 0x9b05688c2b3e6c1f, 0x1f83d9abfb41bd6b, 0x5be0cd19137e2179
  ]

  /** A block, padded with zeros. */
  function Padded(tail: seq<u8>): (p: seq<u8>)
    requires |tail| <= 128
    ensures |p| == 128 && p[..|tail|] == tail
    ensures forall i {:trigger p[i]} :: |tail| <= i < 128 ==> p[i] == 0
  {
    tail + Zeros(128 - |tail|)
  }

  /** The 16 words of a padded block. */
  function PaddedWords(tail: seq<u8>): (w: seq<u64>)
    requires |tail| <= 128
    ensures |w| == 16 && forall k {:trigger w[k]} :: 0 <= k < 16 ==> w[k] == Load64(Padded(tail)[8 * k..8 * k + 8])
  {
    seq(16, k requires 0 <= k < 16 => Load64(Padded(tail)[8 * k..8 * k + 8]))
  }

  /** The low and high halves of a 128-bit count. */
  ghost predicate Counts(x0: u64, x1: u64, n: nat) {
    x0 as nat == n % 0x1_0000_0000_0000_0000
    && x1 as nat == n / 0x1_0000_0000_0000_0000 % 0x1_0000_0000_0000_0000
  }

  ghost function FeedOf(tail: seq<u8>, count: nat, last: bool): (f: Feed)
    requires |tail| <= 128
    ensures Counts(f.count0, f.count1, count)
  {
    Feed(PaddedWords(tail), (count % 0x1_0000_0000_0000_0000) as u64,
         (count / 0x1_0000_0000_0000_0000 % 0x1_0000_0000_0000_0000) as u64, last)
  }

  /** The feeds of a run of full blocks, none of them final. */
  ghost function FullFeeds(data: seq<u8>): seq<Feed>
    requires |data| % 128 == 0
  {
    if data == [] then []
    else FullFeeds(data[..|data| - 128]) + [FeedOf(data[|data| - 128..], |data|, false)]
  }

  /** The feeds of the one-shot hash: every block but the last, then the last one, padded.
  The last block is not empty unless there is no data at all. */
  ghost function AllFeeds(data: seq<u8>): seq<Feed> {
    var k := if data == [] then 0 else (|data| - 1) / 128 * 128;
    FullFeeds(data[..k]) + [FeedOf(data[k..], |data|, true)]
  }

  ghost function Chain(f: Compression, h: State, feeds: seq<Feed>): State {
    if feeds == [] then h else f(Chain(f, h, feeds[..|feeds| - 1]), feeds[|feeds| - 1])
  }

  /** h[0] ^= 0x01010000 ^ (kk << 8) ^ nn */
  function InitialState(hashSize: u64, keySize: nat): State
    requires keySize <= 128
  {
    XorFits(hashSize, keySize);
    [BitXor(IV[0] as nat, BitXor(BitXor(0x01010000, Shl(keySize, 8)), hashSize as nat)) as u64] + IV[1..]
  }

  lemma XorFits(hashSize: u64, keySize: nat)
    requires keySize <= 128
    ensures BitXor(IV[0] as nat, BitXor(BitXor(0x01010000, Shl(keySize, 8)), hashSize as nat)) < 0x1_0000_0000_0000_0000
  {
    hide BitXor;
    LargePowers();
    ShlIsMul(keySize, 8);
    SmallPowers();
    XorBound(0x01010000, Shl(keySize, 8), 64);
    XorBound(BitXor(0x01010000, Shl(keySize, 8)), hashSize as nat, 64);
    XorBound(IV[0] as nat, BitXor(BitXor(0x01010000, Shl(keySize, 8)), hashSize as nat), 64);
  }

  /** The first 64 bits of the fraction of the square root of p. */
  ghost predicate IsRootFraction(v: u64, p: nat) {
    exists n: nat :: Square(0x1_0000_0000_0000_0000 * n + v as nat) <= 0x1_0000_0000_0000_0000_0000_0000_0000_0000 * p
      < Square(0x1_0000_0000_0000_0000 * n + v as nat + 1)
  }

  function Square(x: nat): nat {
    x * x
  }

  const PRIMES: seq<nat> := [2, 3, 5, 7, 11, 13, 17, 19]

  /** Section 2.6 of RFC 7693. */
  lemma IVAreRootFractions(i: nat)
    requires i < 8
    ensures IsRootFraction(IV[i], PRIMES[i])
  {
    RootFraction(IV[i], if i < 2 then 1 else if i < 4 then 2 else if i < 6 then 3 else 4, PRIMES[i]);
  }

  lemma RootFraction(v: u64, n: nat, p: nat)
    requires Square(0x1_0000_0000_0000_0000 * n + v as nat) <= 0x1_0000_0000_0000_0000_0000_0000_0000_0000 * p
    requires 0x1_0000_0000_0000_0000_0000_0000_0000_0000 * p < Square(0x1_0000_0000_0000_0000 * n + v as nat + 1)
    ensures IsRootFraction(v, p)
  {
  }

  /** The first word takes in the parameters of section 2.5 of RFC 7693: the sizes of the hash and of the
  key, and 1 for fanout and depth. */
  lemma ParametersTakenIn(hashSize: u8, keySize: u8)
    requires keySize <= 64
    ensures InitialState(hashSize as u64, keySize as nat)[0] as nat == BitXor(IV[0] as nat, LE([hashSize, keySize, 1, 1]))
    ensures InitialState(hashSize as u64, keySize as nat)[1..] == IV[1..]
  {
    LEOfParameters(hashSize, keySize);
    ParameterXor(hashSize, keySize);
    hide LE, BitXor;
  }

  lemma LEOfParameters(hashSize: u8, keySize: u8)
    ensures LE([hashSize, keySize, 1, 1]) == 0x01010000 + 0x100 * keySize as nat + hashSize as nat
  {
    assert [hashSize, keySize, 1, 1][1..] == [keySize, 1, 1] && [keySize, 1, 1][1..] == [1, 1] && [1, 1][1..] == [1];
    LEOfOne(1);
    assert LE([1, 1]) == 257;
  }

  lemma ParameterXor(hashSize: u8, keySize: u8)
    ensures BitXor(BitXor(0x01010000, Shl(keySize as nat, 8)), hashSize as nat)
            == 0x01010000 + 0x100 * keySize as nat + hashSize as nat
  {
    ShlIsMul(keySize as nat, 8);
    SmallPowers();
    hide BitXor, Pow2, Shl;
    XorAppends(0x101, keySize);
    XorShifted(0x10100, keySize as nat);
    XorAppends(0x10100 + keySize as nat, hashSize);
  }

  lemma XorAppends(high: nat, low: u8)
    ensures BitXor(0x100 * high, low as nat) == 0x100 * high + low as nat
  {
    hide BitXor;
    SmallPowers();
    ShlIsMul(high, 8);
    ShlIsMul(0, 8);
    XorShl(0, high, low as nat, 0, 8);
    XorZero(high);
    XorZero(low as nat);
  }

  lemma XorShifted(a: nat, b: nat)
    ensures BitXor(0x100 * a, 0x100 * b) == 0x100 * BitXor(a, b)
  {
    hide BitXor;
    SmallPowers();
    ShlIsMul(a, 8);
    ShlIsMul(b, 8);
    ShlIsMul(BitXor(a, b), 8);
    XorShl(0, a, 0, b, 8);
    XorZero(0);
  }

  /** The bytes of the state, low byte first. */
  function StoreWords(w: seq<u64>): (s: seq<u8>)
    ensures |s| == 8 * |w|
  {
    if w == [] then [] else StoreWords(w[..|w| - 1]) + Bytes(w[|w| - 1] as nat, 8)
  }

  /** The hash of a message under a key, which takes a whole block of its own. */
  ghost function Hash(f: Compression, hashSize: u64, key: seq<u8>, message: seq<u8>): seq<u8>
    requires |key| <= 128
  {
    var data := (if key == [] then [] else Padded(key)) + message;
    var h := Chain(f, InitialState(hashSize, |key|), AllFeeds(data));
    StoreWords(h)[..if hashSize < 64 then hashSize as int else 64]
  }

  // ---------------------------------------------------------------- lemmas on the words

  /** Words depend on their own eight bytes only. */
  lemma WordSame(a: seq<u8>, b: seq<u8>, k: nat)
    requires |a| <= 128 && |b| <= 128 && k < 16
    requires forall i :: 8 * k <= i < 8 * k + 8 ==> Padded(a)[i] == Padded(b)[i]
    ensures PaddedWords(a)[k] == PaddedWords(b)[k]
  {
    hide Load64, Padded;
    assert Padded(a)[8 * k..8 * k + 8] == Padded(b)[8 * k..8 * k + 8];
  }

  lemma WordLoaded(tail: seq<u8>, k: nat, bytes: seq<u8>)
    requires |tail| <= 128 && k < 16 && 8 * k + 8 <= |tail| && bytes == tail[8 * k..8 * k + 8]
    ensures PaddedWords(tail)[k] == Load64(bytes)
  {
    hide Load64;
    assert Padded(tail)[8 * k..8 * k + 8] == bytes;
  }

  lemma WordPartial(tail: seq<u8>, k: nat)
    requires |tail| <= 128 && k < 16 && 8 * k <= |tail| <= 8 * k + 8
    ensures PaddedWords(tail)[k] as nat == LE(tail[8 * k..])
  {
    hide LE;
    var n := 8 * k + 8 - |tail|;
    assert Padded(tail)[8 * k..8 * k + 8] == tail[8 * k..] + Zeros(n);
    LEPadded(tail[8 * k..], n);
  }

  /** OR-ing a byte into its place appends it. */
  lemma WordAppended(tail: seq<u8>, b: u8)
    requires |tail| < 128
    ensures var k := |tail| / 8;
      PaddedWords(tail + [b])[k] as nat == BitOr(PaddedWords(tail)[k] as nat, Shl(b as nat, 8 * (|tail| % 8)))
    ensures forall k :: 0 <= k < 16 && k != |tail| / 8 ==> PaddedWords(tail + [b])[k] == PaddedWords(tail)[k]
  {
    hide LE, BitOr, Shl, Pow2, PaddedWords, Padded;
    var k := |tail| / 8;
    var part := tail[8 * k..];
    WordPartial(tail, k);
    WordPartial(tail + [b], k);
    assert (tail + [b])[8 * k..] == part + [b];
    OrAppends(part, b);
    forall j | 0 <= j < 16 && j != k ensures PaddedWords(tail + [b])[j] == PaddedWords(tail)[j] {
      PaddedAppend(tail, b, 8 * j);
      WordSame(tail + [b], tail, j);
    }
  }

  lemma OrAppends(part: seq<u8>, b: u8)
    ensures LE(part + [b]) == BitOr(LE(part), Shl(b as nat, 8 * |part|))
  {
    hide LE, BitOr, Shl, Pow2;
    LEConcat(part, [b]);
    LEOfOne(b);
    LEBound(part);
    ShlIsMul(b as nat, 8 * |part|);
    OrDisjoint(LE(part), b as nat, 8 * |part|);
  }

  lemma PaddedAppend(tail: seq<u8>, b: u8, from: nat)
    requires |tail| < 128
    ensures forall i :: 0 <= i < 128 && i != |tail| ==> Padded(tail + [b])[i] == Padded(tail)[i]
  {
  }

  lemma LEOfOne(b: u8)
    ensures LE([b]) == b as nat
  {
    assert [b][1..] == [];
  }

  /** Words loaded over the padding append their bytes. */
  lemma WordsAppended(tail: seq<u8>, more: seq<u8>, k: nat)
    requires |tail| % 8 == 0 && |more| % 8 == 0 && |tail| + |more| <= 128 && k < 16
    ensures PaddedWords(tail + more)[k]
            == if |tail| <= 8 * k < |tail| + |more| then Load64(more[8 * k - |tail|..8 * k - |tail| + 8])
               else PaddedWords(tail)[k]
  {
    hide Load64, PaddedWords;
    var all := tail + more;
    if |tail| <= 8 * k < |all| {
      assert 8 * k + 8 <= |all|;
      assert all[8 * k..8 * k + 8] == more[8 * k - |tail|..8 * k - |tail| + 8];
      WordLoaded(all, k, all[8 * k..8 * k + 8]);
    } else {
      assert forall i :: 8 * k <= i < 8 * k + 8 ==> Padded(all)[i] == Padded(tail)[i];
      WordSame(all, tail, k);
    }
  }

  lemma WordsLoaded(tail: seq<u8>, more: seq<u8>, word: nat, words: seq<u64>)
    requires |tail| == 8 * word && |more| % 8 == 0 && |tail| + |more| <= 128 && |words| == 16
    requires forall k :: 0 <= k < 16 ==>
      words[k] == if word <= k < word + |more| / 8 then Load64(more[8 * (k - word)..8 * (k - word) + 8]) else PaddedWords(tail)[k]
    ensures words == PaddedWords(tail + more)
  {
    hide PaddedWords, Load64;
    forall k | 0 <= k < 16 ensures words[k] == PaddedWords(tail + more)[k] {
      WordsAppended(tail, more, k);
    }
  }

  // -------------------------------------------------------------- incremental interface

  class Context {
    var hash: State
    var offset0: u64         // input_offset
    var offset1: u64
    const input: array<u64>  // the buffered block
    var inputIdx: nat
    const hashSize: u64
    const f: Compression
    ghost const initial: State
    ghost var done: seq<u8>    // what was compressed
    ghost var tail: seq<u8>    // what is buffered
    ghost var fed: seq<Feed>   // every call of the compression function

    /** The buffer is the padded tail, and the compressed part was fed block by block. */
    ghost predicate Consistent()
      reads this, input
    {
      && input.Length == 16 && inputIdx == |tail| <= 128 && input[..] == PaddedWords(tail)
      && Compressed()
    }

    ghost predicate Compressed()
      reads this`done, this`fed, this`hash, this`offset0, this`offset1
    {
      && |done| % 128 == 0 && fed == FullFeeds(done)
      && hash == Chain(f, initial, fed) && Counts(offset0, offset1, |done|)
    }

    /** Between calls, the buffer is empty only before the first byte. */
    ghost predicate Valid()
      reads this, input
    {
      Consistent() && (tail == [] ==> done == [])
    }

    /** All the data so far, the key block first. */
    ghost function Data(): seq<u8>
      reads this
    {
      done + tail
    }

    /** `crypto_blake2b_keyed_init` */
    constructor (f: Compression, hashSize: u64, key: seq<u8>)
      requires |key| <= 128
      ensures Valid() && Data() == (if key == [] then [] else Padded(key))
      ensures fresh(input) && this.f == f && this.hashSize == hashSize && initial == InitialState(hashSize, |key|)
    {
      hide InitialState, Padded, PaddedWords;
      this.f := f;
      this.hashSize := hashSize;
      hash := InitialState(hashSize, |key|);
      initial := InitialState(hashSize, |key|);
      offset0 := 0;
      offset1 := 0;
      inputIdx := 0;
      done, tail, fed := [], [], [];
      var words := if |key| > 0 then PaddedWords(Padded(key)) else seq(16, _ => 0);
      input := new u64[16](i => if 0 <= i < |words| then words[i] else 0);
      new;
      assert input[..] == words;
      if |key| > 0 {
        tail := Padded(key);
        inputIdx := 128;
      } else {
        NoWords();
      }
    }

    /** The count update and the call of the compression function, `blake2b_compress`. */
    method Compress(last: bool)
      requires input.Length == 16 && Counts(offset0, offset1, |done|) && inputIdx <= 128
      modifies this`hash, this`offset0, this`offset1, this`fed
      ensures Counts(offset0, offset1, |done| + inputIdx)
      ensures fed == old(fed) + [Feed(input[..], offset0, offset1, last)]
      ensures hash == f(old(hash), Feed(input[..], offset0, offset1, last))
    {
      CountNext(offset0, offset1, |done|, inputIdx);
      offset0 := ((offset0 as nat + inputIdx) % 0x1_0000_0000_0000_0000) as u64;
      if (offset0 as nat) < inputIdx {
        offset1 := ((offset1 as nat + 1) % 0x1_0000_0000_0000_0000) as u64;
      }
      var feed := Feed(input[..], offset0, offset1, last);
      hash := f(hash, feed);
      fed := fed + [feed];
    }

    /** Compresses a full buffer. */
    method Flush()
      requires Consistent() && inputIdx == 128
      modifies this`hash, this`offset0, this`offset1, this`fed, this`done, this`tail
      ensures Compressed() && tail == [] && done == Data() == old(Data())
    {
      hide PaddedWords, Padded, FeedOf, Chain, FullFeeds, Counts;
      ghost var before, all := fed, done + tail;
      Compress(false);
      assert Counts(offset0, offset1, |all|);
      FullFeedsNext(done, tail);
      FeedIs(tail, |all|, false, offset0, offset1);
      ghost var feed := Feed(input[..], offset0, offset1, false);
      ChainNext(f, initial, before, feed);
      assert fed == before + [feed] == FullFeeds(all);
      done := done + tail;
      tail := [];
    }

    /** `input[word] |= (u64)byte << (8 * position)` */
    method AppendByte(b: u8)
      requires Consistent() && inputIdx < 128
      modifies this`inputIdx, this`tail, input
      ensures Consistent() && tail == old(tail) + [b]
    {
      hide PaddedWords, BitOr, Shl, Chain, FullFeeds, Counts;
      WordAppended(tail, b);
      var word := inputIdx / 8;
      input[word] := BitOr(input[word] as nat, Shl(b as nat, 8 * (inputIdx % 8))) as u64;
      inputIdx := inputIdx + 1;
      tail := tail + [b];
      assert input[..] == PaddedWords(tail);
    }

    method AppendBytes(bytes: seq<u8>)
      requires Consistent() && inputIdx + |bytes| <= 128
      modifies this`inputIdx, this`tail, input
      ensures Consistent() && tail == old(tail) + bytes && Data() == old(Data()) + bytes
    {
      hide PaddedWords, Chain, FullFeeds, Counts;
      for i := 0 to |bytes|
        invariant Consistent() && tail == old(tail) + bytes[..i]
      {
        AppendByte(bytes[i]);
        assert bytes[..i + 1] == bytes[..i] + [bytes[i]];
      }
    }

    /** `load64_le_buf` at a word, which must be the first free one unless nothing is loaded. */
    method AppendWords(word: nat, bytes: seq<u8>)
      requires Consistent() && |bytes| % 8 == 0 && inputIdx + |bytes| <= 128
      requires bytes == [] || 8 * word == inputIdx
      modifies this`inputIdx, this`tail, input
      ensures Consistent() && tail == old(tail) + bytes && Data() == old(Data()) + bytes
    {
      hide PaddedWords, Load64, Compressed;
      if bytes == [] {
        return;
      }
      ghost var was := PaddedWords(tail);
      for i := 0 to |bytes| / 8
        modifies input
        invariant forall k :: 0 <= k < 16 ==>
          (input[k] == if word <= k < word + i then Load64(bytes[8 * (k - word)..8 * (k - word) + 8]) else was[k])
      {
        input[word + i] := Load64(bytes[8 * i..8 * i + 8]);
      }
      WordsLoaded(tail, bytes, word, input[..]);
      inputIdx := inputIdx + |bytes|;
      tail := tail + bytes;
    }

    /** One turn of the block loop: the buffered block, if any, makes room for this one. */
    method NextBlock(block: seq<u8>)
      requires Consistent() && |block| == 128 && (inputIdx == 0 || inputIdx == 128)
      modifies this, input
      ensures Consistent() && inputIdx == 128 && Data() == old(Data()) + block
    {
      hide PaddedWords, Padded, Chain, FullFeeds, Counts;
      if inputIdx == 128 {
        Flush();
      }
      for i := 0 to 16
        modifies input
        invariant forall k :: 0 <= k < i ==> input[k] == Load64(block[8 * k..8 * k + 8])
      {
        input[i] := Load64(block[8 * i..8 * i + 8]);
      }
      forall k | 0 <= k < 16 ensures input[k] == PaddedWords(block)[k] {
        WordLoaded(block, k, block[8 * k..8 * k + 8]);
      }
      inputIdx := 128;
      tail := block;
      assert input[..] == PaddedWords(tail);
    }

    /** The first alignment step: bytes up to a word boundary. */
    method AlignWord(message: seq<u8>) returns (rest: seq<u8>)
      requires Valid()
      modifies this, input
      ensures Valid() && |rest| <= |message| && rest == message[|message| - |rest|..]
      ensures Data() == old(Data()) + message[..|message| - |rest|]
      ensures inputIdx % 8 == 0 || rest == []
    {
      hide PaddedWords, Padded, Compressed, Gap;
      var n := 0;
      GapIs(inputIdx);
      if inputIdx % 8 != 0 {
        n := if Gap(inputIdx, 8) < |message| then Gap(inputIdx, 8) else |message|;
        AppendBytes(message[..n]);
      }
      rest := message[n..];
    }

    /** The second alignment step: words up to a block boundary. */
    method AlignBlock(message: seq<u8>) returns (rest: seq<u8>)
      requires Valid() && (inputIdx % 8 == 0 || message == [])
      modifies this, input
      ensures Valid() && |rest| <= |message| && rest == message[|message| - |rest|..]
      ensures Data() == old(Data()) + message[..|message| - |rest|]
      ensures Aligned(|rest|)
    {
      hide PaddedWords, Padded, Compressed, Gap;
      var words := 0;
      GapIs(inputIdx);
      if inputIdx % 128 != 0 {
        words := (if Gap(inputIdx, 128) < |message| then Gap(inputIdx, 128) else |message|) / 8;
        AlignNumbers(inputIdx, |message|, words);
        AppendWords(inputIdx / 8, message[..8 * words]);
      }
      rest := message[8 * words..];
    }

    /** Ready for n more bytes: on a block boundary, or with room for all of them and no whole word
    left to load. */
    ghost predicate Aligned(n: nat)
      reads this
    {
      inputIdx == 0 || inputIdx == 128 || (inputIdx + n < 128 && n < 8 && (n == 0 || inputIdx % 8 == 0))
    }

    /** The blocks of the message, then what remains of it. */
    method Bulk(message: seq<u8>)
      requires Valid()
      requires Aligned(|message|)
      modifies this, input
      ensures Valid() && Data() == old(Data()) + message
    {
      hide PaddedWords, Padded, Chain, FullFeeds, Counts;
      var n := |message| / 128;
      ghost var before := Data();
      for i := 0 to n
        invariant Consistent() && Data() == before + message[..128 * i]
        invariant i > 0 ==> inputIdx == 128
        invariant i == 0 ==> Valid() && inputIdx == old(inputIdx)
      {
        NextBlock(message[128 * i..128 * i + 128]);
        assert message[..128 * (i + 1)] == message[..128 * i] + message[128 * i..128 * i + 128];
      }
      Remainder(message[128 * n..]);
      assert message == message[..128 * n] + message[128 * n..];
    }

    /** Less than a block: flush if needed, then words, then bytes. */
    method Remainder(message: seq<u8>)
      requires Valid() && |message| < 128
      requires Aligned(|message|)
      modifies this, input
      ensures Valid() && Data() == old(Data()) + message
    {
      hide PaddedWords, Compressed;
      if message == [] {
        return;
      }
      if inputIdx == 128 {
        Flush();
        inputIdx := 0;
      }
      if inputIdx == 0 {
        Clear();
      }
      var words := |message| / 8;
      ghost var before := Data();
      AppendWords(0, message[..8 * words]);
      AppendBytes(message[8 * words..]);
      CutOnce(before, message, 8 * words);
    }

    /** `ZERO(ctx->input, 16)` */
    method Clear()
      requires input.Length == 16 && inputIdx == |tail| == 0 && Compressed()
      modifies input
      ensures Consistent()
    {
      hide PaddedWords, Compressed;
      for i := 0 to 16
        modifies input
        invariant forall k :: 0 <= k < i ==> input[k] == 0
      {
        input[i] := 0;
      }
      NoWords();
      assert input[..] == PaddedWords([]);
    }

    /** `crypto_blake2b_update` */
    method Update(message: seq<u8>)
      requires Valid()
      modifies this, input
      ensures Valid() && Data() == old(Data()) + message
    {
      hide Consistent, Data;
      ghost var before := Data();
      assert before + [] == before;
      if message == [] {
        return;
      }
      var more := AlignWord(message);
      var rest := AlignBlock(more);
      Bulk(rest);
      CutTwice(before, message, more, rest);
    }

    /** `crypto_blake2b_final`: what was fed to the compression function is what the one-shot
    hash feeds it. */
    method Final() returns (out: seq<u8>)
      requires Valid()
      modifies this
      ensures fed == AllFeeds(old(Data()))
      ensures out == StoreWords(Chain(f, initial, fed))[..if hashSize < 64 then hashSize as int else 64]
    {
      hide PaddedWords, Padded, FullFeeds, AllFeeds, Counts, StoreWords, FeedOf, Chain;
      ghost var before := fed;
      Compress(true);
      ChainNext(f, initial, before, fed[|before|]);
      FeedIs(tail, |done + tail|, true, offset0, offset1);
      AllFeedsIs(done, tail);
      var size := if hashSize < 64 then hashSize as int else 64;
      var words := size / 8;
      out := StoreWords(hash[..words]);
      StorePrefix(hash, words);
      assert StoreWords(hash)[..size][..8 * words] == out;
      for i := 8 * words to size
        modifies {}
        invariant out == StoreWords(hash)[..i]
      {
        StoredByte(hash, i);
        out := out + [(Shr(hash[i / 8] as nat, 8 * (i % 8)) % 0x100) as u8];
      }
    }
  }

  lemma CutOnce(before: seq<u8>, message: seq<u8>, n: nat)
    requires n <= |message|
    ensures before + message[..n] + message[n..] == before + message
  {
    assert message[..n] + message[n..] == message;
  }

  lemma CutTwice(before: seq<u8>, message: seq<u8>, more: seq<u8>, rest: seq<u8>)
    requires |rest| <= |more| <= |message| && more == message[|message| - |more|..] && rest == more[|more| - |rest|..]
    ensures before + message[..|message| - |more|] + more[..|more| - |rest|] + rest == before + message
  {
    assert message[..|message| - |more|] + more[..|more| - |rest|] + rest == message;
  }

  lemma AlignNumbers(x: nat, n: nat, words: nat)
    requires x % 128 != 0 && x < 128 && words == (if 128 - x < n then 128 - x else n) / 8
    requires x % 8 == 0 || n == 0
    ensures 8 * words <= n && x + 8 * words <= 128
    ensures x + 8 * words == 128 || (x + n < 128 && n - 8 * words < 8 && (n - 8 * words == 0 || (x + 8 * words) % 8 == 0))
  {
  }

  lemma GapIs(x: nat)
    requires x <= 128
    ensures Gap(x, 8) == (if x % 8 == 0 then 0 else 8 - x % 8)
    ensures Gap(x, 128) == (if x == 0 || x == 128 then 0 else 128 - x)
  {
  }

  lemma NoWords()
    ensures PaddedWords([]) == seq(16, _ => 0)
  {
    hide Padded;
    forall k | 0 <= k < 16 ensures PaddedWords([])[k] == 0 {
      assert Padded([])[8 * k..8 * k + 8] == Zeros(8);
      LEOfZeros(8);
    }
  }

  lemma CountNext(x0: u64, x1: u64, n: nat, y: nat)
    requires Counts(x0, x1, n) && y <= 128
    ensures var z0 := ((x0 as nat + y) % 0x1_0000_0000_0000_0000) as u64;
      Counts(z0, if (z0 as nat) < y then ((x1 as nat + 1) % 0x1_0000_0000_0000_0000) as u64 else x1, n + y)
  {
    var m := 0x1_0000_0000_0000_0000;
    var low, high := n % m, n / m;
    if low + y < m {
      ModUnique(n + y, m, high, low + y);
    } else {
      ModUnique(n + y, m, high + 1, low + y - m);
      AddCong(high, x1 as nat, 1, 1, m);
    }
  }

  lemma ChainNext(f: Compression, h: State, feeds: seq<Feed>, feed: Feed)
    ensures Chain(f, h, feeds + [feed]) == f(Chain(f, h, feeds), feed)
  {
    assert (feeds + [feed])[..|feeds|] == feeds;
  }

  lemma FeedIs(tail: seq<u8>, count: nat, last: bool, x0: u64, x1: u64)
    requires |tail| <= 128 && Counts(x0, x1, count)
    ensures Feed(PaddedWords(tail), x0, x1, last) == FeedOf(tail, count, last)
  {
  }

  lemma FullFeedsNext(done: seq<u8>, tail: seq<u8>)
    requires |done| % 128 == 0 && |tail| == 128
    ensures |done + tail| % 128 == 0
    ensures FullFeeds(done + tail) == FullFeeds(done) + [FeedOf(tail, |done + tail|, false)]
  {
    hide FeedOf;
    var all := done + tail;
    assert all[..|all| - 128] == done && all[|all| - 128..] == tail;
  }

  lemma LastBlockStart(d: nat, t: nat)
    requires d % 128 == 0 && 0 < t <= 128
    ensures (d + t - 1) / 128 * 128 == d
  {
    ModUnique(d + t - 1, 128, d / 128, t - 1);
  }

  /** The buffered block is the final one. */
  lemma AllFeedsIs(done: seq<u8>, tail: seq<u8>)
    requires |done| % 128 == 0 && |tail| <= 128 && (tail == [] ==> done == [])
    ensures AllFeeds(done + tail) == FullFeeds(done) + [FeedOf(tail, |done + tail|, true)]
  {
    hide *;
    if tail != [] {
      LastBlockStart(|done|, |tail|);
    }
    AllFeedsAt(done + tail, done, tail);
  }

  lemma AllFeedsAt(data: seq<u8>, done: seq<u8>, tail: seq<u8>)
    requires data == done + tail && |done| == (if data == [] then 0 else (|data| - 1) / 128 * 128)
    ensures |done| % 128 == 0 && |tail| <= 128
    ensures AllFeeds(data) == FullFeeds(done) + [FeedOf(tail, |data|, true)]
  {
    hide FeedOf, FullFeeds;
    assert data[..|done|] == done && data[|done|..] == tail;
  }

  lemma {:induction false} StorePrefix(w: seq<u64>, n: nat)
    requires n <= |w|
    ensures StoreWords(w)[..8 * n] == StoreWords(w[..n])
  {
    if n < |w| {
      StorePrefix(w[..|w| - 1], n);
      assert w[..|w| - 1][..n] == w[..n];
    } else {
      assert w[..n] == w;
    }
  }

  lemma StoredByte(w: seq<u64>, i: nat)
    requires i < 8 * |w|
    ensures StoreWords(w)[..i + 1] == StoreWords(w)[..i] + [(Shr(w[i / 8] as nat, 8 * (i % 8)) % 0x100) as u8]
  {
    hide StoreWords;
    StoredByteIs(w, i);
  }

  lemma StoredByteIs(w: seq<u64>, i: nat)
    requires i < 8 * |w|
    ensures StoreWords(w)[i] as nat == Shr(w[i / 8] as nat, 8 * (i % 8)) % 0x100
  {
    var k := i / 8;
    StorePrefix(w, k + 1);
    assert StoreWords(w)[..8 * (k + 1)][i] == StoreWords(w)[i];
    assert w[..k + 1][..k] == w[..k];
    BytesAt(w[k] as nat, 8, i % 8);
  }

  lemma {:induction false} BytesAt(x: nat, n: nat, j: nat)
    requires j < n
    ensures Bytes(x, n)[j] as nat == Shr(x, 8 * j) % 0x100
  {
    hide Shr;
    if j > 0 {
      BytesAt(x / 0x100, n - 1, j - 1);
      ShrByte(x, 8 * (j - 1));
    } else {
      ShrNone(x);
    }
  }

  lemma ShrByte(x: nat, k: nat)
    ensures Shr(x, k + 8) == Shr(x / 0x100, k)
  {
    var y := x / 2 / 2 / 2 / 2;
    assert Shr(x, k + 8) == Shr(x / 2, k + 7) == Shr(x / 2 / 2, k + 6) == Shr(x / 2 / 2 / 2, k + 5) == Shr(y, k + 4);
    assert Shr(y, k + 4) == Shr(y / 2, k + 3) == Shr(y / 2 / 2, k + 2) == Shr(y / 2 / 2 / 2, k + 1)
           == Shr(y / 2 / 2 / 2 / 2, k);
    assert y == x / 16 && y / 2 / 2 / 2 / 2 == y / 16;
  }

  /** `crypto_blake2b_keyed`, with the message in any number of updates: the hash does not depend
  on how it is cut. */
  method HashChunks(f: Compression, hashSize: u64, key: seq<u8>, chunks: seq<seq<u8>>) returns (out: seq<u8>)
    requires |key| <= 128
    ensures out == Hash(f, hashSize, key, Flatten(chunks))
  {
    hide *;
    var ctx := new Context(f, hashSize, key);
    ghost var prefix := ctx.Data();
    AtStart(prefix, chunks);
    for i := 0 to |chunks|
      invariant fresh(ctx) && fresh(ctx.input)
      invariant ctx.f == f && ctx.hashSize == hashSize && ctx.initial == InitialState(hashSize, |key|)
      invariant ctx.Valid() && ctx.Data() == prefix + Flatten(chunks[..i])
    {
      ctx.Update(chunks[i]);
      FlattenNext(chunks, i);
      SeqAssoc(prefix, Flatten(chunks[..i]), chunks[i]);
    }
    assert chunks[..|chunks|] == chunks;
    ghost var data := ctx.Data();
    out := ctx.Final();
    HashIs(f, hashSize, key, Flatten(chunks), data, out);
  }

  lemma AtStart(prefix: seq<u8>, chunks: seq<seq<u8>>)
    ensures prefix == prefix + Flatten(chunks[..0])
  {
  }

  lemma SeqAssoc(a: seq<u8>, b: seq<u8>, c: seq<u8>)
    ensures a + b + c == a + (b + c)
  {
  }

  /** The output for the whole data is the hash. */
  lemma HashIs(f: Compression, hashSize: u64, key: seq<u8>, message: seq<u8>, data: seq<u8>, out: seq<u8>)
    requires |key| <= 128 && data == (if key == [] then [] else Padded(key)) + message
    requires out == StoreWords(Chain(f, InitialState(hashSize, |key|), AllFeeds(data)))
                    [..if hashSize < 64 then hashSize as int else 64]
    ensures out == Hash(f, hashSize, key, message)
  {
    hide Padded, AllFeeds, Chain, StoreWords, InitialState;
  }
}
