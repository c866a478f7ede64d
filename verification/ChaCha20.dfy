/** ChaCha20 in counter mode (common/monocypher.cpp:202-290; sections 2.3 and 2.4 of RFC 8439).
The twenty rounds themselves are a parameter. */
module ChaCha20 {
  import opened Words
  import opened Chunks
  import opened Options

  /** A block of 16 words. */
  type Words16 = s: seq<u32> | |s| == 16 witness [0, 0, 0, 0, 0, 0, 0, 0, 0, 0, 0, 0, 0, 0, 0, 0]

  type Rounds = Words16 -> Words16

  // --------------------------------------------------------------------- specification

  /** "expand 32-byte k", as four little-endian words. */
  const CONSTANT: seq<u32> := [0x61707865, 0x3320646e, 0x79622d32, 0x6b206574]

  function TextBytes(text: string): (s: seq<u8>)
    requires forall i :: 0 <= i < |text| ==> text[i] < 128 as char
    ensures |s| == |text|
  {
    seq(|text|, i requires 0 <= i < |text| => text[i] as int as u8)
  }

  lemma ConstantIsText()
    ensures CONSTANT == LoadLimbs(TextBytes("expand 32-byte k"))
  {
    var s := TextBytes("expand 32-byte k");
    hide LE, Val, LoadLimbs;
    WordOfText(s, 0);
    WordOfText(s, 1);
    WordOfText(s, 2);
    WordOfText(s, 3);
    assert CONSTANT[0] == LoadLimbs(s)[0] && CONSTANT[1] == LoadLimbs(s)[1];
    assert CONSTANT[2] == LoadLimbs(s)[2] && CONSTANT[3] == LoadLimbs(s)[3];
  }

  lemma WordOfText(s: seq<u8>, k: nat)
    requires s == TextBytes("expand 32-byte k") && k < 4
    ensures LoadLimbs(s)[k] == CONSTANT[k]
  {
    LimbAt(s, k);
    hide LE, Val, LoadLimbs;
    var text := "expand 32-byte k";
    assert k == 0 || k == 1 || k == 2 || k == 3;
    assert text[4 * k] as int + text[4 * k + 1] as int * 0x100 + text[4 * k + 2] as int * 0x1_0000
           + text[4 * k + 3] as int * 0x100_0000 == CONSTANT[k] as int;
  }

  const M64: int := 0x1_0000_0000_0000_0000

  /** The initial state: constant, key, 64-bit counter, nonce. */
  function InitialWords(key: seq<u8>, nonce: seq<u8>, ctr: u64): (w: Words16)
    requires |key| == 32 && |nonce| == 8
  {
    CONSTANT + LoadLimbs(key) + [Lo32(ctr), Hi32(ctr)] + LoadLimbs(nonce)
  }

  function AddMod32(x: u32, y: u32): u32 {
    ((x as int + y as int) % 0x1_0000_0000) as u32
  }

  function SumWords(x: Words16, y: Words16): (w: Words16)
    ensures forall j {:trigger w[j]} :: 0 <= j < 16 ==> w[j] == AddMod32(x[j], y[j])
  {
    seq(16, j requires 0 <= j < 16 => AddMod32(x[j], y[j]))
  }

  /** The 64 bytes of keystream at a counter. */
  function StreamBlock(rounds: Rounds, key: seq<u8>, nonce: seq<u8>, ctr: u64): (b: seq<u8>)
    requires |key| == 32 && |nonce| == 8
    ensures |b| == 64
  {
    var w := InitialWords(key, nonce, ctr);
    StoreLimbs(SumWords(rounds(w), w))
  }

  /** The counter n steps later; it wraps around after 2^64 blocks. */
  function Advance(ctr: u64, n: nat): u64 {
    ((ctr as int + n) % M64) as u64
  }

  /** The keystream, byte by byte. */
  function Keystream(rounds: Rounds, key: seq<u8>, nonce: seq<u8>, ctr: u64, size: nat): (s: seq<u8>)
    requires |key| == 32 && |nonce| == 8
    ensures |s| == size
  {
    seq(size, i requires 0 <= i => StreamBlock(rounds, key, nonce, Advance(ctr, i / 64))[i % 64])
  }

  function Xor8(a: u8, b: u8): u8 {
    assert BitXor(a as nat, b as nat) < 0x100 by {
      SmallPowers();
      XorBound(a as nat, b as nat, 8);
    }
    BitXor(a as nat, b as nat) as u8
  }

  function XorBytes(s: seq<u8>, t: seq<u8>): (r: seq<u8>)
    requires |s| == |t|
    ensures |r| == |s|
  {
    seq(|s|, i requires 0 <= i < |s| => Xor8(s[i], t[i]))
  }

  /** Encryption: the text, XORed with the keystream. */
  function Crypt(rounds: Rounds, key: seq<u8>, nonce: seq<u8>, ctr: u64, text: seq<u8>): (r: seq<u8>)
    requires |key| == 32 && |nonce| == 8
    ensures |r| == |text|
  {
    XorBytes(Keystream(rounds, key, nonce, ctr, |text|), text)
  }

  /** How many blocks a text takes. */
  function BlockCount(size: nat): nat {
    (size + 63) / 64
  }

  /** Decryption is encryption. */
  lemma CryptInvolution(rounds: Rounds, key: seq<u8>, nonce: seq<u8>, ctr: u64, text: seq<u8>)
    requires |key| == 32 && |nonce| == 8
    ensures Crypt(rounds, key, nonce, ctr, Crypt(rounds, key, nonce, ctr, text)) == text
  {
    hide Keystream;
    var k := Keystream(rounds, key, nonce, ctr, |text|);
    forall i | 0 <= i < |text| ensures Xor8(k[i], Xor8(k[i], text[i])) == text[i] {
      Xor8Twice(k[i], text[i]);
    }
  }

  lemma Xor8Twice(k: u8, t: u8)
    ensures Xor8(k, Xor8(k, t)) == t
  {
    XorComm(k as nat, t as nat);
    XorComm(k as nat, BitXor(t as nat, k as nat));
    XorCancel(t as nat, k as nat);
  }

  /** A text can be cut at any block boundary: the rest continues at the counter that follows. */
  lemma CryptCut(rounds: Rounds, key: seq<u8>, nonce: seq<u8>, ctr: u64, a: seq<u8>, b: seq<u8>)
    requires |key| == 32 && |nonce| == 8 && |a| % 64 == 0
    ensures Crypt(rounds, key, nonce, ctr, a + b)
            == Crypt(rounds, key, nonce, ctr, a) + Crypt(rounds, key, nonce, Advance(ctr, BlockCount(|a|)), b)
  {
    hide Keystream, XorBytes, Advance, BlockCount;
    KeystreamCut(rounds, key, nonce, ctr, |a|, |b|);
    XorBytesConcat(Keystream(rounds, key, nonce, ctr, |a|), a,
                   Keystream(rounds, key, nonce, Advance(ctr, BlockCount(|a|)), |b|), b);
    assert |a + b| == |a| + |b|;
  }

  lemma XorBytesConcat(k: seq<u8>, a: seq<u8>, l: seq<u8>, b: seq<u8>)
    requires |k| == |a| && |l| == |b|
    ensures XorBytes(k + l, a + b) == XorBytes(k, a) + XorBytes(l, b)
  {
    hide Xor8;
  }

  lemma KeystreamCut(rounds: Rounds, key: seq<u8>, nonce: seq<u8>, ctr: u64, m: nat, n: nat)
    requires |key| == 32 && |nonce| == 8 && m % 64 == 0
    ensures Keystream(rounds, key, nonce, ctr, m + n)
            == Keystream(rounds, key, nonce, ctr, m) + Keystream(rounds, key, nonce, Advance(ctr, BlockCount(m)), n)
  {
    hide StreamBlock, Advance;
    var c := Advance(ctr, BlockCount(m));
    forall i | 0 <= i < n
      ensures Advance(ctr, (m + i) / 64) == Advance(c, i / 64) && (m + i) % 64 == i % 64
    {
      BlockOffset(m, i);
      AdvanceTwice(ctr, m / 64, i / 64);
    }
  }

  lemma BlockOffset(m: nat, i: nat)
    requires m % 64 == 0
    ensures BlockCount(m) == m / 64 && (m + i) / 64 == m / 64 + i / 64 && (m + i) % 64 == i % 64
  {
  }

  lemma AdvanceTwice(ctr: u64, m: nat, n: nat)
    ensures Advance(Advance(ctr, m), n) == Advance(ctr, m + n)
  {
    AddCong(ctr as int + m, (ctr as int + m) % M64, n, n, M64);
  }

  // ----------------------------------------------------------------------- word-wise XOR

  function Xor32(a: u32, b: u32): (x: u32)
    ensures x as nat == BitXor(a as nat, b as nat)
  {
    assert BitXor(a as nat, b as nat) < 0x1_0000_0000 by {
      SmallPowers();
      XorBound(a as nat, b as nat, 32);
    }
    BitXor(a as nat, b as nat) as u32
  }

  lemma {:induction false} XorOfBytes(s: seq<u8>, t: seq<u8>)
    requires |s| == |t|
    ensures BitXor(LE(s), LE(t)) == LE(XorBytes(s, t))
  {
    if s == [] {
      assert BitXor(0, 0) == 0;
    } else {
      hide BitXor, XorBytes;
      XorOfBytes(s[1..], t[1..]);
      XorBytesHead(s, t);
      XorLow(s[0], LE(s[1..]), t[0], LE(t[1..]));
    }
  }

  lemma XorBytesHead(s: seq<u8>, t: seq<u8>)
    requires |s| == |t| && s != []
    ensures XorBytes(s, t)[0] == Xor8(s[0], t[0]) && XorBytes(s, t)[1..] == XorBytes(s[1..], t[1..])
  {
    hide Xor8;
  }

  lemma XorLow(a: u8, b: nat, c: u8, d: nat)
    ensures BitXor(a as nat + 0x100 * b, c as nat + 0x100 * d) == Xor8(a, c) as nat + 0x100 * BitXor(b, d)
  {
    hide BitXor, Pow2, Shl;
    SmallPowers();
    ShlIsMul(b, 8);
    ShlIsMul(d, 8);
    ShlIsMul(BitXor(b, d), 8);
    XorShl(a as nat, b, c as nat, d, 8);
  }

  lemma LEInjective(s: seq<u8>, t: seq<u8>)
    requires |s| == |t| && LE(s) == LE(t)
    ensures s == t
  {
    BytesOfLE(s);
    BytesOfLE(t);
  }

  /** XOR of words is XOR of their bytes. */
  lemma XorOfWord(p: u32, t: seq<u8>)
    requires |t| == 4
    ensures Store32(Xor32(p, Load32(t))) == XorBytes(Store32(p), t)
  {
    hide Xor32, Store32, Load32, XorBytes, LE;
    XorOfBytes(Store32(p), t);
    LEInjective(Store32(Xor32(p, Load32(t))), XorBytes(Store32(p), t));
  }

  lemma {:induction false} StoredWord(w: seq<u32>, k: nat)
    requires k < |w|
    ensures StoreLimbs(w)[4 * k..4 * k + 4] == Store32(w[k])
  {
    hide LE, Val, Store32;
    var n := |w| - 1;
    assert StoreLimbs(w) == StoreLimbs(w[..n]) + Store32(w[n]);
    if k < n {
      StoredWord(w[..n], k);
    }
  }

  /** One whole block: sixteen words of keystream, each XORed with a word of the text. */
  method XorBlock(pool: Words16, input: Words16, text: seq<u8>) returns (out: seq<u8>)
    requires |text| == 64
    ensures out == XorBytes(StoreLimbs(SumWords(pool, input)), text)
  {
    hide LE, Val, StoreLimbs, Store32, Xor8, Xor32, Load32;
    ghost var stream := StoreLimbs(SumWords(pool, input));
    out := [];
    for j := 0 to 16
      invariant |out| == 4 * j && out == XorBytes(stream[..4 * j], text[..4 * j])
    {
      var p := AddMod32(pool[j], input[j]);
      XorOfWord(p, text[4 * j..4 * j + 4]);
      StoredWord(SumWords(pool, input), j);
      out := out + Store32(Xor32(p, Load32(text[4 * j..4 * j + 4])));
      XorBytesNext(stream, text, 4 * j, 4);
    }
    assert stream[..64] == stream && text[..64] == text;
  }

  lemma XorBytesNext(s: seq<u8>, t: seq<u8>, i: nat, n: nat)
    requires |s| == |t| && i + n <= |s|
    ensures XorBytes(s[..i + n], t[..i + n]) == XorBytes(s[..i], t[..i]) + XorBytes(s[i..i + n], t[i..i + n])
  {
  }

  /** One whole block of bare keystream. */
  method StoreBlock(pool: Words16, input: Words16) returns (out: seq<u8>)
    ensures out == StoreLimbs(SumWords(pool, input))
  {
    hide LE, Val, StoreLimbs, Store32;
    ghost var stream := StoreLimbs(SumWords(pool, input));
    out := [];
    for j := 0 to 16
      invariant |out| == 4 * j && out == stream[..4 * j]
    {
      StoredWord(SumWords(pool, input), j);
      out := out + Store32(AddMod32(pool[j], input[j]));
      assert stream[..4 * (j + 1)] == stream[..4 * j] + stream[4 * j..4 * j + 4];
    }
    assert stream[..64] == stream;
  }

  // -------------------------------------------------------------------- crypto_chacha20_djb

  /** The next counter, over two words: the low one carries into the high one. */
  lemma CounterNext(c: u64)
    ensures Lo32(Advance(c, 1)) == AddMod32(Lo32(c), 1)
    ensures Hi32(Advance(c, 1)) == if AddMod32(Lo32(c), 1) == 0 then AddMod32(Hi32(c), 1) else Hi32(c)
  {
    var low, high := c as int % 0x1_0000_0000, c as int / 0x1_0000_0000;
    assert c as int == low + 0x1_0000_0000 * high;
    if c as int + 1 < M64 {
      ModUnique(c as int + 1, M64, 0, c as int + 1);
    } else {
      ModUnique(c as int + 1, M64, 1, 0);
    }
  }

  /** The state at counter c becomes the state at c + 1. */
  lemma WordsNext(key: seq<u8>, nonce: seq<u8>, c: u64)
    requires |key| == 32 && |nonce| == 8
    ensures var w := InitialWords(key, nonce, c);
      w[12] == Lo32(c) && w[13] == Hi32(c)
      && w[12 := Lo32(Advance(c, 1))][13 := Hi32(Advance(c, 1))] == InitialWords(key, nonce, Advance(c, 1))
  {
    hide LoadLimbs, Lo32, Hi32, Advance;
  }

  lemma CryptNext(rounds: Rounds, key: seq<u8>, nonce: seq<u8>, ctr: u64, text: seq<u8>, i: nat, n: nat)
    requires |key| == 32 && |nonce| == 8 && n <= 64 && 64 * i + n <= |text|
    ensures Crypt(rounds, key, nonce, ctr, text[..64 * i + n])
            == Crypt(rounds, key, nonce, ctr, text[..64 * i])
               + XorBytes(StreamBlock(rounds, key, nonce, Advance(ctr, i))[..n], text[64 * i..64 * i + n])
  {
    hide Crypt, XorBytes;
    var a, b := text[..64 * i], text[64 * i..64 * i + n];
    assert text[..64 * i + n] == a + b;
    assert BlockCount(64 * i) == i;
    CryptCut(rounds, key, nonce, ctr, a, b);
    FirstBlock(rounds, key, nonce, Advance(ctr, i), b);
  }

  lemma FirstBlock(rounds: Rounds, key: seq<u8>, nonce: seq<u8>, ctr: u64, text: seq<u8>)
    requires |key| == 32 && |nonce| == 8 && |text| <= 64
    ensures Crypt(rounds, key, nonce, ctr, text) == XorBytes(StreamBlock(rounds, key, nonce, ctr)[..|text|], text)
  {
    hide StreamBlock, XorBytes;
    var k := Keystream(rounds, key, nonce, ctr, |text|);
    forall i | 0 <= i < |text| ensures k[i] == StreamBlock(rounds, key, nonce, ctr)[i] {
      BlockStart(ctr, i);
    }
    assert k == StreamBlock(rounds, key, nonce, ctr)[..|text|];
  }

  lemma BlockStart(ctr: u64, i: nat)
    requires i < 64
    ensures i / 64 == 0 && i % 64 == i && Advance(ctr, 0) == ctr
  {
  }

  /** The text, or zeros when the caller passes none. */
  ghost function TextOf(plain: Option<seq<u8>>, size: nat): (t: seq<u8>)
    requires plain.Some? ==> |plain.value| == size
    ensures |t| == size
  {
    if plain.Some? then plain.value else Zeros(size)
  }

  lemma XorZeros(s: seq<u8>)
    ensures XorBytes(s, Zeros(|s|)) == s
  {
    forall i | 0 <= i < |s| ensures Xor8(s[i], 0) == s[i] {
      XorZero(s[i] as nat);
    }
  }

  /** `input[12]++`, and `input[13]++` on a carry. */
  method NextInput(input: Words16, ghost key: seq<u8>, ghost nonce: seq<u8>, ghost c: u64) returns (next: Words16)
    requires |key| == 32 && |nonce| == 8 && input == InitialWords(key, nonce, c)
    ensures next == InitialWords(key, nonce, Advance(c, 1))
  {
    hide InitialWords, Advance, Lo32, Hi32, AddMod32;
    WordsNext(key, nonce, c);
    CounterNext(c);
    next := input[12 := AddMod32(input[12], 1)];
    if next[12] == 0 {
      next := next[13 := AddMod32(next[13], 1)];
    }
  }

  /** `crypto_chacha20_djb`: encrypts, and returns the counter of the first unused block. */
  method Djb(rounds: Rounds, plain: Option<seq<u8>>, size: nat, key: seq<u8>, nonce: seq<u8>, ctr: u64)
    returns (cipher: seq<u8>, next: u64)
    requires |key| == 32 && |nonce| == 8 && (plain.Some? ==> |plain.value| == size)
    ensures cipher == Crypt(rounds, key, nonce, ctr, TextOf(plain, size))
    ensures next == Advance(ctr, BlockCount(size))
  {
    hide *;
    ghost var text := TextOf(plain, size);
    var input := InitialWords(key, nonce, ctr);
    cipher := [];
    BlockStart(ctr, 0);
    CryptNothing(rounds, key, nonce, ctr, text);
    for i := 0 to size / 64
      invariant input == InitialWords(key, nonce, Advance(ctr, i))
      invariant cipher == Crypt(rounds, key, nonce, ctr, text[..64 * i])
    {
      var pool := rounds(input);
      var block := NextBlock(pool, input, plain, size, i);
      BlockIs(rounds, key, nonce, Advance(ctr, i), pool);
      CryptNext(rounds, key, nonce, ctr, text, i, 64);
      assert 64 * (i + 1) == 64 * i + 64;
      cipher := cipher + block;
      AdvanceTwice(ctr, i, 1);
      input := NextInput(input, key, nonce, Advance(ctr, i));
    }
    var n := size / 64;
    var rest := size % 64;
    if rest > 0 {
      var pool := rounds(input);
      var tail := LastBlock(pool, input, plain, size, n);
      BlockIs(rounds, key, nonce, Advance(ctr, n), pool);
      CryptNext(rounds, key, nonce, ctr, text, n, rest);
      cipher := cipher + tail;
    }
    assert text[..64 * n + rest] == text;
    WordsNext(key, nonce, Advance(ctr, n));
    next := CounterOf(input[12], input[13], rest > 0);
    NextCounter(ctr, size, next);
  }

  lemma CryptNothing(rounds: Rounds, key: seq<u8>, nonce: seq<u8>, ctr: u64, text: seq<u8>)
    requires |key| == 32 && |nonce| == 8
    ensures Crypt(rounds, key, nonce, ctr, text[..64 * 0]) == []
  {
  }

  lemma BlockIs(rounds: Rounds, key: seq<u8>, nonce: seq<u8>, c: u64, pool: Words16)
    requires |key| == 32 && |nonce| == 8 && pool == rounds(InitialWords(key, nonce, c))
    ensures StoreLimbs(SumWords(pool, InitialWords(key, nonce, c))) == StreamBlock(rounds, key, nonce, c)
    ensures StreamBlock(rounds, key, nonce, c)[..64] == StreamBlock(rounds, key, nonce, c)
  {
    hide StoreLimbs, InitialWords;
  }

  /** `input[12] + ((u64)input[13] << 32) + (text_size > 0)` */
  function CounterOf(low: u32, high: u32, partial: bool): u64 {
    ((low as int + 0x1_0000_0000 * high as int + (if partial then 1 else 0)) % M64) as u64
  }

  lemma NextCounter(ctr: u64, size: nat, next: u64)
    requires var c := Advance(ctr, size / 64); next == CounterOf(Lo32(c), Hi32(c), size % 64 > 0)
    ensures next == Advance(ctr, BlockCount(size))
  {
    var c := Advance(ctr, size / 64);
    SplitWord(c);
    var last := if size % 64 > 0 then 1 else 0;
    assert BlockCount(size) == size / 64 + last;
    AdvanceTwice(ctr, size / 64, last);
  }

  /** A turn of the whole-block loop, with or without a text. */
  method NextBlock(pool: Words16, input: Words16, plain: Option<seq<u8>>, size: nat, i: nat) returns (out: seq<u8>)
    requires (plain.Some? ==> |plain.value| == size) && 64 * i + 64 <= size
    ensures out == XorBytes(StoreLimbs(SumWords(pool, input)), TextOf(plain, size)[64 * i..64 * i + 64])
  {
    hide XorBytes, StoreLimbs, SumWords;
    match plain
    case Some(text) =>
      out := XorBlock(pool, input, text[64 * i..64 * i + 64]);
    case None =>
      out := StoreBlock(pool, input);
      XorZeros(out);
      assert Zeros(size)[64 * i..64 * i + 64] == Zeros(64);
  }

  /** The last, incomplete block, byte by byte. */
  method LastBlock(pool: Words16, input: Words16, plain: Option<seq<u8>>, size: nat, n: nat) returns (out: seq<u8>)
    requires (plain.Some? ==> |plain.value| == size) && n == size / 64
    ensures out == XorBytes(StoreLimbs(SumWords(pool, input))[..size % 64], TextOf(plain, size)[64 * n..64 * n + size % 64])
  {
    hide StoreLimbs, SumWords, Xor8, XorBytes;
    var rest := size % 64;
    var text := if plain.Some? then plain.value[64 * n..] else Zeros(rest);
    assert text == TextOf(plain, size)[64 * n..64 * n + rest];
    var tmp := StoreBlock(pool, input);
    out := XorTail(tmp[..rest], text);
  }

  /** The byte-by-byte loop. */
  method XorTail(tmp: seq<u8>, text: seq<u8>) returns (out: seq<u8>)
    requires |tmp| == |text|
    ensures out == XorBytes(tmp, text)
  {
    hide Xor8;
    out := [];
    for i := 0 to |text|
      invariant |out| == i && out == XorBytes(tmp[..i], text[..i])
    {
      XorBytesNext(tmp, text, i, 1);
      assert XorBytes(tmp[i..i + 1], text[i..i + 1]) == [Xor8(tmp[i], text[i])];
      out := out + [Xor8(tmp[i], text[i])];
    }
    assert text[..|text|] == text && tmp[..|text|] == tmp;
  }

  // ------------------------------------------------------------------ crypto_chacha20_ietf

  /** The state of section 2.3 of RFC 8439: constant, key, 32-bit counter, 96-bit nonce. */
  function IetfWords(key: seq<u8>, nonce: seq<u8>, ctr: u32): (w: Words16)
    requires |key| == 32 && |nonce| == 12
  {
    CONSTANT + LoadLimbs(key) + [ctr] + LoadLimbs(nonce)
  }

  /** The keystream of section 2.4 of RFC 8439. The counter stays within 32 bits. */
  function IetfKeystream(rounds: Rounds, key: seq<u8>, nonce: seq<u8>, ctr: u32, size: nat): (s: seq<u8>)
    requires |key| == 32 && |nonce| == 12 && ctr as int + BlockCount(size) <= W32
    ensures |s| == size
  {
    seq(size, i requires 0 <= i < size =>
      BlockBound(i, size);
      var w := IetfWords(key, nonce, (ctr as int + i / 64) as u32);
      StoreLimbs(SumWords(rounds(w), w))[i % 64])
  }

  lemma BlockBound(i: nat, size: nat)
    requires i < size
    ensures i / 64 < BlockCount(size)
  {
  }

  /** `ctr + ((u64)load32_le(nonce) << 32)` */
  function BigCounter(nonce: seq<u8>, ctr: u32): u64
    requires |nonce| == 12
  {
    ctr as u64 + 0x1_0000_0000 * (Load32(nonce[..4]) as u64)
  }

  /** The state of block number i: the counter is in word 12, and what it carries is added to the first
  word of the nonce. */
  lemma IetfState(key: seq<u8>, nonce: seq<u8>, ctr: u32, i: nat)
    requires |key| == 32 && |nonce| == 12
    ensures var c := ctr as int + i;
      InitialWords(key, nonce[4..], Advance(BigCounter(nonce, ctr), i))
      == IetfWords(key, nonce, (c % W32) as u32)[13 := ((Load32(nonce[..4]) as int + c / W32) % W32) as u32]
  {
    CounterWords(ctr, Load32(nonce[..4]), i);
    LoadThree(nonce);
    hide LE, Val, Load32, LoadLimbs, Advance, BigCounter, Lo32, Hi32;
  }

  lemma CounterWords(ctr: u32, n0: u32, i: nat)
    ensures var c := ctr as int + i;
      var a := Advance(ctr as u64 + 0x1_0000_0000 * (n0 as u64), i);
      Lo32(a) as int == c % W32 && Hi32(a) as int == (n0 as int + c / W32) % W32
  {
    var c := ctr as int + i;
    var high := n0 as int + c / W32;
    var a := ctr as int + W32 * n0 as int + i;
    assert a == c % W32 + W32 * high;
    ModUnique(a, M64, high / W32, c % W32 + W32 * (high % W32));
    ModUnique(c % W32 + W32 * (high % W32), W32, high % W32, c % W32);
  }

  /** All the blocks have the states of RFC 8439 if and only if the counter does not carry before the
  last one is done. */
  lemma IetfIsRfcIff(key: seq<u8>, nonce: seq<u8>, ctr: u32, blocks: nat)
    requires |key| == 32 && |nonce| == 12
    ensures ctr as int + blocks <= W32 <==>
      forall i {:trigger Advance(BigCounter(nonce, ctr), i)} :: 0 <= i < blocks ==>
        InitialWords(key, nonce[4..], Advance(BigCounter(nonce, ctr), i))
        == IetfWords(key, nonce, ((ctr as int + i) % W32) as u32)
  {
    hide InitialWords, IetfWords, Advance, BigCounter;
    forall i | 0 <= i < blocks && ctr as int + i < W32
      ensures InitialWords(key, nonce[4..], Advance(BigCounter(nonce, ctr), i))
              == IetfWords(key, nonce, ((ctr as int + i) % W32) as u32)
    {
      NoCarry(key, nonce, ctr, i);
    }
    if ctr as int + blocks > W32 {
      FirstCarry(key, nonce, ctr);
    }
  }

  lemma NoCarry(key: seq<u8>, nonce: seq<u8>, ctr: u32, i: nat)
    requires |key| == 32 && |nonce| == 12 && ctr as int + i < W32
    ensures InitialWords(key, nonce[4..], Advance(BigCounter(nonce, ctr), i))
            == IetfWords(key, nonce, ((ctr as int + i) % W32) as u32)
  {
    hide InitialWords, IetfWords, Advance, BigCounter, Load32;
    IetfState(key, nonce, ctr, i);
    NonceWord(key, nonce, ((ctr as int + i) % W32) as u32);
  }

  lemma FirstCarry(key: seq<u8>, nonce: seq<u8>, ctr: u32)
    requires |key| == 32 && |nonce| == 12
    ensures InitialWords(key, nonce[4..], Advance(BigCounter(nonce, ctr), W32 - ctr as int)) != IetfWords(key, nonce, 0)
  {
    hide InitialWords, IetfWords, Advance, BigCounter, Load32;
    IetfState(key, nonce, ctr, W32 - ctr as int);
    NonceWord(key, nonce, 0);
  }

  lemma NonceWord(key: seq<u8>, nonce: seq<u8>, ctr: u32)
    requires |key| == 32 && |nonce| == 12
    ensures IetfWords(key, nonce, ctr)[13] == Load32(nonce[..4])
  {
    LoadThree(nonce);
    hide LE, Val, Load32, LoadLimbs;
  }

  /** `crypto_chacha20_ietf`: the counter and the nonce count on together. The text is encrypted as in
  RFC 8439 as long as the counter stays within 32 bits. */
  method Ietf(rounds: Rounds, plain: Option<seq<u8>>, size: nat, key: seq<u8>, nonce: seq<u8>, ctr: u32)
    returns (cipher: seq<u8>, next: u32)
    requires |key| == 32 && |nonce| == 12 && (plain.Some? ==> |plain.value| == size)
    ensures cipher == Crypt(rounds, key, nonce[4..], BigCounter(nonce, ctr), TextOf(plain, size))
    ensures ctr as int + BlockCount(size) <= W32 ==>
      cipher == XorBytes(IetfKeystream(rounds, key, nonce, ctr, size), TextOf(plain, size))
    ensures next as int == (ctr as int + BlockCount(size)) % W32
  {
    hide *;
    var big;
    cipher, big := Djb(rounds, plain, size, key, nonce[4..], BigCounter(nonce, ctr));
    next := Lo32(big);
    LowCounter(nonce, ctr, BlockCount(size));
    if ctr as int + BlockCount(size) <= W32 {
      IetfStream(rounds, key, nonce, ctr, size);
      CryptWith(rounds, key, nonce[4..], BigCounter(nonce, ctr), TextOf(plain, size));
    }
  }

  lemma LowCounter(nonce: seq<u8>, ctr: u32, n: nat)
    requires |nonce| == 12
    ensures Lo32(Advance(BigCounter(nonce, ctr), n)) as int == (ctr as int + n) % W32
  {
    CounterWords(ctr, Load32(nonce[..4]), n);
  }

  lemma IetfStream(rounds: Rounds, key: seq<u8>, nonce: seq<u8>, ctr: u32, size: nat)
    requires |key| == 32 && |nonce| == 12 && ctr as int + BlockCount(size) <= W32
    ensures Keystream(rounds, key, nonce[4..], BigCounter(nonce, ctr), size) == IetfKeystream(rounds, key, nonce, ctr, size)
  {
    hide InitialWords, IetfWords, Advance, BigCounter, StoreLimbs, SumWords;
    IetfIsRfcIff(key, nonce, ctr, BlockCount(size));
    forall i | 0 <= i < size
      ensures InitialWords(key, nonce[4..], Advance(BigCounter(nonce, ctr), i / 64))
              == (BlockBound(i, size); IetfWords(key, nonce, (ctr as int + i / 64) as u32))
    {
      BlockBound(i, size);
      var c := Advance(BigCounter(nonce, ctr), i / 64);
    }
  }

  lemma CryptWith(rounds: Rounds, key: seq<u8>, nonce: seq<u8>, ctr: u64, text: seq<u8>)
    requires |key| == 32 && |nonce| == 8
    ensures Crypt(rounds, key, nonce, ctr, text) == XorBytes(Keystream(rounds, key, nonce, ctr, |text|), text)
  {
  }

  lemma LoadThree(s: seq<u8>)
    requires |s| == 12
    ensures LoadLimbs(s) == [Load32(s[..4])] + LoadLimbs(s[4..])
  {
    hide LE, Val, Load32;
    assert LoadLimbs(s) == LoadLimbs(s[..8]) + [Load32(s[8..])];
    assert LoadLimbs(s[..8]) == LoadLimbs(s[..8][..4]) + [Load32(s[..8][4..])];
    assert LoadLimbs(s[..4]) == LoadLimbs([]) + [Load32(s[..4])] by { assert s[..4][..0] == [] && s[..4][0..] == s[..4]; }
    assert s[..8][..4] == s[..4];
    var t := s[4..];
    assert LoadLimbs(t) == LoadLimbs(t[..4]) + [Load32(t[4..])];
    assert LoadLimbs(t[..4]) == LoadLimbs([]) + [Load32(t[..4])] by { assert t[..4][..0] == [] && t[..4][0..] == t[..4]; }
    assert t[4..] == s[8..] && t[..4] == s[..8][4..];
  }
}
