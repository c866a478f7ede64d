/** Authenticated encryption with a ratcheting key (common/monocypher.cpp:144-162 and 2887-2984;
section 2.8 of RFC 8439). */
module Aead {
  import opened Words
  import opened Chunks
  import opened Options
  import opened ChaCha20
  import Poly1305

  // --------------------------------------------------------------- constant-time compare

  /** `neq0`: 0 when diff is 0, else -1. */
  function Neq0(diff: u64): (r: int)
    ensures r == if diff == 0 then 0 else -1
  {
    Neq0Numbers(diff);
    var half := BitOr(Hi32(diff) as nat, Lo32(diff) as nat);
    var eq0 := (half - 1) % M64 / 0x1_0000_0000 % 2;
    eq0 - 1
  }

  lemma Neq0Numbers(diff: u64)
    ensures var half := BitOr(Hi32(diff) as nat, Lo32(diff) as nat);
      half < 0x1_0000_0000 && (half == 0 <==> diff == 0)
  {
    hide BitOr;
    OrZeroIffBothZero(Hi32(diff) as nat, Lo32(diff) as nat);
    SmallPowers();
    OrBound(Hi32(diff) as nat, Lo32(diff) as nat, 32);
    SplitWord(diff);
  }

  lemma {:induction false} OrBound(a: nat, b: nat, k: nat)
    requires a < Pow2(k) && b < Pow2(k)
    ensures BitOr(a, b) < Pow2(k)
  {
    if k > 0 && !(a == 0 && b == 0) {
      OrBound(a / 2, b / 2, k - 1);
    }
  }

  /** `x16`: not zero when any byte differs. */
  function X16(a: seq<u8>, b: seq<u8>): (x: u64)
    requires |a| == 16 && |b| == 16
    ensures x == 0 <==> a == b
  {
    X16Numbers(a, b);
    BitOr(BitXor(Load64(a[..8]) as nat, Load64(b[..8]) as nat), BitXor(Load64(a[8..]) as nat, Load64(b[8..]) as nat))
    as u64
  }

  lemma X16Numbers(a: seq<u8>, b: seq<u8>)
    requires |a| == 16 && |b| == 16
    ensures var x := BitXor(Load64(a[..8]) as nat, Load64(b[..8]) as nat);
      var y := BitXor(Load64(a[8..]) as nat, Load64(b[8..]) as nat);
      BitOr(x, y) < M64 && (BitOr(x, y) == 0 <==> a == b)
  {
    hide BitOr, BitXor, LE, Load64;
    var x := BitXor(Load64(a[..8]) as nat, Load64(b[..8]) as nat);
    var y := BitXor(Load64(a[8..]) as nat, Load64(b[8..]) as nat);
    LargePowers();
    XorBound(Load64(a[..8]) as nat, Load64(b[..8]) as nat, 64);
    XorBound(Load64(a[8..]) as nat, Load64(b[8..]) as nat, 64);
    OrBound(x, y, 64);
    OrZeroIffBothZero(x, y);
    XorZeroIffEqual(Load64(a[..8]) as nat, Load64(b[..8]) as nat);
    XorZeroIffEqual(Load64(a[8..]) as nat, Load64(b[8..]) as nat);
    assert a == a[..8] + a[8..] && b == b[..8] + b[8..];
    if x == 0 && y == 0 {
      LEInjective(a[..8], b[..8]);
      LEInjective(a[8..], b[8..]);
    }
  }

  /** `crypto_verify16` */
  function Verify16(a: seq<u8>, b: seq<u8>): (r: int)
    requires |a| == 16 && |b| == 16
    ensures r == if a == b then 0 else -1
  {
    Neq0(X16(a, b))
  }

  // --------------------------------------------------------------------- specification

  /** Zeros up to a multiple of 16. */
  ghost function Pad16(size: nat): seq<u8> {
    Zeros(Gap(size, 16))
  }

  /** What the authenticator covers. */
  ghost function AuthData(ad: seq<u8>, cipher: seq<u8>): seq<u8> {
    ad + Pad16(|ad|) + cipher + Pad16(|cipher|) + (Bytes(|ad|, 8) + Bytes(|cipher|, 8))
  }

  /** A context: the two ends of a session hold equal ones. */
  datatype Session = Session(key: seq<u8>, nonce: seq<u8>, counter: u64) {
    ghost predicate Valid() {
      |key| == 32 && |nonce| == 8
    }

    /** The one-time key of the next message, then the next session key. */
    ghost function AuthKey(rounds: Rounds): (k: seq<u8>)
      requires Valid()
      ensures |k| == 64
    {
      Keystream(rounds, key, nonce, counter, 64)
    }

    /** The ratchet. */
    ghost function Next(rounds: Rounds): (s: Session)
      requires Valid()
      ensures s.Valid()
    {
      Session(AuthKey(rounds)[32..], nonce, counter)
    }
  }

  datatype Message = Message(ad: seq<u8>, plain: seq<u8>)

  datatype Sealed = Sealed(ad: seq<u8>, cipher: seq<u8>, mac: seq<u8>)

  ghost function Seal(rounds: Rounds, s: Session, m: Message): Sealed
    requires s.Valid()
  {
    var cipher := Crypt(rounds, s.key, s.nonce, Advance(s.counter, 1), m.plain);
    Sealed(m.ad, cipher, Poly1305.Mac(s.AuthKey(rounds)[..32], AuthData(m.ad, cipher)))
  }

  ghost predicate Authentic(rounds: Rounds, s: Session, c: Sealed)
    requires s.Valid()
  {
    c.mac == Poly1305.Mac(s.AuthKey(rounds)[..32], AuthData(c.ad, c.cipher))
  }

  ghost function Open(rounds: Rounds, s: Session, c: Sealed): seq<u8>
    requires s.Valid()
  {
    Crypt(rounds, s.key, s.nonce, Advance(s.counter, 1), c.cipher)
  }

  /** The session after n messages. */
  ghost function After(rounds: Rounds, s: Session, n: nat): (t: Session)
    requires s.Valid()
    ensures t.Valid()
  {
    if n == 0 then s else After(rounds, s, n - 1).Next(rounds)
  }

  /** A sealed message is authentic, and opens to what was sealed. */
  lemma OpenSeal(rounds: Rounds, s: Session, m: Message)
    requires s.Valid()
    ensures Authentic(rounds, s, Seal(rounds, s, m)) && Open(rounds, s, Seal(rounds, s, m)) == m.plain
  {
    hide Crypt;
    CryptInvolution(rounds, s.key, s.nonce, Advance(s.counter, 1), m.plain);
  }

  /** The AEAD of section 2.8 of RFC 8439. */
  ghost function RfcSeal(rounds: Rounds, key: seq<u8>, nonce: seq<u8>, m: Message): Sealed
    requires |key| == 32 && |nonce| == 12 && BlockCount(|m.plain|) < W32
  {
    var oneTimeKey := IetfKeystream(rounds, key, nonce, 0, 32);
    var cipher := XorBytes(IetfKeystream(rounds, key, nonce, 1, |m.plain|), m.plain);
    Sealed(m.ad, cipher, Poly1305.Mac(oneTimeKey, AuthData(m.ad, cipher)))
  }

  /** The session that `crypto_aead_init_ietf` starts seals its first message as RFC 8439 does. */
  lemma FirstMessageIsRfc(rounds: Rounds, key: seq<u8>, nonce: seq<u8>, m: Message)
    requires |key| == 32 && |nonce| == 12 && BlockCount(|m.plain|) < W32
    ensures var s := Session(key, nonce[4..], Load32(nonce[..4]) as u64 * 0x1_0000_0000);
      s.Valid() && Seal(rounds, s, m) == RfcSeal(rounds, key, nonce, m)
  {
    hide Poly1305.Mac, AuthData, Keystream, IetfKeystream, Crypt, Advance, LE;
    var s := Session(key, nonce[4..], Load32(nonce[..4]) as u64 * 0x1_0000_0000);
    CounterAfter(nonce);
    IetfStream(rounds, key, nonce, 0, 32);
    IetfStream(rounds, key, nonce, 1, |m.plain|);
    CryptWith(rounds, key, nonce[4..], BigCounter(nonce, 1), m.plain);
    KeystreamPrefix(rounds, key, nonce[4..], s.counter, 32, 64);
  }

  lemma CounterAfter(nonce: seq<u8>)
    requires |nonce| == 12
    ensures Load32(nonce[..4]) as u64 * 0x1_0000_0000 == BigCounter(nonce, 0)
    ensures Advance(BigCounter(nonce, 0), 1) == BigCounter(nonce, 1)
  {
    hide Load32;
    var n := Load32(nonce[..4]) as int;
    ModUnique(0x1_0000_0000 * n + 1, M64, 0, 0x1_0000_0000 * n + 1);
  }

  lemma KeystreamPrefix(rounds: Rounds, key: seq<u8>, nonce: seq<u8>, counter: u64, m: nat, n: nat)
    requires |key| == 32 && |nonce| == 8 && m <= n
    ensures Keystream(rounds, key, nonce, counter, n)[..m] == Keystream(rounds, key, nonce, counter, m)
  {
    hide StreamBlock;
  }

  // -------------------------------------------------------------------------- operations

  /** `lock_auth` */
  method LockAuth(authKey: seq<u8>, ad: seq<u8>, cipher: seq<u8>) returns (mac: seq<u8>)
    requires |authKey| == 64
    ensures mac == Poly1305.Mac(authKey[..32], AuthData(ad, cipher)) && |mac| == 16
  {
    hide Poly1305.Mac, Bytes, Gap, Zeros, Poly1305.KeyedBy, Poly1305.Hashed;
    var sizes := Bytes(|ad|, 8) + Bytes(|cipher|, 8);
    var ctx := new Poly1305.Context(authKey[..32]);
    ctx.Update(ad);
    ctx.Update(Zeros(Gap(|ad|, 16)));
    ctx.Update(cipher);
    ctx.Update(Zeros(Gap(|cipher|, 16)));
    ctx.Update(sizes);
    assert ctx.Message() == [] + ad + Pad16(|ad|) + cipher + Pad16(|cipher|) + sizes;
    AuthDataIs(ad, cipher);
    mac := ctx.Final();
  }

  lemma AuthDataIs(ad: seq<u8>, cipher: seq<u8>)
    ensures [] + ad + Pad16(|ad|) + cipher + Pad16(|cipher|) + (Bytes(|ad|, 8) + Bytes(|cipher|, 8)) == AuthData(ad, cipher)
  {
    hide Bytes, Pad16;
    assert [] + ad == ad;
  }

  class Context {
    const counter: u64
    const nonce: seq<u8>
    var key: seq<u8>

    ghost function State(): Session
      reads this
    {
      Session(key, nonce, counter)
    }

    /** `crypto_aead_init_djb` */
    constructor Djb(key: seq<u8>, nonce: seq<u8>)
      requires |key| == 32 && |nonce| == 8
      ensures State() == Session(key, nonce, 0) && State().Valid()
    {
      this.key := key;
      this.nonce := nonce;
      counter := 0;
    }

    /** `crypto_aead_init_ietf` */
    constructor Ietf(key: seq<u8>, nonce: seq<u8>)
      requires |key| == 32 && |nonce| == 12
      ensures State() == Session(key, nonce[4..], Load32(nonce[..4]) as u64 * 0x1_0000_0000) && State().Valid()
    {
      this.key := key;
      this.nonce := nonce[4..];
      counter := Load32(nonce[..4]) as u64 * 0x1_0000_0000;
    }

    /** `crypto_aead_write` */
    method Write(rounds: Rounds, ad: seq<u8>, plain: seq<u8>) returns (cipher: seq<u8>, mac: seq<u8>)
      requires State().Valid()
      modifies this`key
      ensures Sealed(ad, cipher, mac) == Seal(rounds, old(State()), Message(ad, plain))
      ensures |mac| == 16 && State() == old(State()).Next(rounds)
    {
      hide Keystream, Crypt, Advance, Poly1305.Mac, AuthData;
      var authKey := AuthKeyBytes(rounds);
      var next: u64;
      cipher, next := ChaCha20.Djb(rounds, Some(plain), |plain|, key, nonce, Advance(counter, 1));
      mac := LockAuth(authKey, ad, cipher);
      key := authKey[32..];
    }

    /** The first block of keystream. */
    method AuthKeyBytes(rounds: Rounds) returns (authKey: seq<u8>)
      requires State().Valid()
      ensures authKey == State().AuthKey(rounds)
    {
      hide Keystream, Zeros, XorBytes;
      var next: u64;
      authKey, next := ChaCha20.Djb(rounds, None, 64, key, nonce, counter);
      XorZeros(Keystream(rounds, key, nonce, counter, 64));
    }

    /** `crypto_aead_read`: on a mismatch nothing is written and nothing changes. */
    method Read(rounds: Rounds, mac: seq<u8>, ad: seq<u8>, cipher: seq<u8>) returns (mismatch: int, plain: Option<seq<u8>>)
      requires State().Valid() && |mac| == 16
      modifies this`key
      ensures mismatch == if Authentic(rounds, old(State()), Sealed(ad, cipher, mac)) then 0 else -1
      ensures mismatch == 0 ==> plain == Some(Open(rounds, old(State()), Sealed(ad, cipher, mac)))
                                && State() == old(State()).Next(rounds)
      ensures mismatch != 0 ==> plain == None && State() == old(State())
    {
      hide Keystream, Crypt, Advance, Poly1305.Mac, AuthData;
      plain := None;
      var authKey := AuthKeyBytes(rounds);
      var realMac := LockAuth(authKey, ad, cipher);
      mismatch := Verify16(mac, realMac);
      if mismatch == 0 {
        var text, _ := ChaCha20.Djb(rounds, Some(cipher), |cipher|, key, nonce, Advance(counter, 1));
        plain := Some(text);
        key := authKey[32..];
      }
    }
  }

  /** Every message written, then read in order from an equal context: every plaintext comes
  back, and the two contexts are equal after each message. */
  method Conversation(rounds: Rounds, writer: Context, reader: Context, messages: seq<Message>)
    returns (read: seq<seq<u8>>)
    requires writer != reader && writer.State().Valid() && writer.State() == reader.State()
    modifies writer, reader
    ensures |read| == |messages| && forall i :: 0 <= i < |messages| ==> read[i] == messages[i].plain
    ensures writer.State() == reader.State() == After(rounds, old(writer.State()), |messages|)
  {
    hide Seal, Authentic, Open, Context.State, Session.Next;
    ghost var s := writer.State();
    var sealed: seq<Sealed> := [];
    for i := 0 to |messages|
      invariant writer.State() == After(rounds, s, i) && reader.State() == s
      invariant |sealed| == i
      invariant forall j :: 0 <= j < i ==> |sealed[j].mac| == 16 && sealed[j] == Seal(rounds, After(rounds, s, j), messages[j])
    {
      var cipher, mac := writer.Write(rounds, messages[i].ad, messages[i].plain);
      sealed := sealed + [Sealed(messages[i].ad, cipher, mac)];
    }
    read := [];
    for i := 0 to |messages|
      invariant reader.State() == After(rounds, s, i) && writer.State() == After(rounds, s, |messages|)
      invariant |read| == i && forall j :: 0 <= j < i ==> read[j] == messages[j].plain
    {
      OpenSeal(rounds, After(rounds, s, i), messages[i]);
      var mismatch, plain := reader.Read(rounds, sealed[i].mac, sealed[i].ad, sealed[i].cipher);
      read := read + [plain.value];
    }
  }
}
