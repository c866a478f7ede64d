/** The Poly1305 authenticator (common/monocypher.cpp:300-450; section 2.5 of RFC 8439). */
module Poly1305 {
  import opened Words
  import opened Limbs
  import opened Chunks

  const PRIME: int := 0x3_ffff_ffff_ffff_ffff_ffff_ffff_ffff_fffb  // 2^130 - 5

  // --------------------------------------------------------------------- specification

  /** `r & 0x0ffffffc`: the clamping of one word of r. */
  function Clamp(w: u32, i: nat): (r: u32)
    ensures r < 0x1000_0000 && (i > 0 ==> r % 4 == 0)
  {
    var low := w % 0x1000_0000;
    if i == 0 then low else low - low % 4
  }

  function ClampAll(w: seq<u32>): (r: seq<u32>)
    requires |w| == 4
    ensures Clamped(r)
  {
    [Clamp(w[0], 0), Clamp(w[1], 1), Clamp(w[2], 2), Clamp(w[3], 3)]
  }

  predicate Clamped(r: seq<u32>) {
    |r| == 4 && r[0] < 0x1000_0000
    && r[1] < 0x1000_0000 && r[2] < 0x1000_0000 && r[3] < 0x1000_0000
    && r[1] % 4 == 0 && r[2] % 4 == 0 && r[3] % 4 == 0
  }

  /** The polynomial of section 2.5.1 of RFC 8439: each block of up to 16 bytes, with a 1
  appended, is added to the accumulator, which is then multiplied by r. */
  ghost function Accumulate(r: nat, message: seq<u8>): (a: nat) {
    if message == [] then 0
    else
      var k := (|message| - 1) / 16 * 16;
      var block := message[k..];
      (Accumulate(r, message[..k]) + LE(block) + Pow2(8 * |block|)) * r % PRIME
  }

  /** The bits of r that clamping leaves, section 2.5 of RFC 8439. */
  const CLAMP: nat := 0x0fff_fffc_0fff_fffc_0fff_fffc_0fff_ffff

  /** The authenticator of a message under a 32-byte one-time key. */
  ghost function Mac(key: seq<u8>, message: seq<u8>): (mac: seq<u8>)
    requires |key| == 32
    ensures |mac| == 16
  {
    var r := BitAnd(LE(key[..16]), CLAMP);
    Bytes((Accumulate(r, message) + LE(key[16..])) % R128, 16)
  }

  lemma ClampIsAnd(w: u32, i: nat)
    ensures Clamp(w, i) as nat == BitAnd(w as nat, if i == 0 then 0x0fff_ffff else 0x0fff_fffc)
  {
    ClampPowers();
    hide BitAnd, Pow2;
    AndMask(w as nat, 28);
    AndMask(w as nat / 4, 26);
    AndFour(w as nat, 0x3ff_ffff);
    assert w as nat % 0x1000_0000 == 4 * (w as nat / 4 % 0x400_0000) + w as nat % 4;
  }

  lemma ClampPowers()
    ensures Pow2(28) == 0x1000_0000 && Pow2(26) == 0x400_0000 && Pow2(32) == 0x1_0000_0000
  {
    assert Pow2(2) == 4 && Pow2(4) == 16;
    SmallPowers();
    Pow2Add(24, 2);
    Pow2Add(24, 4);
  }

  lemma AndFour(x: nat, m: nat)
    ensures BitAnd(x, 4 * m) == 4 * BitAnd(x / 4, m)
  {
    assert 4 * m / 2 == 2 * m && 2 * m / 2 == m && 4 * m % 2 == 0 && 2 * m % 2 == 0 && x / 2 / 2 == x / 4;
    assert BitAnd(x, 4 * m) == 2 * BitAnd(x / 2, 2 * m);
    assert BitAnd(x / 2, 2 * m) == 2 * BitAnd(x / 4, m);
  }

  /** Clamping word by word is the AND of section 2.5 of RFC 8439. */
  lemma ClampIsRfc(key: seq<u8>)
    requires |key| == 16
    ensures Val(ClampAll(LoadLimbs(key))) == BitAnd(LE(key), CLAMP)
  {
    hide BitAnd, LE, Val, LoadLimbs, Clamp;
    var w := LoadLimbs(key);
    ValOf4(w);
    ValOf4(ClampAll(w));
    ClampIsAnd(w[0], 0);
    ClampIsAnd(w[1], 1);
    ClampIsAnd(w[2], 2);
    ClampIsAnd(w[3], 3);
    var (m2, m1, m0) := (0x0fff_fffc, 0x0fff_fffc_0fff_fffc, 0x0fff_fffc_0fff_fffc_0fff_fffc);
    var (v2, v1) := (w[2] as nat + 0x1_0000_0000 * w[3] as nat, w[1] as nat + 0x1_0000_0000 * (w[2] as nat + 0x1_0000_0000 * w[3] as nat));
    AndWord(w[2], w[3] as nat, 0x0fff_fffc, m2);
    AndWord(w[1], v2, 0x0fff_fffc, m1);
    AndWord(w[0], v1, 0x0fff_ffff, m0);
  }

  lemma AndWord(w: u32, v: nat, mask: nat, above: nat)
    requires mask < 0x1_0000_0000
    ensures BitAnd(w as nat + 0x1_0000_0000 * v, mask + 0x1_0000_0000 * above)
            == BitAnd(w as nat, mask) + 0x1_0000_0000 * BitAnd(v, above)
  {
    ClampPowers();
    hide BitAnd, Pow2;
    ShlIsMul(v, 32);
    ShlIsMul(above, 32);
    ShlIsMul(BitAnd(v, above), 32);
    AndShl(w as nat, v, mask, above, 32);
  }

  lemma AccumulateBlock(r: nat, message: seq<u8>)
    requires |message| % 16 == 0 && message != []
    ensures Accumulate(r, message)
            == (Accumulate(r, message[..|message| - 16]) + (LE(message[|message| - 16..]) + R128)) * r % PRIME
  {
    hide LE, Pow2;
    ModUnique(|message| - 1, 16, |message| / 16 - 1, 15);
    assert (|message| - 1) / 16 * 16 == |message| - 16;
    assert Pow2(8 * 16) == R128 by { LargePowers(); }
  }

  lemma AddBlockCong(a: int, b: int, c: int, r: int)
    requires a % PRIME == b % PRIME
    ensures (a + c) * r % PRIME == (b + c) * r % PRIME
  {
    AddCong(a, b, c, c, PRIME);
    MulCong(a + c, b + c, r, r, PRIME);
  }

  // ------------------------------------------------------------------------ arithmetic

  /** The number in five limbs. */
  function Five(x0: int, x1: int, x2: int, x3: int, x4: int): int {
    x0 + 0x1_0000_0000 * x1 + 0x1_0000_0000_0000_0000 * x2 + 0x1_0000_0000_0000_0000_0000_0000 * x3 + R128 * x4
  }

  /** The accumulator. */
  function HashValue(h: seq<u32>): (v: nat)
    requires |h| == 5
  {
    Five(h[0] as int, h[1] as int, h[2] as int, h[3] as int, h[4] as int)
  }

  /** `s * r`, for a sum s of two words. */
  function Prod(s: u64, r: u32): (x: u64)
    requires s <= 0x1_ffff_fffe && r < 0x8000_0000
    ensures x as int == Mu(s as int, r as int)
    ensures x as int <= 0x1_ffff_fffe * (r as int)
  {
    MulMono(r as int, 0, s as int);
    MulMono(r as int, s as int, 0x1_ffff_fffe);
    ProdFits(s as int, r as int);
    Mu(s as int, r as int) as u64
  }

  lemma ProdFits(s: int, r: int)
    requires 0 <= s <= 0x1_ffff_fffe && 0 <= r < 0x8000_0000 && 0 <= s * r <= 0x1_ffff_fffe * r
    ensures 0 <= Mu(s, r) < 0x1_0000_0000_0000_0000
  {
  }

  /** `s4 * r`, for the top limb, which is at most 5: a product of 32 bits. */
  function ProdTop(s: u32, r: u32): (x: u32)
    requires s <= 5 && r <= 0x3333_3333
    ensures x as int == Mu(s as int, r as int) && x as int <= 5 * (r as int)
  {
    MulMono(r as int, 0, s as int);
    MulMono(r as int, s as int, 5);
    s * r
  }

  /** One round of `poly_blocks`: h = (h + c) * r, partially reduced. */
  method PolyBlock(r: seq<u32>, h: seq<u32>, block: seq<u8>, end: u32) returns (h': seq<u32>)
    requires Clamped(r) && |h| == 5 && h[4] <= 4 && |block| == 16 && end <= 1
    ensures |h'| == 5 && h'[4] <= 4
    ensures HashValue(h') % PRIME == (HashValue(h) + LE(block) + R128 * end as int) * Val(r) % PRIME
  {
    hide *;
    // h + c, without carry propagation
    var s0: u64 := h[0] as u64 + Load32(block[0..4]) as u64;
    var s1: u64 := h[1] as u64 + Load32(block[4..8]) as u64;
    var s2: u64 := h[2] as u64 + Load32(block[8..12]) as u64;
    var s3: u64 := h[3] as u64 + Load32(block[12..16]) as u64;
    var s4: u32 := h[4] + end;
    var x0, x1, x2, x3, x4 := MultiplyBlock(r, s0, s1, s2, s3, s4);
    SumValue(h, block, end);
    h' := ReduceBlock(x0, x1, x2, x3, x4);
  }

  /** (h + c) * r, without carry propagation. */
  method MultiplyBlock(r: seq<u32>, s0: u64, s1: u64, s2: u64, s3: u64, s4: u32)
    returns (x0: u64, x1: u64, x2: u64, x3: u64, x4: u32)
    requires Clamped(r) && s4 <= 5
    requires s0 <= 0x1_ffff_fffe && s1 <= 0x1_ffff_fffe && s2 <= 0x1_ffff_fffe && s3 <= 0x1_ffff_fffe
    ensures x2 < 0xffff_fff8_0000_0000 && x3 < 0x7fff_fff0_0000_0000 && x4 <= 15
    ensures Five(x0 as int, x1 as int, x2 as int, x3 as int, x4 as int) % PRIME
            == Five(s0 as int, s1 as int, s2 as int, s3 as int, s4 as int) * Val(r) % PRIME
  {
    hide *;
    var rr0, rr1, rr2, rr3, rr4 := Quarters(r);
    x0 := Prod(s0, r[0]) + Prod(s1, rr3) + Prod(s2, rr2) + Prod(s3, rr1) + ProdTop(s4, rr0) as u64;
    x1 := Prod(s0, r[1]) + Prod(s1, r[0]) + Prod(s2, rr3) + Prod(s3, rr2) + ProdTop(s4, rr1) as u64;
    x2 := Prod(s0, r[2]) + Prod(s1, r[1]) + Prod(s2, r[0]) + Prod(s3, rr3) + ProdTop(s4, rr2) as u64;
    x3 := Prod(s0, r[3]) + Prod(s1, r[2]) + Prod(s2, r[1]) + Prod(s3, r[0]) + ProdTop(s4, rr3) as u64;
    x4 := ProdTop(s4, rr4);
    ProductOfR(r, rr0, rr1, rr2, rr3, rr4, s0 as int, s1 as int, s2 as int, s3 as int, s4 as int,
               x0 as int, x1 as int, x2 as int, x3 as int, x4 as int);
  }

  /** The limbs of r times 5 / 4, and the two bits that the first one loses. */
  ghost predicate AreQuarters(r: seq<u32>, rr0: u32, rr1: u32, rr2: u32, rr3: u32, rr4: u32)
    requires |r| == 4
  {
    rr0 as int == r[0] as int / 4 * 5 && rr1 as int == r[1] as int / 4 * 5 && rr2 as int == r[2] as int / 4 * 5
    && rr3 as int == r[3] as int / 4 * 5 && rr4 as int == r[0] as int % 4
  }

  method Quarters(r: seq<u32>) returns (rr0: u32, rr1: u32, rr2: u32, rr3: u32, rr4: u32)
    requires Clamped(r)
    ensures |r| == 4 && AreQuarters(r, rr0, rr1, rr2, rr3, rr4)
    ensures r[0] <= 0x0fff_ffff && r[1] <= 0x0fff_fffc && r[2] <= 0x0fff_fffc && r[3] <= 0x0fff_fffc
    ensures rr0 < 0x1400_0000 && rr1 < 0x1400_0000 && rr2 < 0x1400_0000 && rr3 < 0x1400_0000 && rr4 < 4
  {
    rr0 := (r[0] / 4) * 5;
    rr1 := r[1] / 4 + r[1];
    rr2 := r[2] / 4 + r[2];
    rr3 := r[3] / 4 + r[3];
    rr4 := r[0] % 4;
  }

  /** `BlockProduct` for the limbs of r. */
  lemma ProductOfR(r: seq<u32>, rr0: u32, rr1: u32, rr2: u32, rr3: u32, rr4: u32,
                   s0: int, s1: int, s2: int, s3: int, s4: int, x0: int, x1: int, x2: int, x3: int, x4: int)
    requires Clamped(r) && AreQuarters(r, rr0, rr1, rr2, rr3, rr4)
    requires var r0, r1, r2, r3 := r[0] as int, r[1] as int, r[2] as int, r[3] as int;
      var q0, q1, q2, q3 := rr0 as int, rr1 as int, rr2 as int, rr3 as int;
      && x0 == Mu(s0, r0) + Mu(s1, q3) + Mu(s2, q2) + Mu(s3, q1) + Mu(s4, q0)
      && x1 == Mu(s0, r1) + Mu(s1, r0) + Mu(s2, q3) + Mu(s3, q2) + Mu(s4, q1)
      && x2 == Mu(s0, r2) + Mu(s1, r1) + Mu(s2, r0) + Mu(s3, q3) + Mu(s4, q2)
      && x3 == Mu(s0, r3) + Mu(s1, r2) + Mu(s2, r1) + Mu(s3, r0) + Mu(s4, q3)
      && x4 == Mu(s4, rr4 as int)
    ensures Five(x0, x1, x2, x3, x4) % PRIME == Five(s0, s1, s2, s3, s4) * Val(r) % PRIME
  {
    hide Mu, Val, Five, PRIME;
    var k0, e, k1, k2, k3 := r[0] as int / 4, r[0] as int % 4, r[1] as int / 4, r[2] as int / 4, r[3] as int / 4;
    BlockProduct(s0, s1, s2, s3, s4, k0, e, k1, k2, k3);
    assert r[0] as int == 4 * k0 + e && r[1] as int == 4 * k1 && r[2] as int == 4 * k2 && r[3] as int == 4 * k3;
    LimbsOfR(r);
  }

  lemma LimbsOfR(r: seq<u32>)
    requires Clamped(r)
    ensures Val(r) == Five(4 * (r[0] as int / 4) + r[0] as int % 4, 4 * (r[1] as int / 4), 4 * (r[2] as int / 4),
                           4 * (r[3] as int / 4), 0)
  {
    hide Val;
    ValOf4(r);
  }

  /** Partial reduction modulo 2^130 - 5. */
  method ReduceBlock(x0: u64, x1: u64, x2: u64, x3: u64, x4: u32) returns (h: seq<u32>)
    requires x2 < 0xffff_fff8_0000_0000 && x3 < 0x7fff_fff0_0000_0000 && x4 <= 15
    ensures |h| == 5 && h[4] <= 4
    ensures HashValue(h) % PRIME == Five(x0 as int, x1 as int, x2 as int, x3 as int, x4 as int) % PRIME
  {
    hide Five, PRIME;
    var u5: u32 := Hi32(x3) + x4;
    var u0: u64 := ((u5 / 4) * 5) as u64 + Lo32(x0) as u64;
    var u1: u64 := Hi32(u0) as u64 + Lo32(x1) as u64 + Hi32(x0) as u64;
    var u2: u64 := Hi32(u1) as u64 + Lo32(x2) as u64 + Hi32(x1) as u64;
    var u3: u64 := Hi32(u2) as u64 + Lo32(x3) as u64 + Hi32(x2) as u64;
    var u4: u32 := Hi32(u3) + u5 % 4;
    h := [Lo32(u0), Lo32(u1), Lo32(u2), Lo32(u3), u4];
    CarryValue(x0, x1, x2, x3, x4, u0, u1, u2, u3);
  }

  /** The carries move value between words, and 4 * 2^128 becomes 5. */
  lemma CarryValue(x0: u64, x1: u64, x2: u64, x3: u64, x4: u32, u0: u64, u1: u64, u2: u64, u3: u64)
    requires Hi32(x3) as int + x4 as int < 0x1_0000_0000
    requires u0 as int == (Hi32(x3) as int + x4 as int) / 4 * 5 + Lo32(x0) as int
    requires u1 as int == Hi32(u0) as int + Lo32(x1) as int + Hi32(x0) as int
    requires u2 as int == Hi32(u1) as int + Lo32(x2) as int + Hi32(x1) as int
    requires u3 as int == Hi32(u2) as int + Lo32(x3) as int + Hi32(x2) as int
    ensures Five(Lo32(u0) as int, Lo32(u1) as int, Lo32(u2) as int, Lo32(u3) as int,
                 Hi32(u3) as int + (Hi32(x3) as int + x4 as int) % 4)
            % PRIME == Five(x0 as int, x1 as int, x2 as int, x3 as int, x4 as int) % PRIME
  {
    var u5 := Hi32(x3) as int + x4 as int;
    SplitWord(x0);
    SplitWord(x1);
    SplitWord(x2);
    SplitWord(x3);
    SplitWord(u0);
    SplitWord(u1);
    SplitWord(u2);
    SplitWord(u3);
    hide *;
    CarryLinear(Lo32(x0) as int, Hi32(x0) as int, Lo32(x1) as int, Hi32(x1) as int, Lo32(x2) as int, Hi32(x2) as int,
                Lo32(x3) as int, Hi32(x3) as int, x4 as int,
                Lo32(u0) as int, Hi32(u0) as int, Lo32(u1) as int, Hi32(u1) as int, Lo32(u2) as int, Hi32(u2) as int,
                Lo32(u3) as int, Hi32(u3) as int, u5 / 4, u5 % 4);
    PrimePositive();
    ModShift(Five(x0 as int, x1 as int, x2 as int, x3 as int, x4 as int), PRIME, -(u5 / 4));
  }

  lemma PrimePositive()
    ensures PRIME > 0
  {
  }

  /** Words as low and high halves; q and r are what the top word has above and below 2^130. */
  lemma CarryLinear(a0: int, b0: int, a1: int, b1: int, a2: int, b2: int, a3: int, b3: int, x4: int,
                    l0: int, h0: int, l1: int, h1: int, l2: int, h2: int, l3: int, h3: int, q: int, r: int)
    requires b3 + x4 == 4 * q + r
    requires l0 + 0x1_0000_0000 * h0 == 5 * q + a0
    requires l1 + 0x1_0000_0000 * h1 == h0 + a1 + b0
    requires l2 + 0x1_0000_0000 * h2 == h1 + a2 + b1
    requires l3 + 0x1_0000_0000 * h3 == h2 + a3 + b2
    ensures Five(l0, l1, l2, l3, h3 + r)
            == Five(a0 + 0x1_0000_0000 * b0, a1 + 0x1_0000_0000 * b1, a2 + 0x1_0000_0000 * b2, a3 + 0x1_0000_0000 * b3, x4)
               + PRIME * -q
  {
  }

  /** A row of the product, and the products that the code forms of it. */
  lemma ProductRow(s: int, k0: int, e: int, k1: int, k2: int, k3: int)
    ensures s * Five(4 * k0 + e, 4 * k1, 4 * k2, 4 * k3, 0)
            == Five(4 * (s * k0) + s * e, 4 * (s * k1), 4 * (s * k2), 4 * (s * k3), 0)
    ensures s * (4 * k0 + e) == 4 * (s * k0) + s * e && s * (5 * k0) == 5 * (s * k0)
    ensures s * (4 * k1) == 4 * (s * k1) && s * (4 * k2) == 4 * (s * k2) && s * (4 * k3) == 4 * (s * k3)
    ensures s * (5 * k1) == 5 * (s * k1) && s * (5 * k2) == 5 * (s * k2) && s * (5 * k3) == 5 * (s * k3)
  {
  }

  /** The unreduced sums are the product modulo 2^130 - 5, because r1, r2 and r3 are
  multiples of 4 and 4 * 2^128 is 5. Here r = (4*k0 + e, 4*k1, 4*k2, 4*k3). */
  lemma BlockProduct(s0: int, s1: int, s2: int, s3: int, s4: int, k0: int, e: int, k1: int, k2: int, k3: int)
    ensures Five(Mu(s0, 4 * k0 + e) + Mu(s1, 5 * k3) + Mu(s2, 5 * k2) + Mu(s3, 5 * k1) + Mu(s4, 5 * k0),
                 Mu(s0, 4 * k1) + Mu(s1, 4 * k0 + e) + Mu(s2, 5 * k3) + Mu(s3, 5 * k2) + Mu(s4, 5 * k1),
                 Mu(s0, 4 * k2) + Mu(s1, 4 * k1) + Mu(s2, 4 * k0 + e) + Mu(s3, 5 * k3) + Mu(s4, 5 * k2),
                 Mu(s0, 4 * k3) + Mu(s1, 4 * k2) + Mu(s2, 4 * k1) + Mu(s3, 4 * k0 + e) + Mu(s4, 5 * k3),
                 Mu(s4, e)) % PRIME
            == Five(s0, s1, s2, s3, s4) * Five(4 * k0 + e, 4 * k1, 4 * k2, 4 * k3, 0) % PRIME
  {
    var r := Five(4 * k0 + e, 4 * k1, 4 * k2, 4 * k3, 0);
    var q := Five(s1 * k3 + s2 * k2 + s3 * k1 + s4 * k0, s2 * k3 + s3 * k2 + s4 * k1, s3 * k3 + s4 * k2, s4 * k3, 0);
    var x := BlockSums(s0, s1, s2, s3, s4, k0, e, k1, k2, k3);
    BlockIdentity(s0, s1, s2, s3, s4, k0, e, k1, k2, k3);
    ModShift(x, PRIME, q);
  }

  ghost function BlockSums(s0: int, s1: int, s2: int, s3: int, s4: int, k0: int, e: int, k1: int, k2: int, k3: int): int {
    Five(s0 * (4 * k0 + e) + s1 * (5 * k3) + s2 * (5 * k2) + s3 * (5 * k1) + s4 * (5 * k0),
         s0 * (4 * k1) + s1 * (4 * k0 + e) + s2 * (5 * k3) + s3 * (5 * k2) + s4 * (5 * k1),
         s0 * (4 * k2) + s1 * (4 * k1) + s2 * (4 * k0 + e) + s3 * (5 * k3) + s4 * (5 * k2),
         s0 * (4 * k3) + s1 * (4 * k2) + s2 * (4 * k1) + s3 * (4 * k0 + e) + s4 * (5 * k3),
         s4 * e)
  }

  lemma BlockIdentity(s0: int, s1: int, s2: int, s3: int, s4: int, k0: int, e: int, k1: int, k2: int, k3: int)
    ensures Five(s0, s1, s2, s3, s4) * Five(4 * k0 + e, 4 * k1, 4 * k2, 4 * k3, 0)
            == BlockSums(s0, s1, s2, s3, s4, k0, e, k1, k2, k3)
               + PRIME * Five(s1 * k3 + s2 * k2 + s3 * k1 + s4 * k0, s2 * k3 + s3 * k2 + s4 * k1,
                              s3 * k3 + s4 * k2, s4 * k3, 0)
  {
    hide Five;
    FiveRows(s0, s1, s2, s3, s4, Five(4 * k0 + e, 4 * k1, 4 * k2, 4 * k3, 0));
    ProductRow(s0, k0, e, k1, k2, k3);
    ProductRow(s1, k0, e, k1, k2, k3);
    ProductRow(s2, k0, e, k1, k2, k3);
    ProductRow(s3, k0, e, k1, k2, k3);
    ProductRow(s4, k0, e, k1, k2, k3);
    BlockColumns(s0 * k0, s0 * e, s0 * k1, s0 * k2, s0 * k3, s1 * k0, s1 * e, s1 * k1, s1 * k2, s1 * k3,
                 s2 * k0, s2 * e, s2 * k1, s2 * k2, s2 * k3, s3 * k0, s3 * e, s3 * k1, s3 * k2, s3 * k3,
                 s4 * k0, s4 * e, s4 * k1, s4 * k2, s4 * k3);
  }

  lemma FiveRows(s0: int, s1: int, s2: int, s3: int, s4: int, r: int)
    ensures Five(s0, s1, s2, s3, s4) * r == Five(s0 * r, s1 * r, s2 * r, s3 * r, s4 * r)
  {
  }

  /** The columns of the product, in named products a_i = s_i * k0, e_i = s_i * e, b_i = s_i * k1,
  c_i = s_i * k2 and d_i = s_i * k3. */
  lemma BlockColumns(a0: int, e0: int, b0: int, c0: int, d0: int, a1: int, e1: int, b1: int, c1: int, d1: int,
                     a2: int, e2: int, b2: int, c2: int, d2: int, a3: int, e3: int, b3: int, c3: int, d3: int,
                     a4: int, e4: int, b4: int, c4: int, d4: int)
    ensures Five(Five(4 * a0 + e0, 4 * b0, 4 * c0, 4 * d0, 0), Five(4 * a1 + e1, 4 * b1, 4 * c1, 4 * d1, 0),
                 Five(4 * a2 + e2, 4 * b2, 4 * c2, 4 * d2, 0), Five(4 * a3 + e3, 4 * b3, 4 * c3, 4 * d3, 0),
                 Five(4 * a4 + e4, 4 * b4, 4 * c4, 4 * d4, 0))
            == Five(4 * a0 + e0 + 5 * d1 + 5 * c2 + 5 * b3 + 5 * a4, 4 * b0 + (4 * a1 + e1) + 5 * d2 + 5 * c3 + 5 * b4,
                    4 * c0 + 4 * b1 + (4 * a2 + e2) + 5 * d3 + 5 * c4, 4 * d0 + 4 * c1 + 4 * b2 + (4 * a3 + e3) + 5 * d4,
                    e4)
               + PRIME * Five(d1 + c2 + b3 + a4, d2 + c3 + b4, d3 + c4, d4, 0)
  {
  }

  /** h + c, word by word. */
  lemma SumValue(h: seq<u32>, block: seq<u8>, end: u32)
    requires |h| == 5 && |block| == 16
    ensures Five(h[0] as int + Load32(block[0..4]) as int, h[1] as int + Load32(block[4..8]) as int,
                 h[2] as int + Load32(block[8..12]) as int, h[3] as int + Load32(block[12..16]) as int,
                 h[4] as int + end as int)
            == HashValue(h) + LE(block) + R128 * end as int
  {
    hide LE, Load32;
    SixteenBytes(block);
  }

  lemma SixteenBytes(s: seq<u8>)
    requires |s| == 16
    ensures LE(s) == Five(Load32(s[0..4]) as int, Load32(s[4..8]) as int, Load32(s[8..12]) as int,
                          Load32(s[12..16]) as int, 0)
  {
    hide LE, Pow2, Five;
    SmallPowers();
    LEConcat(s[..4], s[4..]);
    LEConcat(s[4..8], s[8..]);
    LEConcat(s[8..12], s[12..]);
    assert s == s[..4] + s[4..] && s[4..] == s[4..8] + s[8..] && s[8..] == s[8..12] + s[12..];
    assert s[..4] == s[0..4] && s[12..] == s[12..16];
    assert 8 * |s[..4]| == 32 && 8 * |s[4..8]| == 32 && 8 * |s[8..12]| == 32;
    NestedWords(LE(s), LE(s[4..]), LE(s[8..]), Load32(s[0..4]) as nat, Load32(s[4..8]) as nat, Load32(s[8..12]) as nat,
                Load32(s[12..16]) as nat);
  }

  lemma NestedWords(x: nat, y: nat, z: nat, a: nat, b: nat, c: nat, d: nat)
    requires x == a + 0x1_0000_0000 * y && y == b + 0x1_0000_0000 * z && z == c + 0x1_0000_0000 * d
    ensures x == Five(a, b, c, d, 0)
  {
  }

  // -------------------------------------------------------------- incremental interface

  /** The accumulator h holds the polynomial of the full blocks absorbed so far. */
  ghost predicate Hashed(h: seq<u32>, r: seq<u32>, absorbed: seq<u8>) {
    |h| == 5 && h[4] <= 4 && |absorbed| % 16 == 0
    && HashValue(h) % PRIME == Accumulate(Val(r), absorbed) % PRIME
  }

  /** The two halves of the key, as the context keeps them. */
  ghost predicate KeyedBy(r: seq<u32>, pad: seq<u32>, key: seq<u8>) {
    |key| == 32 && r == ClampAll(LoadLimbs(key[..16])) && |pad| == 4 && Val(pad) == LE(key[16..])
  }

  lemma HashedShape(h: seq<u32>, r: seq<u32>, absorbed: seq<u8>)
    requires Hashed(h, r, absorbed)
    ensures |h| == 5 && h[4] <= 4 && |absorbed| % 16 == 0
  {
    hide HashValue, Val, Accumulate;
  }

  lemma HashedNothing(h: seq<u32>, r: seq<u32>)
    requires |h| == 5 && forall i :: 0 <= i < 5 ==> h[i] == 0
    ensures Hashed(h, r, [])
  {
    hide Val;
  }

  /** One more full block. */
  lemma HashedNext(h: seq<u32>, h': seq<u32>, r: seq<u32>, absorbed: seq<u8>, block: seq<u8>)
    requires Hashed(h, r, absorbed) && |block| == 16 && |h'| == 5 && h'[4] <= 4
    requires HashValue(h') % PRIME == (HashValue(h) + LE(block) + R128 * 1) * Val(r) % PRIME
    ensures Hashed(h', r, absorbed + block)
  {
    hide HashValue, Val, Accumulate, LE;
    var all := absorbed + block;
    assert |all| % 16 == 0 && all[..|all| - 16] == absorbed && all[|all| - 16..] == block;
    AccumulateBlock(Val(r), all);
    AddBlockCong(HashValue(h), Accumulate(Val(r), absorbed), LE(block) + R128, Val(r));
    assert HashValue(h) + (LE(block) + R128) == HashValue(h) + LE(block) + R128 * 1;
    AccumulateReduced(Val(r), all);
  }

  lemma AccumulateReduced(r: nat, message: seq<u8>)
    ensures Accumulate(r, message) % PRIME == Accumulate(r, message)
  {
    hide LE, Pow2;
    var a := Accumulate(r, message);
    if message != [] {
      var k := (|message| - 1) / 16 * 16;
      var block := message[k..];
      var x := (Accumulate(r, message[..k]) + LE(block) + Pow2(8 * |block|)) * r;
      assert a == x % PRIME;
    }
  }

  /** The last, incomplete block, with its 1 appended. */
  lemma HashedLast(h: seq<u32>, h': seq<u32>, r: seq<u32>, absorbed: seq<u8>, tail: seq<u8>, block: seq<u8>)
    requires Hashed(h, r, absorbed) && 0 < |tail| < 16 && |h'| == 5 && h'[4] <= 4
    requires LE(block) == LE(tail) + Pow2(8 * |tail|)
    requires HashValue(h') % PRIME == (HashValue(h) + LE(block) + R128 * 0) * Val(r) % PRIME
    ensures HashValue(h') % PRIME == Accumulate(Val(r), absorbed + tail)
  {
    hide HashValue, Val, Accumulate, LE, Pow2;
    AccumulateTail(Val(r), absorbed, tail);
    AddBlockCong(HashValue(h), Accumulate(Val(r), absorbed), LE(tail) + Pow2(8 * |tail|), Val(r));
    assert HashValue(h) + (LE(tail) + Pow2(8 * |tail|)) == HashValue(h) + LE(block) + R128 * 0;
  }

  lemma AccumulateTail(r: nat, absorbed: seq<u8>, tail: seq<u8>)
    requires |absorbed| % 16 == 0 && 0 < |tail| < 16
    ensures Accumulate(r, absorbed + tail)
            == (Accumulate(r, absorbed) + (LE(tail) + Pow2(8 * |tail|))) * r % PRIME
  {
    hide LE, Pow2;
    var all := absorbed + tail;
    ModUnique(|all| - 1, 16, |absorbed| / 16, |tail| - 1);
    assert (|all| - 1) / 16 * 16 == |absorbed|;
    assert all[..|absorbed|] == absorbed && all[|absorbed|..] == tail;
  }

  /** The 1 and the zeros appended to the last block are worth 2^(8 * length). */
  lemma PaddedBlock(tail: seq<u8>, n: nat)
    ensures LE(tail + [1] + Zeros(n)) == LE(tail) + Pow2(8 * |tail|)
  {
    hide LE, Pow2;
    assert tail + [1] + Zeros(n) == tail + ([1] + Zeros(n));
    LEConcat(tail, [1] + Zeros(n));
    OneThenZeros(n);
  }

  lemma OneThenZeros(n: nat)
    ensures LE([1] + Zeros(n)) == 1
  {
    LEOfZeros(n);
    assert ([1] + Zeros(n))[1..] == Zeros(n);
  }

  lemma ClampedKey(r: seq<u32>, pad: seq<u32>, key: seq<u8>)
    requires KeyedBy(r, pad, key)
    ensures Clamped(r) && |pad| == 4 && |key| == 32
  {
    hide Clamped, Val, LE;
  }

  lemma GapFills(x: nat)
    requires x < 16
    ensures Gap(x, 16) == if x == 0 then 0 else 16 - x
  {
  }

  // ----------------------------------------------------------------- final reduction

  /** The end of `crypto_poly1305_final`: subtract 2^130 - 5 if needed, then add the pad. */
  method Finish(h: seq<u32>, pad: seq<u32>) returns (mac: seq<u8>)
    requires |h| == 5 && h[4] <= 4 && |pad| == 4
    ensures |mac| == 16 && LE(mac) == (HashValue(h) % PRIME + Val(pad)) % R128
  {
    hide *;
    var c: u64 := 5;
    ghost var low, rest := h[..4], [];
    CarryStart(low);
    for i := 0 to 4
      invariant c <= 5 && Carried(rest, c as nat, low, i)
    {
      CarryNext(rest, c as nat, low, i, c + low[i] as u64);
      rest := rest + [Lo32(c + h[i] as u64)];
      c := c + h[i] as u64;
      c := Hi32(c) as u64;
    }
    SubtractionCount(h, rest, c as nat);
    c := c + h[4] as u64;
    ghost var q := c as nat / 4;
    c := (c / 4) * 5;
    var out, carry := AddLimbs(h[..4], pad, c);
    FinalSum(h, pad, q, out, carry as nat);
    mac := StoreLimbs(out);
  }

  /** c is the running carry of 5 + h, over the first i words; `rest` is what it leaves. */
  ghost predicate Carried(rest: seq<u32>, c: nat, low: seq<u32>, i: nat) {
    i <= |low| && |rest| == i && Val(rest) + c * Weight(i) == 5 + Val(low[..i])
  }

  lemma CarryStart(low: seq<u32>)
    ensures Carried([], 5, low, 0)
  {
  }

  lemma CarryNext(rest: seq<u32>, c: nat, low: seq<u32>, i: nat, sum: u64)
    requires Carried(rest, c, low, i) && i < |low| && sum as nat == c + low[i] as nat
    ensures Carried(rest + [Lo32(sum)], Hi32(sum) as nat, low, i + 1)
  {
    hide Val;
    var w := Weight(i);
    assert low[..i + 1] == low[..i] + [low[i]];
    ValSnocAt(rest, Lo32(sum), w);
    ValSnocAt(low[..i], low[i], w);
    AddStep(w, Lo32(sum) as nat, Hi32(sum) as nat, low[i] as nat, 0, c);
  }

  /** The accumulator is below 2 * (2^130 - 5), and the carry tells whether to subtract. */
  lemma SubtractionCount(h: seq<u32>, rest: seq<u32>, c: nat)
    requires |h| == 5 && h[4] <= 4 && Carried(rest, c, h[..4], 4)
    ensures (c + h[4] as nat) / 4 <= 1
    ensures HashValue(h) % PRIME == HashValue(h) - (c + h[4] as nat) / 4 * PRIME
  {
    hide Val;
    Weights();
    ValBound(rest);
    ValBound(h[..4]);
    LowWords(h);
    assert h[..4][..4] == h[..4];
    SubtractionNumbers(HashValue(h), Val(rest), c, h[4] as nat);
  }

  lemma LowWords(h: seq<u32>)
    requires |h| == 5
    ensures HashValue(h) == Val(h[..4]) + R128 * h[4] as nat
  {
    hide Val;
    ValOf4(h[..4]);
  }

  lemma SubtractionNumbers(v: nat, rest: nat, c: nat, h4: nat)
    requires h4 <= 4 && rest < R128 && v < 5 * R128
    requires rest + c * R128 + R128 * h4 == 5 + v
    ensures (c + h4) / 4 <= 1 && v % PRIME == v - (c + h4) / 4 * PRIME
  {
    if c + h4 < 4 {
      ModUnique(v, PRIME, 0, v);
    } else {
      ModUnique(v, PRIME, 1, v - PRIME);
    }
  }

  lemma FinalSum(h: seq<u32>, pad: seq<u32>, q: nat, out: seq<u32>, carry: nat)
    requires |h| == 5 && |pad| == 4 && |out| == 4
    requires HashValue(h) % PRIME == HashValue(h) - q * PRIME
    requires Val(out) + carry * Weight(4) == Val(h[..4]) + Val(pad) + q * 5
    ensures Val(out) == (HashValue(h) % PRIME + Val(pad)) % R128
  {
    hide Val;
    Weights();
    ValBound(out);
    LowWords(h);
    ModUnique(HashValue(h) % PRIME + Val(pad), R128, carry + h[4] as int - 4 * q, Val(out));
  }

  lemma FinishIsMac(h: seq<u32>, r: seq<u32>, pad: seq<u32>, key: seq<u8>, message: seq<u8>, mac: seq<u8>)
    requires KeyedBy(r, pad, key) && |h| == 5 && HashValue(h) % PRIME == Accumulate(Val(r), message)
    requires |mac| == 16 && LE(mac) == (HashValue(h) % PRIME + Val(pad)) % R128
    ensures mac == Mac(key, message)
  {
    hide LE, Val, Accumulate, Bytes, HashValue, ClampAll, LoadLimbs, BitAnd;
    ClampIsRfc(key[..16]);
    BytesOfLE(mac);
  }

  lemma PadTo16(block: seq<u8>, tail: seq<u8>)
    requires |block| == 16 && |tail| < 16 && block[..|tail|] == tail && block[|tail|] == 1
    requires forall j :: |tail| < j < 16 ==> block[j] == 0
    ensures block == tail + [1] + Zeros(15 - |tail|)
  {
  }

  lemma HashedAll(h: seq<u32>, r: seq<u32>, message: seq<u8>)
    requires Hashed(h, r, message)
    ensures HashValue(h) % PRIME == Accumulate(Val(r), message)
  {
    hide HashValue, Val, Accumulate;
    AccumulateReduced(Val(r), message);
  }

  class Context {
    const c: array<u8>    // chunk of the message
    var cIdx: nat         // how many bytes are in the chunk
    const r: seq<u32>     // the multiplier
    const pad: seq<u32>   // added at the end
    const h: array<u32>   // accumulated hash
    ghost const key: seq<u8>
    ghost var absorbed: seq<u8>  // the full blocks hashed so far

    ghost predicate Valid()
      reads this, c, h
    {
      c.Length == 16 && cIdx < 16 && KeyedBy(r, pad, key) && Hashed(h[..], r, absorbed)
    }

    /** Everything passed to `crypto_poly1305_update` so far. */
    ghost function Message(): seq<u8>
      reads this, c
      requires c.Length == 16 && cIdx <= 16
    {
      absorbed + c[..cIdx]
    }

    /** `crypto_poly1305_init` */
    constructor (key: seq<u8>)
      requires |key| == 32
      ensures Valid() && Message() == [] && this.key == key
      ensures fresh(c) && fresh(h)
    {
      this.key := key;
      c := new u8[16](_ => 0);
      cIdx := 0;
      r := ClampAll(LoadLimbs(key[..16]));
      pad := LoadLimbs(key[16..]);
      h := new u32[5](_ => 0);
      absorbed := [];
      new;
      HashedNothing(h[..], r);
    }

    /** The two copying loops of `crypto_poly1305_update`: bytes appended to the chunk. */
    method Fill(input: seq<u8>)
      requires c.Length == 16 && cIdx + |input| <= 16
      modifies this`cIdx, c
      ensures cIdx == old(cIdx) + |input| && c[..cIdx] == old(c[..cIdx]) + input
    {
      for i := 0 to |input|
        invariant cIdx == old(cIdx) + i && c[..cIdx] == old(c[..cIdx]) + input[..i]
      {
        c[cIdx] := input[i];
        cIdx := cIdx + 1;
        assert c[..cIdx] == c[..cIdx - 1] + [input[i]];
      }
    }

    /** `poly_blocks` with end = 1 */
    method PolyBlocks(input: seq<u8>)
      requires h.Length == 5 && Clamped(r) && |input| % 16 == 0 && Hashed(h[..], r, absorbed)
      modifies this`absorbed, h
      ensures absorbed == old(absorbed) + input && Hashed(h[..], r, absorbed)
    {
      hide Hashed, Clamped, HashValue, Val, LE;
      var x := h[..];
      assert absorbed + input[..0] == absorbed;
      for i := 0 to |input| / 16
        invariant Hashed(x, r, absorbed + input[..16 * i])
        modifies {}
      {
        HashedShape(x, r, absorbed + input[..16 * i]);
        var y := PolyBlock(r, x, input[16 * i..16 * i + 16], 1);
        HashedNext(x, y, r, absorbed + input[..16 * i], input[16 * i..16 * i + 16]);
        assert absorbed + input[..16 * (i + 1)] == absorbed + input[..16 * i] + input[16 * i..16 * i + 16];
        x := y;
      }
      assert input[..16 * (|input| / 16)] == input;
      HashedShape(x, r, absorbed + input);
      h[0], h[1], h[2], h[3], h[4] := x[0], x[1], x[2], x[3], x[4];
      assert h[..] == x;
      absorbed := absorbed + input;
    }

    /** The first half of `crypto_poly1305_update`: complete the pending block. */
    method Align(message: seq<u8>) returns (rest: seq<u8>)
      requires Valid()
      modifies this, c, h
      ensures Valid() && (rest == [] || cIdx == 0)
      ensures |rest| <= |message| && rest == message[|message| - |rest|..]
      ensures Message() == old(Message()) + message[..|message| - |rest|]
    {
      hide Hashed, Clamped, KeyedBy, Gap;
      ClampedKey(r, pad, key);
      HashedShape(h[..], r, absorbed);
      GapFills(cIdx);
      ghost var before := Message();
      var aligned := if Gap(cIdx, 16) < |message| then Gap(cIdx, 16) else |message|;
      Fill(message[..aligned]);
      assert Message() == before + message[..aligned];
      if cIdx == 16 {
        assert c[..] == c[..16];
        PolyBlocks(c[..]);
        cIdx := 0;
      }
      rest := message[aligned..];
    }

    /** The second half: the message block by block, then the remaining bytes. */
    method Bulk(message: seq<u8>)
      requires Valid() && (message == [] || cIdx == 0)
      modifies this, c, h
      ensures Valid() && Message() == old(Message()) + message
    {
      hide Hashed, Clamped, KeyedBy;
      ClampedKey(r, pad, key);
      HashedShape(h[..], r, absorbed);
      ghost var before := Message();
      var blocks := |message| / 16 * 16;
      PolyBlocks(message[..blocks]);
      assert Message() == before + message[..blocks];
      Fill(message[blocks..]);
      assert before + message == before + message[..blocks] + message[blocks..];
    }

    /** `crypto_poly1305_update` */
    method Update(message: seq<u8>)
      requires Valid()
      modifies this, c, h
      ensures Valid() && Message() == old(Message()) + message
    {
      if message == [] {
        return;
      }
      hide Hashed, KeyedBy;
      ghost var before := Message();
      var rest := Align(message);
      assert before + message == before + message[..|message| - |rest|] + rest;
      Bulk(rest);
    }

    /** `crypto_poly1305_final` */
    method Final() returns (mac: seq<u8>)
      requires Valid()
      modifies c, h
      ensures mac == Mac(key, old(Message()))
    {
      hide Hashed, Clamped, KeyedBy, HashValue, Val, LE, Accumulate, Mac, PRIME, R128, Pow2, Zeros;
      ClampedKey(r, pad, key);
      HashedShape(h[..], r, absorbed);
      ghost var message := Message();
      if cIdx != 0 {
        ghost var tail := c[..cIdx];
        for i := cIdx to 16
          modifies c
          invariant c[..cIdx] == tail && forall j :: cIdx <= j < i ==> c[j] == 0
        {
          c[i] := 0;
        }
        c[cIdx] := 1;
        assert h[..] == old(h[..]);
        PadTo16(c[..], tail);
        PaddedBlock(tail, 15 - cIdx);
        var x := PolyBlock(r, h[..], c[..], 0);
        HashedLast(h[..], x, r, absorbed, tail, c[..]);
        h[0], h[1], h[2], h[3], h[4] := x[0], x[1], x[2], x[3], x[4];
        assert h[..] == x;
      } else {
        assert message == absorbed;
        HashedAll(h[..], r, absorbed);
      }
      mac := Finish(h[..], pad);
      FinishIsMac(h[..], r, pad, key, message, mac);
    }
  }

  /** `crypto_poly1305_init`, any run of `crypto_poly1305_update`, `crypto_poly1305_final`: how
  the message is cut does not matter. `crypto_poly1305` is the run with one chunk. */
  method Authenticate(key: seq<u8>, chunks: seq<seq<u8>>) returns (mac: seq<u8>)
    requires |key| == 32
    ensures mac == Mac(key, Flatten(chunks))
  {
    hide Mac;
    var ctx := new Context(key);
    for i := 0 to |chunks|
      invariant fresh(ctx) && fresh(ctx.c) && fresh(ctx.h)
      invariant ctx.Valid() && ctx.Message() == Flatten(chunks[..i]) && ctx.key == key
    {
      ctx.Update(chunks[i]);
      assert chunks[..i + 1][..i] == chunks[..i];
    }
    assert chunks[..|chunks|] == chunks;
    mac := ctx.Final();
  }
}
