/** The twin signed comb behind key generation and signing (common/monocypher.cpp:2170-2241). */
module Comb {
  import opened Words
  import opened Scalars
  import opened Group
  import opened ModL

  /** 1 / 2 modulo L */
  const HALF_MOD_L: seq<u8> := [
    247, 233, 122, 46, 141, 49, 9, 44, 107, 206, 123, 81, 239, 124, 111, 10,
    0, 0, 0, 0, 0, 0, 0, 0, 0, 0, 0, 0, 0, 0, 0, 8
  ]

  /** (2^256 - 1) / 2 modulo L */
  const HALF_ONES: seq<u8> := [
    142, 74, 204, 70, 186, 24, 118, 107, 184, 231, 190, 57, 250, 173, 119, 99,
    255, 255, 255, 255, 255, 255, 255, 255, 255, 255, 255, 255, 255, 255, 255, 7
  ]

  // ------------------------------------------------------------- eight words of 32 bits

  function Eight(a0: int, a1: int, a2: int, a3: int, a4: int, a5: int, a6: int, a7: int): int {
    a0 + a1 * 0x1_0000_0000 + a2 * 0x1_0000_0000_0000_0000 + a3 * 0x1_0000_0000_0000_0000_0000_0000
    + 0x1_0000_0000_0000_0000_0000_0000_0000_0000
      * (a4 + a5 * 0x1_0000_0000 + a6 * 0x1_0000_0000_0000_0000 + a7 * 0x1_0000_0000_0000_0000_0000_0000)
  }

  function WordAt(s: seq<u8>, k: nat): nat
    requires 4 * k + 4 <= |s|
  {
    s[4 * k] as nat + s[4 * k + 1] as nat * 0x100 + s[4 * k + 2] as nat * 0x1_0000 + s[4 * k + 3] as nat * 0x100_0000
  }

  lemma LEOf32(s: seq<u8>)
    requires |s| == 32
    ensures LE(s) == Eight(WordAt(s, 0), WordAt(s, 1), WordAt(s, 2), WordAt(s, 3),
                           WordAt(s, 4), WordAt(s, 5), WordAt(s, 6), WordAt(s, 7))
  {
    hide LE, Val, LoadLimbs, WordAt;
    ValOf8(LoadLimbs(s));
    LimbIsWord(s, 0);
    LimbIsWord(s, 1);
    LimbIsWord(s, 2);
    LimbIsWord(s, 3);
    LimbIsWord(s, 4);
    LimbIsWord(s, 5);
    LimbIsWord(s, 6);
    LimbIsWord(s, 7);
  }

  lemma LimbIsWord(s: seq<u8>, k: nat)
    requires |s| == 32 && k < 8
    ensures |LoadLimbs(s)| == 8 && LoadLimbs(s)[k] as nat == WordAt(s, k)
  {
    hide LoadLimbs, LE, Val;
    LimbAt(s, k);
  }

  // ------------------------------------------------------------------------ the recoding

  lemma HalfConstants()
    ensures |HALF_MOD_L| == 32 && |HALF_ONES| == 32
    ensures 2 * LE(HALF_MOD_L) == 1 + ORDER
    ensures 2 * LE(HALF_ONES) == R - 1 - 15 * ORDER
  {
    hide LE;
    LEOf32(HALF_MOD_L);
    LEOf32(HALF_ONES);
  }

  /** With every bit of s counting as 1 or -1, s is worth the scalar modulo L. */
  lemma AllBitsSet(scalar: nat, s: nat)
    requires s == (scalar * LE(HALF_MOD_L) + LE(HALF_ONES)) % ORDER
    ensures 2 * s - (R - 1) == scalar + ORDER * (scalar - 15 - 2 * ((scalar * LE(HALF_MOD_L) + LE(HALF_ONES)) / ORDER))
  {
    hide *;
    HalfConstants();
    var h, o := LE(HALF_MOD_L), LE(HALF_ONES);
    var q := (scalar * h + o) / ORDER;
    AllBitsSetNumbers(scalar, h, o, q, s, ORDER);
  }

  lemma AllBitsSetNumbers(a: nat, h: nat, o: nat, q: int, s: int, order: nat)
    requires 2 * h == 1 + order && 2 * o == R - 1 - 15 * order && s == a * h + o - order * q
    ensures 2 * s - (R - 1) == a + order * (a - 15 - 2 * q)
  {
    assert a * (2 * h) == a * (1 + order);
  }

  // --------------------------------------------------------------------------- the combs

  function Sign(b: nat): int {
    2 * b - 1
  }

  /** What a table entry is a multiple of: the fourth tooth is positive. */
  function CombMultiple(k: nat): int {
    Sign(k % 2) + Sign(k / 2 % 2) * 0x1_0000_0000 + Sign(k / 4 % 2) * 0x1_0000_0000_0000_0000
    + 0x1_0000_0000_0000_0000_0000_0000
  }

  /** The documented meaning of `b_comb_low` (scale 1) and `b_comb_high` (scale 2^128). */
  ghost predicate IsComb<G>(g: Group<G>, comb: seq<G>, b: G, scale: int) {
    |comb| == 8 && forall k :: 0 <= k < 8 ==> comb[k] == Times(g, scale * CombMultiple(k), b)
  }

  /** Four bits of s, 32 places apart, each counting as 1 or -1. */
  ghost function Teeth(s: seq<u8>, i: nat): int
    requires |s| == 32 && i + 96 < 256
  {
    Sign(ScalarBit(s, i)) + Sign(ScalarBit(s, i + 32)) * 0x1_0000_0000
    + Sign(ScalarBit(s, i + 64)) * 0x1_0000_0000_0000_0000
    + Sign(ScalarBit(s, i + 96)) * 0x1_0000_0000_0000_0000_0000_0000
  }

  lemma {:induction false} XorOnes(t: nat, n: nat)
    requires t < Pow2(n)
    ensures BitXor(t, Pow2(n) - 1) == Pow2(n) - 1 - t
  {
    if n > 0 {
      var p := Pow2(n - 1);
      assert Pow2(n) == 2 * p;
      hide Pow2;
      XorOnes(t / 2, n - 1);
      assert (2 * p - 1) / 2 == p - 1 && (2 * p - 1) % 2 == 1;
    }
  }

  /** `(teeth ^ (high - 1)) & 7`: the complement of the teeth when the fourth is absent. */
  lemma IndexIs(teeth: nat, high: nat)
    requires teeth < 16 && high == teeth / 8
    ensures BitAnd(BitXor(teeth, (high - 1) % 256), 7) == if high == 1 then teeth - 8 else 7 - teeth
  {
    hide *;
    SmallPowers();
    XorZero(teeth);
    XorOnes(teeth, 8);
    AndSeven(BitXor(teeth, (high - 1) % 256));
    IndexNumbers(teeth, high, BitXor(teeth, (high - 1) % 256));
  }

  lemma AndSeven(x: nat)
    ensures BitAnd(x, 7) == x % 8
  {
    assert Pow2(3) == 8;
    hide *;
    AndMask(x, 3);
  }

  lemma IndexNumbers(teeth: nat, high: nat, x: int)
    requires teeth < 16 && high == teeth / 8 && x == if (high - 1) % 256 == 0 then teeth else 255 - teeth
    ensures x % 8 == if high == 1 then teeth - 8 else 7 - teeth
  {
  }

  /** `lookup_add` */
  method LookupAdd<G(!new)>(g: Group<G>, p: G, comb: seq<G>, s: seq<u8>, i: nat, ghost b: G, ghost scale: int)
    returns (sum: G)
    requires IsAbelian(g) && |s| == 32 && i + 96 < 256 && IsComb(g, comb, b, scale)
    ensures sum == g.add(p, Times(g, scale * Teeth(s, i), b))
  {
    hide IsAbelian, Times, ScalarBit, BitAnd, BitXor, CombMultiple, Teeth;
    var teeth := ScalarBit(s, i) + 2 * ScalarBit(s, i + 32) + 4 * ScalarBit(s, i + 64) + 8 * ScalarBit(s, i + 96);
    var high := teeth / 8;
    var index := BitAnd(BitXor(teeth, (high - 1) % 256), 7);
    IndexIs(teeth, high);
    var selected := g.zero;
    for j := 0 to 8
      invariant j > index ==> selected == comb[index]
    {
      var select := (BitXor(j, index) - 1) / 0x100 % 2;
      XorZeroIffEqual(j, index);
      XorBound(j, index, 3);
      SelectBit(BitXor(j, index));
      if select == 1 {
        selected := comb[j];
      }
    }
    TeethAre(s, i, teeth, index);
    if high == 0 {
      TimesNeg(g, scale * CombMultiple(index), b);
      assert -(scale * CombMultiple(index)) == scale * (0 - CombMultiple(index));
      selected := g.neg(selected);
    }
    sum := g.add(p, selected);
  }

  lemma SelectBit(x: nat)
    requires x < Pow2(3)
    ensures (x - 1) / 0x100 % 2 == if x == 0 then 1 else 0
  {
    assert Pow2(3) == 8;
  }

  lemma TeethAre(s: seq<u8>, i: nat, teeth: nat, index: nat)
    requires |s| == 32 && i + 96 < 256
    requires teeth == ScalarBit(s, i) + 2 * ScalarBit(s, i + 32) + 4 * ScalarBit(s, i + 64) + 8 * ScalarBit(s, i + 96)
    requires index == if teeth / 8 == 1 then teeth - 8 else 7 - teeth
    ensures Teeth(s, i) == if teeth / 8 == 1 then CombMultiple(index) else 0 - CombMultiple(index)
  {
    hide ScalarBit, CombMultiple;
    TeethNumbers(ScalarBit(s, i), ScalarBit(s, i + 32), ScalarBit(s, i + 64), ScalarBit(s, i + 96), index);
  }

  lemma TeethNumbers(b0: nat, b1: nat, b2: nat, b3: nat, index: nat)
    requires b0 <= 1 && b1 <= 1 && b2 <= 1 && b3 <= 1
    requires index == if b3 == 1 then b0 + 2 * b1 + 4 * b2 else 7 - (b0 + 2 * b1 + 4 * b2)
    ensures Sign(b0) + Sign(b1) * 0x1_0000_0000 + Sign(b2) * 0x1_0000_0000_0000_0000
            + Sign(b3) * 0x1_0000_0000_0000_0000_0000_0000
            == if b3 == 1 then CombMultiple(index) else 0 - CombMultiple(index)
  {
    var c0, c1, c2 := if b3 == 1 then b0 else 1 - b0, if b3 == 1 then b1 else 1 - b1, if b3 == 1 then b2 else 1 - b2;
    IndexBits(c0, c1, c2);
  }

  lemma IndexBits(c0: nat, c1: nat, c2: nat)
    requires c0 <= 1 && c1 <= 1 && c2 <= 1
    ensures var k := c0 + 2 * c1 + 4 * c2; k % 2 == c0 && k / 2 % 2 == c1 && k / 4 % 2 == c2
  {
  }

  /** The bits of one tooth from i upwards, each counting as 1 or -1. */
  ghost function Tooth(s: seq<u8>, word: nat, i: nat): int
    requires |s| == 32 && word < 8 && i <= 32
    decreases 32 - i
  {
    if i == 32 then 0 else 2 * Tooth(s, word, i + 1) + Sign(ScalarBit(s, 32 * word + i))
  }

  lemma {:induction false} ToothIs(s: seq<u8>, word: nat, i: nat)
    requires |s| == 32 && word < 8 && i <= 32
    ensures Tooth(s, word, i) == 2 * Shr(WordAt(s, word), i) - (Pow2(32 - i) - 1)
    decreases 32 - i
  {
    hide ScalarBit, Shr, WordAt;
    if i == 32 {
      WordBelow(s, word);
      ShrZero(WordAt(s, word), 32);
      assert Pow2(0) == 1;
    } else {
      ToothIs(s, word, i + 1);
      BitOfWord(s, word, i);
      ShrNext(WordAt(s, word), i);
      assert Pow2(32 - i) == 2 * Pow2(32 - (i + 1));
    }
  }

  lemma WordBelow(s: seq<u8>, word: nat)
    requires |s| == 32 && word < 8
    ensures WordAt(s, word) < Pow2(32)
  {
    hide Pow2;
    SmallPowers();
  }

  lemma BitOfWord(s: seq<u8>, word: nat, i: nat)
    requires |s| == 32 && word < 8 && i < 32
    ensures ScalarBit(s, 32 * word + i) == Shr(WordAt(s, word), i) % 2
  {
    hide Shr, LE;
    var slice := s[4 * word..4 * word + 4];
    LEOf4(slice);
    ScalarBitIs(slice, i);
    assert (32 * word + i) / 8 == 4 * word + i / 8 && (32 * word + i) % 8 == i % 8;
    assert slice[i / 8] == s[4 * word + i / 8];
  }

  /** What the ladder holds before bit i - 1 of every tooth. */
  ghost function Combs(s: seq<u8>, i: nat): int
    requires |s| == 32 && i <= 32
  {
    Eight(Tooth(s, 0, i), Tooth(s, 1, i), Tooth(s, 2, i), Tooth(s, 3, i),
          Tooth(s, 4, i), Tooth(s, 5, i), Tooth(s, 6, i), Tooth(s, 7, i))
  }

  lemma CombsNext(s: seq<u8>, i: nat)
    requires |s| == 32 && i < 32
    ensures Combs(s, i) == 2 * Combs(s, i + 1) + 1 * Teeth(s, i) + R128 * Teeth(s, i + 128)
  {
    hide ScalarBit, Sign;
  }

  /** All bits of s, each counting as 1 or -1. */
  lemma CombsTotal(s: seq<u8>)
    requires |s| == 32
    ensures Combs(s, 0) == 2 * LE(s) - (R - 1)
  {
    hide LE, WordAt, Tooth;
    LEOf32(s);
    WholeTooth(s, 0);
    WholeTooth(s, 1);
    WholeTooth(s, 2);
    WholeTooth(s, 3);
    WholeTooth(s, 4);
    WholeTooth(s, 5);
    WholeTooth(s, 6);
    WholeTooth(s, 7);
  }

  lemma WholeTooth(s: seq<u8>, word: nat)
    requires |s| == 32 && word < 8
    ensures Tooth(s, word, 0) == 2 * WordAt(s, word) - 0xffff_ffff
  {
    hide Tooth, WordAt, Pow2;
    ToothIs(s, word, 0);
    SmallPowers();
    assert Shr(WordAt(s, word), 0) == WordAt(s, word);
  }

  /** `ge_scalarmult_base`: [scalar]b, given the documented contents of the tables and [L]b = 0. */
  method ScalarMultBase<G(!new)>(g: Group<G>, combLow: seq<G>, combHigh: seq<G>, scalar: seq<u8>, ghost b: G)
    returns (p: G)
    requires IsAbelian(g) && |scalar| == 32 && Times(g, ORDER, b) == g.zero
    requires IsComb(g, combLow, b, 1) && IsComb(g, combHigh, b, R128)
    ensures p == Times(g, LE(scalar), b)
  {
    hide *;
    HalfConstants();
    var s := EddsaMulAdd(scalar, HALF_MOD_L, HALF_ONES);
    p := g.zero;
    p := LookupAdd(g, p, combLow, s, 31, b, 1);
    p := LookupAdd(g, p, combHigh, s, 31 + 128, b, R128);
    FirstStep(g, s, b);
    var i: int := 30;
    while i >= 0
      invariant -1 <= i <= 30 && p == Times(g, Combs(s, i + 1), b)
    {
      ghost var c := Combs(s, i + 1);
      p := g.add(p, p);
      p := LookupAdd(g, p, combLow, s, i, b, 1);
      p := LookupAdd(g, p, combHigh, s, i + 128, b, R128);
      LaterStep(g, s, i, b);
      i := i - 1;
    }
    CombsTotal(s);
    AllBitsSet(LE(scalar), LE(s));
    ghost var q := (LE(scalar) * LE(HALF_MOD_L) + LE(HALF_ONES)) / ORDER;
    TimesCong(g, ORDER, LE(scalar), LE(scalar) - 15 - 2 * q, b);
  }

  lemma FirstStep<G(!new)>(g: Group<G>, s: seq<u8>, b: G)
    requires IsAbelian(g) && |s| == 32
    ensures g.add(g.add(g.zero, Times(g, 1 * Teeth(s, 31), b)), Times(g, R128 * Teeth(s, 31 + 128), b))
            == Times(g, Combs(s, 31), b)
  {
    hide IsAbelian, Times, Teeth, Combs;
    ZeroRight(g, Times(g, 1 * Teeth(s, 31), b));
    CombsNext(s, 31);
    CombsEnd(s);
    TimesAdd(g, 1 * Teeth(s, 31), R128 * Teeth(s, 31 + 128), b);
  }

  lemma CombsEnd(s: seq<u8>)
    requires |s| == 32
    ensures Combs(s, 32) == 0
  {
  }

  lemma LaterStep<G(!new)>(g: Group<G>, s: seq<u8>, i: nat, b: G)
    requires IsAbelian(g) && |s| == 32 && i < 31
    ensures var p := Times(g, Combs(s, i + 1), b);
      g.add(g.add(g.add(p, p), Times(g, 1 * Teeth(s, i), b)), Times(g, R128 * Teeth(s, i + 128), b))
      == Times(g, Combs(s, i), b)
  {
    hide IsAbelian, Times, Teeth, Combs;
    var c := Combs(s, i + 1);
    CombsNext(s, i);
    TimesAdd(g, c, c, b);
    TimesAdd(g, c + c, 1 * Teeth(s, i), b);
    TimesAdd(g, c + c + 1 * Teeth(s, i), R128 * Teeth(s, i + 128), b);
  }
}
