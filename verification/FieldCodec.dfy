/** Decoding and encoding of field elements (common/monocypher.cpp:1154-1228). */
module FieldCodec {
  import opened Words
  import opened Field

  // -------------------------------------------------------------------------- decoding

  /** `load24_le` */
  function Load24(s: seq<u8>): (x: i64)
    requires |s| == 3
    ensures x as int == LE(s) && x < 0x100_0000
  {
    LEOf3(s);
    s[0] as i64 + s[1] as i64 * 0x100 + s[2] as i64 * 0x1_0000
  }

  /** `fe_frombytes_mask`: the top `nbMask` bits of the 256 are ignored. */
  method FeFromBytesMask(h: array<i32>, s: seq<u8>, nbMask: nat)
    requires h.Length == 10 && |s| == 32 && 1 <= nbMask <= 2
    modifies h
    ensures Carried(h[..])
    ensures Value(h[..]) % P == LE(s) % Pow2(256 - nbMask) % P
  {
    var mask := if nbMask == 1 then 0x80_0000 else 0x40_0000;  // 1 + (0xffffff >> nb_mask)
    var t0: i64 := Load32(s[0..4]) as i64;
    var t1: i64 := Load24(s[4..7]) * 0x40;
    var t2: i64 := Load24(s[7..10]) * 0x20;
    var t3: i64 := Load24(s[10..13]) * 0x8;
    var t4: i64 := Load24(s[13..16]) * 0x4;
    var t5: i64 := Load32(s[16..20]) as i64;
    var t6: i64 := Load24(s[20..23]) * 0x80;
    var t7: i64 := Load24(s[23..26]) * 0x20;
    var t8: i64 := Load24(s[26..29]) * 0x10;
    var t9: i64 := (Load24(s[29..32]) % mask) * 0x4;
    ghost var wrapped := FeCarry(h, t0, t1, t2, t3, t4, t5, t6, t7, t8, t9);
    hide LE, Pow2;
    FieldsOfBytes(s);
    MaskedTop(s, nbMask, mask as nat);
    ghost var x := LE(s) % Pow2(256 - nbMask);
    Reduced(Value(h[..]), x, wrapped);
  }

  lemma Reduced(value: int, x: int, wrapped: int)
    requires value == x - P * wrapped
    ensures value % P == x % P
  {
    ModShift(x, P, -wrapped);
  }

  /** A byte string split at k. */
  lemma LESplit(s: seq<u8>, k: nat, w: nat)
    requires k <= |s| && w == Pow2(8 * k)
    ensures LE(s) == LE(s[..k]) + w * LE(s[k..])
  {
    assert s == s[..k] + s[k..];
    LEConcat(s[..k], s[k..]);
  }

  lemma FieldsOfBytes(s: seq<u8>)
    requires |s| == 32
    ensures LE(s) == LE(s[0..4]) + 0x1_0000_0000 * LE(s[4..7]) + 0x100_0000_0000_0000 * LE(s[7..10])
                     + 0x1_0000_0000_0000_0000_0000 * LE(s[10..13])
                     + 0x100_0000_0000_0000_0000_0000_0000 * LE(s[13..16])
                     + 0x1_0000_0000_0000_0000_0000_0000_0000_0000 * LE(s[16..20])
                     + 0x1_0000_0000_0000_0000_0000_0000_0000_0000_0000_0000 * LE(s[20..23])
                     + 0x100_0000_0000_0000_0000_0000_0000_0000_0000_0000_0000_0000 * LE(s[23..26])
                     + 0x1_0000_0000_0000_0000_0000_0000_0000_0000_0000_0000_0000_0000_0000 * LE(s[26..29])
                     + 0x100_0000_0000_0000_0000_0000_0000_0000_0000_0000_0000_0000_0000_0000_0000 * LE(s[29..32])
  {
    hide LE, Pow2;
    SmallPowers();
    var a, b := s[..16], s[16..];
    LESplit(s, 16, 0x1_0000_0000_0000_0000_0000_0000_0000_0000) by { Pow2Add(32, 32); Pow2Add(64, 64); }
    LESplit(a, 4, 0x1_0000_0000);
    LESplit(a[4..], 3, 0x100_0000);
    LESplit(a[7..], 3, 0x100_0000);
    LESplit(a[10..], 3, 0x100_0000);
    LESplit(b, 4, 0x1_0000_0000);
    LESplit(b[4..], 3, 0x100_0000);
    LESplit(b[7..], 3, 0x100_0000);
    LESplit(b[10..], 3, 0x100_0000);
    assert a[..4] == s[0..4] && a[4..][..3] == s[4..7] && a[4..][3..] == a[7..] && a[7..][..3] == s[7..10];
    assert a[7..][3..] == a[10..] && a[10..][..3] == s[10..13] && a[10..][3..] == s[13..16];
    assert b[..4] == s[16..20] && b[4..][..3] == s[20..23] && b[4..][3..] == b[7..] && b[7..][..3] == s[23..26];
    assert b[7..][3..] == b[10..] && b[10..][..3] == s[26..29] && b[10..][3..] == s[29..32];
  }

  /** Masking the last three bytes is truncating the whole number. */
  lemma MaskedTop(s: seq<u8>, n: nat, mask: nat)
    requires |s| == 32 && 1 <= n <= 2 && mask == if n == 1 then 0x80_0000 else 0x40_0000
    ensures LE(s) % Pow2(256 - n)
            == LE(s) - 0x100_0000_0000_0000_0000_0000_0000_0000_0000_0000_0000_0000_0000_0000_0000
                       * (LE(s[29..32]) - LE(s[29..32]) % mask)
  {
    var w := 0x100_0000_0000_0000_0000_0000_0000_0000_0000_0000_0000_0000_0000_0000_0000;
    var low, top := LE(s[..29]), LE(s[29..32]);
    SmallPowers();
    assert Pow2(22) == 0x40_0000 && Pow2(23) == 0x80_0000 by { assert 4 * Pow2(22) == Pow2(24); }
    hide LE, Pow2;
    LargePowers();
    Pow2Add(24, 16);
    Pow2Add(40, 192);
    Pow2Add(232, 24 - n);
    LESplit(s, 29, w);
    assert s[29..] == s[29..32];
    LEBound(s[..29]);
    assert Pow2(256 - n) == w * mask;
    MaskedNumbers(LE(s), low, top, w, mask);
  }

  lemma MaskedNumbers(x: nat, low: nat, top: nat, w: nat, mask: nat)
    requires mask > 0 && x == low + w * top && low < w
    ensures w * mask > 0 && x % (w * mask) == x - w * (top - top % mask)
  {
    var q, t := top / mask, top % mask;
    MulMono(w, t + 1, mask);
    MulDistr(w, t, 1);
    assert top == mask * q + t;
    MulDistr(w, mask * q, t);
    MulAssoc(w, mask, q);
    ModUnique(x, w * mask, q, low + w * t);
  }

  // -------------------------------------------------------------------------- encoding

  /** The range of limb k: 2^26 or 2^25. */
  function Width(k: nat): (w: int)
    ensures w > 0
  {
    if k % 2 == 0 then 0x400_0000 else 0x200_0000
  }

  /** The weight of limb k. */
  function LimbWeight(k: nat): (w: int)
    ensures w > 0
  {
    if k == 0 then 1 else Width(k - 1) * LimbWeight(k - 1)
  }

  /** The number in the lowest n limbs. */
  function Partial(t: seq<i32>, n: nat): int
    requires n <= |t|
  {
    if n == 0 then 0 else Partial(t, n - 1) + t[n - 1] as int * LimbWeight(n - 1)
  }

  lemma PartialIsValue(t: seq<i32>)
    requires |t| == 10
    ensures Partial(t, 10) == Value(t) && LimbWeight(10) == P + 19
  {
    assert LimbWeight(1) == 0x400_0000;
    assert LimbWeight(2) == 0x8_0000_0000_0000;
    assert LimbWeight(3) == 0x2000_0000_0000_0000_0000;
    assert LimbWeight(4) == 0x40_0000_0000_0000_0000_0000_0000;
    assert LimbWeight(5) == 0x1_0000_0000_0000_0000_0000_0000_0000_0000;
    assert LimbWeight(6) == 0x200_0000_0000_0000_0000_0000_0000_0000_0000_0000;
    assert LimbWeight(7) == 0x8_0000_0000_0000_0000_0000_0000_0000_0000_0000_0000_0000;
    assert LimbWeight(8) == 0x1000_0000_0000_0000_0000_0000_0000_0000_0000_0000_0000_0000_0000;
    assert LimbWeight(9) == 0x40_0000_0000_0000_0000_0000_0000_0000_0000_0000_0000_0000_0000_0000_0000;
    assert Partial(t, 1) == t[0] as int;
    assert Partial(t, 2) == Partial(t, 1) + t[1] as int * LimbWeight(1);
    assert Partial(t, 3) == Partial(t, 2) + t[2] as int * LimbWeight(2);
    assert Partial(t, 4) == Partial(t, 3) + t[3] as int * LimbWeight(3);
    assert Partial(t, 5) == Partial(t, 4) + t[4] as int * LimbWeight(4);
    assert Partial(t, 6) == Partial(t, 5) + t[5] as int * LimbWeight(5);
    assert Partial(t, 7) == Partial(t, 6) + t[6] as int * LimbWeight(6);
    assert Partial(t, 8) == Partial(t, 7) + t[7] as int * LimbWeight(7);
    assert Partial(t, 9) == Partial(t, 8) + t[8] as int * LimbWeight(8);
  }

  lemma {:induction false} PartialUnchanged(t: seq<i32>, u: seq<i32>, n: nat)
    requires n <= |t| == |u| && t[..n] == u[..n]
    ensures Partial(t, n) == Partial(u, n)
  {
    if n > 0 {
      assert t[n - 1] == t[..n][n - 1] == u[..n][n - 1] == u[n - 1];
      assert t[..n - 1] == t[..n][..n - 1] == u[..n - 1];
      PartialUnchanged(t, u, n - 1);
    }
  }

  /** What the first loop of `fe_tobytes` keeps: q is the floor of (q0 + the limbs so far)
  divided by their weight. */
  ghost predicate FloorSoFar(q: int, q0: int, t: seq<i32>, n: nat) {
    n <= |t| && q * LimbWeight(n) <= q0 + Partial(t, n) < q * LimbWeight(n) + LimbWeight(n)
  }

  lemma FloorStep(q: int, q0: int, t: seq<i32>, n: nat)
    requires n < |t| && FloorSoFar(q, q0, t, n)
    ensures FloorSoFar((q + t[n] as int) / Width(n), q0, t, n + 1)
  {
    FloorNumbers(q, t[n] as int, LimbWeight(n), Width(n), q0 + Partial(t, n));
  }

  lemma FloorNumbers(q: int, t: int, w: int, m: int, x: int)
    requires w > 0 && m > 0 && q * w <= x < q * w + w
    ensures (q + t) / m * (m * w) <= x + t * w < (q + t) / m * (m * w) + m * w
  {
    var q', d := (q + t) / m, (q + t) % m;
    assert q * w + t * w == q' * (m * w) + d * w by {
      MulDistr(w, q, t);
      assert q + t == m * q' + d;
      MulDistr(w, m * q', d);
      assert w * (m * q') == q' * (m * w) by { MulAssoc(w, m, q'); }
    }
    MulMono(w, 0, d);
    MulMono(w, d, m - 1);
    MulDistr(w, m - 1, 1);
  }

  lemma FloorStart(q0: int, t: seq<i32>)
    ensures FloorSoFar(q0, q0, t, 0)
  {
  }

  /** After the first loop, q is the sign: the top limb decides the sign of the whole
  number, so the rounding term q0 never changes it. */
  lemma SignOfFloor(q: int, t: seq<i32>)
    requires Carried(t)
    requires FloorSoFar(q, (19 * t[9] as int + 0x100_0000) / 0x200_0000, t, 10)
    ensures q == (if Value(t) < 0 then -1 else 0) && -P < Value(t) < P
  {
    PartialIsValue(t);
    hide Partial, LimbWeight;
    SignNumbers(q, Limbs(t));
  }

  lemma SignNumbers(q: int, f: Ten)
    requires -0x233_3334 < f.x0 < 0x233_3334 && -0x119_999a < f.x1 < 0x119_999a
    requires -0x233_3334 < f.x2 < 0x233_3334 && -0x119_999a < f.x3 < 0x119_999a
    requires -0x233_3334 < f.x4 < 0x233_3334 && -0x119_999a < f.x5 < 0x119_999a
    requires -0x233_3334 < f.x6 < 0x233_3334 && -0x119_999a < f.x7 < 0x119_999a
    requires -0x233_3334 < f.x8 < 0x233_3334 && -0x119_999a < f.x9 < 0x119_999a
    requires q * (P + 19) <= (19 * f.x9 + 0x100_0000) / 0x200_0000 + f.Sum() < q * (P + 19) + (P + 19)
    ensures q == (if f.Sum() < 0 then -1 else 0) && -P < f.Sum() < P
  {
    var q0 := (19 * f.x9 + 0x100_0000) / 0x200_0000;
    assert f.Sum() < 0 ==> f.x9 <= 0 && q0 <= 0;
    assert f.Sum() >= 0 ==> f.x9 >= 0 && q0 >= 0;
  }

  /** What the second loop keeps: the limbs done so far are in their range, and with the
  carry q they still hold the same number. */
  ghost predicate RangedSoFar(q: int, start: int, f: seq<i32>, t: seq<i32>, n: nat) {
    n <= |f| == |t| && f[n..] == t[n..]
    && (forall k :: 0 <= k < n ==> 0 <= t[k] as int < Width(k))
    && start + Partial(f, n) == Partial(t, n) + q * LimbWeight(n)
  }

  lemma RangedStep(q: int, start: int, f: seq<i32>, t: seq<i32>, n: nat, t': seq<i32>, q': int)
    requires n < |f| && RangedSoFar(q, start, f, t, n)
    requires |t'| == |t| && t'[..n] == t[..n] && t'[n + 1..] == t[n + 1..]
    requires t'[n] as int == (t[n] as int + q) % Width(n) && q' == (t[n] as int + q) / Width(n)
    ensures RangedSoFar(q', start, f, t', n + 1)
  {
    var w, m, x := LimbWeight(n), Width(n), t[n] as int + q;
    assert f[n] == f[n..][0] == t[n..][0] == t[n];
    assert f[n + 1..] == f[n..][1..] == t[n..][1..] == t'[n + 1..];
    forall k | 0 <= k < n + 1 ensures 0 <= t'[k] as int < Width(k) {
      if k < n {
        assert t'[k] == t'[..n][k] == t[..n][k];
      }
    }
    PartialUnchanged(t, t', n);
    assert Partial(f, n + 1) == Partial(f, n) + t[n] as int * w;
    RangedNumbers(w, m, t[n] as int, q, x % m, q');
  }

  lemma RangedNumbers(w: int, m: int, t: int, q: int, t': int, q': int)
    requires t + q == m * q' + t'
    ensures t * w + q * w == t' * w + q' * (m * w)
  {
    assert w * (t + q) == w * (m * q' + t');
    MulDistr(w, t, q);
    MulDistr(w, m * q', t');
    assert w * (m * q') == q' * (m * w) by { MulAssoc(w, m, q'); }
  }

  lemma RangedStart(q: int, f: seq<i32>)
    ensures RangedSoFar(q, q, f, f, 0)
  {
  }

  lemma SmallLimbs(f: seq<i32>)
    requires Carried(f)
    ensures forall k :: 0 <= k < 10 ==> -0x240_0000 < f[k] < 0x240_0000
    ensures -0x120_0000 < f[9] < 0x120_0000
  {
  }

  lemma Widths(i: nat)
    ensures Width(2 * i) == 0x400_0000 && Width(2 * i + 1) == 0x200_0000
  {
  }

  /** The eight words that are stored. */
  function Pack(t: seq<i32>): (w: seq<u32>)
    requires |t| == 10 && forall k :: 0 <= k < 10 ==> 0 <= t[k] as int < Width(k)
    ensures |w| == 8
  {
    PackPowers();
    PackBounds(t);
    [OrShifted(t[0] as nat, t[1] as nat, 26),
     OrShifted(t[1] as nat / 0x40, t[2] as nat, 19),
     OrShifted(t[2] as nat / 0x2000, t[3] as nat, 13),
     OrShifted(t[3] as nat / 0x8_0000, t[4] as nat, 6),
     OrShifted(t[5] as nat, t[6] as nat, 25),
     OrShifted(t[6] as nat / 0x80, t[7] as nat, 19),
     OrShifted(t[7] as nat / 0x2000, t[8] as nat, 12),
     OrShifted(t[8] as nat / 0x10_0000, t[9] as nat, 6)]
  }

  lemma PackBounds(t: seq<i32>)
    requires |t| == 10 && forall k :: 0 <= k < 10 ==> 0 <= t[k] as int < Width(k)
    ensures 0 <= t[0] < 0x400_0000 && 0 <= t[1] < 0x200_0000 && 0 <= t[2] < 0x400_0000 && 0 <= t[3] < 0x200_0000
    ensures 0 <= t[4] < 0x400_0000 && 0 <= t[5] < 0x200_0000 && 0 <= t[6] < 0x400_0000 && 0 <= t[7] < 0x200_0000
    ensures 0 <= t[8] < 0x400_0000 && 0 <= t[9] < 0x200_0000
  {
  }

  lemma PackPowers()
    ensures Pow2(26) == 0x400_0000 && Pow2(6) == 0x40 && Pow2(19) == 0x8_0000 && Pow2(13) == 0x2000
    ensures Pow2(25) == 0x200_0000 && Pow2(7) == 0x80 && Pow2(12) == 0x1000 && Pow2(20) == 0x10_0000
  {
    assert Pow2(3) == 8;
    Pow2Add(6, 6);
    Pow2Add(6, 7);
    Pow2Add(6, 13);
    Pow2Add(6, 19);
    Pow2Add(12, 13);
    Pow2Add(13, 13);
    Pow2Add(7, 13);
  }

  /** The words hold the number: every bit of every limb is stored once. */
  lemma PackValue(t: seq<i32>)
    requires |t| == 10 && forall k :: 0 <= k < 10 ==> 0 <= t[k] as int < Width(k)
    ensures Val(Pack(t)) == Value(t)
  {
    PackPowers();
    PackBounds(t);
    var w := Pack(t);
    hide Pow2, Val, OrShifted;
    ValOf8(w);
    PackNumbers(t[0] as nat, t[1] as nat, t[2] as nat, t[3] as nat, t[4] as nat,
                t[5] as nat, t[6] as nat, t[7] as nat, t[8] as nat, t[9] as nat);
  }

  lemma PackNumbers(t0: nat, t1: nat, t2: nat, t3: nat, t4: nat, t5: nat, t6: nat, t7: nat, t8: nat, t9: nat)
    requires t4 < 0x400_0000 && t9 < 0x200_0000
    ensures (t0 + 0x400_0000 * (t1 % 0x40))
            + (t1 / 0x40 + 0x8_0000 * (t2 % 0x2000)) * 0x1_0000_0000
            + (t2 / 0x2000 + 0x2000 * (t3 % 0x8_0000)) * 0x1_0000_0000_0000_0000
            + (t3 / 0x8_0000 + 0x40 * (t4 % 0x400_0000)) * 0x1_0000_0000_0000_0000_0000_0000
            + 0x1_0000_0000_0000_0000_0000_0000_0000_0000
              * ((t5 + 0x200_0000 * (t6 % 0x80))
                 + (t6 / 0x80 + 0x8_0000 * (t7 % 0x2000)) * 0x1_0000_0000
                 + (t7 / 0x2000 + 0x1000 * (t8 % 0x10_0000)) * 0x1_0000_0000_0000_0000
                 + (t8 / 0x10_0000 + 0x40 * (t9 % 0x400_0000)) * 0x1_0000_0000_0000_0000_0000_0000)
            == Ten(t0, t1, t2, t3, t4, t5, t6, t7, t8, t9).Sum()
  {
    SmallMod(t4, 0x400_0000);
    SmallMod(t9, 0x400_0000);
    PackLinear(t0, t1 % 0x40, t1 / 0x40, t2 % 0x2000, t2 / 0x2000, t3 % 0x8_0000, t3 / 0x8_0000, t4,
               t5, t6 % 0x80, t6 / 0x80, t7 % 0x2000, t7 / 0x2000, t8 % 0x10_0000, t8 / 0x10_0000, t9);
    SplitAt(t1, 0x40);
    SplitAt(t2, 0x2000);
    SplitAt(t3, 0x8_0000);
    SplitAt(t6, 0x80);
    SplitAt(t7, 0x2000);
    SplitAt(t8, 0x10_0000);
  }

  lemma SmallMod(t: nat, m: nat)
    requires t < m
    ensures t % m == t
  {
  }

  lemma SplitAt(t: nat, m: nat)
    requires m > 0
    ensures t % m + m * (t / m) == t
  {
  }

  /** The limbs, each in two parts. */
  lemma PackLinear(t0: nat, l1: nat, h1: nat, l2: nat, h2: nat, l3: nat, h3: nat, t4: nat,
                   t5: nat, l6: nat, h6: nat, l7: nat, h7: nat, l8: nat, h8: nat, t9: nat)
    ensures (t0 + 0x400_0000 * l1)
            + (h1 + 0x8_0000 * l2) * 0x1_0000_0000
            + (h2 + 0x2000 * l3) * 0x1_0000_0000_0000_0000
            + (h3 + 0x40 * t4) * 0x1_0000_0000_0000_0000_0000_0000
            + 0x1_0000_0000_0000_0000_0000_0000_0000_0000
              * ((t5 + 0x200_0000 * l6)
                 + (h6 + 0x8_0000 * l7) * 0x1_0000_0000
                 + (h7 + 0x1000 * l8) * 0x1_0000_0000_0000_0000
                 + (h8 + 0x40 * t9) * 0x1_0000_0000_0000_0000_0000_0000)
            == Ten(t0, l1 + 0x40 * h1, l2 + 0x2000 * h2, l3 + 0x8_0000 * h3, t4,
                   t5, l6 + 0x80 * h6, l7 + 0x2000 * h7, l8 + 0x10_0000 * h8, t9).Sum()
  {
  }

  lemma CanonicalValue(start: int, q: int, f: seq<i32>, t: seq<i32>)
    requires |f| == 10 && RangedSoFar(q, start, f, t, 10)
    requires -P < Value(f) < P && start == if Value(f) < 0 then -19 else 0
    ensures Val(Pack(t)) == Value(f) % P
  {
    PartialIsValue(f);
    PartialIsValue(t);
    PackValue(t);
    ValBound(Pack(t));
    Weights();
    hide *;
    CanonicalNumbers(start, q, Value(f), Value(t));
  }

  lemma CanonicalNumbers(start: int, q: int, v: int, u: int)
    requires -P < v < P && start == if v < 0 then -19 else 0
    requires start + v == u + q * (P + 19) && 0 <= u < P + 19
    ensures u == v % P
  {
    assert q == if v < 0 then -1 else 0;
    ModUnique(v, P, q, u);
  }

  lemma PackReady(q: int, start: int, f: seq<i32>, t: seq<i32>)
    requires |f| == 10 && RangedSoFar(q, start, f, t, 10)
    ensures |t| == 10 && forall k :: 0 <= k < 10 ==> 0 <= t[k] as int < Width(k)
  {
  }

  /** The first half of `fe_tobytes`: 0 if the number is positive or zero, -1 if it is
  negative. */
  method SignOf(t: array<i32>) returns (q: i32)
    requires t.Length == 10 && Carried(t[..])
    ensures q as int == (if Value(t[..]) < 0 then -1 else 0) && -P < Value(t[..]) < P
  {
    hide *;
    ghost var f := t[..];
    SmallLimbs(f);
    q := (19 * t[9] + 0x100_0000) / 0x200_0000;
    ghost var q0 := q as int;
    FloorStart(q0, f);
    for i := 0 to 5
      invariant -16 <= q <= 16
      invariant FloorSoFar(q as int, q0, f, 2 * i)
    {
      Widths(i);
      FloorStep(q as int, q0, f, 2 * i);
      q := (q + t[2 * i]) / 0x400_0000;
      FloorStep(q as int, q0, f, 2 * i + 1);
      q := (q + t[2 * i + 1]) / 0x200_0000;
    }
    SignOfFloor(q as int, f);
  }

  /** `fe_tobytes`: the canonical little-endian bytes of any carried element. */
  method FeToBytes(h: array<i32>) returns (s: seq<u8>)
    requires h.Length == 10 && Carried(h[..])
    ensures |s| == 32 && LE(s) == Value(h[..]) % P
  {
    hide *;
    ghost var f := h[..];
    var t := new i32[10](_ => 0);
    for i := 0 to 10
      invariant t[..i] == f[..i]
    {
      t[i] := h[i];
    }
    assert t[..] == f;
    SmallLimbs(f);
    var q := SignOf(t);
    q := q * 19;
    ghost var start := q as int;
    RangedStart(start, f);
    for i := 0 to 5
      invariant -19 <= q <= 19
      invariant RangedSoFar(q as int, start, f, t[..], 2 * i)
      invariant forall k :: 2 * i <= k < 10 ==> t[k] == f[k]
    {
      Widths(i);
      var x := t[2 * i] + q;
      ghost var u, p := t[..], q as int;
      q := x / 0x400_0000;
      t[2 * i] := x - q * 0x400_0000;
      RangedStep(p, start, f, u, 2 * i, t[..], q as int);
      x := t[2 * i + 1] + q;
      u, p := t[..], q as int;
      q := x / 0x200_0000;
      t[2 * i + 1] := x - q * 0x200_0000;
      RangedStep(p, start, f, u, 2 * i + 1, t[..], q as int);
    }
    PackReady(q as int, start, f, t[..]);
    s := StoreLimbs(Pack(t[..]));
    CanonicalValue(start, q as int, f, t[..]);
  }

  /** Decoding and encoding again gives the bytes of the number modulo 2^255 - 19. */
  method Canonicalize(s: seq<u8>) returns (r: seq<u8>)
    requires |s| == 32
    ensures |r| == 32 && LE(r) == LE(s) % Pow2(255) % P
  {
    var h := new i32[10];
    FeFromBytesMask(h, s, 1);
    r := FeToBytes(h);
  }

  /** Two carried elements have the same encoding exactly when they are the same number
  modulo 2^255 - 19: this is what `fe_isequal` (lines 1370-1380) rests on. */
  method FeIsEqual(f: array<i32>, g: array<i32>) returns (equal: bool)
    requires f.Length == g.Length == 10 && Carried(f[..]) && Carried(g[..])
    ensures equal <==> Value(f[..]) % P == Value(g[..]) % P
  {
    var a := FeToBytes(f);
    var b := FeToBytes(g);
    BytesOfLE(a);
    BytesOfLE(b);
    equal := a == b;
  }
}
