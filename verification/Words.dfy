/** Fixed-width words, their bit operations, and little-endian numbers.

The C++ code computes with `u8`, `u32`, `u64`, `i32` and `i64`. Here each of those is a
newtype, so the verifier checks at every single operation that the exact result fits:
a method that verifies has no intermediate overflow. Wrap-around is never implicit; it
is always written as `% 2^n`. */
module Words {

  newtype u8 = x: int | 0 <= x < 0x100
  newtype u32 = x: int | 0 <= x < 0x1_0000_0000
  newtype u64 = x: int | 0 <= x < 0x1_0000_0000_0000_0000
  newtype i8 = x: int | -0x80 <= x < 0x80
  newtype i16 = x: int | -0x8000 <= x < 0x8000
  newtype i32 = x: int | -0x8000_0000 <= x < 0x8000_0000
  newtype i64 = x: int | -0x8000_0000_0000_0000 <= x < 0x8000_0000_0000_0000

  /** `(u32)x` */
  function Lo32(x: u64): (r: u32)
    ensures r as int == x as int % 0x1_0000_0000
  {
    (x as int % 0x1_0000_0000) as u32
  }

  /** `x >> 32` */
  function Hi32(x: u64): (r: u32)
    ensures r as int == x as int / 0x1_0000_0000
  {
    (x as int / 0x1_0000_0000) as u32
  }

  lemma SplitWord(x: u64)
    ensures x as int == Lo32(x) as int + 0x1_0000_0000 * Hi32(x) as int
  {
  }

  const W32: int := 0x1_0000_0000  // 2^32

  const R128: int := 0x1_0000_0000_0000_0000_0000_0000_0000_0000  // 2^128

  /** 2^n */
  function Pow2(n: nat): (p: nat)
    ensures p > 0
  {
    if n == 0 then 1 else 2 * Pow2(n - 1)
  }

  lemma {:induction false} Pow2Add(m: nat, n: nat)
    ensures Pow2(m + n) == Pow2(m) * Pow2(n)
  {
    if m == 0 {
    } else {
      Pow2Add(m - 1, n);
    }
  }

  // ------------------------------------------------------------------ bit operations

  /** Bitwise OR of two natural numbers. */
  function BitOr(a: nat, b: nat): nat
    decreases a + b
  {
    if a == 0 && b == 0 then 0
    else 2 * BitOr(a / 2, b / 2) + (if a % 2 == 1 || b % 2 == 1 then 1 else 0)
  }

  /** Bitwise AND of two natural numbers. */
  function BitAnd(a: nat, b: nat): nat
    decreases a + b
  {
    if a == 0 && b == 0 then 0
    else 2 * BitAnd(a / 2, b / 2) + (if a % 2 == 1 && b % 2 == 1 then 1 else 0)
  }

  /** Bitwise XOR of two natural numbers. */
  function BitXor(a: nat, b: nat): nat
    decreases a + b
  {
    if a == 0 && b == 0 then 0
    else 2 * BitXor(a / 2, b / 2) + (if a % 2 != b % 2 then 1 else 0)
  }

  /** `b << k` */
  function Shl(b: nat, k: nat): nat {
    if k == 0 then b else 2 * Shl(b, k - 1)
  }

  lemma {:induction false} ShlIsMul(b: nat, k: nat)
    ensures Shl(b, k) == Pow2(k) * b
  {
    if k > 0 {
      ShlIsMul(b, k - 1);
      MulAssoc(2, Pow2(k - 1), b);
    }
  }

  /** A word and a shifted word that do not overlap: OR is addition. */
  lemma {:induction false} OrDisjoint(a: nat, b: nat, k: nat)
    requires a < Pow2(k)
    ensures BitOr(a, Shl(b, k)) == a + Shl(b, k)
    decreases k, b
  {
    if k == 0 {
      OrZero(b);
    } else {
      OrDisjoint(a / 2, b, k - 1);
      OrHalf(a, Shl(b, k - 1));
    }
  }

  lemma OrHalf(a: nat, h: nat)
    ensures BitOr(a, 2 * h) == 2 * BitOr(a / 2, h) + a % 2
  {
    assert (2 * h) / 2 == h && (2 * h) % 2 == 0;
  }

  /** `x | (y << l)` in 32 bits: the bits of y shifted past bit 31 are lost. */
  function OrShifted(x: nat, y: nat, l: nat): (w: u32)
    requires l <= 32 && x < Pow2(l)
    ensures w as nat == x + Pow2(l) * (y % Pow2(32 - l))
  {
    SmallPowers();
    Pow2Add(l, 32 - l);
    ShlIsMul(y, l);
    ModMul(Pow2(l), y, Pow2(32 - l));
    ShlIsMul(y % Pow2(32 - l), l);
    OrDisjoint(x, y % Pow2(32 - l), l);
    OrShiftedBound(x, y % Pow2(32 - l), Pow2(l), Pow2(32 - l));
    BitOr(x, Shl(y, l) % 0x1_0000_0000) as u32
  }

  lemma OrShiftedBound(x: nat, y: nat, p: nat, m: nat)
    requires x < p && y < m
    ensures x + p * y < p * m
  {
    MulMono(p, y, m - 1);
    MulDistr(p, m - 1, 1);
  }

  lemma ModMul(p: nat, y: nat, m: nat)
    requires p > 0 && m > 0
    ensures p * m > 0 && (p * y) % (p * m) == p * (y % m)
  {
    MulMono(p, 1, m);
    MulMono(p, 0, y % m);
    MulMono(p, y % m, m - 1);
    MulDistr(p, m - 1, 1);
    MulDistr(p, m * (y / m), y % m);
    MulAssoc(p, m, y / m);
    ModUnique(p * y, p * m, y / m, p * (y % m));
  }

  lemma {:induction false} OrZero(b: nat)
    ensures BitOr(0, b) == b
  {
    if b > 0 {
      OrZero(b / 2);
    }
  }

  lemma {:induction false} XorBound(a: nat, b: nat, k: nat)
    requires a < Pow2(k) && b < Pow2(k)
    ensures BitXor(a, b) < Pow2(k)
  {
    if k > 0 && !(a == 0 && b == 0) {
      XorBound(a / 2, b / 2, k - 1);
    }
  }

  /** `x >> k` */
  function Shr(x: nat, k: nat): nat {
    if k == 0 then x else Shr(x / 2, k - 1)
  }

  lemma ShrNone(x: nat)
    ensures Shr(x, 0) == x
  {
  }

  lemma {:induction false} ShrNext(x: nat, k: nat)
    ensures Shr(x, k + 1) == Shr(x, k) / 2
  {
    if k > 0 {
      ShrNext(x / 2, k - 1);
    }
  }

  lemma {:induction false} ShrZero(x: nat, k: nat)
    requires x < Pow2(k)
    ensures Shr(x, k) == 0
  {
    if k > 0 {
      ShrZero(x / 2, k - 1);
    }
  }

  /** The bits below n come from the low part alone. */
  lemma {:induction false} ShrLow(low: nat, high: nat, n: nat, i: nat)
    requires i < n
    ensures Shr(low + Shl(high, n), i) % 2 == Shr(low, i) % 2
  {
    var h := Shl(high, n - 1);
    assert (low + 2 * h) / 2 == low / 2 + h && (low + 2 * h) % 2 == low % 2;
    if i > 0 {
      ShrLow(low / 2, high, n - 1, i - 1);
    }
  }

  /** The bits from n on come from the high part alone. */
  lemma {:induction false} ShrHigh(low: nat, high: nat, n: nat, i: nat)
    requires low < Pow2(n)
    ensures Shr(low + Shl(high, n), n + i) == Shr(high, i)
  {
    if n > 0 {
      var h := Shl(high, n - 1);
      assert (low + 2 * h) / 2 == low / 2 + h;
      ShrHigh(low / 2, high, n - 1, i);
    }
  }

  /** XOR acts separately on the low k bits and on the bits above them. */
  lemma {:induction false} XorShl(a: nat, b: nat, c: nat, d: nat, k: nat)
    requires a < Pow2(k) && c < Pow2(k)
    ensures BitXor(a + Shl(b, k), c + Shl(d, k)) == BitXor(a, c) + Shl(BitXor(b, d), k)
  {
    hide BitXor;
    if k == 0 {
      XorZero(0);
    } else {
      XorShl(a / 2, b, c / 2, d, k - 1);
      XorStep(a, Shl(b, k - 1), c, Shl(d, k - 1), Shl(BitXor(b, d), k - 1));
    }
  }

  lemma XorStep(a: nat, h: nat, c: nat, g: nat, x: nat)
    requires BitXor(a / 2 + h, c / 2 + g) == BitXor(a / 2, c / 2) + x
    ensures BitXor(a + 2 * h, c + 2 * g) == BitXor(a, c) + 2 * x
  {
    assert (a + 2 * h) / 2 == a / 2 + h && (a + 2 * h) % 2 == a % 2;
    assert (c + 2 * g) / 2 == c / 2 + g && (c + 2 * g) % 2 == c % 2;
  }

  /** So does AND. */
  lemma {:induction false} AndShl(a: nat, b: nat, c: nat, d: nat, k: nat)
    requires a < Pow2(k) && c < Pow2(k)
    ensures BitAnd(a + Shl(b, k), c + Shl(d, k)) == BitAnd(a, c) + Shl(BitAnd(b, d), k)
  {
    hide BitAnd;
    if k == 0 {
      AndZero(0);
    } else {
      AndShl(a / 2, b, c / 2, d, k - 1);
      AndStep(a, Shl(b, k - 1), c, Shl(d, k - 1), Shl(BitAnd(b, d), k - 1));
    }
  }

  lemma AndStep(a: nat, h: nat, c: nat, g: nat, x: nat)
    requires BitAnd(a / 2 + h, c / 2 + g) == BitAnd(a / 2, c / 2) + x
    ensures BitAnd(a + 2 * h, c + 2 * g) == BitAnd(a, c) + 2 * x
  {
    assert (a + 2 * h) / 2 == a / 2 + h && (a + 2 * h) % 2 == a % 2;
    assert (c + 2 * g) / 2 == c / 2 + g && (c + 2 * g) % 2 == c % 2;
  }

  /** AND with n ones keeps the low n bits. */
  lemma {:induction false} AndMask(x: nat, n: nat)
    ensures BitAnd(x, Pow2(n) - 1) == x % Pow2(n)
  {
    hide BitAnd;
    if n == 0 {
      AndZero(x);
    } else {
      var p := Pow2(n - 1);
      assert Pow2(n) == 2 * p;
      hide Pow2;
      AndMask(x / 2, n - 1);
      AndOnes(x, p);
      ModTwice(x, p);
    }
  }

  lemma AndOnes(x: nat, p: nat)
    requires p > 0
    ensures BitAnd(x, 2 * p - 1) == 2 * BitAnd(x / 2, p - 1) + x % 2
  {
    assert (2 * p - 1) / 2 == p - 1 && (2 * p - 1) % 2 == 1;
  }

  lemma ModTwice(x: nat, p: nat)
    requires p > 0
    ensures x % (2 * p) == 2 * (x / 2 % p) + x % 2
  {
    var q, r := x / 2 / p, x / 2 % p;
    assert x == 2 * (x / 2) + x % 2 && x / 2 == r + p * q;
    hide *;
    MulAssoc(2, p, q);
    ModUnique(x, 2 * p, q, 2 * r + x % 2);
  }

  lemma {:induction false} AndZero(x: nat)
    ensures BitAnd(x, 0) == 0
  {
    if x > 0 {
      AndZero(x / 2);
    }
  }

  /** XOR with the same value twice gives the original back. */
  lemma {:induction false} XorCancel(a: nat, b: nat)
    ensures BitXor(BitXor(a, b), b) == a
    decreases a + b
  {
    if a == 0 && b == 0 {
    } else {
      XorCancel(a / 2, b / 2);
      var x := BitXor(a / 2, b / 2);
      assert (2 * x + 1) / 2 == x && (2 * x) / 2 == x;
    }
  }

  lemma {:induction false} XorComm(a: nat, b: nat)
    ensures BitXor(a, b) == BitXor(b, a)
    decreases a + b
  {
    if a != 0 || b != 0 {
      XorComm(a / 2, b / 2);
    }
  }

  lemma {:induction false} XorAssoc(a: nat, b: nat, c: nat)
    ensures BitXor(BitXor(a, b), c) == BitXor(a, BitXor(b, c))
    decreases a + b + c
  {
    if a == 0 && b == 0 && c == 0 {
    } else {
      XorAssoc(a / 2, b / 2, c / 2);
      hide BitXor;
      XorHalves(a, b);
      XorHalves(b, c);
      XorHalves(BitXor(a, b), c);
      XorHalves(a, BitXor(b, c));
    }
  }

  lemma XorHalves(a: nat, b: nat)
    ensures BitXor(a, b) == 2 * BitXor(a / 2, b / 2) + (if a % 2 != b % 2 then 1 else 0)
    ensures BitXor(a, b) / 2 == BitXor(a / 2, b / 2)
    ensures BitXor(a, b) % 2 == if a % 2 != b % 2 then 1 else 0
  {
    var x := BitXor(a / 2, b / 2);
    assert BitXor(a, b) == 2 * x + (if a % 2 != b % 2 then 1 else 0) by {
      if a == 0 && b == 0 {
        assert x == 0;
      }
    }
    hide BitXor;
  }

  lemma {:induction false} XorZero(b: nat)
    ensures BitXor(b, 0) == b && BitXor(0, b) == b
  {
    if b > 0 {
      XorZero(b / 2);
    }
  }

  lemma {:induction false} XorZeroIffEqual(a: nat, b: nat)
    ensures BitXor(a, b) == 0 <==> a == b
    decreases a + b
  {
    if a == 0 && b == 0 {
    } else {
      XorZeroIffEqual(a / 2, b / 2);
      assert a == 2 * (a / 2) + a % 2 && b == 2 * (b / 2) + b % 2;
    }
  }

  lemma {:induction false} OrZeroIffBothZero(a: nat, b: nat)
    ensures BitOr(a, b) == 0 <==> a == 0 && b == 0
    decreases a + b
  {
    if a == 0 && b == 0 {
    } else {
      OrZeroIffBothZero(a / 2, b / 2);
      assert a == 2 * (a / 2) + a % 2 && b == 2 * (b / 2) + b % 2;
    }
  }

  // ------------------------------------------------------- little-endian byte strings

  /** The number whose little-endian base-256 digits are `s`. */
  function LE(s: seq<u8>): nat {
    if s == [] then 0 else s[0] as nat + 0x100 * LE(s[1..])
  }

  /** The `n` low little-endian bytes of `x`. */
  function Bytes(x: nat, n: nat): (s: seq<u8>)
    ensures |s| == n
  {
    if n == 0 then [] else [(x % 0x100) as u8] + Bytes(x / 0x100, n - 1)
  }

  lemma {:induction false} LEBound(s: seq<u8>)
    ensures LE(s) < Pow2(8 * |s|)
  {
    if s != [] {
      LEBound(s[1..]);
      Pow2Add(8, 8 * |s| - 8);
      assert Pow2(8) == 256;
    }
  }

  /** Storing a loaded byte string gives the same bytes. */
  lemma {:induction false} BytesOfLE(s: seq<u8>)
    ensures Bytes(LE(s), |s|) == s
  {
    if s != [] {
      BytesOfLE(s[1..]);
      assert LE(s) % 0x100 == s[0] as nat && LE(s) / 0x100 == LE(s[1..]);
    }
  }

  /** Loading a stored number gives it back, truncated to the bytes stored. */
  lemma {:induction false} LEOfBytes(x: nat, n: nat)
    ensures LE(Bytes(x, n)) == x % Pow2(8 * n)
  {
    if n == 0 {
    } else {
      LEOfBytes(x / 0x100, n - 1);
      var p := Pow2(8 * n - 8);
      Pow2Add(8, 8 * n - 8);
      assert Pow2(8) == 256 && Pow2(8 * n) == 0x100 * p;
      ModStep(x, p);
    }
  }

  lemma ModStep(x: nat, p: nat)
    requires p > 0
    ensures x % (0x100 * p) == x % 0x100 + 0x100 * (x / 0x100 % p)
  {
    var q, r := x / 0x100, x % 0x100;
    var m := q % p + p * (q / p);
    assert m == q;
    var low := r + 0x100 * (q % p);
    assert x == low + (0x100 * p) * (q / p) by {
      assert x == r + 0x100 * q;
      assert 0x100 * (p * (q / p)) == (0x100 * p) * (q / p);
    }
    ModUnique(x, 0x100 * p, q / p, low);
  }

  /** The remainder is the only number in range that differs by a multiple. */
  lemma ModUnique(x: int, m: int, q: int, r: int)
    requires m > 0 && 0 <= r < m && x == r + m * q
    ensures x % m == r && x / m == q
  {
    var q', r' := x / m, x % m;
    var d := q - q';
    assert m * d == r' - r by {
      assert m * q == m * q' + m * d;
    }
    SmallMultiple(m, d);
  }

  /** Adding a multiple of m does not change a remainder modulo m. */
  lemma ModShift(x: int, m: int, k: int)
    requires m > 0
    ensures (x + m * k) % m == x % m && (x + m * k) / m == x / m + k
  {
    var q, r := x / m, x % m;
    assert x + m * k == r + m * (q + k) by { MulDistr(m, q, k); }
    ModUnique(x + m * k, m, q + k, r);
  }

  /** A product, by name, so that a proof may treat products as plain unknowns. */
  function Mu(a: int, b: int): int { a * b }

  /** Remainders may be taken before multiplying. */
  lemma MulMod(a: int, b: int, m: int)
    requires m > 0
    ensures (a * b) % m == ((a % m) * (b % m)) % m
  {
    var qa, ra, qb, rb := a / m, a % m, b / m, b % m;
    assert a == ra + m * qa && b == rb + m * qb;
    MulModStep(qa, ra, qb, rb, m);
    ModShift(ra * rb, m, qa * b + ra * qb);
  }

  lemma MulModStep(qa: int, ra: int, qb: int, rb: int, m: int)
    ensures (ra + m * qa) * (rb + m * qb) == ra * rb + m * (qa * (rb + m * qb) + ra * qb)
  {
    var b := rb + m * qb;
    MulDistr(b, ra, m * qa);
    MulDistr(ra, rb, m * qb);
    MulSwap(ra, m, qb);
    MulSwap(b, m, qa);
    MulDistr(m, qa * b, ra * qb);
  }

  /** Congruent factors give congruent products. */
  lemma MulCong(a: int, b: int, c: int, d: int, m: int)
    requires m > 0 && a % m == b % m && c % m == d % m
    ensures (a * c) % m == (b * d) % m
  {
    MulMod(a, c, m);
    MulMod(b, d, m);
  }

  lemma AddCong(a: int, b: int, c: int, d: int, m: int)
    requires m > 0 && a % m == b % m && c % m == d % m
    ensures (a + c) % m == (b + d) % m
  {
    var k := a / m - b / m + (c / m - d / m);
    assert a + c == (b + d) + m * k by {
      assert a == a % m + m * (a / m) && b == b % m + m * (b / m);
      assert c == c % m + m * (c / m) && d == d % m + m * (d / m);
      MulDistr(m, a / m - b / m, c / m - d / m);
      MulDistr(m, a / m - b / m, b / m);
      MulDistr(m, c / m - d / m, d / m);
    }
    ModShift(b + d, m, k);
  }

  lemma SmallMultiple(m: int, d: int)
    requires m > 0 && -m < m * d < m
    ensures d == 0
  {
    if d >= 1 {
      MulMono(m, 1, d);
    } else if d <= -1 {
      MulMono(m, d, -1);
    }
  }

  lemma MulMono(m: int, a: int, b: int)
    requires m >= 0 && a <= b
    ensures m * a <= m * b
  {
  }

  lemma MulAssoc(a: int, b: int, c: int)
    ensures a * (b * c) == (a * b) * c
  {
  }

  lemma MulSwap(a: int, b: int, c: int)
    ensures a * (b * c) == b * (a * c)
  {
  }

  lemma MulDistr(a: int, b: int, c: int)
    ensures a * (b + c) == a * b + a * c
  {
  }

  lemma {:induction false} LEConcat(s: seq<u8>, t: seq<u8>)
    ensures LE(s + t) == LE(s) + Pow2(8 * |s|) * LE(t)
  {
    if s == [] {
      assert s + t == t;
    } else {
      LEConcat(s[1..], t);
      assert (s + t)[1..] == s[1..] + t;
      Pow2Add(8, 8 * |s| - 8);
      assert Pow2(8) == 256;
      var p := Pow2(8 * |s| - 8);
      assert 0x100 * (p * LE(t)) == (0x100 * p) * LE(t);
    }
  }

  /** LEConcat, with the weight of the second part given. */
  lemma LEConcatAt(s: seq<u8>, t: seq<u8>, w: nat)
    requires w == Pow2(8 * |s|)
    ensures LE(s + t) == LE(s) + LE(t) * w
  {
    LEConcat(s, t);
  }

  // ------------------------------------------------------------- little-endian limbs

  /** 2^(32*k), the weight of limb k. */
  function Weight(k: nat): (w: nat)
    ensures w > 0
  {
    if k == 0 then 1 else 0x1_0000_0000 * Weight(k - 1)
  }

  lemma {:induction false} WeightAdd(j: nat, k: nat)
    ensures Weight(j + k) == Weight(j) * Weight(k)
  {
    if j == 0 {
    } else {
      WeightAdd(j - 1, k);
      var a, b := Weight(j - 1), Weight(k);
      assert 0x1_0000_0000 * (a * b) == (0x1_0000_0000 * a) * b;
    }
  }

  /** The number whose 32-bit limbs are `s`, least significant first. */
  function Val(s: seq<u32>): nat {
    if s == [] then 0 else Val(s[..|s| - 1]) + s[|s| - 1] as nat * Weight(|s| - 1)
  }

  lemma {:induction false} ValBound(s: seq<u32>)
    ensures Val(s) < Weight(|s|)
  {
    if s != [] {
      ValBound(s[..|s| - 1]);
      MulMono(Weight(|s| - 1), s[|s| - 1] as nat, 0xffff_ffff);
    }
  }

  lemma ValSnoc(s: seq<u32>, x: u32)
    ensures Val(s + [x]) == Val(s) + x as nat * Weight(|s|)
  {
    assert (s + [x])[..|s|] == s;
  }

  /** ValSnoc, with the weight of the new limb given. */
  lemma ValSnocAt(s: seq<u32>, x: u32, w: nat)
    requires w == Weight(|s|)
    ensures Val(s + [x]) == Val(s) + x as nat * w
  {
    ValSnoc(s, x);
  }

  lemma {:induction false} ValConcat(s: seq<u32>, t: seq<u32>)
    ensures Val(s + t) == Val(s) + Weight(|s|) * Val(t)
  {
    if t == [] {
      assert s + t == s;
    } else {
      var n := |t| - 1;
      ValConcat(s, t[..n]);
      assert s + t == (s + t[..n]) + [t[n]];
      ValSnoc(s + t[..n], t[n]);
      WeightAdd(|s|, n);
      MulDistr(Weight(|s|), Val(t[..n]), t[n] as nat * Weight(n));
      MulSwap(Weight(|s|), t[n] as nat, Weight(n));
    }
  }

  lemma {:induction false} ValZeros(s: seq<u32>)
    requires forall i :: 0 <= i < |s| ==> s[i] == 0
    ensures Val(s) == 0
  {
    if s != [] {
      ValZeros(s[..|s| - 1]);
    }
  }

  lemma Weights()
    ensures Weight(1) == 0x1_0000_0000
    ensures Weight(4) == 0x1_0000_0000_0000_0000_0000_0000_0000_0000
    ensures Weight(8) == 0x1_0000_0000_0000_0000_0000_0000_0000_0000_0000_0000_0000_0000_0000_0000_0000_0000
    ensures Weight(16) == Weight(8) * Weight(8)
  {
    assert Weight(2) == 0x1_0000_0000_0000_0000;
    assert Weight(3) == 0x1_0000_0000_0000_0000_0000_0000;
    assert Weight(4) == 0x1_0000_0000_0000_0000_0000_0000_0000_0000;
    WeightAdd(4, 4);
    WeightAdd(8, 8);
  }

  /** Eight limbs, written out. */
  lemma ValOf8(s: seq<u32>)
    requires |s| == 8
    ensures Val(s) == s[0] as nat + s[1] as nat * 0x1_0000_0000 + s[2] as nat * 0x1_0000_0000_0000_0000
                      + s[3] as nat * 0x1_0000_0000_0000_0000_0000_0000
                      + 0x1_0000_0000_0000_0000_0000_0000_0000_0000
                        * (s[4] as nat + s[5] as nat * 0x1_0000_0000 + s[6] as nat * 0x1_0000_0000_0000_0000
                           + s[7] as nat * 0x1_0000_0000_0000_0000_0000_0000)
  {
    ValOf4(s[..4]);
    ValOf4(s[4..]);
    assert s == s[..4] + s[4..];
    ValConcat(s[..4], s[4..]);
    Weights();
  }

  lemma ValOf4(s: seq<u32>)
    requires |s| == 4
    ensures Val(s) == s[0] as nat + s[1] as nat * 0x1_0000_0000 + s[2] as nat * 0x1_0000_0000_0000_0000
                      + s[3] as nat * 0x1_0000_0000_0000_0000_0000_0000
  {
    assert s == (([] + [s[0]]) + [s[1]]) + [s[2]] + [s[3]];
    ValSnoc([], s[0]);
    ValSnoc([s[0]], s[1]);
    ValSnoc([s[0], s[1]], s[2]);
    ValSnoc([s[0], s[1], s[2]], s[3]);
    assert [s[0]] == [] + [s[0]] && [s[0], s[1]] == [s[0]] + [s[1]];
    assert [s[0], s[1], s[2]] == [s[0], s[1]] + [s[2]] && s == [s[0], s[1], s[2]] + [s[3]];
    assert Weight(2) == 0x1_0000_0000_0000_0000;
    assert Weight(3) == 0x1_0000_0000_0000_0000_0000_0000;
  }

  /** `load32_le_buf`: bytes to limbs. */
  function LoadLimbs(s: seq<u8>): (w: seq<u32>)
    requires |s| % 4 == 0
    ensures |w| == |s| / 4 && Val(w) == LE(s)
  {
    if s == [] then []
    else
      var n := |s| - 4;
      var low, top := LoadLimbs(s[..n]), Load32(s[n..]);
      LoadLimbsStep(s, low);
      low + [top]
  }

  /** Limb k comes from bytes 4k .. 4k+3. */
  lemma {:induction false} LimbAt(s: seq<u8>, k: nat)
    requires |s| % 4 == 0 && k < |s| / 4
    ensures LoadLimbs(s)[k] as nat == s[4 * k] as nat + s[4 * k + 1] as nat * 0x100
                                      + s[4 * k + 2] as nat * 0x1_0000 + s[4 * k + 3] as nat * 0x100_0000
  {
    hide LE, Val, Load32;
    var n := |s| - 4;
    assert LoadLimbs(s) == LoadLimbs(s[..n]) + [Load32(s[n..])];
    if k == n / 4 {
      LEOf4(s[n..]);
    } else {
      LimbAt(s[..n], k);
    }
  }

  /** `load32_le` */
  function Load32(s: seq<u8>): (x: u32)
    requires |s| == 4
    ensures x as nat == LE(s)
  {
    LEOf4(s);
    s[0] as u32 + s[1] as u32 * 0x100 + s[2] as u32 * 0x1_0000 + s[3] as u32 * 0x100_0000
  }

  /** `load64_le` */
  function Load64(s: seq<u8>): (x: u64)
    requires |s| == 8
    ensures x as nat == LE(s)
  {
    LEBound(s);
    LargePowers();
    LE(s) as u64
  }

  lemma LEOf4(s: seq<u8>)
    requires |s| == 4
    ensures LE(s) == s[0] as nat + s[1] as nat * 0x100 + s[2] as nat * 0x1_0000 + s[3] as nat * 0x100_0000
  {
    LEOf3(s[1..]);
  }

  lemma LEOf3(s: seq<u8>)
    requires |s| == 3
    ensures LE(s) == s[0] as nat + s[1] as nat * 0x100 + s[2] as nat * 0x1_0000
  {
    assert LE(s[1..][1..]) == s[2] as nat;
  }

  /** The bytes of a word are combined by OR in the code; they do not overlap. */
  lemma Load32IsOr(s: seq<u8>)
    requires |s| == 4
    ensures BitOr(BitOr(BitOr(s[0] as nat, Shl(s[1] as nat, 8)), Shl(s[2] as nat, 16)), Shl(s[3] as nat, 24))
            == Load32(s) as nat
  {
    LEOf4(s);
    SmallPowers();
    OrDisjoint(s[0] as nat, s[1] as nat, 8);
    ShlIsMul(s[1] as nat, 8);
    OrDisjoint(s[0] as nat + 0x100 * s[1] as nat, s[2] as nat, 16);
    ShlIsMul(s[2] as nat, 16);
    OrDisjoint(s[0] as nat + 0x100 * s[1] as nat + 0x1_0000 * s[2] as nat, s[3] as nat, 24);
    ShlIsMul(s[3] as nat, 24);
  }

  lemma SmallPowers()
    ensures Pow2(8) == 0x100 && Pow2(16) == 0x1_0000 && Pow2(24) == 0x100_0000 && Pow2(32) == 0x1_0000_0000
  {
    assert Pow2(4) == 16;
    Pow2Add(4, 4);
    Pow2Add(8, 8);
    Pow2Add(8, 16);
    Pow2Add(16, 16);
  }

  lemma LargePowers()
    ensures Pow2(64) == 0x1_0000_0000_0000_0000
    ensures Pow2(128) == 0x1_0000_0000_0000_0000_0000_0000_0000_0000
    ensures Pow2(192) == 0x1_0000_0000_0000_0000_0000_0000_0000_0000_0000_0000_0000_0000
  {
    SmallPowers();
    hide Pow2;
    Pow2Add(32, 32);
    Pow2Add(64, 64);
    Pow2Add(64, 128);
  }

  lemma {:induction false} WeightIsPow2(k: nat)
    ensures Weight(k) == Pow2(32 * k)
  {
    if k > 0 {
      WeightIsPow2(k - 1);
      SmallPowers();
      Pow2Add(32, 32 * k - 32);
    }
  }

  lemma LoadLimbsStep(s: seq<u8>, low: seq<u32>)
    requires |s| >= 4 && |s| % 4 == 0
    requires |low| == |s| / 4 - 1 && Val(low) == LE(s[..|s| - 4])
    ensures Val(low + [Load32(s[|s| - 4..])]) == LE(s)
  {
    hide *;
    var n := |s| - 4;
    assert s == s[..n] + s[n..];
    WeightIsPow2(|low|);
    assert 32 * |low| == 8 * n;
    var w := Weight(|low|);
    LEConcatAt(s[..n], s[n..], w);
    ValSnocAt(low, Load32(s[n..]), w);
  }

  /** `store32_le_buf`: limbs to bytes. */
  function StoreLimbs(w: seq<u32>): (s: seq<u8>)
    ensures |s| == 4 * |w| && LE(s) == Val(w)
  {
    if w == [] then []
    else
      var n := |w| - 1;
      var low := StoreLimbs(w[..n]);
      StoreLimbsStep(w, low);
      low + Store32(w[n])
  }

  /** `store32_le` */
  function Store32(x: u32): (s: seq<u8>)
    ensures |s| == 4 && LE(s) == x as nat
  {
    SmallPowers();
    LEOfBytes(x as nat, 4);
    assert Pow2(8 * 4) == 0x1_0000_0000;
    Bytes(x as nat, 4)
  }

  lemma StoreLimbsStep(w: seq<u32>, low: seq<u8>)
    requires w != [] && |low| == 4 * |w| - 4 && LE(low) == Val(w[..|w| - 1])
    ensures LE(low + Store32(w[|w| - 1])) == Val(w)
  {
    var n := |w| - 1;
    hide *;
    var p := Weight(n);
    WeightIsPow2(n);
    assert 8 * |low| == 32 * n;
    assert w == w[..n] + [w[n]];
    LEConcatAt(low, Store32(w[n]), p);
    ValSnocAt(w[..n], w[n], p);
  }
}
