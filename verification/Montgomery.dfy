/** Montgomery reduction and the scalar inverse (common/monocypher.cpp:2446-2462, 2768-2876). */
module Montgomery {
  import opened Words
  import opened Limbs
  import opened ModL
  import opened Scalars

  /** k, with k * L == -1 modulo 2^256. */
  const K: seq<u32> := [
    0x12547e1b, 0xd2b51da3, 0xfdba84ff, 0xb1a206f2,
    0xffa36bea, 0x14e75438, 0x6fe91836, 0x9db6c6f2
  ]

  const K_VALUE: nat := 0x9db6_c6f2_6fe9_1836_14e7_5438_ffa3_6bea_b1a2_06f2_fdba_84ff_d2b5_1da3_1254_7e1b

  /** 1 in Montgomery form: 2^256 mod L. */
  const ONE: seq<u32> := [
    0x8d98951d, 0xd6ec3174, 0x737dcf70, 0xc6ef5bf4,
    0xfffffffe, 0xffffffff, 0xffffffff, 0x0fffffff
  ]

  /** L - 2, as in the code: 32 bytes. */
  const L_MINUS_2: seq<u8> := [
    0xeb, 0xd3, 0xf5, 0x5c, 0x1a, 0x63, 0x12, 0x58,
    0xd6, 0x9c, 0xf7, 0xa2, 0xde, 0xf9, 0xde, 0x14,
    0x00, 0x00, 0x00, 0x00, 0x00, 0x00, 0x00, 0x00,
    0x00, 0x00, 0x00, 0x00, 0x00, 0x00, 0x00, 0x10
  ]

  const EXPONENT: nat := 0x1000_0000_0000_0000_0000_0000_0000_0000_14de_f9de_a2f7_9cd6_5812_631a_5cf5_d3eb

  /** 2^-256 modulo L. */
  const R_INVERSE: nat := 0x9db_6c6f_26fe_9183_614e_7543_8ffa_36be_b7f5_c66a_973f_754c_c766_cca4_3d5f_0d24

  lemma Constants()
    ensures |K| == 8 && Val(K) == K_VALUE && (K_VALUE * ORDER + 1) % R == 0
    ensures |ONE| == 8 && Val(ONE) == R % ORDER
    ensures (R * R_INVERSE) % ORDER == 1 && EXPONENT == ORDER - 2
  {
    ValOf8(K);
    ValOf8(ONE);
    ModUnique(R, ORDER, 15, Val(ONE));
    ModUnique(K_VALUE * ORDER + 1, R, (K_VALUE * ORDER + 1) / R, 0);
    ModUnique(R * R_INVERSE, ORDER, R * R_INVERSE / ORDER, 1);
  }

  /** `redc`: x / 2^256 modulo L, for x below L * 2^256. */
  method Redc(x: seq<u32>) returns (u: seq<u32>)
    requires |x| == 16 && Val(x) < ORDER * R
    ensures |u| == 8 && Val(u) < ORDER
    ensures (Val(u) * R) % ORDER == Val(x) % ORDER
  {
    hide *;
    Constants();
    ValL();
    // s = x * k (modulo 2^256)
    var s := new u32[8](_ => 0);
    ValZeros(s[..8]);
    AddProductLow(s, 8, x[..8], K);
    assert s[..8] == s[..];
    // t = s * L + x
    var t := new u32[16](_ => 0);
    ValZeros(t[..8]);
    AddProduct(t, s[..], L);
    var sum, carry := AddLimbs(t[..], x, 0);
    RedcExact(x, s[..], sum, carry);
    u := RemoveL(sum[8..]);
  }

  lemma RedcExact(x: seq<u32>, s: seq<u32>, sum: seq<u32>, carry: u64)
    requires |x| == |sum| == 16 && |s| == 8 && Val(x) < ORDER * R
    requires Val(s) == (0 + Val(x[..8]) * Val(K)) % Weight(8)
    requires Val(sum) + carry as nat * Weight(16) == 0 + Val(s) * Val(L) + Val(x)
    ensures Val(sum[8..]) < 2 * ORDER
    ensures (Val(sum[8..]) % ORDER * R) % ORDER == Val(x) % ORDER
  {
    Constants();
    ValL();
    Weights();
    ValBound(s);
    ValBound(sum);
    assert x == x[..8] + x[8..] && sum == sum[..8] + sum[8..];
    ValConcat(x[..8], x[8..]);
    ValConcat(sum[..8], sum[8..]);
    ValBound(sum[..8]);
    RedcNumbers(Val(x), Val(x[..8]), Val(x[8..]), Val(s), carry as nat, Val(sum[..8]), Val(sum[8..]));
  }

  lemma RedcNumbers(x: nat, xl: nat, xh: nat, s: nat, carry: nat, low: nat, high: nat)
    requires x == xl + R * xh && x < ORDER * R && (K_VALUE * ORDER + 1) % R == 0
    requires s == xl * K_VALUE % R && s < R && low < R
    requires low + R * high + carry * (R * R) == s * ORDER + x
    ensures high < 2 * ORDER && (high % ORDER * R) % ORDER == x % ORDER
  {
    var n := RedcMultiple(x, xl, xh, s);
    SmallMultiple(R, n - high - carry * R);
    assert low == 0 && carry == 0 && high == n;
    RedcCongruence(x, s, high);
  }

  lemma RedcCongruence(x: nat, s: nat, high: nat)
    requires high * R == s * ORDER + x
    ensures (high % ORDER * R) % ORDER == x % ORDER
  {
    ModShift(x, ORDER, s);
    assert high * R == x + ORDER * s;
    MulCong(high % ORDER, high, R, R, ORDER);
  }

  /** Adding s * L clears the low 256 bits. */
  lemma RedcMultiple(x: nat, xl: nat, xh: nat, s: nat) returns (n: int)
    requires x == xl + R * xh && (K_VALUE * ORDER + 1) % R == 0
    requires s == xl * K_VALUE % R
    ensures s * ORDER + x == R * n
  {
    var c := (K_VALUE * ORDER + 1) / R;
    var k := xl * K_VALUE / R;
    assert s == xl * K_VALUE - R * k;
    n := xl * c - k * ORDER + xh;
    assert K_VALUE * ORDER == R * c - 1;
    assert xl * (K_VALUE * ORDER) == xl * (R * c - 1);
    assert s * ORDER == xl * (R * c - 1) - R * (k * ORDER);
  }

  /** m is y in Montgomery form. */
  ghost predicate IsMont(m: seq<u32>, y: nat) {
    |m| == 8 && Val(m) < ORDER && Val(m) % ORDER == (y * R) % ORDER
  }

  /** Multiplication followed by `redc` multiplies the represented numbers. */
  method MontMul(a: seq<u32>, b: seq<u32>, ghost x: nat, ghost y: nat) returns (m: seq<u32>)
    requires IsMont(a, x) && IsMont(b, y)
    ensures IsMont(m, x * y)
  {
    var product := new u32[16](_ => 0);
    assert |a| == |b| == 8;
    assert Val(a) < ORDER && Val(b) < ORDER;
    hide *;
    ValZeros(product[..8]);
    AddProduct(product, a, b);
    ProductFits(Val(a), Val(b));
    assert Val(product[..]) == Val(a) * Val(b);
    m := Redc(product[..]);
    MontProduct(a, b, m, x, y);
  }

  lemma ProductFits(a: nat, b: nat)
    requires a < ORDER && b < ORDER
    ensures a * b < ORDER * R
  {
    MulMono(a, b, ORDER);
    MulMono(ORDER, a, ORDER);
  }

  lemma MontProduct(a: seq<u32>, b: seq<u32>, m: seq<u32>, x: nat, y: nat)
    requires IsMont(a, x) && IsMont(b, y) && |m| == 8 && Val(m) < ORDER
    requires (Val(m) * R) % ORDER == (Val(a) * Val(b)) % ORDER
    ensures IsMont(m, x * y)
  {
    hide Val;
    MulCong(Val(a), x * R, Val(b), y * R, ORDER);
    Regroup(x, y, R);
    CancelR(Val(m), (x * y) * R);
  }

  lemma Regroup(x: int, y: int, r: int)
    ensures (x * r) * (y * r) == ((x * y) * r) * r
  {
    MulSwap(x * r, y, r);
    MulAssoc(y, x, r);
  }

  /** 2^256 is invertible modulo L. */
  lemma CancelR(a: nat, b: nat)
    requires (a * R) % ORDER == (b * R) % ORDER
    ensures a % ORDER == b % ORDER
  {
    Constants();
    MulCong(a * R, b * R, R_INVERSE, R_INVERSE, ORDER);
    MulCong(a, a, R * R_INVERSE, 1, ORDER);
    MulCong(b, b, R * R_INVERSE, 1, ORDER);
  }

  /** b^e */
  function Power(b: nat, e: nat): nat {
    if e == 0 then 1 else b * Power(b, e - 1)
  }

  lemma {:induction false} PowerAdd(b: nat, m: nat, n: nat)
    ensures Power(b, m + n) == Power(b, m) * Power(b, n)
  {
    if m > 0 {
      PowerAdd(b, m - 1, n);
      MulAssoc(b, Power(b, m - 1), Power(b, n));
    }
  }

  /** The square-and-multiply loop of `crypto_x25519_inverse`: from scalar to
  scalar^(L-2) mod L. */
  method PowerLMinus2(scalar: seq<u8>) returns (inverse: seq<u8>)
    requires |scalar| == 32
    ensures |inverse| == 32 && LE(inverse) == Power(LE(scalar), EXPONENT) % ORDER
    ensures LE(inverse) < ORDER
  {
    hide *;
    ghost var y := LE(scalar);
    // m_scl = scalar * 2^256 (modulo L)
    var m_scl := ReduceModL(seq(8, _ => 0) + LoadLimbs(scalar));
    ShiftedScalar(scalar, m_scl);
    var m_inv := ONE;
    OneIsMont(y);
    for i := 253 downto 0
      invariant IsMont(m_inv, Power(y, Shr(EXPONENT, i)))
    {
      ghost var e := Shr(EXPONENT, i + 1);
      m_inv := MontMul(m_inv, m_inv, Power(y, e), Power(y, e));
      PowerAdd(y, e, e);
      ExponentBit(i);
      if ScalarBit(L_MINUS_2, i) == 1 {
        m_inv := MontMul(m_inv, m_scl, Power(y, 2 * e), y);
        PowerAdd(y, 2 * e, 1);
        PowerOne(y);
      }
      assert e + e == 2 * e;
    }
    // convert out of Montgomery form
    var product := m_inv + seq(8, _ => 0);
    MontBelowL(m_inv, Power(y, Shr(EXPONENT, 0)));
    OutOfMont(m_inv, product);
    var u := Redc(product);
    FromMont(m_inv, u, y);
    inverse := StoreLimbs(u);
  }

  lemma PowerOne(y: nat)
    ensures Power(y, 1) == y
  {
  }

  lemma OneIsMont(y: nat)
    ensures IsMont(ONE, Power(y, Shr(EXPONENT, 253)))
  {
    Constants();
    BigPowers();
    ShrZero(EXPONENT, 253);
    assert Power(y, 0) == 1;
  }

  lemma BigPowers()
    ensures Pow2(253) == 2 * 0x1000_0000_0000_0000_0000_0000_0000_0000_0000_0000_0000_0000_0000_0000_0000_0000
    ensures Pow2(256) == R && 2 * Pow2(255) == R
  {
    assert Pow2(3) == 8 && Pow2(1) == 2;
    hide Pow2;
    LargePowers();
    Pow2Add(128, 128);
    Pow2Add(1, 255);
    Pow2Add(3, 253);
  }

  /** Bit i of the exponent table continues the prefix of L - 2 read so far. */
  lemma ExponentBit(i: nat)
    requires i < 253
    ensures |L_MINUS_2| == 32
    ensures Shr(EXPONENT, i) == 2 * (Shr(EXPONENT, i + 1)) + ScalarBit(L_MINUS_2, i)
  {
    ValOfExponent();
    ScalarBitIs(L_MINUS_2, i);
    ShrNext(EXPONENT, i);
  }

  lemma ValOfExponent()
    ensures |L_MINUS_2| == 32 && LE(L_MINUS_2) == EXPONENT
  {
    hide LoadLimbs, LE, Val;
    var w := LoadLimbs(L_MINUS_2);
    LimbAt(L_MINUS_2, 0);
    LimbAt(L_MINUS_2, 1);
    LimbAt(L_MINUS_2, 2);
    LimbAt(L_MINUS_2, 3);
    LimbAt(L_MINUS_2, 4);
    LimbAt(L_MINUS_2, 5);
    LimbAt(L_MINUS_2, 6);
    LimbAt(L_MINUS_2, 7);
    ValOf8(w);
  }

  lemma ShiftedScalar(scalar: seq<u8>, m: seq<u32>)
    requires |scalar| == 32 && |m| == 8
    requires Val(m) == Val(seq(8, _ => 0) + LoadLimbs(scalar)) % ORDER
    ensures IsMont(m, LE(scalar))
  {
    hide *;
    ShiftedLimbs(LoadLimbs(scalar));
    LoadedLimbs(scalar);
    IntoMont(m, LE(scalar));
  }

  lemma LoadedLimbs(scalar: seq<u8>)
    requires |scalar| == 32
    ensures Val(LoadLimbs(scalar)) == LE(scalar)
  {
  }

  lemma ShiftedLimbs(limbs: seq<u32>)
    ensures Val(seq(8, _ => 0) + limbs) == Val(limbs) * R
  {
    hide Val;
    var zeros: seq<u32> := seq(8, _ => 0);
    ValConcat(zeros, limbs);
    ValZeros(zeros);
    Weights();
  }

  lemma IntoMont(m: seq<u32>, y: nat)
    requires |m| == 8 && Val(m) == (y * R) % ORDER
    ensures IsMont(m, y)
  {
    hide Val;
    ModUnique(y * R, ORDER, y * R / ORDER, Val(m));
  }

  lemma OutOfMont(m: seq<u32>, product: seq<u32>)
    requires |m| == 8 && product == m + seq(8, _ => 0) && Val(m) < ORDER
    ensures Val(product) == Val(m) < ORDER * R
  {
    var zeros: seq<u32> := seq(8, _ => 0);
    ValConcat(m, zeros);
    ValZeros(zeros);
  }

  lemma MontBelowL(m: seq<u32>, y: nat)
    requires IsMont(m, y)
    ensures |m| == 8 && Val(m) < ORDER
  {
  }

  lemma FromMont(m: seq<u32>, u: seq<u32>, y: nat)
    requires IsMont(m, Power(y, Shr(EXPONENT, 0)))
    requires |u| == 8 && Val(u) < ORDER && (Val(u) * R) % ORDER == Val(m) % ORDER
    ensures Val(u) == Power(y, EXPONENT) % ORDER
  {
    hide Val, Power;
    assert Shr(EXPONENT, 0) == EXPONENT;
    CancelR(Val(u), Power(y, EXPONENT));
  }

  /** `add_xl`: s + (x mod 8) * L, in place, modulo 2^256. */
  method AddXL(s: seq<u8>, x: u8) returns (r: seq<u8>)
    requires |s| == 32
    ensures |r| == 32 && LE(r) == (LE(s) + (x as nat % 8) * ORDER) % R
  {
    hide *;
    var limbs := LoadLimbs(s);
    var p := new u32[8](i => if 0 <= i < |limbs| then limbs[i] else 0);
    assert p[0..8] == limbs;
    ValL();
    var carry := AddMulRow(p, 0, (x % 8) as u32, L);
    assert p[0..8] == p[..];
    AddXLValue(limbs, p[..], carry, (x % 8) as u32);
    r := StoreLimbs(p[..]);
  }

  lemma AddXLValue(s: seq<u32>, r: seq<u32>, carry: u32, x: u32)
    requires RowDone(r, carry, s, x, L)
    ensures Val(r) == (Val(s) + x as nat * ORDER) % R
  {
    ValL();
    Weights();
    ValBound(r);
    hide Val, Weight;
    assert Val(s) + x as nat * ORDER == Val(r) + R * carry as nat;
    ModUnique(Val(s) + x as nat * ORDER, R, carry as nat, Val(r));
  }

  /** No bit is lost for any x exactly when s + 7L fits in 256 bits. That is a little more
  than the 255 bits that the comment at line 2447 asks for. */
  lemma AddXLFits(s: nat)
    ensures (forall x: nat :: x < 8 ==> (s + x * ORDER) % R == s + x * ORDER) <==> s + 7 * ORDER < R
    ensures s < Pow2(255) ==> s + 7 * ORDER < R
  {
    BigPowers();
    if s + 7 * ORDER < R {
      forall x: nat | x < 8 ensures (s + x * ORDER) % R == s + x * ORDER {
      }
    } else {
      assert (s + 7 * ORDER) % R != s + 7 * ORDER;
    }
  }

  /** `crypto_x25519_inverse` up to its last step, the ladder: the scalar that it hands to
  the ladder is the power scalar^(L-2) modulo L, with the cofactor cleared. */
  method InverseScalar(privateKey: seq<u8>) returns (cleared: seq<u8>)
    requires |privateKey| == 32
    ensures |cleared| == 32
    ensures LE(cleared) % ORDER == Power(LE(Trim(privateKey)), EXPONENT) % ORDER
    ensures LE(cleared) % 8 == 0
  {
    hide *;
    var inverse := PowerLMinus2(Trim(privateKey));
    cleared := AddXL(inverse, ((inverse[0] as nat * 3) % 0x100) as u8);
    CofactorCleared(inverse, LE(cleared));
  }

  /** s + (3s mod 8) * L is s modulo L, and 0 modulo 8. */
  lemma CofactorCleared(s: seq<u8>, c: nat)
    requires |s| == 32 && LE(s) < ORDER
    requires c == (LE(s) + ((s[0] as nat * 3) % 0x100 % 8) * ORDER) % R
    ensures c % ORDER == LE(s) && c % 8 == 0
  {
    var x, s0 := LE(s), s[0] as nat;
    assert x == s0 + 8 * (32 * LE(s[1..]));
    hide LE;
    ModShift(3 * s0, 8, 3 * (32 * LE(s[1..])));
    ModShift((3 * s0) % 0x100, 8, 32 * ((3 * s0) / 0x100));
    CofactorNumbers(x, (3 * x) / 8, (3 * x) % 8, c);
  }

  lemma CofactorNumbers(s: nat, q: nat, k: nat, c: nat)
    requires s < ORDER && 3 * s == 8 * q + k && k < 8
    requires c == (s + k * ORDER) % R
    ensures c % ORDER == s && c % 8 == 0
  {
    var m := 0x200_0000_0000_0000_0000_0000_0000_0000_029b_df3b_d45e_f39a_cb02_4c63_4b9e_ba7d;
    assert ORDER == 8 * m + 5;
    assert c == s + k * ORDER;
    ModShift(s, ORDER, k);
    assert c == 8 * (2 * s + m * (3 * s) - q * ORDER);
  }

  /** Fermat's little theorem for the prime L is the one fact that makes the power an
  inverse; given it, `InverseScalar` returns an inverse modulo L. */
  lemma PowerIsInverse(s: nat, c: nat)
    requires Power(s, ORDER - 1) % ORDER == 1
    requires c % ORDER == Power(s, EXPONENT) % ORDER
    ensures (s * c) % ORDER == 1
  {
    MulCong(s, s, c, Power(s, EXPONENT), ORDER);
  }
}
