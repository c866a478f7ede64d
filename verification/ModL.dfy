/** Arithmetic modulo the group order L = 2^252 + 27742317777372353535851937790883648493
(common/monocypher.cpp:1596-1710): Barrett reduction of 512-bit numbers and the
multiply-add built on it. */
module ModL {
  import opened Words
  import opened Limbs

  const L: seq<u32> := [
    0x5cf5d3ed, 0x5812631a, 0xa2f79cd6, 0x14def9de,
    0x00000000, 0x00000000, 0x00000000, 0x10000000
  ]

  const ORDER: nat := 0x1000_0000_0000_0000_0000_0000_0000_0000_14de_f9de_a2f7_9cd6_5812_631a_5cf5_d3ed

  /** floor(2^512 / L), in nine limbs. */
  const BARRETT: seq<u32> := [
    0x0a2c131b, 0xed9ce5a3, 0x086329a7, 0x2106215d,
    0xffffffeb, 0xffffffff, 0xffffffff, 0xffffffff, 0xf
  ]

  const BARRETT_FACTOR: nat := 0xf_ffff_ffff_ffff_ffff_ffff_ffff_ffff_ffeb_2106_215d_0863_29a7_ed9c_e5a3_0a2c_131b

  const R: nat := 0x1_0000_0000_0000_0000_0000_0000_0000_0000_0000_0000_0000_0000_0000_0000_0000_0000  // 2^256

  lemma ValL()
    ensures |L| == 8 && Val(L) == ORDER
  {
    ValOf8(L);
  }

  lemma ValBarrett()
    ensures |BARRETT| == 9 && Val(BARRETT) == BARRETT_FACTOR
    ensures BARRETT_FACTOR == R * R / ORDER
  {
    assert BARRETT == BARRETT[..8] + [0xf];
    ValOf8(BARRETT[..8]);
    ValSnoc(BARRETT[..8], 0xf);
    Weights();
    ModUnique(R * R, ORDER, BARRETT_FACTOR, R * R - ORDER * BARRETT_FACTOR);
  }

  /** `is_above_l`: 1 when L <= x, else 0. */
  method IsAboveL(x: seq<u32>) returns (above: u64)
    requires |x| == 8
    ensures above == if ORDER <= Val(x) then 1 else 0
  {
    hide L, Val;
    ValL();
    ValBound(x);
    Weights();
    ghost var sum: seq<u32>;
    sum, above := AddLimbs(x, Complement(L), 1);
    ValBound(sum);
    AboveNumbers(Val(x), Val(sum), above as nat);
  }

  lemma AboveNumbers(x: nat, sum: nat, carry: nat)
    requires sum < R && sum + carry * R == x + R - ORDER && x < R
    ensures carry == if ORDER <= x then 1 else 0
  {
  }

  /** `remove_l`: subtracts L once if x is not below it. */
  method RemoveL(x: seq<u32>) returns (r: seq<u32>)
    requires |x| == 8 && Val(x) < 2 * ORDER
    ensures |r| == 8 && Val(r) == Val(x) % ORDER
  {
    ValL();
    Weights();
    var carry := IsAboveL(x);
    var negated := if carry == 1 then Complement(L) else seq(8, _ => 0);  // ~L & mask
    ValZeros(seq(8, _ => 0));
    var dropped: u64;
    r, dropped := AddLimbs(x, negated, carry);
    ValBound(r);
  }

  /** The Barrett quotient q = floor(x * floor(2^512/L) / 2^512) leaves 0 <= x - q*L < 2L. */
  lemma BarrettQuotient(x: nat, q: nat)
    requires x < R * R && q == x * BARRETT_FACTOR / (R * R)
    ensures 0 <= x - q * ORDER < 2 * ORDER
  {
    ValBarrett();
    var m := BARRETT_FACTOR;
    var rest := R * R - ORDER * m;  // 0 <= rest < L
    var low := x * m % (R * R);
    assert 0 <= rest < ORDER;
    assert x * m == q * (R * R) + low;
    // x * 2^512 == x * (m*L + rest) == (q * 2^512 + low) * L + x * rest
    assert (R * R) * (x - q * ORDER) == low * ORDER + x * rest by {
      assert x * (R * R) == x * (ORDER * m + rest);
      MulDistr(x, ORDER * m, rest);
      MulSwap(x, ORDER, m);
    }
    assert 0 <= x * rest < (R * R) * ORDER by {
      MulMono(x, 0, rest);
      MulMono(x, rest, ORDER);
    }
  }

  /** `mod_l`: x mod L for every 512-bit x. */
  method ReduceModL(x: seq<u32>) returns (r: seq<u32>)
    requires |x| == 16
    ensures |r| == 8 && Val(r) == Val(x) % ORDER
  {
    hide *;
    // xr = x * r
    var xr := new u32[25](_ => 0);
    ValBarrett();
    ValL();
    ValZeros(xr[..16]);
    AddProduct(xr, BARRETT, x);
    ghost var quotient := xr[16..];
    BarrettHigh(xr[..], x);
    // xr = floor(xr / 2^512) * L, of which only 256 bits are needed
    var factor := xr[16..24];
    for i := 0 to 8
      invariant forall k :: 0 <= k < i ==> xr[k] == 0
      invariant xr[16..] == quotient
    {
      xr[i] := 0;
    }
    ValZeros(xr[..8]);
    AddProductLow(xr, 8, factor, L);
    // xr = x - xr
    var difference, carry := AddLimbs(x[..8], Complement(xr[..8]), 1);
    assert factor == quotient[..8];
    BarrettEnd(x, quotient, xr[..8], difference, carry);
    r := RemoveL(difference);
  }

  lemma BarrettHigh(xr: seq<u32>, x: seq<u32>)
    requires |xr| == 25 && |x| == 16 && Val(xr) == Val(BARRETT) * Val(x)
    ensures 0 <= Val(x) - Val(xr[16..]) * ORDER < 2 * ORDER
  {
    ValBarrett();
    Weights();
    assert xr == xr[..16] + xr[16..];
    ValConcat(xr[..16], xr[16..]);
    ValBound(xr[..16]);
    ModUnique(Val(xr), R * R, Val(xr[16..]), Val(xr[..16]));
    ValBound(x);
    BarrettQuotient(Val(x), Val(xr[16..]));
  }

  lemma BarrettEnd(x: seq<u32>, q: seq<u32>, p: seq<u32>, d: seq<u32>, carry: u64)
    requires |x| == 16 && |q| == 9 && |p| == |d| == 8
    requires 0 <= Val(x) - Val(q) * ORDER < 2 * ORDER
    requires Val(p) == (0 + Val(q[..8]) * Val(L)) % Weight(8)
    requires Val(d) + carry as nat * Weight(8) == Val(x[..8]) + Val(Complement(p)) + 1
    ensures Val(d) < 2 * ORDER && Val(d) % ORDER == Val(x) % ORDER
  {
    ValL();
    Weights();
    ValBound(d);
    assert x == x[..8] + x[8..] && q == q[..8] + q[8..];
    ValConcat(x[..8], x[8..]);
    ValConcat(q[..8], q[8..]);
    BarrettLow(Val(x), Val(x[..8]), Val(x[8..]), Val(q), Val(q[..8]), Val(q[8..]),
               Val(p), Val(d), carry as nat);
  }

  /** Working modulo 2^256 loses nothing, since the remainder is known to be small. */
  lemma BarrettLow(x: nat, xl: nat, xh: nat, q: nat, ql: nat, qh: nat, p: nat, d: nat, carry: nat)
    requires x == xl + R * xh && q == ql + R * qh && p == ql * ORDER % R
    requires d < R && d + carry * R == xl + (R - 1 - p) + 1
    requires 0 <= x - q * ORDER < 2 * ORDER
    ensures d < 2 * ORDER && d % ORDER == x % ORDER
  {
    var k := carry - 1 + xh - ql * ORDER / R - qh * ORDER;
    assert x - q * ORDER == d + R * k;
    assert k == 0;
    ModShift(d, ORDER, q);
    assert x == d + ORDER * q;
  }

  /** `crypto_eddsa_reduce`: 64 bytes modulo L. */
  method EddsaReduce(expanded: seq<u8>) returns (reduced: seq<u8>)
    requires |expanded| == 64
    ensures |reduced| == 32 && LE(reduced) == LE(expanded) % ORDER
  {
    var r := ReduceModL(LoadLimbs(expanded));
    reduced := StoreLimbs(r);
  }

  /** `crypto_eddsa_mul_add`: (a * b + c) mod L, for any three 256-bit numbers. */
  method EddsaMulAdd(a: seq<u8>, b: seq<u8>, c: seq<u8>) returns (r: seq<u8>)
    requires |a| == |b| == |c| == 32
    ensures |r| == 32 && LE(r) == (LE(a) * LE(b) + LE(c)) % ORDER
  {
    hide *;
    var limbs := LoadLimbs(c);
    var p := new u32[16](i => if 0 <= i < |limbs| then limbs[i] else 0);
    assert p[..8] == limbs;
    AddProduct(p, LoadLimbs(a), LoadLimbs(b));
    var reduced := ReduceModL(p[..]);
    r := StoreLimbs(reduced);
  }
}
