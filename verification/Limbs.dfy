/** Schoolbook multiplication of 32-bit limb arrays, in place, with 64-bit running carries
(common/monocypher.cpp:1605-1616, 1654-1675, 2795-2811). */
module Limbs {
  import opened Words

  /** What a partial row leaves behind: `v` and the carry stand for `o + a * b`. */
  ghost predicate RowDone(v: seq<u32>, carry: u32, o: seq<u32>, a: u32, b: seq<u32>) {
    |v| == |o| == |b| && Val(v) + carry as nat * Weight(|b|) == Val(o) + a as nat * Val(b)
  }

  /** One row: adds `a * b` to the limbs of `p` that start at `off`; the last carry is
  returned, not stored. */
  method AddMulRow(p: array<u32>, off: nat, a: u32, b: seq<u32>) returns (carry: u32)
    requires off + |b| <= p.Length
    modifies p
    ensures p[..off] == old(p[..off]) && p[off + |b|..] == old(p[off + |b|..])
    ensures RowDone(p[off..off + |b|], carry, old(p[off..off + |b|]), a, b)
  {
    hide *;
    carry := 0;
    assert p[off..off + 0] == [] && b[..0] == [];
    RowEmpty(a);
    for j := 0 to |b|
      invariant p[..off] == old(p[..off]) && p[off + j..] == old(p[off + j..])
      invariant RowDone(p[off..off + j], carry, old(p[off..off + j]), a, b[..j])
    {
      ghost var v, o, c := p[off..off + j], old(p[off..off + j]), carry;
      assert p[off + j] == old(p[off + j..])[0];
      var sum := MulAdd(a, b[j], p[off + j], carry);
      p[off + j] := Lo32(sum);
      carry := Hi32(sum);
      RowSnoc(v, o, b[..j], c, old(p[off + j]), a, b[j], sum);
      assert p[off..off + j + 1] == v + [Lo32(sum)];
      assert old(p[off..off + j + 1]) == o + [old(p[off + j])];
      assert b[..j + 1] == b[..j] + [b[j]];
    }
    assert b[..|b|] == b;
  }

  lemma RowEmpty(a: u32)
    ensures RowDone([], 0, [], a, [])
  {
  }

  /** `carry + p + (u64)a * b`: never overflows 64 bits. */
  function MulAdd(a: u32, b: u32, p: u32, carry: u32): (r: u64)
    ensures r as int == carry as int + (p as int + a as int * b as int)
  {
    WideProduct(a as int, b as int);
    var product := (a as int * b as int) as u64;
    carry as u64 + (p as u64 + product)
  }

  lemma WideProduct(a: int, b: int)
    requires 0 <= a <= 0xffff_ffff && 0 <= b <= 0xffff_ffff
    ensures 0 <= a * b <= 0xffff_ffff * 0xffff_ffff
  {
    MulMono(a, b, 0xffff_ffff);
    MulMono(a, 0, b);
  }

  lemma RowSnoc(v: seq<u32>, o: seq<u32>, b: seq<u32>, c: u32, pj: u32, a: u32, bj: u32, sum: u64)
    requires RowDone(v, c, o, a, b)
    requires sum as int == c as int + (pj as int + a as int * bj as int)
    ensures RowDone(v + [Lo32(sum)], Hi32(sum), o + [pj], a, b + [bj])
  {
    ValSnoc(v, Lo32(sum));
    ValSnoc(o, pj);
    ValSnoc(b, bj);
    RowStep(Val(v), Val(o), Val(b), c as nat, pj as nat, a as nat, bj as nat,
            Lo32(sum) as nat, Hi32(sum) as nat, Weight(|b|));
  }

  lemma RowStep(v: nat, o: nat, b: nat, c: nat, pj: nat, a: nat, bj: nat, lo: nat, hi: nat, w: nat)
    requires v + c * w == o + a * b
    requires lo + 0x1_0000_0000 * hi == c + (pj + a * bj)
    ensures (v + lo * w) + hi * (0x1_0000_0000 * w) == (o + pj * w) + a * (b + bj * w)
  {
    assert w * (lo + 0x1_0000_0000 * hi) == w * (c + (pj + a * bj));
    MulDistr(w, lo, 0x1_0000_0000 * hi);
    MulDistr(w, c, pj + a * bj);
    MulDistr(w, pj, a * bj);
    MulSwap(w, a, bj);
    MulSwap(w, 0x1_0000_0000, hi);
    MulDistr(a, b, bj * w);
  }

  /** `p += a * b`, all limbs. The limbs of `p` that the product is to grow into are zero. */
  method AddProduct(p: array<u32>, a: seq<u32>, b: seq<u32>)
    requires p.Length == |a| + |b|
    requires forall k :: |b| <= k < p.Length ==> p[k] == 0
    modifies p
    ensures Val(p[..]) == Val(old(p[..|b|])) + Val(a) * Val(b)
  {
    hide *;
    var n := |b|;
    ghost var o := Val(p[..n]);
    assert p[..0 + n] == p[..n] && a[..0] == [];
    ProductEmpty(p[..n], b);
    for i := 0 to |a|
      invariant forall k :: i + n <= k < p.Length ==> p[k] == 0
      invariant ProductDone(p[..i + n], o, a[..i], b)
    {
      ghost var low, row := p[..i], p[i..i + n];
      assert p[..i + n] == low + row;
      var carry := AddMulRow(p, i, a[i], b);
      p[i + n] := carry;
      assert p[..i + 1 + n] == low + p[i..i + n] + [carry];
      assert a[..i + 1] == a[..i] + [a[i]];
      ProductSnoc(low, row, p[i..i + n], carry, a[..i], a[i], b, o);
    }
    assert a[..|a|] == a && p[..|a| + n] == p[..];
    assert Val(p[..]) == o + Val(a) * Val(b) by { ProductEnd(p[..], o, a, b); }
  }

  lemma ProductEmpty(p: seq<u32>, b: seq<u32>)
    ensures ProductDone(p, Val(p), [], b)
  {
  }

  lemma ProductEnd(p: seq<u32>, o: nat, a: seq<u32>, b: seq<u32>)
    requires ProductDone(p, o, a, b)
    ensures Val(p) == o + Val(a) * Val(b)
  {
  }

  ghost predicate ProductDone(p: seq<u32>, o: nat, a: seq<u32>, b: seq<u32>) {
    Val(p) == o + Val(a) * Val(b)
  }

  lemma ProductSnoc(low: seq<u32>, row: seq<u32>, row': seq<u32>, c: u32, a: seq<u32>, ai: u32, b: seq<u32>, o: nat)
    requires |a| == |low| && RowDone(row', c, row, ai, b)
    requires ProductDone(low + row, o, a, b)
    ensures ProductDone(low + row' + [c], o, a + [ai], b)
  {
    hide Val, Weight;
    var w, wi, wn := Weight(|low| + |b|), Weight(|low|), Weight(|b|);
    assert w == wi * wn by { WeightAdd(|low|, |b|); }
    assert Val(low + row) == Val(low) + wi * Val(row) by { ValConcat(low, row); }
    var v, v', a' := Val(low + row'), Val(low + row' + [c]), Val(a + [ai]);
    assert v == Val(low) + wi * Val(row') by { ValConcat(low, row'); }
    assert |low + row'| == |low| + |b|;
    ValSnocAt(low + row', c, w);
    assert a' == Val(a) + ai as nat * wi by { ValSnoc(a, ai); }
    ProductStep(Val(low), Val(row), Val(row'), c as nat, ai as nat, Val(b), wi, wn, w, o, Val(a), a');
  }

  lemma ProductStep(low: nat, row: nat, row': nat, c: nat, ai: nat, b: nat, wi: nat, wn: nat, w: nat,
                    o: nat, a: nat, a': nat)
    requires row' + c * wn == row + ai * b && w == wi * wn && a' == a + ai * wi
    requires low + wi * row == o + a * b
    ensures low + wi * row' + c * w == o + a' * b
  {
    assert wi * (row' + c * wn) == wi * (row + ai * b);
    MulDistr(wi, row', c * wn);
    MulDistr(wi, row, ai * b);
    MulSwap(wi, c, wn);
    MulDistr(b, a, ai * wi);
    MulSwap(wi, ai, b);
    MulSwap(b, ai, wi);
  }

  /** `p += a * b` modulo 2^(32*n): only the low n limbs are computed, and the carry out
  of each row is dropped. */
  method AddProductLow(p: array<u32>, n: nat, a: seq<u32>, b: seq<u32>)
    requires |a| == |b| == n <= p.Length
    modifies p
    ensures p[n..] == old(p[n..])
    ensures Val(p[..n]) == (Val(old(p[..n])) + Val(a) * Val(b)) % Weight(n)
  {
    hide *;
    ghost var lost := 0;  // how many times 2^(32*n) was dropped
    ghost var o := Val(p[..n]);
    assert a[..0] == [];
    LowEmpty(p[..n], n, b);
    for i := 0 to n
      invariant p[n..] == old(p[n..])
      invariant LowDone(p[..n], n, lost, o, a[..i], b)
    {
      ghost var low, row := p[..i], p[i..n];
      assert p[..n] == low + row;
      var carry := AddMulRow(p, i, a[i], b[..n - i]);
      assert p[..n] == low + p[i..n];
      assert a[..i + 1] == a[..i] + [a[i]];
      lost := LowSnoc(low, row, p[i..n], carry, a[..i], a[i], b, o, lost);
    }
    assert a[..n] == a;
    LowEnd(p[..n], n, lost, o, a, b);
  }

  lemma LowEmpty(p: seq<u32>, n: nat, b: seq<u32>)
    ensures LowDone(p, n, 0, Val(p), [], b)
  {
  }

  lemma LowEnd(p: seq<u32>, n: nat, lost: nat, o: nat, a: seq<u32>, b: seq<u32>)
    requires |p| == n && LowDone(p, n, lost, o, a, b)
    ensures Val(p) == (o + Val(a) * Val(b)) % Weight(n)
  {
    ValBound(p);
    ModUnique(o + Val(a) * Val(b), Weight(n), lost, Val(p));
  }

  ghost predicate LowDone(p: seq<u32>, n: nat, lost: nat, o: nat, a: seq<u32>, b: seq<u32>) {
    Val(p) + Weight(n) * lost == o + Val(a) * Val(b)
  }

  lemma LowSnoc(low: seq<u32>, row: seq<u32>, row': seq<u32>, c: u32, a: seq<u32>, ai: u32, b: seq<u32>,
                o: nat, lost: nat)
    returns (lost': nat)
    requires |a| == |low| <= |b| && RowDone(row', c, row, ai, b[..|b| - |a|])
    requires LowDone(low + row, |b|, lost, o, a, b)
    ensures LowDone(low + row', |b|, lost', o, a + [ai], b)
  {
    hide Val, Weight;
    var i, n := |a|, |b|;
    var bl, bh := b[..n - i], b[n - i..];
    assert b == bl + bh;
    ValConcat(bl, bh);
    ValConcat(low, row);
    ValConcat(low, row');
    ValSnoc(a, ai);
    WeightAdd(i, n - i);
    lost' := lost + c as nat + ai as nat * Val(bh);
    LowStep(Val(low), Val(row), Val(row'), c as nat, ai as nat, Val(bl), Val(bh),
            Weight(i), Weight(n - i), o, Val(a), lost);
  }

  lemma LowStep(low: nat, row: nat, row': nat, c: nat, ai: nat, bl: nat, bh: nat, wi: nat, wr: nat,
                o: nat, a: nat, lost: nat)
    requires row' + c * wr == row + ai * bl
    requires (low + wi * row) + (wi * wr) * lost == o + a * (bl + wr * bh)
    ensures (low + wi * row') + (wi * wr) * (lost + c + ai * bh) == o + (a + ai * wi) * (bl + wr * bh)
  {
    var b := bl + wr * bh;
    var w := wi * wr;
    assert wi * (row' + c * wr) == wi * (row + ai * bl);
    MulDistr(wi, row', c * wr);
    MulDistr(wi, row, ai * bl);
    MulSwap(wi, c, wr);
    MulDistr(w, lost + c, ai * bh);
    MulDistr(w, lost, c);
    MulDistr(b, a, ai * wi);
    LowTerms(ai, wi, wr, bl, bh);
  }

  lemma LowTerms(ai: nat, wi: nat, wr: nat, bl: nat, bh: nat)
    ensures (bl + wr * bh) * (ai * wi) == wi * (ai * bl) + (wi * wr) * (ai * bh)
  {
    var k := ai * wi;
    MulDistr(k, bl, wr * bh);
    assert k * bl == wi * (ai * bl) by { MulAssoc(wi, ai, bl); }
    assert k * (wr * bh) == (wi * wr) * (ai * bh) by {
      MulAssoc(k, wr, bh);
      MulAssoc(wi * wr, ai, bh);
      assert k * wr == (wi * wr) * ai by { MulAssoc(wi, wr, ai); MulAssoc(wi, ai, wr); }
    }
  }

  /** `out = x + y + carry`, limb by limb; returns the carry out. A subtraction is the
  addition of a complement, with a carry in of 1. */
  method AddLimbs(x: seq<u32>, y: seq<u32>, carryIn: u64) returns (out: seq<u32>, carry: u64)
    requires |x| == |y| && carryIn <= 5
    ensures |out| == |x| && carry <= 5
    ensures Val(out) + carry as nat * Weight(|x|) == Val(x) + Val(y) + carryIn as nat
  {
    carry := carryIn;
    out := [];
    for i := 0 to |x|
      invariant |out| == i && carry <= 5
      invariant Val(out) + carry as nat * Weight(i) == Val(x[..i]) + Val(y[..i]) + carryIn as nat
    {
      ghost var c := carry;
      carry := carry + (x[i] as u64 + y[i] as u64);
      ValSnoc(out, Lo32(carry));
      assert x[..i + 1] == x[..i] + [x[i]] && y[..i + 1] == y[..i] + [y[i]];
      ValSnoc(x[..i], x[i]);
      ValSnoc(y[..i], y[i]);
      AddStep(Weight(i), Lo32(carry) as nat, Hi32(carry) as nat, x[i] as nat, y[i] as nat, c as nat);
      out := out + [Lo32(carry)];
      carry := Hi32(carry) as u64;
    }
    assert x[..|x|] == x && y[..|x|] == y;
  }

  lemma AddStep(w: nat, lo: nat, hi: nat, x: nat, y: nat, c: nat)
    requires lo + 0x1_0000_0000 * hi == c + (x + y)
    ensures lo * w + hi * (0x1_0000_0000 * w) == x * w + y * w + c * w
  {
    assert w * (lo + 0x1_0000_0000 * hi) == w * (c + (x + y));
    MulDistr(w, lo, 0x1_0000_0000 * hi);
    MulSwap(w, 0x1_0000_0000, hi);
    MulDistr(w, c, x + y);
    MulDistr(w, x, y);
  }

  /** Each limb complemented: `~x[i] & 0xffffffff`. */
  function Complement(s: seq<u32>): (r: seq<u32>)
    ensures |r| == |s|
    ensures Val(r) == Weight(|s|) - 1 - Val(s)
  {
    if s == [] then []
    else
      var n := |s| - 1;
      var r := Complement(s[..n]) + [0xffff_ffff - s[n]];
      ComplementStep(s, Complement(s[..n]));
      r
  }

  lemma ComplementStep(s: seq<u32>, low: seq<u32>)
    requires s != [] && |low| == |s| - 1 && Val(low) == Weight(|low|) - 1 - Val(s[..|s| - 1])
    ensures Val(low + [0xffff_ffff - s[|s| - 1]]) == Weight(|s|) - 1 - Val(s)
  {
    var n := |s| - 1;
    var x := 0xffff_ffff - s[n];
    ValSnoc(low, x);
    ComplementTerms(Weight(n), s[n] as int, x as int);
  }

  lemma ComplementTerms(w: int, x: int, y: int)
    requires x + y == 0xffff_ffff
    ensures y * w == 0xffff_ffff * w - x * w
  {
    MulDistr(w, x, y);
  }
}
