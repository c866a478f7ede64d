/** Bits of 32-byte scalars (common/monocypher.cpp:1500-1514). */
module Scalars {
  import opened Words

  /** `scalar_bit`: bit i of a scalar, and 0 at index -1. */
  function ScalarBit(s: seq<u8>, i: int): (b: nat)
    requires -1 <= i < 8 * |s|
    ensures b <= 1
  {
    if i < 0 then 0 else Shr(s[i / 8] as nat, i % 8) % 2
  }

  /** The bits are the binary digits of the little-endian number. */
  lemma {:induction false} ScalarBitIs(s: seq<u8>, i: nat)
    requires i < 8 * |s|
    ensures ScalarBit(s, i) == Shr(LE(s), i) % 2
  {
    SmallPowers();
    var low, high := s[0] as nat, LE(s[1..]);
    ShlIsMul(high, 8);
    if i < 8 {
      ShrLow(low, high, 8, i);
    } else {
      ScalarBitIs(s[1..], i - 8);
      assert s[1..][(i - 8) / 8] == s[i / 8];
      ShrHigh(low, high, 8, i - 8);
    }
  }

  /** `crypto_eddsa_trim_scalar`: clears the three low bits and bit 255, sets bit 254. */
  function Trim(s: seq<u8>): (r: seq<u8>)
    requires |s| == 32
    ensures |r| == 32
  {
    [s[0] - s[0] % 8] + s[1..31] + [s[31] % 64 + 64]
  }

  /** What trimming does to each bit. */
  lemma TrimBits(s: seq<u8>, i: nat)
    requires |s| == 32 && i < 256
    ensures ScalarBit(Trim(s), i) == if i < 3 || i == 255 then 0 else if i == 254 then 1 else ScalarBit(s, i)
  {
    if i < 8 {
      TrimByte(s[0] as nat, i);
    } else if i >= 248 {
      TrimByte(s[31] as nat, i - 248);
    } else {
      assert Trim(s)[i / 8] == s[i / 8];
    }
  }

  lemma TrimByte(b: nat, i: nat)
    requires i < 8 && b < 256
    ensures Shr(b - b % 8, i) % 2 == if i < 3 then 0 else Shr(b, i) % 2
    ensures Shr(b % 64 + 64, i) % 2 == if i == 7 then 0 else if i == 6 then 1 else Shr(b, i) % 2
  {
    assert Pow2(3) == 8 && Pow2(6) == 64 && Shr(1, 0) == 1 && Shr(1, 1) == 0;
    ShlIsMul(b / 8, 3);
    ShlIsMul(b / 64, 6);
    ShlIsMul(1, 6);
    hide *;
    assert b == b % 8 + 8 * (b / 8) && b == b % 64 + 64 * (b / 64);
    if i < 3 {
      ShrLow(0, b / 8, 3, i);
      ShrOfZero(i);
    } else {
      ShrHigh(0, b / 8, 3, i - 3);
      ShrHigh(b % 8, b / 8, 3, i - 3);
    }
    if i < 6 {
      ShrLow(b % 64, 1, 6, i);
      ShrLow(b % 64, b / 64, 6, i);
    } else {
      ShrHigh(b % 64, 1, 6, i - 6);
    }
  }

  lemma {:induction false} ShrOfZero(i: nat)
    ensures Shr(0, i) == 0
  {
    if i > 0 {
      ShrOfZero(i - 1);
    }
  }

  lemma TrimRange(s: seq<u8>)
    requires |s| == 32
    ensures LE(Trim(s)) % 8 == 0 && Pow2(254) <= LE(Trim(s)) < Pow2(255)
  {
    var r := Trim(s);
    var low, top := r[..31], r[31..];
    assert r == low + top;
    assert LE(top) == r[31] as nat by { assert top[1..] == []; }
    hide LE;
    TrimLow(r);
    hide Pow2, Trim;
    LEConcat(low, top);
    LEBound(low);
    TrimTop(LE(low), r[31] as nat);
  }

  lemma TrimTop(low: nat, top: nat)
    requires low < Pow2(248) && 64 <= top < 128
    ensures Pow2(254) <= low + Pow2(248) * top < Pow2(255)
  {
    assert Pow2(6) == 64 by { assert Pow2(3) == 8; }
    Pow2Add(248, 6);
    Pow2Add(248, 7);
    hide Pow2;
    MulMono(Pow2(248), 64, top);
    MulMono(Pow2(248), top, 127);
  }

  lemma TrimLow(r: seq<u8>)
    requires r != [] && r[0] % 8 == 0
    ensures LE(r) % 8 == 0
  {
    var q := r[0] as nat / 8;
    assert LE(r) == 8 * (q + 32 * LE(r[1..]));
  }
}
