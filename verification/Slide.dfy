/** Signed sliding windows and the verification ladder that uses them
(common/monocypher.cpp:1940-2066). */
module Slide {
  import opened Words
  import opened Scalars
  import opened Group
  import opened Options
  import ModL

  // ------------------------------------------------------- the number the digits make

  /** Where `slide_init` starts: one above the highest bit set among bits 1 to 252. */
  ghost predicate IsFirstCheck(s: seq<u8>, first: nat) {
    && |s| == 32 && 1 <= first <= 253
    && (forall k :: first <= k <= 252 ==> ScalarBit(s, k) == 0)
    && (first > 1 ==> ScalarBit(s, first - 1) == 1)
  }

  /** The search of `slide_init`, from bit i down. */
  function HighestFrom(s: seq<u8>, i: nat): (h: nat)
    requires |s| == 32 && i <= 252
    ensures h <= i
  {
    if i > 0 && ScalarBit(s, i) == 0 then HighestFrom(s, i - 1) else i
  }

  ghost function FirstCheck(s: seq<u8>): (first: nat)
    requires |s| == 32
    ensures 1 <= first <= 253
  {
    HighestFrom(s, 252) + 1
  }

  lemma {:induction false} HighestIs(s: seq<u8>, i: nat)
    requires |s| == 32 && i <= 252
    ensures var h := HighestFrom(s, i);
      (forall k :: h < k <= i ==> ScalarBit(s, k) == 0) && (h > 0 ==> ScalarBit(s, h) == 1)
  {
    hide ScalarBit;
    if i > 0 && ScalarBit(s, i) == 0 {
      HighestIs(s, i - 1);
    }
  }

  lemma FirstCheckIs(s: seq<u8>)
    requires |s| == 32
    ensures IsFirstCheck(s, FirstCheck(s))
  {
    hide ScalarBit;
    HighestIs(s, 252);
  }

  /** The number the digits of a scalar add up to. */
  ghost function Recoded(s: seq<u8>): int
    requires |s| == 32
  {
    Target(s, FirstCheck(s), -1)
  }

  /** The bits from i up to `first`, the top one counting as a sign. */
  ghost function Head(s: seq<u8>, first: nat, i: nat): int
    requires |s| == 32 && first <= 253 && i <= first + 1
    decreases first + 1 - i
  {
    if i == first + 1 then 0 - ScalarBit(s, first)
    else 2 * Head(s, first, i + 1) + ScalarBit(s, i)
  }

  /** What the digits must sum up to once every bit above c is consumed: the bit at c is still
  owed, because runs of ones are recoded as a difference. */
  ghost function Target(s: seq<u8>, first: nat, c: int): int
    requires |s| == 32 && first <= 253 && -1 <= c <= first
  {
    Head(s, first, c + 1) + ScalarBit(s, c)
  }

  /** The bits n of s from `low` upwards, as a number. */
  ghost function LowBits(s: seq<u8>, low: nat, n: nat): (v: nat)
    requires |s| == 32 && low + n <= 256
    ensures v < Pow2(n)
  {
    if n == 0 then 0 else LowBits(s, low, n - 1) + Pow2(n - 1) * ScalarBit(s, low + n - 1)
  }

  lemma {:induction false} HeadWindow(s: seq<u8>, first: nat, low: nat, n: nat)
    requires |s| == 32 && first <= 253 && low + n <= first + 1
    ensures Head(s, first, low) == Pow2(n) * Head(s, first, low + n) + LowBits(s, low, n)
  {
    hide *;
    if n == 0 {
      NoLowBits(s, low);
    } else {
      HeadWindow(s, first, low, n - 1);
      HeadNext(s, first, low + n - 1);
      NextLowBit(s, low, n - 1);
      Doubling(n - 1);
      HeadNumbers(Pow2(n - 1), Head(s, first, low + n), ScalarBit(s, low + n - 1));
    }
  }

  lemma NoLowBits(s: seq<u8>, low: nat)
    requires |s| == 32 && low <= 256
    ensures LowBits(s, low, 0) == 0 && Pow2(0) == 1
  {
  }

  lemma NextLowBit(s: seq<u8>, low: nat, n: nat)
    requires |s| == 32 && low + n < 256
    ensures LowBits(s, low, n + 1) == LowBits(s, low, n) + Pow2(n) * ScalarBit(s, low + n)
  {
    hide ScalarBit, Pow2;
  }

  lemma HeadNumbers(p: nat, h: int, b: nat)
    ensures p * (2 * h + b) == 2 * p * h + p * b
  {
  }

  lemma HeadNext(s: seq<u8>, first: nat, i: nat)
    requires |s| == 32 && i <= first <= 253
    ensures Head(s, first, i) == 2 * Head(s, first, i + 1) + ScalarBit(s, i)
  {
    hide ScalarBit;
  }

  /** `v`: the signed value of the window of w bits below and at i. */
  ghost function WindowValue(s: seq<u8>, i: nat, w: nat): int
    requires |s| == 32 && i <= 253 && 1 <= w <= i + 1
  {
    0 - Shl(ScalarBit(s, i), w - 1) + LowBits(s, i - (w - 1), w - 1) + ScalarBit(s, i - w)
  }

  /** The window pays for exactly the w bits it consumes. */
  lemma WindowPays(s: seq<u8>, first: nat, i: nat, w: nat)
    requires |s| == 32 && i <= first <= 253 && 1 <= w <= i + 1
    ensures Target(s, first, i) * Pow2(w) + WindowValue(s, i, w) == Target(s, first, i - w)
  {
    hide ScalarBit, LowBits, Shl, Pow2, Head;
    HeadWindow(s, first, i - (w - 1), w - 1);
    ShlIsMul(ScalarBit(s, i), w - 1);
    Doubling(w - 1);
    HeadNext(s, first, i);
    WindowNumbers(Pow2(w - 1), Head(s, first, i + 1), ScalarBit(s, i));
  }

  lemma Doubling(n: nat)
    ensures Pow2(n + 1) == 2 * Pow2(n)
  {
  }

  lemma WindowNumbers(p: nat, h: int, b: nat)
    ensures (h + b) * (2 * p) - p * b == p * (2 * h + b)
  {
  }

  /** Where a run of equal bits ends, the window is not empty and has a known sign. */
  lemma WindowRange(s: seq<u8>, i: nat, w: nat)
    requires |s| == 32 && i <= 253 && 1 <= w <= i + 1 && w <= 5 && (w == 1 ==> i == 0)
    requires ScalarBit(s, i) != ScalarBit(s, i - 1)
    ensures WindowValue(s, i, w) != 0 && 0 - Pow2(w - 1) <= WindowValue(s, i, w) <= Pow2(w - 1) <= 16
  {
    hide ScalarBit;
    assert Pow2(4) == 16 && Pow2(3) == 8 && Pow2(2) == 4 && Pow2(1) == 2 && Pow2(0) == 1;
    ShlIsMul(ScalarBit(s, i), w - 1);
    if w > 1 {
      var low := LowBits(s, i - (w - 1), w - 2);
      assert LowBits(s, i - (w - 1), w - 1) == low + Pow2(w - 2) * ScalarBit(s, i - 1);
    }
  }

  // ----------------------------------------------------------- the lowest bit of a window

  /** `v & (~v + 1)`, on 32-bit two's complement. */
  function LowestBit(v: int): nat {
    BitAnd(v % 0x1_0000_0000, -v % 0x1_0000_0000)
  }

  /** log2 of a power of two, by masks. */
  function Log2(lsb: nat): nat {
    BitOr(BitOr(Shl(if BitAnd(lsb, 0xAA) != 0 then 1 else 0, 0),
                Shl(if BitAnd(lsb, 0xCC) != 0 then 1 else 0, 1)),
          Shl(if BitAnd(lsb, 0xF0) != 0 then 1 else 0, 2))
  }

  /** The largest power of two that divides a. */
  ghost function Divisor(a: nat): (p: nat)
    requires a > 0
  {
    if a % 2 == 1 then 1 else 2 * Divisor(a / 2)
  }

  lemma {:induction false} AndIsZeroOnComplement(a: nat, n: nat)
    requires a < Pow2(n)
    ensures BitAnd(a, Pow2(n) - 1 - a) == 0
  {
    if n > 0 && Pow2(n) > 1 {
      AndIsZeroOnComplement(a / 2, n - 1);
      assert (Pow2(n) - 1 - a) / 2 == Pow2(n - 1) - 1 - a / 2;
    }
  }

  lemma {:induction false} AndWithNegation(a: nat, n: nat)
    requires 0 < a < Pow2(n)
    ensures BitAnd(a, Pow2(n) - a) == Divisor(a)
  {
    assert n > 0;
    var b := Pow2(n) - a;
    if a % 2 == 1 {
      AndIsZeroOnComplement(a / 2, n - 1);
      assert b / 2 == Pow2(n - 1) - 1 - a / 2;
    } else {
      AndWithNegation(a / 2, n - 1);
      assert b / 2 == Pow2(n - 1) - a / 2;
    }
  }

  lemma {:induction false} AndComm(a: nat, b: nat)
    ensures BitAnd(a, b) == BitAnd(b, a)
    decreases a + b
  {
    if a != 0 || b != 0 {
      AndComm(a / 2, b / 2);
    }
  }

  lemma LowestBitDivides(v: int)
    requires v != 0 && -16 <= v <= 16
    ensures LowestBit(v) == Divisor(if v < 0 then -v else v)
  {
    hide BitAnd, Divisor, Pow2;
    SmallPowers();
    var a := if v < 0 then -v else v;
    AndWithNegation(a, 32);
    AndComm(a, 0x1_0000_0000 - a);
  }

  lemma MaskAA()
    ensures BitAnd(1, 0xAA) == 0 && BitAnd(2, 0xAA) == 2 && BitAnd(4, 0xAA) == 0 && BitAnd(8, 0xAA) == 8 && BitAnd(16, 0xAA) == 0
  {
    assert BitAnd(0, 0x5) == 0;
    assert BitAnd(1, 0xA) == 0;
    assert BitAnd(2, 0x15) == 0;
  }

  lemma MaskCC()
    ensures BitAnd(1, 0xCC) == 0 && BitAnd(2, 0xCC) == 0 && BitAnd(4, 0xCC) == 4 && BitAnd(8, 0xCC) == 8 && BitAnd(16, 0xCC) == 0
  {
    assert BitAnd(0, 0x6) == 0;
    assert BitAnd(1, 0xC) == 0;
    assert BitAnd(2, 0x19) == 0;
  }

  lemma MaskF0()
    ensures BitAnd(1, 0xF0) == 0 && BitAnd(2, 0xF0) == 0 && BitAnd(4, 0xF0) == 0 && BitAnd(8, 0xF0) == 0 && BitAnd(16, 0xF0) == 16
  {
    assert BitAnd(0, 0x7) == 0;
    assert BitAnd(1, 0xF) == 1;
    assert BitAnd(2, 0x1E) == 2;
  }

  lemma Log2OfPowers()
    ensures Log2(1) == 0 && Log2(2) == 1 && Log2(4) == 2 && Log2(8) == 3 && Log2(16) == 4
  {
    hide BitAnd;
    MaskAA();
    MaskCC();
    MaskF0();
  }

  lemma SmallDivisor(a: nat)
    requires 1 <= a <= 16
    ensures var p := Divisor(a);
      (p == 1 && a % 2 == 1) || (p == 2 && a % 4 == 2) || (p == 4 && a % 8 == 4) || (p == 8 && a == 8)
      || (p == 16 && a == 16)
  {
    assert Divisor(2) == 2 && Divisor(4) == 4 && Divisor(6) == 2 && Divisor(8) == 8;
    assert Divisor(10) == 2 && Divisor(12) == 4 && Divisor(14) == 2 && Divisor(16) == 16;
    if a % 2 == 1 {
      OddDivisor(a);
    }
  }

  lemma OddDivisor(a: nat)
    requires a % 2 == 1
    ensures Divisor(a) == 1
  {
  }

  /** Shifting the zeros out of a window leaves an odd digit, smaller than an even bound b. */
  lemma OddDigit(v: int, b: int)
    requires v != 0 && -b <= v <= b <= 16 && (b % 2 == 0 || b == 1)
    ensures var s := Log2(LowestBit(v)); var d := v / Pow2(s);
      s <= 4 && d * Pow2(s) == v && d % 2 == 1 && (-b < d < b || (b == 1 && -1 <= d <= 1))
  {
    hide LowestBit, Log2, Divisor, Pow2;
    LowestBitDivides(v);
    Log2OfPowers();
    SmallDivisor(if v < 0 then -v else v);
    SmallPow(Log2(LowestBit(v)));
    var d := OddQuotient(v, LowestBit(v), b);
    ModUnique(v, LowestBit(v), d, 0);
  }

  lemma OddQuotient(v: int, p: nat, b: int) returns (d: int)
    requires v != 0 && -b <= v <= b <= 16 && (b % 2 == 0 || b == 1)
    requires var a := if v < 0 then -v else v;
      (p == 1 && a % 2 == 1) || (p == 2 && a % 4 == 2) || (p == 4 && a % 8 == 4) || (p == 8 && a == 8)
      || (p == 16 && a == 16)
    ensures v == p * d && d % 2 == 1 && (-b < d < b || (b == 1 && -1 <= d <= 1))
  {
    if p == 1 {
      d := v;
    } else if p == 2 {
      d := v / 2;
    } else if p == 4 {
      d := v / 4;
    } else {
      d := if v < 0 then -1 else 1;
    }
  }

  // ------------------------------------------------------------------- the recoding

  /** `sum` is the number made by the digits emitted so far, up = i - c places above the next
  position to consume; `digit` is the one computed and not emitted yet, `place` above c. */
  ghost predicate Balanced(sum: int, up: nat, digit: int, place: nat, target: int) {
    sum * Pow2(up) + digit * Pow2(place) == target
  }

  lemma Emit(sum: int, up: nat, digit: int, target: int)
    requires up > 0 && Balanced(sum, up, digit, up - 1, target)
    ensures Balanced(2 * sum + digit, up - 1, 0, 0, target)
  {
    var p := Pow2(up - 1);
    assert (2 * sum + digit) * p == sum * (2 * p) + digit * p;
  }

  lemma Postpone(sum: int, up: nat, digit: int, place: nat, target: int)
    requires up > 0 && Balanced(sum, up, digit, place, target)
    ensures Balanced(2 * sum, up - 1, digit, place, target)
  {
    var p := Pow2(up - 1);
    assert (2 * sum) * p == sum * (2 * p);
  }

  /** Two equal bits: the run goes on, and no digit is due. */
  lemma SkipBit(s: seq<u8>, first: nat, i: nat, sum: int)
    requires |s| == 32 && i <= first <= 253 && ScalarBit(s, i) == ScalarBit(s, i - 1)
    requires Balanced(sum, 0, 0, 0, Target(s, first, i))
    ensures Balanced(sum, 1, 0, 0, Target(s, first, i - 1))
  {
    hide ScalarBit;
    assert Pow2(1) == 2 && Pow2(0) == 1;
  }

  /** A window of w bits, whose value is digit * 2^shift. */
  lemma TakeWindow(s: seq<u8>, first: nat, i: nat, w: nat, sum: int, digit: int, shift: nat)
    requires |s| == 32 && i <= first <= 253 && 1 <= w <= i + 1
    requires Balanced(sum, 0, 0, 0, Target(s, first, i)) && digit * Pow2(shift) == WindowValue(s, i, w)
    ensures Balanced(sum, w, digit, shift, Target(s, first, i - w))
  {
    hide Target, WindowValue;
    WindowPays(s, first, i, w);
    assert Pow2(0) == 1;
    assert sum == Target(s, first, i);
  }

  /** An odd digit that fits a window: its table has 2^(width - 2) entries. */
  ghost predicate IsDigit(d: int, width: nat)
    requires width > 0
  {
    d % 2 == 1 && 0 - Pow2(width - 1) < d < Pow2(width - 1)
  }

  lemma NothingOwed(s: seq<u8>, first: nat, up: nat)
    requires |s| == 32 && first <= 253
    ensures Balanced(0, up, 0, 0, Target(s, first, first))
  {
    hide ScalarBit, Pow2;
    assert Target(s, first, first) == 0;
  }

  lemma LowBitsNext(s: seq<u8>, low: nat, n: nat)
    requires |s| == 32 && low + n < 256
    ensures LowBits(s, low, n + 1) == LowBits(s, low, n) + Shl(ScalarBit(s, low + n), n)
  {
    hide *;
    NextLowBit(s, low, n);
    ShlIsMul(ScalarBit(s, low + n), n);
  }

  /** The loop of `slide_step` that adds up a window. */
  method WindowSum(s: seq<u8>, i: nat, w: nat) returns (v: int)
    requires |s| == 32 && i <= 253 && 1 <= w <= i + 1
    ensures v == WindowValue(s, i, w)
  {
    hide ScalarBit, Shl;
    v := 0 - Shl(ScalarBit(s, i), w - 1);
    for j := 0 to w - 1
      invariant v == LowBits(s, i - (w - 1), j) - Shl(ScalarBit(s, i), w - 1)
    {
      LowBitsNext(s, i - (w - 1), j);
      v := v + Shl(ScalarBit(s, i - (w - 1) + j), j);
    }
    v := v + ScalarBit(s, i - w);
  }

  /** The digit of a window fits the table, and falls inside the window. */
  lemma WindowDigit(s: seq<u8>, i: nat, w: nat, width: nat, v: int)
    requires |s| == 32 && i <= 253 && 2 <= width <= 5 && w == (if width < i + 1 then width else i + 1)
    requires ScalarBit(s, i) != ScalarBit(s, i - 1) && v == WindowValue(s, i, w)
    ensures var shift := Log2(LowestBit(v)); var d := v / Pow2(shift);
      shift <= w - 1 && d * Pow2(shift) == v && IsDigit(d, width) && -16 <= d <= 16
  {
    hide ScalarBit, WindowValue, Log2, LowestBit, Pow2;
    WindowRange(s, i, w);
    SmallPow(w - 1);
    SmallPow(width - 1);
    OddDigit(v, Pow2(w - 1));
    var shift := Log2(LowestBit(v));
    SmallPow(shift);
    ShiftInside(v / Pow2(shift), shift, w - 1);
  }

  lemma SmallPow(n: nat)
    requires n <= 4
    ensures Pow2(n) == if n == 0 then 1 else if n == 1 then 2 else if n == 2 then 4 else if n == 3 then 8 else 16
  {
    assert Pow2(4) == 16 && Pow2(3) == 8 && Pow2(2) == 4 && Pow2(1) == 2 && Pow2(0) == 1;
  }

  lemma ShiftInside(d: int, shift: nat, n: nat)
    requires shift <= 4 && n <= 4 && d != 0 && 0 - Pow2(n) <= d * Pow2(shift) <= Pow2(n)
    ensures shift <= n
  {
    SmallPow(n);
    SmallPow(shift);
  }

  /** The loop of `slide_init`. */
  method HighestBit(s: seq<u8>) returns (i: nat)
    requires |s| == 32
    ensures i + 1 == FirstCheck(s)
  {
    hide ScalarBit;
    i := 252;
    while i > 0 && ScalarBit(s, i) == 0
      invariant 0 <= i <= 252
      invariant HighestFrom(s, i) == HighestFrom(s, 252)
    {
      i := i - 1;
    }
  }

  class SlideCtx {
    var nextIndex: i16       // position of the next signed digit
    var nextDigit: i8        // next signed digit (odd)
    var nextCheck: u8        // point at which we must check for a new window
    ghost const first: nat   // where next_check started
    ghost const scalar: seq<u8>
    ghost const width: nat
    ghost var sum: int       // the digits returned so far, each worth twice the following one

    /** next_check, which wraps around to 255 below 0. */
    ghost function Check(): int
      reads this
    {
      if nextCheck == 255 then -1 else nextCheck as int
    }

    ghost predicate Pending(i: int)
      reads this
    {
      Check() < nextIndex as int <= i
    }

    /** Ready for index i: the digits returned so far and the one computed are worth exactly
    the bits above next_check. */
    ghost predicate Valid(i: int)
      reads this
    {
      && |scalar| == 32 && first == FirstCheck(scalar) && 2 <= width <= 5
      && -1 <= Check() <= i && Check() <= first && Check() <= 253
      && (nextIndex == -1 || nextIndex as int > Check())
      && (Pending(i) ==> IsDigit(nextDigit as int, width))
      && (if Pending(i) then
            Balanced(sum, (i - Check()), nextDigit as int, nextIndex as int - Check() - 1, Target(scalar, first, Check()))
          else
            Balanced(sum, (i - Check()), 0, 0, Target(scalar, first, Check())))
    }

    /** `slide_init` */
    constructor (scalar: seq<u8>, ghost width: nat)
      requires |scalar| == 32 && 2 <= width <= 5
      ensures this.scalar == scalar && this.width == width && sum == 0
      ensures nextCheck as nat == first && 1 <= first <= 253
      ensures forall i :: i >= nextCheck as int ==> Valid(i)
    {
      hide ScalarBit, Balanced, Target, IsDigit, FirstCheck;
      var i := HighestBit(scalar);
      nextCheck := (i + 1) as u8;
      nextIndex := -1;
      nextDigit := -1;
      first := i + 1;
      this.scalar := scalar;
      this.width := width;
      sum := 0;
      new;
      forall i: int | i >= first ensures Valid(i) {
        NothingOwed(scalar, first, i - first);
      }
    }

    /** `slide_step`: the digit at index i. */
    method Step(width: int, i: int, s: seq<u8>) returns (digit: int)
      requires 0 <= i <= 253 && width == this.width && s == scalar && Valid(i)
      modifies this
      ensures Valid(i - 1) && sum == 2 * old(sum) + digit
      ensures digit == 0 || IsDigit(digit, width)
    {
      hide FirstCheck, Target, Balanced, WindowValue, Log2, LowestBit, ScalarBit, Pow2;
      if i == nextCheck as int {
        if ScalarBit(s, i) == ScalarBit(s, i - 1) {
          SkipBit(scalar, first, i, sum);
          nextCheck := if nextCheck == 0 then 255 else nextCheck - 1;
        } else {
          Window(width, i, s);
        }
      }
      if i == nextIndex as int {
        digit := nextDigit as int;
        Emit(sum, i - Check(), digit, Target(scalar, first, Check()));
      } else {
        digit := 0;
        if Pending(i) {
          Postpone(sum, i - Check(), nextDigit as int, nextIndex as int - Check() - 1, Target(scalar, first, Check()));
        } else {
          Postpone(sum, i - Check(), 0, 0, Target(scalar, first, Check()));
        }
      }
      sum := 2 * sum + digit;
    }

    /** After index 0, the digits returned are worth the whole scalar. */
    lemma Done()
      requires Valid(-1)
      ensures sum == Recoded(scalar)
    {
      hide FirstCheck, Target;
      assert Pow2(0) == 1;
    }

    /** The digit of the next window. */
    method Window(width: int, i: int, s: seq<u8>)
      requires 0 <= i <= 253 && width == this.width && s == scalar && Valid(i) && i == nextCheck as int
      requires ScalarBit(s, i) != ScalarBit(s, i - 1)
      modifies this`nextIndex, this`nextDigit, this`nextCheck
      ensures Valid(i) && Check() < i
    {
      hide FirstCheck, Target, Balanced, WindowValue, Log2, LowestBit, ScalarBit, Pow2;
      var w := if width < i + 1 then width else i + 1;
      var v := WindowSum(s, i, w);
      WindowDigit(scalar, i, w, width, v);
      var shift := Log2(LowestBit(v));
      TakeWindow(scalar, first, i, w, sum, v / Pow2(shift), shift);
      nextIndex := (i - (w - 1) + shift) as i16;
      nextDigit := (v / Pow2(shift)) as i8;
      nextCheck := ((nextCheck as int - w) % 256) as u8;
      assert Check() == i - w && nextIndex as int - Check() - 1 == shift;
    }
  }

  // ------------------------------------------------------ what the digits add up to

  lemma {:induction false} HeadIs(s: seq<u8>, first: nat, i: nat)
    requires |s| == 32 && i <= first + 1 && first <= 253
    ensures Head(s, first, i) == Shr(LE(s), i) - Pow2(first + 1 - i) * (Shr(LE(s), first + 1) + ScalarBit(s, first))
    decreases first + 1 - i
  {
    hide ScalarBit, LE, Shr;
    var e := Shr(LE(s), first + 1) + ScalarBit(s, first);
    if i == first + 1 {
      assert Pow2(0) == 1;
    } else {
      HeadIs(s, first, i + 1);
      BitBelow(s, i);
      var p := Pow2(first - i);
      assert Pow2(first + 1 - i) == 2 * p;
      MulAssoc(2, p, e);
    }
  }

  lemma BitBelow(s: seq<u8>, i: nat)
    requires |s| == 32 && i < 256
    ensures Shr(LE(s), i) == 2 * Shr(LE(s), i + 1) + ScalarBit(s, i)
  {
    hide ScalarBit, LE, Shr;
    ScalarBitIs(s, i);
    ShrNext(LE(s), i);
  }

  /** Zero bits from i up to n. */
  lemma {:induction false} ZeroBits(s: seq<u8>, i: nat, n: nat)
    requires |s| == 32 && i <= n < 256 && forall k :: i <= k < n ==> ScalarBit(s, k) == 0
    ensures Shr(LE(s), i) == 0 <==> Shr(LE(s), n) == 0
    decreases n - i
  {
    hide ScalarBit, LE, Shr;
    if i < n {
      ZeroBits(s, i + 1, n);
      BitBelow(s, i);
    }
  }

  lemma {:induction false} ShrZeroOnlyBelow(x: nat, k: nat)
    requires Shr(x, k) == 0
    ensures x < Pow2(k)
  {
    if k > 0 {
      ShrZeroOnlyBelow(x / 2, k - 1);
    }
  }

  /** The digits add up to the scalar exactly for scalars below 2^253. */
  lemma RecodingIsExact(s: seq<u8>)
    requires |s| == 32
    ensures Recoded(s) == LE(s) <==> LE(s) < Pow2(253)
  {
    hide *;
    var first := FirstCheck(s);
    RecodedIs(s);
    NothingAbove(s);
    ZeroProduct(Pow2(first + 1), Shr(LE(s), first + 1) + ScalarBit(s, first));
  }

  lemma RecodedIs(s: seq<u8>)
    requires |s| == 32
    ensures var first := FirstCheck(s);
      Recoded(s) == LE(s) - Pow2(first + 1) * (Shr(LE(s), first + 1) + ScalarBit(s, first))
  {
    assert ScalarBit(s, -1) == 0;
    hide Head, LE, Shr, Pow2, FirstCheck, ScalarBit;
    HeadIs(s, FirstCheck(s), 0);
    ShrNone(LE(s));
  }

  /** No bit is left above the first check exactly for scalars below 2^253. */
  lemma NothingAbove(s: seq<u8>)
    requires |s| == 32
    ensures var first := FirstCheck(s);
      Shr(LE(s), first + 1) + ScalarBit(s, first) == 0 <==> LE(s) < Pow2(253)
  {
    hide LE, Shr, Pow2, FirstCheck, ScalarBit;
    FirstCheckIs(s);
    var first := FirstCheck(s);
    BitBelow(s, first);
    ZeroBits(s, first, 253);
    if Shr(LE(s), 253) == 0 {
      ShrZeroOnlyBelow(LE(s), 253);
    }
    if LE(s) < Pow2(253) {
      ShrZero(LE(s), 253);
    }
  }

  lemma ZeroProduct(p: nat, e: nat)
    requires p > 0
    ensures p * e == 0 <==> e == 0
  {
  }

  // ------------------------------------------------------------------------ the ladder

  /** table[k] == [2k + 1]x */
  ghost predicate OddMultiples<G>(g: Group<G>, table: seq<G>, x: G) {
    forall k :: 0 <= k < |table| ==> table[k] == Times(g, 2 * k + 1, x)
  }

  /** Adds the table entry of a digit. */
  function AddDigit<G>(g: Group<G>, sum: G, table: seq<G>, d: int): G
    requires -2 * |table| < d < 2 * |table|
  {
    if d > 0 then g.add(sum, table[d / 2])
    else if d < 0 then g.add(sum, g.neg(table[(-d) / 2]))
    else sum
  }

  lemma AddDigitIs<G(!new)>(g: Group<G>, sum: G, table: seq<G>, d: int, x: G)
    requires IsAbelian(g) && OddMultiples(g, table, x) && -2 * |table| < d < 2 * |table|
    requires d == 0 || d % 2 == 1
    ensures AddDigit(g, sum, table, d) == g.add(sum, Times(g, d, x))
  {
    hide IsAbelian, Times;
    if d == 0 {
      TimesZero(g, x);
      ZeroRight(g, sum);
    } else if d > 0 {
      assert 2 * (d / 2) + 1 == d;
    } else {
      assert 2 * ((-d) / 2) + 1 == -d;
      TimesNeg(g, -d, x);
    }
  }

  /** `lutA`: the odd multiples of a point. */
  method OddTable<G(!new)>(g: Group<G>, x: G, size: nat) returns (table: seq<G>)
    requires IsAbelian(g) && size > 0
    ensures |table| == size && OddMultiples(g, table, x)
  {
    hide IsAbelian, Times;
    var double := g.add(x, x);
    TimesOne(g, x);
    TimesAdd(g, 1, 1, x);
    table := [x];
    for i := 1 to size
      invariant |table| == i && OddMultiples(g, table, x)
    {
      TimesAdd(g, 2, 2 * i - 1, x);
      assert table[i - 1] == Times(g, 2 * (i - 1) + 1, x);
      table := table + [g.add(double, table[i - 1])];
    }
  }

  /** The ladder of `crypto_eddsa_check_equation`, for any scalars: [s]b + [h]a, where each
  scalar stands for the number its digits make. */
  method Ladder<G(!new)>(g: Group<G>, a: G, ghost b: G, bWindow: seq<G>, s: seq<u8>, h: seq<u8>)
    returns (sum: G)
    requires IsAbelian(g) && |s| == 32 && |h| == 32 && |bWindow| == 8 && OddMultiples(g, bWindow, b)
    ensures sum == Combination(g, Recoded(s), b, Recoded(h), a)
  {
    hide *;
    var lutA := OddTable(g, a, 2);
    var hSlide := new SlideCtx(h, 3);
    var sSlide := new SlideCtx(s, 5);
    sum := g.zero;
    CombinationZero(g, b, a);
    var i: int := if hSlide.nextCheck < sSlide.nextCheck then sSlide.nextCheck as int else hSlide.nextCheck as int;
    while i >= 0
      invariant -1 <= i <= 253
      invariant fresh(hSlide) && fresh(sSlide) && hSlide != sSlide
      invariant hSlide.scalar == h && hSlide.width == 3 && sSlide.scalar == s && sSlide.width == 5
      invariant hSlide.Valid(i) && sSlide.Valid(i)
      invariant sum == Combination(g, sSlide.sum, b, hSlide.sum, a)
    {
      ghost var before, m, n := sum, sSlide.sum, hSlide.sum;
      sum := g.add(sum, sum);
      var hDigit := hSlide.Step(3, i, h);
      var sDigit := sSlide.Step(5, i, s);
      LadderTurn(g, before, lutA, a, bWindow, b, m, n, hDigit, sDigit);
      sum := AddDigit(g, sum, lutA, hDigit);
      sum := AddDigit(g, sum, bWindow, sDigit);
      i := i - 1;
    }
    sSlide.Done();
    hSlide.Done();
  }

  /** A doubling and two additions of table entries take the digits in. */
  lemma LadderTurn<G(!new)>(g: Group<G>, sum: G, lutA: seq<G>, a: G, bWindow: seq<G>, b: G, m: int, n: int, hDigit: int, sDigit: int)
    requires IsAbelian(g) && sum == Combination(g, m, b, n, a)
    requires |lutA| == 2 && OddMultiples(g, lutA, a) && (hDigit == 0 || IsDigit(hDigit, 3))
    requires |bWindow| == 8 && OddMultiples(g, bWindow, b) && (sDigit == 0 || IsDigit(sDigit, 5))
    ensures -4 < hDigit < 4 && -16 < sDigit < 16
    ensures AddDigit(g, AddDigit(g, g.add(sum, sum), lutA, hDigit), bWindow, sDigit)
            == Combination(g, 2 * m + sDigit, b, 2 * n + hDigit, a)
  {
    hide *;
    DigitInTable(hDigit, 3);
    DigitInTable(sDigit, 5);
    var twice := g.add(sum, sum);
    CombinationDouble(g, m, b, n, a);
    AddDigitIs(g, twice, lutA, hDigit, a);
    CombinationAddSecond(g, 2 * m, b, 2 * n, a, hDigit);
    AddDigitIs(g, AddDigit(g, twice, lutA, hDigit), bWindow, sDigit, b);
    CombinationAddFirst(g, 2 * m, b, 2 * n + hDigit, a, sDigit);
  }

  lemma DigitInTable(d: int, width: nat)
    requires 2 <= width <= 5 && (d == 0 || IsDigit(d, width))
    ensures d == 0 || d % 2 == 1
    ensures width == 3 ==> -4 < d < 4
    ensures width == 5 ==> -16 < d < 16
  {
    hide Pow2;
    SmallPow(width - 1);
  }

  lemma CombinationZero<G(!new)>(g: Group<G>, b: G, a: G)
    requires IsAbelian(g)
    ensures Combination(g, 0, b, 0, a) == g.zero
  {
    hide IsAbelian;
    ZeroRight(g, g.zero);
  }

  /** `crypto_eddsa_check_equation`: accepts exactly when both points decode, s is below L and
  8 * ([s]B - [h]A - R) is zero, where h stands for the number its digits make: h itself, if and only
  if it is below 2^253, as it is after reduction modulo L. The points come negated out of the
  decoder. */
  method CheckEquation<G(!new, ==)>(g: Group<G>, minusA: Option<G>, minusR: Option<G>, ghost b: G, bWindow: seq<G>,
                                    s: seq<u8>, h: seq<u8>) returns (result: int)
    requires IsAbelian(g) && |s| == 32 && |h| == 32 && |bWindow| == 8 && OddMultiples(g, bWindow, b)
    ensures result == 0 || result == -1
    ensures result == 0 <==>
            minusA.Some? && minusR.Some? && LE(s) < ModL.ORDER
            && Times(g, 8, g.add(Combination(g, LE(s), b, Recoded(h), minusA.value), minusR.value)) == g.zero
    ensures Recoded(h) == LE(h) <==> LE(h) < Pow2(253)
  {
    hide *;
    RecodingIsExact(h);
    var above := ModL.IsAboveL(LoadLimbs(s));
    if minusA.None? || minusR.None? || above != 0 {
      return -1;
    }
    var sum := Ladder(g, minusA.value, b, bWindow, s, h);
    OrderBelow();
    RecodingIsExact(s);
    var x := g.add(sum, minusR.value);
    EightTimes(g, x);
    var x2 := g.add(x, x);
    var x4 := g.add(x2, x2);
    var x8 := g.add(x4, x4);
    result := if x8 == g.zero then 0 else -1;
  }

  lemma OrderBelow()
    ensures ModL.ORDER < Pow2(253)
  {
    LargePowers();
    Pow2Add(192, 61);
    assert Pow2(61) == 0x2000_0000_0000_0000 by { SmallPowers(); Pow2Add(32, 29); assert Pow2(29) == 0x2000_0000; }
  }

  lemma EightTimes<G(!new)>(g: Group<G>, x: G)
    requires IsAbelian(g)
    ensures var x2 := g.add(x, x); var x4 := g.add(x2, x2); g.add(x4, x4) == Times(g, 8, x)
  {
    hide *;
    TimesOne(g, x);
    TimesAdd(g, 1, 1, x);
    TimesAdd(g, 2, 2, x);
    TimesAdd(g, 4, 4, x);
  }
}
