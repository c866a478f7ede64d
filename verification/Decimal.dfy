/** Decimal numbers as text (common/IOUtility.h:23-80). */
module Decimal {
  import opened Options

  const DEFAULT_NUMSTRING_SIZE: nat := 10

  predicate IsDigit(c: char) {
    '0' <= c <= '9'
  }

  function Digit(d: nat): (c: char)
    requires d < 10
    ensures IsDigit(c) && c as int - '0' as int == d
  {
    ('0' as int + d) as char
  }

  /** `to_chars` */
  function ToChars(n: nat): (s: string)
    ensures s != ""
  {
    if n < 10 then [Digit(n)] else ToChars(n / 10) + [Digit(n % 10)]
  }

  ghost predicate AllDigits(s: string) {
    forall i :: 0 <= i < |s| ==> IsDigit(s[i])
  }

  /** The number a string of digits stands for. */
  function DigitsValue(s: string): nat
    requires AllDigits(s)
  {
    if s == "" then 0 else 10 * DigitsValue(s[..|s| - 1]) + (s[|s| - 1] as int - '0' as int)
  }

  lemma {:induction false} ToCharsValue(n: nat)
    ensures AllDigits(ToChars(n)) && DigitsValue(ToChars(n)) == n
  {
    if n >= 10 {
      ToCharsValue(n / 10);
      var s := ToChars(n / 10) + [Digit(n % 10)];
      assert s[..|s| - 1] == ToChars(n / 10);
    }
  }

  function Pow10(k: nat): (p: nat)
    ensures p > 0
  {
    if k == 0 then 1 else 10 * Pow10(k - 1)
  }

  /** k digits are enough exactly for the numbers below 10^k. */
  lemma {:induction false} ToCharsLength(n: nat, k: nat)
    requires k > 0
    ensures |ToChars(n)| <= k <==> n < Pow10(k)
  {
    assert Pow10(1) == 10;
    if k == 1 {
    } else if n >= 10 {
      ToCharsLength(n / 10, k - 1);
      assert Pow10(k) == 10 * Pow10(k - 1);
    } else {
      Pow10Grows(k);
    }
  }

  lemma {:induction false} Pow10Grows(k: nat)
    requires k > 0
    ensures Pow10(k) >= 10
  {
    if k > 1 {
      Pow10Grows(k - 1);
    }
  }

  lemma {:induction false} DigitsValueBound(s: string)
    requires AllDigits(s)
    ensures DigitsValue(s) < Pow10(|s|)
  {
    if s != "" {
      DigitsValueBound(s[..|s| - 1]);
    }
  }

  /** `toCharsBoost`; with `fixedSize`, the first ten bytes of a buffer of NULs that starts with
  the digits. */
  function ToCharsBoost(n: nat, fixedSize: bool): (s: string)
    ensures fixedSize ==> |s| == DEFAULT_NUMSTRING_SIZE
  {
    var digits := ToChars(n);
    if !fixedSize then digits
    else (digits + seq(DEFAULT_NUMSTRING_SIZE, _ => '\0'))[..DEFAULT_NUMSTRING_SIZE]
  }

  /** How many digits a text starts with. */
  function DigitPrefix(s: string): (k: nat)
    ensures k <= |s| && AllDigits(s[..k]) && (k < |s| ==> !IsDigit(s[k]))
  {
    if s == "" || !IsDigit(s[0]) then 0
    else
      var k := DigitPrefix(s[1..]);
      assert forall i :: 0 < i <= k ==> s[i] == s[1..][..k][i - 1];
      k + 1
  }

  lemma DigitPrefixIs(s: string, k: nat)
    requires k <= |s| && AllDigits(s[..k]) && (k < |s| ==> !IsDigit(s[k]))
    ensures DigitPrefix(s) == k
  {
    var n := DigitPrefix(s);
    forall i | 0 <= i < k ensures IsDigit(s[i]) {
      assert s[..k][i] == s[i];
    }
    forall i | 0 <= i < n ensures IsDigit(s[i]) {
      assert s[..n][i] == s[i];
    }
  }

  /** `fromCharsBoost` for an unsigned 64-bit value: the leading digits; None is the exception. */
  function FromChars(s: string): Option<nat> {
    var k := DigitPrefix(s);
    if k == 0 || DigitsValue(s[..k]) >= 0x1_0000_0000_0000_0000 then None else Some(DigitsValue(s[..k]))
  }

  lemma Pow10Ten()
    ensures Pow10(10) == 10_000_000_000
  {
    assert Pow10(5) == 100_000;
  }

  /** A fixed-size number parses back if and only if it has at most ten digits. */
  lemma FixedRoundTrip(n: nat)
    requires n < 0x1_0000_0000_0000_0000
    ensures FromChars(ToCharsBoost(n, true)) == Some(n) <==> n < 10_000_000_000
  {
    hide Pow10;
    var digits, s := ToChars(n), ToCharsBoost(n, true);
    Pow10Ten();
    ToCharsValue(n);
    ToCharsLength(n, 10);
    if n < 10_000_000_000 {
      assert s[..|digits|] == digits;
      DigitPrefixIs(s, |digits|);
    } else {
      assert s == digits[..10];
      DigitPrefixIs(s, 10);
      assert s[..10] == s;
      DigitsValueBound(s);
    }
  }

  /** The free-size form always parses back. */
  lemma FreeRoundTrip(n: nat, rest: string)
    requires n < 0x1_0000_0000_0000_0000 && (rest != "" ==> !IsDigit(rest[0]))
    ensures FromChars(ToCharsBoost(n, false) + rest) == Some(n)
  {
    var digits := ToChars(n);
    ToCharsValue(n);
    var s := digits + rest;
    assert s[..|digits|] == digits;
    DigitPrefixIs(s, |digits|);
  }

  /** `removeNonDigits` */
  method RemoveNonDigits(view: string) returns (rest: string)
    ensures exists shift :: 0 <= shift <= |view| && rest == view[shift..]
                            && (forall i :: 0 <= i < shift ==> !IsDigit(view[i]))
    ensures rest != "" ==> IsDigit(rest[0])
  {
    var shift := 0;
    while shift < |view| && !IsDigit(view[shift])
      invariant 0 <= shift <= |view| && forall i :: 0 <= i < shift ==> !IsDigit(view[i])
    {
      shift := shift + 1;
    }
    rest := view[shift..];
  }
}
