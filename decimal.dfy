/**
 * Decimal text of natural numbers: Python's `str.isdigit`, `int(s)`,
 * `str(n)` and the zero-padded format `f"{n:0Wd}"`, restricted to ASCII
 * digits.
 */
module Decimal {

  predicate IsDigit(c: char) {
    '0' <= c <= '9'
  }

  predicate AllDigits(s: string) {
    forall i :: 0 <= i < |s| ==> IsDigit(s[i])
  }

  function DigitValue(c: char): (d: nat)
    requires IsDigit(c)
    ensures d < 10
  {
    (c as int) - ('0' as int)
  }

  function DigitChar(d: nat): (c: char)
    requires d < 10
    ensures IsDigit(c) && DigitValue(c) == d
  {
    (d + '0' as int) as char
  }

  /** `int(s)` for a string of decimal digits (leading zeros allowed). */
  function Value(s: string): nat
    requires AllDigits(s)
    decreases |s|
  {
    if s == [] then 0 else Value(s[..|s| - 1]) * 10 + DigitValue(s[|s| - 1])
  }

  /** `str(n)`: the canonical decimal form, with no leading zero. */
  function ToDecimal(n: nat): (r: string)
    ensures 1 <= |r| && AllDigits(r)
    ensures r[0] == '0' ==> n == 0 && r == "0"
    decreases n
  {
    if n < 10 then [DigitChar(n)] else ToDecimal(n / 10) + [DigitChar(n % 10)]
  }

  function Zeros(k: nat): (r: string)
    ensures |r| == k && forall i :: 0 <= i < k ==> r[i] == '0'
  {
    seq(k, _ => '0')
  }

  function Max(a: int, b: int): int {
    if a < b then b else a
  }

  /** `f"{n:0{width}d}"`: the decimal form of `n`, left-padded with zeros. */
  function ZeroPad(n: nat, width: nat): (r: string)
    ensures |r| == Max(width, |ToDecimal(n)|) && AllDigits(r)
    ensures r[|r| - |ToDecimal(n)|..] == ToDecimal(n)
    ensures forall i :: 0 <= i < |r| - |ToDecimal(n)| ==> r[i] == '0'
    ensures Value(r) == n
  {
    var d := ToDecimal(n);
    var pad := if |d| < width then width - |d| else 0;
    ValueOfDecimal(n);
    ValueIgnoresLeadingZeros(pad, d);
    Zeros(pad) + d
  }

  /** Parsing `str(n)` gives back `n`. */
  lemma {:induction false} ValueOfDecimal(n: nat)
    ensures Value(ToDecimal(n)) == n
    decreases n
  {
    if n >= 10 {
      var s := ToDecimal(n);
      assert s[..|s| - 1] == ToDecimal(n / 10);
      ValueOfDecimal(n / 10);
    }
  }

  /** Leading zeros do not change the parsed value. */
  lemma {:induction false} ValueIgnoresLeadingZeros(k: nat, s: string)
    requires AllDigits(s)
    ensures AllDigits(Zeros(k) + s) && Value(Zeros(k) + s) == Value(s)
    decreases |s|
  {
    var t := Zeros(k) + s;
    if s == [] {
      assert t == Zeros(k);
      AllZerosValue(k);
    } else {
      assert t[..|t| - 1] == Zeros(k) + s[..|s| - 1];
      ValueIgnoresLeadingZeros(k, s[..|s| - 1]);
    }
  }

  lemma {:induction false} AllZerosValue(k: nat)
    ensures Value(Zeros(k)) == 0
    decreases k
  {
    if k > 0 {
      assert Zeros(k)[..k - 1] == Zeros(k - 1);
      AllZerosValue(k - 1);
    }
  }

  /** Numbers below 100 have at most two digits. */
  lemma DecimalOfTwoDigits(n: nat)
    requires n < 100
    ensures |ToDecimal(n)| == (if n < 10 then 1 else 2)
  {
    if n >= 10 {
      assert ToDecimal(n) == ToDecimal(n / 10) + [DigitChar(n % 10)];
    }
  }

  /** `f"{n:02d}"` for `n < 100` is the tens digit followed by the units digit. */
  lemma ZeroPadTwo(n: nat)
    requires n < 100
    ensures ZeroPad(n, 2) == [DigitChar(n / 10), DigitChar(n % 10)]
  {
    DecimalOfTwoDigits(n);
    var r := ZeroPad(n, 2);
    if n < 10 {
      assert r[1..] == ToDecimal(n);
    } else {
      assert ToDecimal(n) == ToDecimal(n / 10) + [DigitChar(n % 10)];
    }
  }

  /** A digit string is the canonical form of its value behind some leading zeros. */
  lemma {:induction false} CanonicalForm(s: string)
    requires s != [] && AllDigits(s)
    ensures exists k: nat :: k < |s| && s == Zeros(k) + ToDecimal(Value(s))
    decreases |s|
  {
    var init, c := s[..|s| - 1], s[|s| - 1];
    assert s == init + [c];
    if init == [] {
      assert DigitChar(DigitValue(c)) == c;
      assert s == Zeros(0) + ToDecimal(Value(s));
    } else {
      CanonicalForm(init);
      var k: nat :| k < |init| && init == Zeros(k) + ToDecimal(Value(init));
      CanonicalStep(init, c, k);
    }
  }

  /** The inductive step: a canonical prefix followed by one more digit. */
  lemma CanonicalStep(init: string, c: char, k: nat)
    requires AllDigits(init) && IsDigit(c)
    requires k < |init| && init == Zeros(k) + ToDecimal(Value(init))
    ensures AllDigits(init + [c])
    ensures exists k': nat :: k' <= |init| && init + [c] == Zeros(k') + ToDecimal(Value(init + [c]))
  {
    ValueAppend(init, c);
    if Value(init) == 0 {
      StepAfterZero(init, c, k);
    } else {
      StepAfterPositive(init, c, k);
    }
  }

  /** After a prefix reading 0, the new digit replaces the final "0" and one more zero leads. */
  lemma StepAfterZero(init: string, c: char, k: nat)
    requires AllDigits(init) && IsDigit(c) && Value(init) == 0
    requires init == Zeros(k) + ToDecimal(Value(init))
    requires AllDigits(init + [c]) && Value(init + [c]) == Value(init) * 10 + DigitValue(c)
    ensures init + [c] == Zeros(k + 1) + ToDecimal(Value(init + [c]))
  {
    ZeroThenDigit(k, init, c);
  }

  /** After a prefix reading a positive number, the digit extends its decimal form. */
  lemma StepAfterPositive(init: string, c: char, k: nat)
    requires AllDigits(init) && IsDigit(c) && Value(init) > 0
    requires init == Zeros(k) + ToDecimal(Value(init))
    requires AllDigits(init + [c]) && Value(init + [c]) == Value(init) * 10 + DigitValue(c)
    ensures init + [c] == Zeros(k) + ToDecimal(Value(init + [c]))
  {
    DecimalAppend(Value(init), c);
  }

  /** Reading a string with one more digit at the end. */
  lemma ValueAppend(init: string, c: char)
    requires AllDigits(init) && IsDigit(c)
    ensures AllDigits(init + [c]) && Value(init + [c]) == Value(init) * 10 + DigitValue(c)
  {
    var s := init + [c];
    assert s[..|s| - 1] == init;
  }

  /** `Zeros(k) + "0"` followed by a digit is `Zeros(k + 1)` followed by that digit's own form. */
  lemma ZeroThenDigit(k: nat, init: string, c: char)
    requires IsDigit(c) && init == Zeros(k) + ToDecimal(0)
    ensures init + [c] == Zeros(k + 1) + ToDecimal(DigitValue(c))
  {
    assert DigitChar(DigitValue(c)) == c;
    assert init == Zeros(k + 1);
  }

  /** Appending a digit to the decimal form of a positive number. */
  lemma DecimalAppend(v: nat, c: char)
    requires v > 0 && IsDigit(c)
    ensures ToDecimal(v * 10 + DigitValue(c)) == ToDecimal(v) + [c]
  {
    var d := DigitValue(c);
    assert DigitChar(d) == c;
    assert (v * 10 + d) / 10 == v && (v * 10 + d) % 10 == d;
  }
}
