/**
 Decimal text of non-negative integers: Python's `str(i)` for `i >= 0`,
 `str.zfill`, and the numeric value a digit string denotes.
 */
module Decimal {

  predicate IsDigit(c: char) {
    '0' <= c <= '9'
  }

  predicate AllDigits(s: string) {
    forall k :: 0 <= k < |s| ==> IsDigit(s[k])
  }

  /** The form `str` gives a non-negative integer: at least one digit, no leading zero. */
  predicate Canonical(s: string) {
    |s| >= 1 && AllDigits(s) && (|s| > 1 ==> s[0] != '0')
  }

  predicate IsZeros(s: string) {
    forall k :: 0 <= k < |s| ==> s[k] == '0'
  }

  function Max(a: int, b: int): int {
    if a >= b then a else b
  }

  function DigitChar(d: nat): (c: char)
    requires d < 10
    ensures IsDigit(c)
    ensures c == '0' <==> d == 0
  {
    (('0' as int) + d) as char
  }

  function DigitValue(c: char): (d: nat)
    requires IsDigit(c)
    ensures d < 10
    ensures DigitChar(d) == c
  {
    (c as int) - ('0' as int)
  }

  /** `str(n)` for a non-negative integer `n`. */
  function Dec(n: nat): (s: string)
    ensures Canonical(s)
    ensures |s| == 1 <==> n < 10
    decreases n
  {
    if n < 10 then [DigitChar(n)] else Dec(n / 10) + [DigitChar(n % 10)]
  }

  /** The number a string of decimal digits denotes; leading zeros are allowed. */
  function Value(s: string): nat
    requires AllDigits(s)
    decreases |s|
  {
    if |s| == 0 then 0 else Value(s[..|s| - 1]) * 10 + DigitValue(s[|s| - 1])
  }

  /** A run of `k` zero characters. */
  function Zeros(k: nat): (z: string)
    ensures |z| == k && IsZeros(z)
  {
    seq(k, _ => '0')
  }

  /**
   Python's `s.zfill(width)`: a string shorter than `width` is padded on the
   left with '0' up to `width`, the padding going after a leading sign.
   */
  function ZFill(s: string, width: int): string {
    if |s| >= width then s
    else
      var fill := Zeros(width - |s|);
      if |s| > 0 && (s[0] == '+' || s[0] == '-') then [s[0]] + fill + s[1..]
      else fill + s
  }

  /**
   The result of `zfill` is `max(width, len(s))` long and never truncates:
   a string at least `width` long comes back unchanged; otherwise `s` ends
   the result and only '0's precede it, after the sign when there is one.
   */
  lemma ZFillShape(s: string, width: int)
    ensures var r := ZFill(s, width);
      && |r| == Max(width, |s|)
      && (|s| >= width ==> r == s)
      && ((|s| == 0 || (s[0] != '+' && s[0] != '-')) ==>
            r[|r| - |s|..] == s && IsZeros(r[..|r| - |s|]))
      && (|s| > 0 && (s[0] == '+' || s[0] == '-') ==>
            r[0] == s[0] && r[|r| - |s| + 1..] == s[1..] && IsZeros(r[1..|r| - |s| + 1]))
  {
  }

  /** Reading back the decimal text of `n` gives `n`. */
  lemma {:induction false} ValueOfDec(n: nat)
    ensures Value(Dec(n)) == n
    decreases n
  {
    if n >= 10 {
      var s := Dec(n);
      assert s[..|s| - 1] == Dec(n / 10);
      ValueOfDec(n / 10);
    }
  }

  /** A canonical digit string with two or more digits denotes at least 10. */
  lemma {:induction false} CanonicalValueBound(s: string)
    requires Canonical(s)
    ensures Value(s) >= 1 || s == "0"
    ensures |s| > 1 ==> Value(s) >= 10
    decreases |s|
  {
    if |s| > 1 {
      var p := s[..|s| - 1];
      assert p[0] == s[0];
      CanonicalValueBound(p);
    } else {
      assert s == [s[0]];
    }
  }

  /** Writing out the value of a canonical digit string gives the string back. */
  lemma {:induction false} DecOfValue(s: string)
    requires Canonical(s)
    ensures Dec(Value(s)) == s
    decreases |s|
  {
    CanonicalValueBound(s);
    if |s| == 1 {
      assert s == [s[0]];
    } else {
      var p, d := s[..|s| - 1], DigitValue(s[|s| - 1]);
      assert p[0] == s[0];
      DecOfValue(p);
      DivModTen(Value(p), d);
      assert Dec(Value(s)) == Dec(Value(p)) + [DigitChar(d)];
      assert s == p + [s[|s| - 1]];
    }
  }

  lemma DivModTen(q: nat, d: nat)
    requires d < 10
    ensures (q * 10 + d) / 10 == q && (q * 10 + d) % 10 == d
  {
  }

  /** Two non-negative integers have the same decimal text exactly when they are equal. */
  lemma DecInjective(i: nat, j: nat)
    ensures Dec(i) == Dec(j) <==> i == j
  {
    ValueOfDec(i);
    ValueOfDec(j);
  }

  lemma {:induction false} ValueOfZeros(k: nat)
    ensures Value(Zeros(k)) == 0
    decreases k
  {
    if k > 0 {
      assert Zeros(k)[..k - 1] == Zeros(k - 1);
      ValueOfZeros(k - 1);
    }
  }

  /** Leading zeros do not change the value of a digit string. */
  lemma {:induction false} ValueIgnoresLeadingZeros(z: string, s: string)
    requires IsZeros(z) && AllDigits(s)
    ensures AllDigits(z + s)
    ensures Value(z + s) == Value(s)
    decreases |s|
  {
    if |s| == 0 {
      assert z + s == Zeros(|z|);
      ValueOfZeros(|z|);
    } else {
      assert (z + s)[..|z + s| - 1] == z + s[..|s| - 1];
      ValueIgnoresLeadingZeros(z, s[..|s| - 1]);
    }
  }

  /** Zero-filling a digit string keeps it a digit string denoting the same number. */
  lemma ValueOfZFill(s: string, width: int)
    requires AllDigits(s)
    ensures AllDigits(ZFill(s, width))
    ensures Value(ZFill(s, width)) == Value(s)
  {
    var r := ZFill(s, width);
    ZFillShape(s, width);
    if |s| < width {
      assert r == r[..|r| - |s|] + s;
      ValueIgnoresLeadingZeros(r[..|r| - |s|], s);
    }
  }
}
