/**
 * Decimal digit strings: reading a fixed-width run of digits and writing an
 * integer zero-padded to a minimum width, as Go's time formatter does.
 */
module Decimal {

  predicate IsDigit(c: char) {
    '0' <= c <= '9'
  }

  predicate AllDigits(s: string) {
    forall i :: 0 <= i < |s| ==> IsDigit(s[i])
  }

  function DigitChar(v: nat): (c: char)
    requires v < 10
    ensures IsDigit(c)
  {
    (48 + v) as char
  }

  function DigitValue(c: char): (v: nat)
    requires IsDigit(c)
    ensures v < 10 && DigitChar(v) == c
  {
    c as int - 48
  }

  function Pow10(w: nat): (p: nat)
    ensures p >= 1
  {
    if w == 0 then 1 else 10 * Pow10(w - 1)
  }

  /** The number a run of decimal digits denotes; it always fits in |s| digits. */
  function ValueOf(s: string): (v: nat)
    requires AllDigits(s)
    ensures v < Pow10(|s|)
    decreases |s|
  {
    if s == [] then 0 else 10 * ValueOf(s[..|s| - 1]) + DigitValue(s[|s| - 1])
  }

  /** The lowest `w` decimal digits of `u`, most significant first. */
  function DigitsOf(u: nat, w: nat): (s: string)
    ensures |s| == w && AllDigits(s)
  {
    if w == 0 then "" else DigitsOf(u / 10, w - 1) + [DigitChar(u % 10)]
  }

  /** How many digits `u` has when written without padding. */
  function NumDigits(u: nat): (n: nat)
    ensures 1 <= n && u < Pow10(n)
  {
    if u < 10 then 1 else 1 + NumDigits(u / 10)
  }

  /**
   * Go's `appendInt(b, x, width)`: a minus sign for a negative value, then the
   * magnitude's digits, padded on the left with '0' to at least `width` digits.
   */
  function FormatInt(x: int, width: nat): (s: string)
    ensures 1 <= width && 0 <= x < Pow10(width) ==> s == DigitsOf(x, width)
  {
    var u := if x < 0 then -x else x;
    var n := NumDigits(u);
    var s := (if x < 0 then "-" else "") + DigitsOf(u, if n < width then width else n);
    if 1 <= width && 0 <= x < Pow10(width) then NumDigitsAtMost(u, width); s else s
  }

  /**
   * Every value, not only one that fits, is written with exactly
   * max(width, NumDigits of its magnitude) digits, no extra leading zeros, that
   * read back as its magnitude, after a '-' when it is negative.
   */
  lemma FormatIntReadsBack(x: int, width: nat)
    ensures var s := FormatInt(x, width);
      var u := if x < 0 then -x else x;
      var w := if NumDigits(u) < width then width else NumDigits(u);
      && (x >= 0 ==> |s| == w && AllDigits(s) && ValueOf(s) == x)
      && (x < 0 ==> |s| == w + 1 && s[0] == '-' && AllDigits(s[1..]) && ValueOf(s[1..]) == -x)
  {
    var u := if x < 0 then -x else x;
    var n := NumDigits(u);
    var w := if n < width then width else n;
    Pow10Monotone(n, w);
    ValueOfDigitsOf(u, w);
    var s := FormatInt(x, width);
    assert s == (if x < 0 then "-" else "") + DigitsOf(u, w);
    assert x >= 0 ==> s == DigitsOf(u, w);
    assert x < 0 ==> s[1..] == DigitsOf(u, w);
  }

  lemma {:induction false} Pow10Monotone(m: nat, n: nat)
    requires m <= n
    ensures Pow10(m) <= Pow10(n)
    decreases n
  {
    if m < n {
      Pow10Monotone(m, n - 1);
    }
  }

  lemma {:induction false} NumDigitsAtMost(u: nat, w: nat)
    requires 1 <= w && u < Pow10(w)
    ensures NumDigits(u) <= w
    decreases w
  {
    if u >= 10 {
      NumDigitsAtMost(u / 10, w - 1);
    }
  }

  /** Reading back `w` written digits gives the number, when it fits in `w` digits. */
  lemma {:induction false} ValueOfDigitsOf(u: nat, w: nat)
    requires u < Pow10(w)
    ensures ValueOf(DigitsOf(u, w)) == u
    decreases w
  {
    if w > 0 {
      var s := DigitsOf(u, w);
      ValueOfDigitsOf(u / 10, w - 1);
      assert s[..w - 1] == DigitsOf(u / 10, w - 1);
      assert DigitValue(s[w - 1]) == u % 10;
    }
  }

  /** Writing back a run of digits at its own width gives the run itself. */
  lemma {:induction false} DigitsOfValueOf(s: string)
    requires AllDigits(s)
    ensures DigitsOf(ValueOf(s), |s|) == s
    decreases |s|
  {
    if s != [] {
      var n := |s|;
      var prefix := s[..n - 1];
      var v := ValueOf(s);
      assert v / 10 == ValueOf(prefix) && v % 10 == DigitValue(s[n - 1]);
      DigitsOfValueOf(prefix);
      assert s == prefix + [s[n - 1]];
    }
  }
}
