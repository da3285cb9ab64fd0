/**
 * Java's `String + int` concatenation renders the integer in decimal, with a
 * leading '-' for negative values. Page titles carry such a suffix, so the
 * model needs the rendering and, as its partner, the reading that undoes it.
 */
module Decimal {

  import opened Common

  function Digit(d: int): char
    requires 0 <= d < 10
  {
    (('0' as int) + d) as char
  }

  function DigitValue(c: char): int
    requires '0' <= c <= '9'
  {
    (c as int) - ('0' as int)
  }

  /** A non-empty run of decimal digits. */
  predicate IsDigits(s: string)
  {
    |s| > 0 && forall i :: 0 <= i < |s| ==> '0' <= s[i] <= '9'
  }

  /** Decimal digits of `n`, most significant first, without leading zeros. */
  function ShowNat(n: nat): (s: string)
    ensures IsDigits(s)
    ensures s[0] == '0' <==> n == 0
    decreases n
  {
    if n < 10 then [Digit(n)] else ShowNat(n / 10) + [Digit(n % 10)]
  }

  /** `Integer.toString(n)`. */
  function Show(n: int): (s: string)
    ensures |s| > 0
    ensures s[0] == '-' <==> n < 0
  {
    if n < 0 then "-" + ShowNat(-n) else ShowNat(n)
  }

  function ParseNat(s: string): nat
    requires IsDigits(s)
    decreases |s|
  {
    if |s| == 1 then DigitValue(s[0])
    else ParseNat(s[..|s| - 1]) * 10 + DigitValue(s[|s| - 1])
  }

  /** Reads an optionally negative decimal integer; None when `s` is not one. */
  function Parse(s: string): Option<int>
  {
    if |s| > 0 && s[0] == '-' && IsDigits(s[1..]) then Some(0 - ParseNat(s[1..]) as int)
    else if IsDigits(s) then Some(ParseNat(s))
    else None
  }

  lemma {:induction false} ParseShowNat(n: nat)
    ensures ParseNat(ShowNat(n)) == n
    decreases n
  {
    if n >= 10 {
      var s := ShowNat(n);
      assert s[..|s| - 1] == ShowNat(n / 10);
      ParseShowNat(n / 10);
    }
  }

  /** Reading back a rendered integer gives the integer. */
  lemma ParseShow(n: int)
    ensures Parse(Show(n)) == Some(n)
  {
    var s := Show(n);
    if n < 0 {
      assert s[1..] == ShowNat(-n);
      ParseShowNat(-n);
    } else {
      assert s == ShowNat(n) && s[0] != '-';
      ParseShowNat(n);
    }
  }

  /** Distinct integers render differently. */
  lemma ShowInjective(a: int, b: int)
    ensures Show(a) == Show(b) <==> a == b
  {
    if Show(a) == Show(b) {
      ParseShow(a);
      ParseShow(b);
    }
  }
}
