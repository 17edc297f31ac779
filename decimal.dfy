/**
 * Decimal numerals as the block writes and reads them: a template literal
 * (or a `dataset` assignment) turns a slide index into its decimal text,
 * and `parseInt(…, 10)` turns that text back into a number.
 */
module Decimal {

  predicate IsDigit(c: char) {
    '0' <= c <= '9'
  }

  /** A non-empty string of decimal digits. */
  predicate IsNumeral(s: string) {
    |s| >= 1 && forall i :: 0 <= i < |s| ==> IsDigit(s[i])
  }

  function DigitChar(d: nat): (c: char)
    requires d < 10
    ensures IsDigit(c)
    ensures c == '0' <==> d == 0
  {
    (48 + d) as char
  }

  function DigitValue(c: char): (d: nat)
    requires IsDigit(c)
    ensures d < 10
  {
    c as int - 48
  }

  /** The text JavaScript gives a non-negative integer below 10^21: its digits, without leading zeros. */
  function NatToString(n: nat): (r: string)
    ensures IsNumeral(r)
    ensures r[0] == '0' ==> n == 0
  {
    if n < 10 then [DigitChar(n)] else NatToString(n / 10) + [DigitChar(n % 10)]
  }

  function Pow10(k: nat): (p: nat)
    ensures p >= 1
  {
    if k == 0 then 1 else 10 * Pow10(k - 1)
  }

  /**
   * `parseInt(s, 10)` on a decimal numeral: a value below 10^|s|, and at
   * least 10^(|s|-1) when there is no leading zero.
   */
  function ParseNat(s: string): (r: nat)
    requires IsNumeral(s)
    ensures r < Pow10(|s|)
    ensures s[0] != '0' ==> Pow10(|s| - 1) <= r
    decreases |s|
  {
    if |s| == 1 then DigitValue(s[0])
    else
      var prefix := s[..|s| - 1];
      assert IsNumeral(prefix) by {
        assert forall i :: 0 <= i < |prefix| ==> prefix[i] == s[i];
      }
      assert prefix[0] == s[0];
      10 * ParseNat(prefix) + DigitValue(s[|s| - 1])
  }

  /** A numeral without a leading zero is exactly the text of the number it parses to. */
  lemma {:induction false} ParseNatCanonical(s: string)
    requires IsNumeral(s) && (s[0] != '0' || |s| == 1)
    ensures NatToString(ParseNat(s)) == s
    decreases |s|
  {
    if |s| == 1 {
      assert DigitChar(DigitValue(s[0])) == s[0];
    } else {
      var prefix := s[..|s| - 1];
      assert IsNumeral(prefix) && prefix[0] == s[0] by {
        assert forall i :: 0 <= i < |prefix| ==> prefix[i] == s[i];
      }
      ParseNatCanonical(prefix);
      var p, d := ParseNat(prefix), DigitValue(s[|s| - 1]);
      assert DigitChar(d) == s[|s| - 1];
      assert p != 0;
      assert (10 * p + d) / 10 == p && (10 * p + d) % 10 == d;
      assert s == prefix + [s[|s| - 1]];
    }
  }

  /** Writing an index into an attribute and parsing it back gives the index. */
  lemma {:induction false} ParseNatToString(n: nat)
    ensures ParseNat(NatToString(n)) == n
  {
    if n >= 10 {
      var s := NatToString(n);
      assert s[..|s| - 1] == NatToString(n / 10);
      ParseNatToString(n / 10);
    }
  }

  /** Distinct numbers have distinct decimal texts. */
  lemma NatToStringInjective(a: nat, b: nat)
    ensures NatToString(a) == NatToString(b) ==> a == b
  {
    ParseNatToString(a);
    ParseNatToString(b);
  }

  /** The position of the first non-digit of `w`, or its length when there is none. */
  function DigitRunLength(w: string): (n: nat)
    ensures n <= |w|
  {
    if w == [] || !IsDigit(w[0]) then 0 else 1 + DigitRunLength(w[1..])
  }

  /** A numeral followed by text that starts with a non-digit is read up to its own end. */
  lemma {:induction false} DigitRunOfNumeral(x: string, u: string)
    requires IsNumeral(x) && |u| > 0 && !IsDigit(u[0])
    ensures DigitRunLength(x + u) == |x|
    decreases |x|
  {
    assert (x + u)[1..] == x[1..] + u;
    if |x| > 1 {
      assert IsNumeral(x[1..]) by {
        assert forall i :: 0 <= i < |x| - 1 ==> x[1..][i] == x[i + 1];
      }
      DigitRunOfNumeral(x[1..], u);
    } else {
      assert x[1..] + u == u;
    }
  }

  /**
   * A numeral ends where a non-digit starts: two numerals each followed by
   * text that starts with a non-digit, concatenated to the same string, are
   * the same numeral.
   */
  lemma SeparatedNumerals(x: string, u: string, y: string, v: string)
    requires IsNumeral(x) && IsNumeral(y) && |u| > 0 && |v| > 0
    requires !IsDigit(u[0]) && !IsDigit(v[0])
    requires x + u == y + v
    ensures x == y && u == v
  {
    DigitRunOfNumeral(x, u);
    DigitRunOfNumeral(y, v);
    var w := x + u;
    assert x == w[..|x|] == y;
    assert u == w[|x|..] == v;
  }
}
