/**
 * Lower-case hexadecimal text, as produced by Python's `%0Nx` conversion:
 * the digits of a number, most significant first, left-padded with '0'
 * to at least N characters (never truncated).
 */
module Hex {

  /** 16^k */
  function Pow16(k: nat): (p: nat)
    ensures p >= 1
  {
    if k == 0 then 1 else 16 * Pow16(k - 1)
  }

  /** The characters `%x` may produce: '0'..'9' and 'a'..'f'. */
  predicate IsDigit(c: char) {
    '0' <= c <= '9' || 'a' <= c <= 'f'
  }

  predicate IsHexText(s: string) {
    forall i | 0 <= i < |s| :: IsDigit(s[i])
  }

  /** The lower-case digit for a value below 16. */
  function Digit(d: nat): (c: char)
    requires d < 16
    ensures IsDigit(c)
  {
    if d < 10 then (48 + d) as char else (87 + d) as char
  }

  /** The value of a lower-case digit. */
  function DigitValue(c: char): (d: nat)
    requires IsDigit(c)
    ensures d < 16
  {
    if c <= '9' then c as int - 48 else c as int - 87
  }

  /** A value's digit reads back as the value. */
  lemma DigitValueOfDigit(d: nat)
    requires d < 16
    ensures DigitValue(Digit(d)) == d
  {
  }

  /** A digit is the digit of its own value. */
  lemma DigitOfDigitValue(c: char)
    requires IsDigit(c)
    ensures Digit(DigitValue(c)) == c
  {
  }

  /** The number a digit string denotes, most significant digit first. */
  function Value(s: string): (n: nat)
    requires IsHexText(s)
    ensures n < Pow16(|s|)
  {
    if s == [] then 0 else Value(s[..|s| - 1]) * 16 + DigitValue(s[|s| - 1])
  }

  /**
   * Python's `'%0{width}x' % n`: the digits of `n` left-padded with '0' to at
   * least `width` characters; at least one digit is always produced.
   */
  function Format(n: nat, width: nat): (s: string)
    decreases n, width
  {
    if n < 16 && width <= 1 then [Digit(n)]
    else Format(n / 16, if width == 0 then 0 else width - 1) + [Digit(n % 16)]
  }

  /** Every character `Format` produces is a lower-case hex digit. */
  lemma {:induction false} FormatIsHex(n: nat, width: nat)
    ensures IsHexText(Format(n, width)) && |Format(n, width)| >= 1
    decreases n, width
  {
    if !(n < 16 && width <= 1) {
      FormatIsHex(n / 16, if width == 0 then 0 else width - 1);
    }
  }

  /** Reading the formatted text back gives the number: padding never changes the value. */
  lemma {:induction false} FormatValue(n: nat, width: nat)
    ensures IsHexText(Format(n, width)) && Value(Format(n, width)) == n
    decreases n, width
  {
    FormatIsHex(n, width);
    if n < 16 && width <= 1 {
      DigitValueOfDigit(n);
    } else {
      var w := if width == 0 then 0 else width - 1;
      var prefix := Format(n / 16, w);
      FormatValue(n / 16, w);
      DigitValueOfDigit(n % 16);
      assert Format(n, width) == prefix + [Digit(n % 16)];
      assert (prefix + [Digit(n % 16)])[..|prefix|] == prefix;
    }
  }

  /**
   * With a positive width, the text is exactly `width` characters when `n`
   * fits in that many digits, and strictly longer otherwise.
   */
  lemma {:induction false} FormatLength(n: nat, width: nat)
    requires width >= 1
    ensures n < Pow16(width) <==> |Format(n, width)| == width
    ensures n >= Pow16(width) <==> |Format(n, width)| > width
    decreases n, width
  {
    if n < 16 && width <= 1 {
    } else if width == 1 {
      FormatLengthZeroWidth(n / 16);
    } else {
      FormatLength(n / 16, width - 1);
    }
  }

  /** Width zero: the minimal digit string, which is never empty. */
  lemma {:induction false} FormatLengthZeroWidth(n: nat)
    ensures |Format(n, 0)| >= 1
    ensures n >= 16 ==> |Format(n, 0)| >= 2
    decreases n
  {
    if n >= 16 {
      FormatLengthZeroWidth(n / 16);
    }
  }

  /**
   * A digit string of exactly `|d|` characters is the canonical rendering of
   * its own value at that width: `Format` is onto the fixed-width strings.
   */
  lemma {:induction false} FormatCanonical(d: string)
    requires IsHexText(d) && |d| >= 1
    ensures Format(Value(d), |d|) == d
    decreases |d|
  {
    var last := d[|d| - 1];
    var init := d[..|d| - 1];
    DigitOfDigitValue(last);
    if |d| == 1 {
      assert d == [last];
    } else {
      assert IsHexText(init);
      FormatCanonical(init);
      var n := Value(d);
      assert n / 16 == Value(init) && n % 16 == DigitValue(last);
      assert d == init + [last];
    }
  }

  /** Two numbers with the same rendering at the same width are equal. */
  lemma FormatInjective(m: nat, n: nat, width: nat)
    requires Format(m, width) == Format(n, width)
    ensures m == n
  {
    FormatValue(m, width);
    FormatValue(n, width);
  }
}
