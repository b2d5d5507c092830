/** Decimal digits as the SSN code uses them: `x % 10` / `x / 10` digit extraction,
    .NET's `D<n>` number format (at least n digits, zero-padded on the left), and
    `int.Parse` of a run of ASCII digits. */
module Decimal {

  /** The ASCII digits `0`-`9`. */
  predicate IsDigit(c: char) {
    '0' <= c <= '9'
  }

  /** Every character is an ASCII digit. */
  predicate AllDigits(s: string) {
    forall i | 0 <= i < |s| :: IsDigit(s[i])
  }

  /** The character for a digit value. */
  function DigitChar(d: nat): (c: char)
    requires d < 10
    ensures IsDigit(c)
  {
    ('0' as int + d) as char
  }

  /** The value of a digit character. */
  function DigitOf(c: char): (d: nat)
    requires IsDigit(c)
    ensures d < 10 && DigitChar(d) == c
  {
    c as int - '0' as int
  }

  function Pow10(n: nat): (p: nat)
    ensures p >= 1
  {
    if n == 0 then 1 else 10 * Pow10(n - 1)
  }

  /** The decimal digits of `x`, least significant first, as repeated `% 10` and
      `/ 10` yield them; none for 0. */
  function Digits(x: nat): (ds: seq<nat>)
    ensures forall i | 0 <= i < |ds| :: ds[i] < 10
    decreases x
  {
    if x == 0 then [] else [x % 10] + Digits(x / 10)
  }

  /** The `i`-th least significant decimal digit of `x` (0 beyond its length). */
  function DigitAt(x: nat, i: nat): (d: nat)
    ensures d < 10
  {
    if i < |Digits(x)| then Digits(x)[i] else 0
  }

  /** `x.ToString()`: the shortest decimal numeral, "0" for 0. */
  function DecimalString(x: nat): string
    decreases x
  {
    if x < 10 then [DigitChar(x)] else DecimalString(x / 10) + [DigitChar(x % 10)]
  }

  /** The format `D<width>`: the numeral padded with leading zeros to `width`. */
  function Format(x: nat, width: nat): string {
    var s := DecimalString(x);
    if |s| < width then seq(width - |s|, _ => '0') + s else s
  }

  /** `int.Parse` of a run of ASCII digits. */
  function DecimalValue(s: string): nat
    requires AllDigits(s)
    decreases |s|
  {
    if s == [] then 0 else 10 * DecimalValue(s[..|s| - 1]) + DigitOf(s[|s| - 1])
  }

  /** A number has at most `n` digits exactly when it is below `10^n`. */
  lemma {:induction false} DigitsLength(x: nat, n: nat)
    ensures |Digits(x)| <= n <==> x < Pow10(n)
    decreases x
  {
    if x > 0 && n > 0 {
      DigitsLength(x / 10, n - 1);
    }
  }

  /** The numeral's characters are the digits of `x`, most significant first. */
  lemma {:induction false} DecimalStringDigits(x: nat)
    ensures |DecimalString(x)| == if x == 0 then 1 else |Digits(x)|
    ensures forall i | 0 <= i < |DecimalString(x)| ::
      DecimalString(x)[|DecimalString(x)| - 1 - i] == DigitChar(DigitAt(x, i))
    decreases x
  {
    if x >= 10 {
      DecimalStringDigits(x / 10);
      var s := DecimalString(x);
      forall i | 0 <= i < |s| ensures s[|s| - 1 - i] == DigitChar(DigitAt(x, i)) {
        if i > 0 {
          assert DigitAt(x, i) == DigitAt(x / 10, i - 1);
        }
      }
    } else if x > 0 {
      assert Digits(x) == [x];
    }
  }

  /** `D<width>` of a number below `10^width`: exactly `width` characters, the
      `i`-th from the right being its `i`-th least significant digit. */
  lemma FormatDigits(x: nat, width: nat)
    requires 1 <= width && x < Pow10(width)
    ensures |Format(x, width)| == width
    ensures forall i | 0 <= i < width :: Format(x, width)[width - 1 - i] == DigitChar(DigitAt(x, i))
    ensures AllDigits(Format(x, width))
  {
    DecimalStringDigits(x);
    DigitsLength(x, width);
    var s := DecimalString(x);
    var f := Format(x, width);
    assert |f| == width;
    forall i | 0 <= i < width ensures f[width - 1 - i] == DigitChar(DigitAt(x, i)) {
      if i >= |s| {
        assert DigitAt(x, i) == 0;
      }
    }
    forall t | 0 <= t < width ensures IsDigit(f[t]) {
      assert f[width - 1 - (width - 1 - t)] == DigitChar(DigitAt(x, width - 1 - t));
    }
  }

  /** Leading zeros do not change a numeral's value. */
  lemma {:induction false} LeadingZeros(z: nat, s: string)
    requires AllDigits(s)
    ensures AllDigits(seq(z, _ => '0') + s)
    ensures DecimalValue(seq(z, _ => '0') + s) == DecimalValue(s)
    decreases |s|, z
  {
    var t := seq(z, _ => '0') + s;
    if s == [] {
      assert t == seq(z, _ => '0');
      if z > 0 {
        assert t[..|t| - 1] == seq(z - 1, _ => '0') + [];
        LeadingZeros(z - 1, []);
      }
    } else {
      assert t[..|t| - 1] == seq(z, _ => '0') + s[..|s| - 1];
      LeadingZeros(z, s[..|s| - 1]);
    }
  }

  /** Parsing a numeral gives back the number. */
  lemma {:induction false} DecimalStringValue(x: nat)
    ensures AllDigits(DecimalString(x)) && DecimalValue(DecimalString(x)) == x
    decreases x
  {
    if x >= 10 {
      DecimalStringValue(x / 10);
      var s := DecimalString(x);
      assert s[..|s| - 1] == DecimalString(x / 10);
    }
  }

  /** Parsing `D<width>` gives back the number. */
  lemma FormatValue(x: nat, width: nat)
    ensures AllDigits(Format(x, width)) && DecimalValue(Format(x, width)) == x
  {
    DecimalStringValue(x);
    var s := DecimalString(x);
    if |s| < width {
      LeadingZeros(width - |s|, s);
    }
  }

  /** Any run of `n` digits denotes a number below `10^n`. */
  lemma {:induction false} DecimalValueBound(s: string)
    requires AllDigits(s)
    ensures DecimalValue(s) < Pow10(|s|)
    decreases |s|
  {
    if s != [] {
      DecimalValueBound(s[..|s| - 1]);
    }
  }
}
