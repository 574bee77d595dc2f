/** Decimal text of non-negative integers: Python's `str(n)`, the `:0Nd` format spec, and reading digits back. */
module Decimal {
  import opened Wrappers

  predicate IsDigit(ch: char) {
    '0' <= ch <= '9'
  }

  predicate AllDigits(s: string) {
    forall i :: 0 <= i < |s| ==> IsDigit(s[i])
  }

  function DigitChar(d: nat): (ch: char)
    requires d < 10
    ensures IsDigit(ch)
  {
    ('0' as int + d) as char
  }

  function DigitValue(ch: char): nat
    requires IsDigit(ch)
  {
    ch as int - '0' as int
  }

  /** Python's `str(n)` for `n >= 0`: the shortest decimal text, without leading zeros. */
  function NatToDecimal(n: nat): (r: string)
    ensures |r| >= 1 && AllDigits(r)
    ensures r[0] == '0' ==> n == 0
  {
    if n < 10 then [DigitChar(n)] else NatToDecimal(n / 10) + [DigitChar(n % 10)]
  }

  /** The number a string of digits denotes, leading zeros allowed (as Python's `int("007")`). */
  function DecimalValue(s: string): nat
    requires AllDigits(s)
  {
    if s == [] then 0 else DecimalValue(s[..|s| - 1]) * 10 + DigitValue(s[|s| - 1])
  }

  /** `int(s)` restricted to plain digit strings: None for empty or non-digit text. */
  function ParseDecimal(s: string): Option<nat> {
    if s != [] && AllDigits(s) then Some(DecimalValue(s)) else None
  }

  function Zeros(k: nat): (r: string)
    ensures |r| == k && forall i :: 0 <= i < k ==> r[i] == '0'
  {
    seq(k, _ => '0')
  }

  function Max(a: nat, b: nat): nat {
    if a < b then b else a
  }

  /** Python's `f"{n:0{width}d}"` for `n >= 0`: left-padded with zeros up to `width`, never truncated. */
  function ZeroPad(n: nat, width: nat): (r: string)
    ensures |r| == Max(width, |NatToDecimal(n)|)
    ensures EndsWithDigitsOf(r, n)
    ensures forall i :: 0 <= i < |r| - |NatToDecimal(n)| ==> r[i] == '0'
    ensures AllDigits(r)
  {
    var digits := NatToDecimal(n);
    if |digits| >= width then digits else Zeros(width - |digits|) + digits
  }

  predicate EndsWithDigitsOf(r: string, n: nat) {
    |NatToDecimal(n)| <= |r| && r[|r| - |NatToDecimal(n)|..] == NatToDecimal(n)
  }

  /** A number below 100 padded to width 2 takes exactly two characters. */
  lemma PadToTwo(n: nat)
    ensures n < 100 ==> |ZeroPad(n, 2)| == 2
  {
    if 10 <= n < 100 {
      assert NatToDecimal(n) == NatToDecimal(n / 10) + [DigitChar(n % 10)];
    }
  }

  /** Reading back the text `str(n)` gives `n`. */
  lemma {:induction false} DecimalRoundTrip(n: nat)
    ensures DecimalValue(NatToDecimal(n)) == n
  {
    if n >= 10 {
      var s := NatToDecimal(n);
      assert s[..|s| - 1] == NatToDecimal(n / 10);
      DecimalRoundTrip(n / 10);
    }
  }

  lemma {:induction false} ZerosHaveNoValue(k: nat)
    ensures DecimalValue(Zeros(k)) == 0
  {
    if k > 0 {
      assert Zeros(k)[..k - 1] == Zeros(k - 1);
      ZerosHaveNoValue(k - 1);
    }
  }

  /** Leading zeros do not change the value. */
  lemma {:induction false} LeadingZerosIgnored(k: nat, s: string)
    requires AllDigits(s)
    ensures AllDigits(Zeros(k) + s) && DecimalValue(Zeros(k) + s) == DecimalValue(s)
  {
    var t := Zeros(k) + s;
    if s == [] {
      assert t == Zeros(k);
      ZerosHaveNoValue(k);
    } else {
      assert t[..|t| - 1] == Zeros(k) + s[..|s| - 1];
      LeadingZerosIgnored(k, s[..|s| - 1]);
    }
  }

  /** The zero-padded text parses back to the number it was made from. */
  lemma ZeroPadRoundTrip(n: nat, width: nat)
    ensures ParseDecimal(ZeroPad(n, width)) == Some(n)
  {
    var digits := NatToDecimal(n);
    DecimalRoundTrip(n);
    if |digits| < width {
      LeadingZerosIgnored(width - |digits|, digits);
    }
  }
}
