/**
 * Decimal numerals: the text `%d` gives an integer, and the zero-padded
 * fields a date layout such as "02012006" prints. `Value` and `ParseInt`
 * read numerals back; they are the inverses the round-trip lemmas use.
 */
module Decimal {
  import opened Wrappers

  predicate IsDigit(c: char)
  {
    '0' <= c <= '9'
  }

  predicate AllDigits(s: string)
  {
    forall i :: 0 <= i < |s| ==> IsDigit(s[i])
  }

  function DigitChar(d: nat): (c: char)
    requires d < 10
    ensures IsDigit(c)
  {
    ('0' as int + d) as char
  }

  function DigitValue(c: char): (d: nat)
    requires IsDigit(c)
    ensures d < 10 && DigitChar(d) == c
  {
    c as int - '0' as int
  }

  function Pow10(k: nat): (p: nat)
    ensures p >= 1
  {
    if k == 0 then 1 else 10 * Pow10(k - 1)
  }

  /** The shortest decimal numeral of n: "0" for zero, no leading zero otherwise. */
  function Digits(n: nat): (s: string)
    ensures |s| >= 1 && AllDigits(s)
    ensures |s| > 1 ==> s[0] != '0'
  {
    if n < 10 then [DigitChar(n)] else Digits(n / 10) + [DigitChar(n % 10)]
  }

  /** The number a string of digits denotes. */
  function Value(s: string): nat
    requires AllDigits(s)
  {
    if s == [] then 0 else Value(s[..|s| - 1]) * 10 + DigitValue(s[|s| - 1])
  }

  lemma {:induction false} ValueOfDigits(n: nat)
    ensures Value(Digits(n)) == n
  {
    if n >= 10 {
      var s := Digits(n);
      assert s[..|s| - 1] == Digits(n / 10);
      ValueOfDigits(n / 10);
    }
  }

  /** A number below 10^k needs at most k digits. */
  lemma {:induction false} DigitsLength(n: nat, k: nat)
    ensures 1 <= k && n < Pow10(k) ==> |Digits(n)| <= k
  {
    if 1 <= k && n < Pow10(k) && n >= 10 {
      assert k >= 2;
      DigitsLength(n / 10, k - 1);
    }
  }

  /** A number of at least 10^k needs more than k digits. */
  lemma {:induction false} DigitsLengthAbove(n: nat, k: nat)
    ensures n >= Pow10(k) ==> |Digits(n)| > k
  {
    if n >= Pow10(k) && k >= 1 {
      assert n / 10 >= Pow10(k - 1);
      DigitsLengthAbove(n / 10, k - 1);
    }
  }

  function Zeros(k: nat): (s: string)
    ensures |s| == k && AllDigits(s)
    ensures forall i :: 0 <= i < k ==> s[i] == '0'
  {
    if k == 0 then [] else Zeros(k - 1) + ['0']
  }

  /** Leading zeros do not change the value of a numeral. */
  lemma {:induction false} ValueOfZerosThen(k: nat, s: string)
    requires AllDigits(s)
    ensures Value(Zeros(k) + s) == Value(s)
    decreases |s|, k
  {
    if s == [] {
      assert Zeros(k) + s == Zeros(k);
      if k > 0 {
        assert Zeros(k)[..k - 1] == Zeros(k - 1) + [];
        ValueOfZerosThen(k - 1, []);
      }
    } else {
      var t := Zeros(k) + s;
      assert t[..|t| - 1] == Zeros(k) + s[..|s| - 1];
      ValueOfZerosThen(k, s[..|s| - 1]);
    }
  }

  /**
   * n written with at least `width` digits, padded on the left with zeros:
   * how a time layout prints its numeric fields.
   */
  function PadZero(n: nat, width: nat): (s: string)
    ensures AllDigits(s) && |s| >= width && |s| >= 1
    ensures 1 <= width && n < Pow10(width) ==> |s| == width
    ensures |s| > width ==> s == Digits(n)
    ensures n >= Pow10(width) ==> s == Digits(n)
    ensures Value(s) == n
  {
    var d := Digits(n);
    ValueOfDigits(n);
    DigitsLength(n, width);
    DigitsLengthAbove(n, width);
    if |d| < width then
      ValueOfZerosThen(width - |d|, d);
      Zeros(width - |d|) + d
    else
      d
  }

  /** The text `%d` prints for an integer: an optional minus sign, then the digits. */
  function FormatInt(n: int): (s: string)
    ensures |s| >= 1
    ensures forall i :: 0 <= i < |s| ==> IsDigit(s[i]) || s[i] == '-'
  {
    if n < 0 then "-" + Digits(-n) else Digits(n)
  }

  /** Reads back the text of an integer; None for text that is not one. */
  function ParseInt(s: string): Option<int>
  {
    if |s| >= 2 && s[0] == '-' && AllDigits(s[1..]) then Some(0 - Value(s[1..]))
    else if |s| >= 1 && AllDigits(s) then Some(Value(s))
    else None
  }

  /** Every integer's text reads back as that integer, so distinct integers print differently. */
  lemma FormatIntRoundTrip(n: int)
    ensures ParseInt(FormatInt(n)) == Some(n)
  {
    var s := FormatInt(n);
    if n < 0 {
      assert s == "-" + Digits(-n);
      assert s[0] == '-' && s[1..] == Digits(-n);
      ValueOfDigits(-n);
    } else {
      assert s == Digits(n);
      assert IsDigit(s[0]);
      ValueOfDigits(n);
    }
  }

  lemma FormatIntInjective(m: int, n: int)
    requires FormatInt(m) == FormatInt(n)
    ensures m == n
  {
    FormatIntRoundTrip(m);
    FormatIntRoundTrip(n);
  }
}
