/** Two-digit display of the timer's fields: a whole number written in decimal
    and padded on the left with '0' to at least two characters. */
module Padding {

  datatype Option<T> = None | Some(value: T)

  predicate IsDigit(c: char) {
    '0' <= c <= '9'
  }

  predicate AllDigits(s: string) {
    forall i :: 0 <= i < |s| ==> IsDigit(s[i])
  }

  function DigitChar(d: int): (c: char)
    requires 0 <= d < 10
    ensures IsDigit(c) && DigitValue(c) == d
  {
    (('0' as int) + d) as char
  }

  function DigitValue(c: char): int
    requires IsDigit(c)
  {
    c as int - '0' as int
  }

  function Pow10(k: nat): (p: nat)
    ensures 1 <= p
  {
    if k == 0 then 1 else 10 * Pow10(k - 1)
  }

  /** `k` is the number of decimal digits of `n`, zero counting as one digit. */
  predicate HasDigitCount(n: nat, k: nat) {
    1 <= k && n < Pow10(k) && Pow10(k - 1) <= (if n == 0 then 1 else n)
  }

  /** The shortest decimal text of a non-negative whole number: only digits,
      and exactly as many as the number needs. */
  function Digits(n: nat): (s: string)
    ensures AllDigits(s) && HasDigitCount(n, |s|)
    decreases n
  {
    if n < 10 then [DigitChar(n)] else Digits(n / 10) + [DigitChar(n % 10)]
  }

  /** `Number.prototype.toString()` of a whole number: a '-' sign for negative
      values, then the shortest digits of the magnitude (no leading zeros). */
  function ToDecimal(n: int): (s: string)
    ensures 1 <= |s|
    ensures s[0] == '-' <==> n < 0
    ensures AllDigits(if n < 0 then s[1..] else s)
    ensures if n < 0 then HasDigitCount(-n, |s| - 1) else HasDigitCount(n, |s|)
  {
    if n < 0 then "-" + Digits(-n) else Digits(n)
  }

  /** `String.prototype.padStart(width, fill)` with a one-character fill:
      text at least as wide as `width` is returned unchanged, shorter text gets
      just enough copies of `fill` in front to reach `width`. */
  function PadStart(s: string, width: nat, fill: char): (r: string)
    ensures |r| == if |s| < width then width else |s|
    ensures r[|r| - |s|..] == s
    ensures forall i :: 0 <= i < |r| - |s| ==> r[i] == fill
  {
    if width <= |s| then s else seq(width - |s|, _ => fill) + s
  }

  /** The timer's `padNumber`: decimal text padded with '0' to two characters. */
  function PadNumber(n: int): (r: string)
    ensures 2 <= |r|
    ensures 0 <= n < 10 ==> r == ['0', DigitChar(n)]
    ensures 10 <= n ==> r == Digits(n)
    ensures n < 0 ==> r == ToDecimal(n)
  {
    PadStart(ToDecimal(n), 2, '0')
  }

  // ---------------------------------------------------------------------------
  // Reading the text back

  /** The value of a run of digits, most significant first; the empty run is 0. */
  function DigitsValue(s: string): (v: nat)
    requires AllDigits(s)
  {
    if s == [] then 0 else 10 * DigitsValue(s[..|s| - 1]) + DigitValue(s[|s| - 1])
  }

  /** Decimal text with an optional leading '-' read back as a number; anything
      else, including the empty text or a lone sign, reads as nothing. */
  function ParseDecimal(s: string): (r: Option<int>)
    ensures r.Some? ==> 1 <= |s|
  {
    if 1 <= |s| && s[0] == '-' then
      if 2 <= |s| && AllDigits(s[1..]) then Some(0 - DigitsValue(s[1..])) else None
    else if 1 <= |s| && AllDigits(s) then Some(DigitsValue(s))
    else None
  }

  lemma {:induction false} DigitsValueOfDigits(n: nat)
    ensures DigitsValue(Digits(n)) == n
    decreases n
  {
    if 10 <= n {
      var s := Digits(n);
      assert s[..|s| - 1] == Digits(n / 10);
      DigitsValueOfDigits(n / 10);
    }
  }

  /** A leading zero does not change the value of a run of digits. */
  lemma {:induction false} LeadingZeroIgnored(s: string)
    requires AllDigits(s)
    ensures AllDigits("0" + s) && DigitsValue("0" + s) == DigitsValue(s)
    decreases |s|
  {
    var z := "0" + s;
    if s != [] {
      assert z[..|z| - 1] == "0" + s[..|s| - 1];
      LeadingZeroIgnored(s[..|s| - 1]);
    }
  }

  /** Reading `padNumber`'s text back gives the number: padding never changes
      the value. */
  lemma PadNumberRoundTrip(n: int)
    ensures ParseDecimal(PadNumber(n)) == Some(n)
  {
    if n < 0 {
      NegativeRoundTrip(n);
    } else if n < 10 {
      var r := PadNumber(n);
      LeadingZeroIgnored([DigitChar(n)]);
      assert r == "0" + [DigitChar(n)];
      SingleDigitValue(n);
      ParseDigitsOnly(r);
    } else {
      DigitsValueOfDigits(n);
      ParseDigitsOnly(Digits(n));
    }
  }

  /** Reading `toString`'s text back gives the number. */
  lemma ToDecimalRoundTrip(n: int)
    ensures ParseDecimal(ToDecimal(n)) == Some(n)
  {
    if n < 0 {
      NegativeRoundTrip(n);
    } else {
      DigitsValueOfDigits(n);
      ParseDigitsOnly(Digits(n));
    }
  }

  lemma SingleDigitValue(n: int)
    requires 0 <= n < 10
    ensures DigitsValue([DigitChar(n)]) == n
  {
    assert [DigitChar(n)][..0] == [];
  }

  lemma ParseDigitsOnly(s: string)
    requires 1 <= |s| && AllDigits(s)
    ensures ParseDecimal(s) == Some(DigitsValue(s))
  {
    assert IsDigit(s[0]);
  }

  lemma NegativeRoundTrip(n: int)
    requires n < 0
    ensures ParseDecimal(PadNumber(n)) == Some(n)
  {
    var digits := Digits(-n);
    var r := "-" + digits;
    assert PadNumber(n) == r;
    assert r[0] == '-' && r[1..] == digits;
    DigitsValueOfDigits(-n);
  }

  /** For a non-negative number the text is as long as its digit count, but
      never shorter than two; wide numbers are not cut. */
  lemma PadNumberLength(n: nat, k: nat)
    requires HasDigitCount(n, k)
    ensures |PadNumber(n)| == if k < 2 then 2 else k
  {
    DigitCountUnique(n, k, |Digits(n)|);
  }

  lemma DigitCountUnique(n: nat, k: nat, j: nat)
    requires HasDigitCount(n, k) && HasDigitCount(n, j)
    ensures k == j
  {
    if k < j {
      Pow10Grows(k, j - 1);
    } else if j < k {
      Pow10Grows(j, k - 1);
    }
  }

  lemma {:induction false} Pow10Grows(a: nat, b: nat)
    requires a <= b
    ensures Pow10(a) <= Pow10(b)
    decreases b - a
  {
    if a < b {
      Pow10Grows(a, b - 1);
    }
  }

  lemma PadNumberExamples()
    ensures PadNumber(0) == "00"
    ensures PadNumber(7) == "07"
    ensures PadNumber(42) == "42"
    ensures PadNumber(123) == "123"
  {
  }
}
