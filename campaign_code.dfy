/** The campaign code of `generateCampaignCode`: `cpm-`, the decimal digits of
    a serial drawn from [10000000, 99999999], then `-afbf08`. The random draw
    is a parameter here: `n` is the already floored serial. */
module CampaignCodes {
  import opened Strings

  const Prefix := "cpm-"
  const Suffix := "-afbf08"
  const MinSerial := 10000000
  const MaxSerial := 99999999

  /** The serials `Math.floor(10000000 + Math.random() * 90000000)` yields. */
  predicate IsSerial(n: int)
  {
    MinSerial <= n <= MaxSerial
  }

  predicate IsDigit(c: char)
  {
    '0' <= c <= '9'
  }

  predicate AllDigits(s: string)
  {
    forall i :: 0 <= i < |s| ==> IsDigit(s[i])
  }

  function DigitChar(d: int): (c: char)
    requires 0 <= d < 10
    ensures IsDigit(c)
  {
    ('0' as int + d) as char
  }

  function DigitValue(c: char): (d: int)
    requires IsDigit(c)
    ensures 0 <= d < 10 && DigitChar(d) == c
  {
    c as int - '0' as int
  }

  /** The decimal form JavaScript gives a non-negative integer below 10^21:
      digits only, and no leading zero. */
  function DecimalString(n: nat): (s: string)
    ensures 1 <= |s| && AllDigits(s)
    ensures s[0] == '0' <==> n == 0
  {
    if n < 10 then [DigitChar(n)] else DecimalString(n / 10) + [DigitChar(n % 10)]
  }

  /** The number a string of decimal digits denotes. */
  function DigitsValue(s: string): nat
    requires AllDigits(s)
  {
    if s == [] then 0 else 10 * DigitsValue(s[..|s| - 1]) + DigitValue(s[|s| - 1])
  }

  function Pow10(k: nat): (p: nat)
    ensures p >= 1
  {
    if k == 0 then 1 else 10 * Pow10(k - 1)
  }

  /** The serial range is exactly the eight-digit numbers. */
  lemma SerialRangeIsEightDigits()
    ensures Pow10(7) == MinSerial && Pow10(8) == MaxSerial + 1
  {
    assert Pow10(2) == 100;
    assert Pow10(5) == 100000;
  }

  /** The shape `cpm-` + eight decimal digits + `-afbf08`, 19 characters. */
  predicate IsCampaignCode(s: string)
  {
    |s| == 19 && s[..4] == Prefix && s[12..] == Suffix && AllDigits(s[4..12])
  }

  /** The serial a well-shaped code carries. */
  function SerialOf(code: string): nat
    requires IsCampaignCode(code)
  {
    DigitsValue(code[4..12])
  }

  /** `generateCampaignCode()` once `Math.random()` has produced serial `n`. */
  function GenerateCampaignCode(n: int): (code: string)
    requires IsSerial(n)
    ensures |code| == 19 && StartsWith(code, Prefix)
    ensures IsCampaignCode(code) && SerialOf(code) == n
    ensures code[4] != '0'
  {
    var digits := DecimalString(n);
    SerialRangeIsEightDigits();
    DecimalLengthIn(n, 8);
    DigitsOfDecimal(n);
    assert (Prefix + digits + Suffix)[4..12] == digits;
    Prefix + digits + Suffix
  }

  // ---------------------------------------------------------------------
  // Lemmas
  // ---------------------------------------------------------------------

  /** Reading back the digits JavaScript writes gives the number. */
  lemma {:induction false} DigitsOfDecimal(n: nat)
    ensures DigitsValue(DecimalString(n)) == n
  {
    var s := DecimalString(n);
    if n >= 10 {
      DigitsOfDecimal(n / 10);
      assert s[..|s| - 1] == DecimalString(n / 10);
    }
  }

  lemma {:induction false} Pow10Monotone(j: nat, k: nat)
    requires j <= k
    ensures Pow10(j) <= Pow10(k)
  {
    if j < k {
      Pow10Monotone(j, k - 1);
    }
  }

  /** A positive number has |DecimalString(n)| digits exactly when it lies
      between the matching powers of ten. */
  lemma {:induction false} DecimalLengthBounds(n: nat)
    ensures n < Pow10(|DecimalString(n)|)
    ensures n == 0 || Pow10(|DecimalString(n)| - 1) <= n
  {
    if n >= 10 {
      DecimalLengthBounds(n / 10);
    }
  }

  lemma {:induction false} DecimalLengthIn(n: nat, k: nat)
    requires 1 <= k && Pow10(k - 1) <= n < Pow10(k)
    ensures |DecimalString(n)| == k
  {
    var len := |DecimalString(n)|;
    DecimalLengthBounds(n);
    if len < k {
      Pow10Monotone(len, k - 1);
    } else if len > k {
      Pow10Monotone(k, len - 1);
    }
  }

  lemma {:induction false} LeadingDigitPositive(s: string)
    requires 1 <= |s| && AllDigits(s) && s[0] != '0'
    ensures DigitsValue(s) >= 1
  {
    if |s| > 1 {
      LeadingDigitPositive(s[..|s| - 1]);
    }
  }

  /** Writing out the value of a digit string without a leading zero gives
      the string back. */
  lemma {:induction false} DecimalOfDigits(s: string)
    requires 1 <= |s| && AllDigits(s) && (s[0] != '0' || |s| == 1)
    ensures DecimalString(DigitsValue(s)) == s
  {
    var init, last := s[..|s| - 1], s[|s| - 1];
    if |s| > 1 {
      LeadingDigitPositive(init);
      DecimalOfDigits(init);
      var v := DigitsValue(s);
      assert v / 10 == DigitsValue(init) && v % 10 == DigitValue(last);
      assert s == init + [last];
    }
  }

  /** Different serials give different codes. */
  lemma {:induction false} CodeInjective(n: int, m: int)
    requires IsSerial(n) && IsSerial(m)
    requires GenerateCampaignCode(n) == GenerateCampaignCode(m)
    ensures n == m
  {
    assert SerialOf(GenerateCampaignCode(n)) == n;
  }

  /** Every code of the right shape whose serial does not start with `0` is
      the code of exactly its own serial. */
  lemma {:induction false} EveryShapedCodeIsGenerated(code: string)
    requires IsCampaignCode(code) && code[4] != '0'
    ensures IsSerial(SerialOf(code))
    ensures GenerateCampaignCode(SerialOf(code)) == code
  {
    var digits := code[4..12];
    DecimalOfDigits(digits);
    var n := SerialOf(code);
    assert |DecimalString(n)| == 8;
    DecimalLengthBounds(n);
    SerialRangeIsEightDigits();
    assert code == Prefix + digits + Suffix;
  }
}
