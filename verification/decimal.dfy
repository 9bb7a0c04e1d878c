/** Decimal text: digit bytes, their value, the canonical text of an integer,
    and the lenient base-10 conversion Ruby applies when the extension calls
    `rb_cstr2inum(data, 10)` on an integer column. */
module Decimal {
  import opened CTypes

  const ZERO: byte := 48
  const PLUS: byte := 43
  const MINUS: byte := 45
  const UNDERSCORE: byte := 95

  predicate IsDigit(b: byte) {
    48 <= b <= 57
  }

  /** C `isspace` in the "C" locale: space, \t, \n, \v, \f, \r. */
  predicate IsBlank(b: byte) {
    b == 32 || 9 <= b <= 13
  }

  predicate IsSign(b: byte) {
    b == PLUS || b == MINUS
  }

  predicate AllDigits(s: Bytes) {
    forall i :: 0 <= i < |s| ==> IsDigit(s[i])
  }

  function DigitValue(b: byte): nat
    requires IsDigit(b)
  {
    b as int - 48
  }

  function DigitByte(d: nat): byte
    requires d < 10
  {
    (48 + d) as byte
  }

  function Pow10(k: nat): nat {
    if k == 0 then 1 else 10 * Pow10(k - 1)
  }

  /** The number a run of decimal digits denotes; it is below 10^|s|. */
  function DigitsValue(s: Bytes): (n: nat)
    requires AllDigits(s)
    ensures n < Pow10(|s|)
  {
    if |s| == 0 then 0 else DigitsValue(s[..|s| - 1]) * 10 + DigitValue(s[|s| - 1])
  }

  /** The shortest decimal text of a natural number (no leading zeros). */
  function Format(n: nat): (s: Bytes)
    ensures AllDigits(s) && 1 <= |s|
    ensures |s| > 1 ==> s[0] != ZERO
  {
    if n < 10 then [DigitByte(n)] else Format(n / 10) + [DigitByte(n % 10)]
  }

  /** Reading back the text `Format` writes yields the number. */
  lemma {:induction false} ValueOfFormat(n: nat)
    ensures DigitsValue(Format(n)) == n
  {
    if n >= 10 {
      var s := Format(n);
      ValueOfFormat(n / 10);
      assert s[..|s| - 1] == Format(n / 10);
    }
  }

  /** Ruby's `Integer#to_s`: a minus sign for negatives, then the digits. */
  function FormatInteger(n: int): (s: Bytes)
    ensures NUL !in s
  {
    if n < 0 then [MINUS] + Format(-n) else Format(n)
  }

  /** First position at or after `i` that is not a blank. */
  function SkipBlanks(s: Bytes, i: nat): (j: nat)
    requires i <= |s|
    ensures i <= j <= |s|
    ensures forall k :: i <= k < j ==> IsBlank(s[k])
    ensures j < |s| ==> !IsBlank(s[j])
    decreases |s| - i
  {
    if i < |s| && IsBlank(s[i]) then SkipBlanks(s, i + 1) else i
  }

  /** The digits of the numeral starting at `i`: a run of digits in which a
      single underscore may separate two digits; the underscores are dropped. */
  function DigitsWithSeparators(s: Bytes, i: nat): (ds: Bytes)
    requires i <= |s|
    ensures AllDigits(ds)
    ensures |ds| <= |s| - i
    decreases |s| - i
  {
    if i < |s| && IsDigit(s[i]) then
      var next := if i + 2 < |s| && s[i + 1] == UNDERSCORE && IsDigit(s[i + 2]) then i + 2 else i + 1;
      [s[i]] + DigitsWithSeparators(s, next)
    else
      []
  }

  const LOWER_D: byte := 100
  const UPPER_D: byte := 68

  /** Where the numeral starts once an optional "0d" or "0D" radix prefix
      at `j` is skipped. */
  function AfterPrefix(text: Bytes, j: nat): (k: nat)
    requires j <= |text|
    ensures k == j || k == j + 2
    ensures k <= |text|
  {
    if j + 1 < |text| && text[j] == ZERO && (text[j + 1] == LOWER_D || text[j + 1] == UPPER_D) then j + 2 else j
  }

  /** Base-10 conversion with error checking off: leading blanks, at most one
      sign, an optional "0d"/"0D" prefix, then the numeral; anything after it
      is ignored, and text with no numeral converts to 0. */
  function ParseInteger(text: Bytes): int {
    var i := SkipBlanks(text, 0);
    var negative := i < |text| && text[i] == MINUS;
    var j := if i < |text| && IsSign(text[i]) then i + 1 else i;
    if j < |text| && IsSign(text[j]) then 0
    else
      var magnitude: int := DigitsValue(DigitsWithSeparators(text, AfterPrefix(text, j)));
      if negative then -magnitude else magnitude
  }

  /** The radix prefix is skipped after the sign: "0d12" is 12 and "-0D5"
      is -5. */
  lemma RadixPrefixSkipped()
    ensures ParseInteger([ZERO, LOWER_D, 49, 50]) == 12
    ensures ParseInteger([MINUS, ZERO, UPPER_D, 53]) == -5
  {
    var a: Bytes := [ZERO, LOWER_D, 49, 50];
    assert SkipBlanks(a, 0) == 0;
    DigitsToEnd(a, 2);
    assert a[2..] == [49, 50];
    assert DigitsValue([49, 50][..1]) == 1;
    var b: Bytes := [MINUS, ZERO, UPPER_D, 53];
    assert SkipBlanks(b, 0) == 0;
    DigitsToEnd(b, 3);
    assert b[3..] == [53];
  }

  /** A run of plain digits to the end of the text is read whole. */
  lemma {:induction false} DigitsToEnd(s: Bytes, i: nat)
    requires i <= |s| && AllDigits(s[i..])
    ensures DigitsWithSeparators(s, i) == s[i..]
    decreases |s| - i
  {
    if i < |s| {
      assert IsDigit(s[i]) by { assert s[i..][0] == s[i]; }
      if i + 2 < |s| {
        assert s[i + 1] == s[i..][1];
      }
      DigitsToEnd(s, i + 1);
    }
  }

  /** Converting the text of any integer gives the integer back, so an
      integer bound as text and read back from an integer column survives. */
  lemma IntegerRoundTrip(n: int)
    ensures ParseInteger(FormatInteger(n)) == n
  {
    var text := FormatInteger(n);
    var digits := if n < 0 then Format(-n) else Format(n);
    var start := if n < 0 then 1 else 0;
    assert text[start..] == digits;
    assert !IsBlank(text[0]);
    assert SkipBlanks(text, 0) == 0;
    if n < 0 {
      assert !IsSign(text[1]) by { assert text[1] == digits[0]; }
    }
    assert AfterPrefix(text, start) == start by {
      if |digits| > 1 {
        assert text[start] == digits[0];
      }
    }
    DigitsToEnd(text, start);
    ValueOfFormat(if n < 0 then -n else n);
  }
}
