/**
 * The numeric conversions the admin page relies on, restricted to decimal
 * integers: `Number(s)` (which yields NaN for text that is not a number),
 * the global `parseInt(s)` (which reads the longest leading run of digits),
 * and the decimal text of a non-negative integer, as a template literal
 * such as `${Date.now()}` writes it.
 */
module JsNumber {

  /** A JavaScript number, restricted to NaN and the integers. */
  datatype JsNumber = NaN | Finite(value: int)

  /** `isNaN(x)`. */
  predicate IsNaN(x: JsNumber) {
    x.NaN?
  }

  /** `x < k`: every comparison with NaN is false. */
  predicate LessThan(x: JsNumber, k: int): (r: bool)
    ensures IsNaN(x) ==> !r
  {
    x.Finite? && x.value < k
  }

  predicate IsDigit(c: char) {
    '0' <= c <= '9'
  }

  predicate AllDigits(s: string) {
    forall i :: 0 <= i < |s| ==> IsDigit(s[i])
  }

  function DigitValue(c: char): (d: nat)
    requires IsDigit(c)
    ensures d < 10
  {
    c as int - '0' as int
  }

  function DigitChar(d: nat): (c: char)
    requires d < 10
    ensures IsDigit(c) && DigitValue(c) == d
  {
    ('0' as int + d) as char
  }

  /** The value of a run of decimal digits, most significant first. */
  function DecimalValue(s: string): nat
    requires AllDigits(s)
  {
    if s == [] then 0 else DecimalValue(s[..|s| - 1]) * 10 + DigitValue(s[|s| - 1])
  }

  /** `Number(s)` on decimal integer text: the empty string is 0, an optional
      sign may lead a non-empty run of digits, and anything else is NaN. */
  function ToNumber(s: string): (r: JsNumber)
    ensures r.NaN? <==>
      s != "" && !AllDigits(s) && !(|s| >= 2 && (s[0] == '-' || s[0] == '+') && AllDigits(s[1..]))
    ensures r.Finite? && r.value < 0 ==> s != "" && s[0] == '-'
  {
    if s == "" then Finite(0)
    else if s[0] == '-' || s[0] == '+' then
      var ds := s[1..];
      if ds != "" && AllDigits(ds) then
        Finite(if s[0] == '-' then -(DecimalValue(ds) as int) else DecimalValue(ds))
      else NaN
    else if AllDigits(s) then Finite(DecimalValue(s))
    else NaN
  }

  /** The longest prefix of `s` made of digits. */
  function LeadingDigits(s: string): (p: string)
    ensures AllDigits(p)
    ensures |p| <= |s| && p == s[..|p|]
    ensures |p| < |s| ==> !IsDigit(s[|p|])
  {
    if s == [] || !IsDigit(s[0]) then [] else [s[0]] + LeadingDigits(s[1..])
  }

  /** `parseInt(s)`: an optional sign, then the longest run of leading digits;
      NaN when there is no digit to read. What follows the digits is ignored. */
  function ParseInt(s: string): (r: JsNumber)
    ensures var start := if s != [] && (s[0] == '-' || s[0] == '+') then 1 else 0;
      r.NaN? <==> start >= |s| || !IsDigit(s[start])
    ensures r.Finite? && r.value < 0 ==> s != "" && s[0] == '-'
  {
    var negative := s != [] && s[0] == '-';
    var unsigned := if s != [] && (s[0] == '-' || s[0] == '+') then s[1..] else s;
    var ds := LeadingDigits(unsigned);
    if ds == [] then NaN
    else Finite(if negative then -(DecimalValue(ds) as int) else DecimalValue(ds))
  }

  /** The decimal text of `n`, without leading zeros. */
  function FormatNat(n: nat): (s: string)
    ensures |s| >= 1 && AllDigits(s)
    ensures |s| > 1 ==> s[0] != '0'
  {
    if n < 10 then [DigitChar(n)] else FormatNat(n / 10) + [DigitChar(n % 10)]
  }

  /** The decimal text of an integer, with a minus sign when it is negative. */
  function FormatInt(n: int): string {
    if n < 0 then "-" + FormatNat(-n) else FormatNat(n)
  }

  lemma {:induction false} DecimalValueOfFormat(n: nat)
    ensures DecimalValue(FormatNat(n)) == n
  {
    if n >= 10 {
      DecimalValueOfFormat(n / 10);
      var s := FormatNat(n);
      assert s[..|s| - 1] == FormatNat(n / 10);
    }
  }

  /** `Number` reads back every integer it is shown as. */
  lemma ToNumberOfFormat(n: int)
    ensures ToNumber(FormatInt(n)) == Finite(n)
  {
    if n < 0 {
      DecimalValueOfFormat(-n);
      assert FormatInt(n)[1..] == FormatNat(-n);
    } else {
      DecimalValueOfFormat(n);
    }
  }

  lemma LeadingDigitsOfDigits(s: string)
    requires AllDigits(s)
    ensures LeadingDigits(s) == s
  {
  }

  /** On non-empty text that `Number` accepts, `parseInt` reads the same value. */
  lemma ParseIntAgreesWithToNumber(s: string)
    requires s != "" && ToNumber(s).Finite?
    ensures ParseInt(s) == ToNumber(s)
  {
    if s[0] == '-' || s[0] == '+' {
      LeadingDigitsOfDigits(s[1..]);
    } else {
      LeadingDigitsOfDigits(s);
    }
  }

  /** The two conversions differ: `parseInt` stops at the first non-digit, `Number` rejects it. */
  lemma ParseIntIgnoresTrailingText()
    ensures ParseInt("12ab") == Finite(12)
    ensures ToNumber("12ab") == NaN
  {
    assert !IsDigit('a');
    assert LeadingDigits("ab") == [];
    assert LeadingDigits("12ab") == "12";
    assert "12"[..1] == "1";
    assert DecimalValue("12") == 12;
  }
}
