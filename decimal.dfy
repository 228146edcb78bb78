/**
 * Decimal text for 32-bit unsigned integers: the formatting done by Rust's
 * `format!("{}", n)` and the parsing done by `str::parse::<u32>`.
 */
module Decimal {
  import opened Wrappers

  /** Rust's `u32`. */
  type u32 = n: nat | n < 0x1_0000_0000

  const U32Limit: nat := 0x1_0000_0000

  predicate IsDigit(c: char) {
    '0' <= c <= '9'
  }

  predicate AllDigits(s: string) {
    forall i :: 0 <= i < |s| ==> IsDigit(s[i])
  }

  function DigitValue(c: char): (d: nat)
    requires IsDigit(c)
    ensures d < 10
  {
    c as int - '0' as int
  }

  function DigitChar(d: nat): (c: char)
    requires d < 10
    ensures IsDigit(c) && DigitValue(c) == d
  {
    ('0' as int + d) as char
  }

  /** The value of a string of decimal digits, most significant first (leading zeros allowed). */
  function DigitsValue(s: string): nat
    requires AllDigits(s)
  {
    if |s| == 0 then 0 else DigitsValue(s[..|s| - 1]) * 10 + DigitValue(s[|s| - 1])
  }

  /** `format!("{}", n)`: shortest decimal text, no sign, no leading zeros. */
  function Format(n: nat): (s: string)
    ensures |s| > 0 && AllDigits(s)
    ensures |s| > 1 ==> s[0] != '0'
  {
    if n < 10 then [DigitChar(n)] else Format(n / 10) + [DigitChar(n % 10)]
  }

  /**
   * `str::parse::<u32>`: an optional leading '+', then at least one decimal
   * digit and nothing else; a value that does not fit in 32 bits is an error.
   * A '-' is never accepted for an unsigned type.
   */
  function ParseU32(s: string): (r: Option<u32>)
    ensures r.Some? ==> |s| > 0 && (IsDigit(s[0]) || (s[0] == '+' && |s| > 1))
    ensures r.Some? ==> forall i :: 0 < i < |s| ==> IsDigit(s[i])
    ensures r.Some? && s[0] != '+' ==> AllDigits(s) && DigitsValue(s) == r.value
    ensures r.Some? && s[0] == '+' ==> AllDigits(s[1..]) && DigitsValue(s[1..]) == r.value
    ensures '-' in s ==> r.None?
  {
    if |s| == 0 then None
    else
      var digits := if s[0] == '+' then s[1..] else s;
      if |digits| == 0 || !AllDigits(digits) then None
      else if DigitsValue(digits) < U32Limit then Some(DigitsValue(digits))
      else None
  }

  lemma {:induction false} FormatValue(n: nat)
    ensures DigitsValue(Format(n)) == n
  {
    if n >= 10 {
      var s := Format(n);
      FormatValue(n / 10);
      assert s[..|s| - 1] == Format(n / 10);
    }
  }

  /** Parsing the text that `format!` writes gives back the number, exactly when it fits in a `u32`. */
  lemma ParseFormat(n: nat)
    ensures ParseU32(Format(n)).Some? <==> n < U32Limit
    ensures n < U32Limit ==> ParseU32(Format(n)) == Some(n)
  {
    FormatValue(n);
  }

  /** Distinct numbers have distinct decimal texts. */
  lemma FormatInjective(a: nat, b: nat)
    ensures Format(a) == Format(b) <==> a == b
  {
    FormatValue(a);
    FormatValue(b);
  }

  /** Leading zeros and one leading '+' do not change the parsed value. */
  lemma {:induction false} ParseIgnoresLeadingZero(s: string)
    requires |s| > 0 && AllDigits(s)
    ensures ParseU32("0" + s) == ParseU32(s)
    ensures ParseU32("+" + s) == ParseU32(s)
  {
    ZeroPrefixValue(s);
    assert ("+" + s)[1..] == s;
  }

  lemma {:induction false} ZeroPrefixValue(s: string)
    requires AllDigits(s)
    ensures AllDigits("0" + s) && DigitsValue("0" + s) == DigitsValue(s)
  {
    var t := "0" + s;
    assert AllDigits(t) by {
      forall i | 0 <= i < |t| ensures IsDigit(t[i]) {
        if i > 0 { assert t[i] == s[i - 1]; }
      }
    }
    if |s| > 0 {
      ZeroPrefixValue(s[..|s| - 1]);
      assert t[..|t| - 1] == "0" + s[..|s| - 1];
    }
  }
}
