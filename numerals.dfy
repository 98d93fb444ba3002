/** Integer literals as Python's `int(str)` reads them: an optional sign
    followed by one or more ASCII digits. */
module Numerals {
  import opened Wrappers

  predicate IsDigit(c: char) {
    '0' <= c <= '9'
  }

  predicate AllDigits(s: string) {
    forall k :: 0 <= k < |s| ==> IsDigit(s[k])
  }

  function DigitValue(c: char): nat
    requires IsDigit(c)
  {
    c as int - '0' as int
  }

  function DigitChar(d: nat): (c: char)
    requires d < 10
    ensures IsDigit(c) && DigitValue(c) == d
  {
    (d + '0' as int) as char
  }

  /** The value of a decimal digit string, most significant digit first. */
  function DigitsValue(s: string): nat
    requires AllDigits(s)
    decreases |s|
  {
    if |s| == 0 then 0 else DigitsValue(s[..|s| - 1]) * 10 + DigitValue(s[|s| - 1])
  }

  /** `int(s)`: None where Python raises ValueError. */
  function ParseInt(s: string): (r: Option<int>)
    ensures r.Some? <==> |s| > 0 && (AllDigits(s) || (s[0] in "+-" && |s| > 1 && AllDigits(s[1..])))
  {
    if |s| > 0 && (s[0] == '-' || s[0] == '+') then
      if |s| > 1 && AllDigits(s[1..]) then
        var magnitude: int := DigitsValue(s[1..]);
        Some(if s[0] == '-' then -magnitude else magnitude)
      else None
    else if |s| > 0 && AllDigits(s) then Some(DigitsValue(s))
    else None
  }

  /** Decimal digits of `n`, without leading zeros. */
  function FormatNat(n: nat): (s: string)
    ensures |s| > 0 && AllDigits(s)
    decreases n
  {
    if n < 10 then [DigitChar(n)] else FormatNat(n / 10) + [DigitChar(n % 10)]
  }

  /** `str(n)` */
  function FormatInt(n: int): (s: string)
    ensures |s| > 0 && forall k :: 0 <= k < |s| ==> IsDigit(s[k]) || (k == 0 && s[k] == '-')
  {
    if n < 0 then "-" + FormatNat(-n) else FormatNat(n)
  }

  lemma {:induction false} FormatNatValue(n: nat)
    ensures DigitsValue(FormatNat(n)) == n
    decreases n
  {
    var s := FormatNat(n);
    if n >= 10 {
      FormatNatValue(n / 10);
      assert s[..|s| - 1] == FormatNat(n / 10);
    }
  }

  /** `int(str(n)) == n` */
  lemma ParseFormat(n: int)
    ensures ParseInt(FormatInt(n)) == Some(n)
  {
    if n < 0 {
      FormatNatValue(-n);
      assert FormatInt(n)[1..] == FormatNat(-n);
    } else {
      FormatNatValue(n);
    }
  }

  /** A leading zero does not change the value of a digit string. */
  lemma {:induction false} LeadingZero(d: string)
    requires AllDigits(d)
    ensures AllDigits("0" + d) && DigitsValue("0" + d) == DigitsValue(d)
    decreases |d|
  {
    var z := "0" + d;
    assert forall k :: 0 <= k < |z| ==> z[k] == if k == 0 then '0' else d[k - 1];
    if |d| > 0 {
      var init := d[..|d| - 1];
      assert z[..|z| - 1] == "0" + init;
      LeadingZero(init);
    }
  }

  /** A digit string is read as its value. */
  lemma ParseDigits(d: string)
    requires |d| > 0 && AllDigits(d)
    ensures ParseInt(d) == Some(DigitsValue(d) as int)
  {
    assert d[0] != '+' && d[0] != '-';
  }

  /** A leading sign is read off, and the digits after it give the magnitude. */
  lemma ParseSign(sign: char, d: string)
    requires sign == '+' || sign == '-'
    requires |d| > 0 && AllDigits(d)
    ensures ParseInt([sign] + d) == Some(if sign == '-' then -(DigitsValue(d) as int) else DigitsValue(d) as int)
  {
    var s := [sign] + d;
    assert s[1..] == d;
    assert |s| > 1 && AllDigits(s[1..]);
    assert s[0] == sign;
  }

  /** `int()` of a digit string with a sign or leading zeros: `+` and
      leading zeros leave the value unchanged and `-` negates it. */
  lemma ParseSigned(d: string)
    requires |d| > 0 && AllDigits(d)
    ensures ParseInt(d) == Some(DigitsValue(d) as int)
    ensures ParseInt("+" + d) == ParseInt(d) && ParseInt("0" + d) == ParseInt(d)
    ensures ParseInt("-" + d) == Some(-(DigitsValue(d) as int))
  {
    ParseDigits(d);
    ParseSign('+', d);
    ParseSign('-', d);
    LeadingZero(d);
    ParseDigits("0" + d);
  }
}
