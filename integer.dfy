/**
 The part of Python's `int(text)` that an `Auto-Installed` value goes
 through: an optional `+` or `-` sign followed by one or more ASCII decimal
 digits. Any other text is a `ValueError`, modelled as `None`.
 */
module Integers {
  import opened Stanzas

  predicate IsDigit(c: char)
  {
    '0' <= c <= '9'
  }

  predicate AllDigits(s: string)
  {
    forall k :: 0 <= k < |s| ==> IsDigit(s[k])
  }

  function DigitValue(c: char): (d: nat)
    requires IsDigit(c)
    ensures d < 10
  {
    c as int - '0' as int
  }

  function DigitChar(d: nat): (c: char)
    requires d < 10
    ensures IsDigit(c) && DigitValue(c) == d
  {
    ('0' as int + d) as char
  }

  /** The value of a string of decimal digits, most significant first. */
  function DigitsValue(s: string): nat
    requires AllDigits(s)
  {
    if |s| == 0 then 0 else DigitsValue(s[..|s| - 1]) * 10 + DigitValue(s[|s| - 1])
  }

  /** Python's `int(text)` on the sign-and-digits grammar; `None` where Python raises `ValueError`. */
  function ParseInteger(text: string): (r: Option<int>)
    ensures r.Some? <==> (
      var digits := if |text| > 0 && (text[0] == '+' || text[0] == '-') then text[1..] else text;
      |digits| > 0 && AllDigits(digits))
    ensures r.Some? && text[0] == '-' ==> r.value <= 0
    ensures r.Some? && text[0] != '-' ==> r.value >= 0
  {
    if |text| > 0 && (text[0] == '+' || text[0] == '-') then
      var digits := text[1..];
      if |digits| > 0 && AllDigits(digits) then
        var magnitude: int := DigitsValue(digits);
        Some(if text[0] == '-' then -magnitude else magnitude)
      else None
    else if |text| > 0 && AllDigits(text) then Some(DigitsValue(text))
    else None
  }

  /** The decimal rendering of a natural number (what `str(n)` prints), the partner of the parser. */
  function Decimal(n: nat): (s: string)
    ensures |s| > 0 && AllDigits(s)
    ensures |s| > 1 ==> s[0] != '0'
    decreases n
  {
    if n < 10 then [DigitChar(n)] else Decimal(n / 10) + [DigitChar(n % 10)]
  }

  lemma {:induction false} DigitsOfDecimal(n: nat)
    ensures DigitsValue(Decimal(n)) == n
    decreases n
  {
    var s := Decimal(n);
    if n >= 10 {
      DigitsOfDecimal(n / 10);
      assert s[..|s| - 1] == Decimal(n / 10);
    }
  }

  /** Round trip: parsing the rendering of any integer gives that integer back. */
  lemma ParseDecimal(n: int)
    ensures n >= 0 ==> ParseInteger(Decimal(n)) == Some(n)
    ensures n <= 0 ==> ParseInteger("-" + Decimal(-n)) == Some(n)
  {
    if n >= 0 {
      DigitsOfDecimal(n);
    }
    if n <= 0 {
      DigitsOfDecimal(-n);
      assert ("-" + Decimal(-n))[1..] == Decimal(-n);
    }
  }

  /** A digit string that does not start with `0` has a positive value. */
  lemma {:induction false} LeadingDigitPositive(s: string)
    requires |s| > 0 && AllDigits(s) && s[0] != '0'
    ensures DigitsValue(s) >= 1
    decreases |s|
  {
    if |s| > 1 {
      LeadingDigitPositive(s[..|s| - 1]);
    }
  }

  /** The other half of the round trip: a digit string with no leading zero is the rendering of its value. */
  lemma {:induction false} DecimalOfDigits(s: string)
    requires |s| > 0 && AllDigits(s)
    requires |s| > 1 ==> s[0] != '0'
    ensures Decimal(DigitsValue(s)) == s
    decreases |s|
  {
    var d := DigitValue(s[|s| - 1]);
    assert DigitChar(d) == s[|s| - 1];
    if |s| > 1 {
      var init := s[..|s| - 1];
      LeadingDigitPositive(init);
      DecimalOfDigits(init);
      var n := DigitsValue(s);
      assert n / 10 == DigitsValue(init) && n % 10 == d;
      assert s == init + [s[|s| - 1]];
    }
  }

  /** A leading zero does not change the value: `int("007") == int("7")`. */
  lemma {:induction false} LeadingZero(s: string)
    requires |s| > 0 && AllDigits(s)
    ensures ParseInteger("0" + s) == ParseInteger(s)
  {
    ZeroPrefixValue(s);
  }

  lemma {:induction false} ZeroPrefixValue(s: string)
    requires AllDigits(s)
    ensures AllDigits("0" + s) && DigitsValue("0" + s) == DigitsValue(s)
    decreases |s|
  {
    if |s| > 0 {
      ZeroPrefixValue(s[..|s| - 1]);
      assert ("0" + s)[..|"0" + s| - 1] == "0" + s[..|s| - 1];
    }
  }

  /** A sign in front of digits: `+` changes nothing, `-` negates the value. */
  lemma Signs(s: string)
    requires |s| > 0 && AllDigits(s)
    ensures ParseInteger("+" + s) == ParseInteger(s)
    ensures ParseInteger("-" + s) == Some(-ParseInteger(s).value)
  {
    assert ("+" + s)[1..] == s;
    assert ("-" + s)[1..] == s;
  }

  /** Leading zeros and an explicit sign are accepted, as by Python's `int`. */
  lemma AcceptedSpellings()
    ensures ParseInteger("1") == Some(1) && ParseInteger("0") == Some(0)
    ensures ParseInteger("01") == Some(1) && ParseInteger("+1") == Some(1)
    ensures ParseInteger("-0") == Some(0) && ParseInteger("-1") == Some(-1)
    ensures ParseInteger("maybe") == None && ParseInteger("") == None
    ensures ParseInteger("+") == None && ParseInteger("1a") == None
  {
    assert "01"[..1] == "0";
    assert "+1"[1..] == "1";
    assert "-0"[1..] == "0";
    assert "-1"[1..] == "1";
    assert !IsDigit("maybe"[0]);
    assert !IsDigit("1a"[1]);
  }
}
