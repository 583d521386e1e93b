/**
  Decimal text of integers, as the quiz uses it: Python's `str(n)` (every
  f-string interpolation of an `int`) and a model of `int(s)` that accepts an
  optional sign followed by ASCII digits. The two are proved inverse.
 */
module Decimal {
  import opened Wrappers

  predicate IsDigit(c: char) {
    '0' <= c <= '9'
  }

  predicate AllDigits(s: string) {
    forall i :: 0 <= i < |s| ==> IsDigit(s[i])
  }

  /** A digit string as `str` prints a natural number: non-empty, no leading zero. */
  predicate Canonical(s: string) {
    |s| > 0 && AllDigits(s) && (s[0] == '0' ==> |s| == 1)
  }

  function DigitChar(d: nat): (c: char)
    requires d < 10
    ensures IsDigit(c)
  {
    ('0' as int + d) as char
  }

  function DigitValue(c: char): (d: nat)
    requires IsDigit(c)
    ensures d < 10 && DigitChar(d) == c
  {
    c as int - '0' as int
  }

  /** `str(n)` for a natural number: always a canonical digit string. */
  function NatToString(n: nat): (s: string)
    ensures Canonical(s)
    ensures n < 10 <==> |s| == 1
    decreases n
  {
    if n < 10 then [DigitChar(n)] else NatToString(n / 10) + [DigitChar(n % 10)]
  }

  /** The value of a string of digits, most significant first; "" is 0. */
  function DigitsValue(s: string): nat
    requires AllDigits(s)
  {
    if |s| == 0 then 0 else DigitsValue(s[..|s| - 1]) * 10 + DigitValue(s[|s| - 1])
  }

  /** `str(i)` for any integer: a minus sign exactly for negatives, then the digits of |i|. */
  function IntToString(i: int): (s: string)
    ensures |s| > 0
    ensures i < 0 <==> s[0] == '-'
    ensures i < 0 ==> Canonical(s[1..])
    ensures i >= 0 ==> Canonical(s)
  {
    if i < 0 then "-" + NatToString(-i) else NatToString(i)
  }

  /**
    `int(s)` restricted to an optional `+`/`-` sign followed by at least one
    ASCII digit; any other text is the `ValueError` path, here `None`.
   */
  function ParseInt(s: string): (r: Option<int>)
    ensures |s| == 0 ==> r == None
    ensures |s| > 0 && AllDigits(s) ==> r == Some(DigitsValue(s))
    ensures (exists i :: 0 < i < |s| && !IsDigit(s[i])) ==> r == None
    ensures r.Some? && r.value < 0 ==> s[0] == '-'
    ensures r.Some? <==>
      || (|s| > 0 && AllDigits(s))
      || (|s| > 1 && (s[0] == '+' || s[0] == '-') && AllDigits(s[1..]))
  {
    if |s| > 0 && (s[0] == '-' || s[0] == '+') then
      if |s| > 1 && AllDigits(s[1..]) then
        var magnitude: int := DigitsValue(s[1..]);
        Some(if s[0] == '-' then -magnitude else magnitude)
      else
        None
    else if |s| > 0 && AllDigits(s) then
      Some(DigitsValue(s))
    else
      None
  }

  /** A leading `+` changes nothing and a leading `-` negates, zero padding included. */
  lemma SignedParse(t: string)
    requires |t| > 0 && AllDigits(t)
    ensures ParseInt("+" + t) == ParseInt(t) == Some(DigitsValue(t))
    ensures ParseInt("-" + t) == Some(-(DigitsValue(t) as int))
  {
    SignPrefix('+', t);
    SignPrefix('-', t);
  }

  /** The text after a sign character is the digit string the sign was put before. */
  lemma SignPrefix(sign: char, t: string)
    requires sign == '+' || sign == '-'
    requires |t| > 0 && AllDigits(t)
    ensures ParseInt([sign] + t) == Some(if sign == '-' then -(DigitsValue(t) as int) else DigitsValue(t))
  {
    var u := [sign] + t;
    assert u[1..] == t;
  }

  /** Reading back what `str` printed gives the number again. */
  lemma {:induction false} DigitsValueOfNatToString(n: nat)
    ensures DigitsValue(NatToString(n)) == n
    decreases n
  {
    var s := NatToString(n);
    if n >= 10 {
      DigitsValueOfNatToString(n / 10);
      assert s[..|s| - 1] == NatToString(n / 10);
    }
  }

  /** A digit string that does not start with `0` denotes a positive number. */
  lemma {:induction false} LeadingNonZeroIsPositive(s: string)
    requires |s| > 0 && AllDigits(s) && s[0] != '0'
    ensures DigitsValue(s) > 0
    decreases |s|
  {
    if |s| > 1 {
      var p := s[..|s| - 1];
      assert p[0] == s[0];
      LeadingNonZeroIsPositive(p);
    }
  }

  /** The converse round trip: every canonical digit string is what `str` prints for its value. */
  lemma {:induction false} NatToStringOfDigitsValue(s: string)
    requires Canonical(s)
    ensures NatToString(DigitsValue(s)) == s
    decreases |s|
  {
    var n := DigitsValue(s);
    if |s| == 1 {
      assert s == [s[0]];
    } else {
      var p := s[..|s| - 1];
      var d := DigitValue(s[|s| - 1]);
      assert p[0] == s[0];
      LeadingNonZeroIsPositive(p);
      NatToStringOfDigitsValue(p);
      assert n == DigitsValue(p) * 10 + d;
      assert n / 10 == DigitsValue(p) && n % 10 == d;
      assert s == p + [s[|s| - 1]];
    }
  }

  /** `str` is injective on naturals. */
  lemma NatToStringInjective(m: nat, n: nat)
    requires NatToString(m) == NatToString(n)
    ensures m == n
  {
    DigitsValueOfNatToString(m);
    DigitsValueOfNatToString(n);
  }

  /** `int(str(i)) == i` for every integer. */
  lemma ParseIntOfIntToString(i: int)
    ensures ParseInt(IntToString(i)) == Some(i)
  {
    var s := IntToString(i);
    if i < 0 {
      assert s[1..] == NatToString(-i);
      DigitsValueOfNatToString(-i);
    } else {
      DigitsValueOfNatToString(i);
    }
  }

  /** The converse: text that parses and is written as `str` writes it is exactly `str` of its value. */
  lemma IntToStringOfParseInt(s: string)
    requires (|s| > 1 && s[0] == '-' && Canonical(s[1..]) && s[1] != '0') || Canonical(s)
    ensures ParseInt(s).Some? && IntToString(ParseInt(s).value) == s
  {
    if s[0] == '-' {
      var t := s[1..];
      NatToStringOfDigitsValue(t);
      LeadingNonZeroIsPositive(t);
      assert s == "-" + t;
    } else {
      NatToStringOfDigitsValue(s);
    }
  }
}
