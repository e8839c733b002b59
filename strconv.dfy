/**
  * strconv.Atoi as the retention settings use it: an optional sign followed
  * by one or more decimal digits, within the range of a 64-bit int.
  */
module Strconv {
  import opened Wrappers
  import Dates

  predicate IsDigit(c: char) {
    '0' <= c <= '9'
  }

  predicate AllDigits(s: string) {
    forall i :: 0 <= i < |s| ==> IsDigit(s[i])
  }

  /** The value of a string of decimal digits, most significant first. */
  function DigitsValue(s: string): nat
    requires AllDigits(s)
  {
    if s == [] then 0 else DigitsValue(s[..|s| - 1]) * 10 + (s[|s| - 1] as int - '0' as int)
  }

  /** An optional '+' or '-' followed by one or more decimal digits. */
  predicate IsSignedDigits(s: string) {
    && s != []
    && (IsDigit(s[0]) || s[0] == '+' || s[0] == '-')
    && |s| > 1 - (if IsDigit(s[0]) then 1 else 0)
    && forall i :: 0 < i < |s| ==> IsDigit(s[i])
  }

  /** The value a signed digit string denotes. */
  function SignedValue(s: string): int
    requires IsSignedDigits(s)
  {
    var magnitude := if IsDigit(s[0]) then DigitsValue(s) else DigitsValue(s[1..]);
    if s[0] == '-' then -magnitude else magnitude
  }

  /** strconv.Atoi: a signed digit string whose value fits in int64 is that
    * value; anything else is an error. */
  function Atoi(s: string): (r: Option<int>)
    ensures r.Some? ==> Dates.MinInt64 <= r.value <= Dates.MaxInt64
    ensures r.Some? ==> s != [] && (IsDigit(s[0]) || s[0] == '+' || s[0] == '-')
    ensures r.Some? <==> IsSignedDigits(s) && Dates.MinInt64 <= SignedValue(s) <= Dates.MaxInt64
    ensures r.Some? ==> r.value == SignedValue(s)
  {
    if s == [] then None
    else
      var signed := s[0] == '+' || s[0] == '-';
      var digits := if signed then s[1..] else s;
      if digits == [] || !AllDigits(digits) then None
      else
        var n: int := DigitsValue(digits);
        var v: int := if s[0] == '-' then -n else n;
        if Dates.MinInt64 <= v <= Dates.MaxInt64 then Some(v) else None
  }

  /** The decimal digits of a natural number (strconv.Itoa without sign). */
  function Digits(n: nat): (s: string)
    ensures s != [] && AllDigits(s)
  {
    if n < 10 then [('0' as int + n) as char]
    else Digits(n / 10) + [('0' as int + n % 10) as char]
  }

  /** strconv.Itoa. */
  function Itoa(n: int): string {
    if n < 0 then "-" + Digits(-n) else Digits(n)
  }

  lemma {:induction false} DigitsRoundTrip(n: nat)
    ensures DigitsValue(Digits(n)) == n
  {
    if n >= 10 {
      DigitsRoundTrip(n / 10);
      var s := Digits(n);
      assert s[..|s| - 1] == Digits(n / 10);
    }
  }

  /** Atoi reads back every 64-bit integer that Itoa writes. */
  lemma AtoiOfItoa(n: int)
    requires Dates.MinInt64 <= n <= Dates.MaxInt64
    ensures Atoi(Itoa(n)) == Some(n)
  {
    if n < 0 {
      var d := Digits(-n);
      DigitsRoundTrip(-n);
      assert ("-" + d)[0] == '-' && ("-" + d)[1..] == d;
    } else {
      var d := Digits(n);
      DigitsRoundTrip(n);
      assert IsDigit(d[0]);
    }
  }

  /** A leading '+' is accepted and changes nothing. */
  lemma AtoiPlusSign(n: nat)
    requires n <= Dates.MaxInt64
    ensures Atoi("+" + Digits(n)) == Some(n)
  {
    DigitsRoundTrip(n);
    assert ("+" + Digits(n))[1..] == Digits(n);
  }
}
