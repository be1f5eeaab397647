/**
 * Decimal numerals: digit characters, the value of a run of digits, the
 * digits of a natural number, and reading an unsigned integer from text as
 * the standard library's `str::parse::<usize>` does (an optional `+`
 * followed by one or more digits and nothing else).
 */
module Decimal {
  import opened Basics

  predicate IsDigit(c: char) {
    '0' <= c <= '9'
  }

  predicate AllDigits(ds: seq<char>) {
    forall k :: 0 <= k < |ds| ==> IsDigit(ds[k])
  }

  function DigitValue(c: char): (d: nat)
    requires IsDigit(c)
    ensures d < 10
  {
    c as int - '0' as int
  }

  function DigitChar(d: nat): (c: char)
    requires d < 10
    ensures IsDigit(c) && DigitValue(c) == d
  {
    ('0' as int + d) as char
  }

  /** The base-10 number written by a run of digits, most significant first. */
  function DigitsValue(ds: seq<char>): nat
    requires AllDigits(ds)
  {
    if ds == [] then 0 else DigitsValue(ds[..|ds| - 1]) * 10 + DigitValue(ds[|ds| - 1])
  }

  lemma {:induction false} DigitsValueOfPrefix(ds: seq<char>, d: char)
    requires AllDigits(ds) && IsDigit(d)
    ensures AllDigits(ds + [d])
    ensures DigitsValue(ds + [d]) == DigitsValue(ds) * 10 + DigitValue(d)
  {
    assert (ds + [d])[..|ds|] == ds;
  }

  /** Decimal digits of a natural number, most significant first. */
  function NatDigits(n: nat): (ds: seq<char>)
    ensures |ds| >= 1 && AllDigits(ds)
    ensures DigitsValue(ds) == n
  {
    if n < 10 then
      assert [DigitChar(n)][..0] == [];
      [DigitChar(n)]
    else
      var ds := NatDigits(n / 10) + [DigitChar(n % 10)];
      DigitsValueOfPrefix(NatDigits(n / 10), DigitChar(n % 10));
      ds
  }

  /** The digits of a numeral: everything after a leading `+`, if there is one. */
  function Unsigned(s: seq<char>): (ds: seq<char>)
    ensures ds == s || (|s| > 0 && s[0] == '+' && ds == s[1..])
  {
    if |s| > 0 && s[0] == '+' then s[1..] else s
  }

  /**
   * Reads an unsigned integer: an optional `+` and then at least one digit,
   * with no other character; anything else is refused.
   */
  function ParseDecimal(s: seq<char>): (r: Option<nat>)
    ensures r.Some? <==> |Unsigned(s)| > 0 && AllDigits(Unsigned(s))
    ensures r.Some? ==> r.value == DigitsValue(Unsigned(s))
  {
    var ds := Unsigned(s);
    if |ds| > 0 && AllDigits(ds) then Some(DigitsValue(ds)) else None
  }

  /** Reading the digits of `n`, with or without a leading `+`, gives back `n`. */
  lemma DecimalRoundTrip(n: nat)
    ensures ParseDecimal(NatDigits(n)) == Some(n)
    ensures ParseDecimal(['+'] + NatDigits(n)) == Some(n)
  {
    assert (['+'] + NatDigits(n))[1..] == NatDigits(n);
  }

  /** Text with a character that is neither a digit nor a leading `+` is refused. */
  lemma DecimalRejects(s: seq<char>, k: nat)
    requires k < |s| && !IsDigit(s[k]) && !(k == 0 && s[k] == '+')
    ensures ParseDecimal(s) == None
  {
    if |s| > 0 && s[0] == '+' {
      assert Unsigned(s)[k - 1] == s[k];
    } else {
      assert Unsigned(s)[k] == s[k];
    }
  }
}
