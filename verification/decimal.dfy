/**
 Decimal text of integers, as Python's str(int) and '{}'.format(int) write it:
 an optional '-', then the digits of the magnitude with no leading zero
 (zero itself is "0"). Integers here are unbounded, so the printer has no
 counterpart to the limit on digits that Python 3.11, and the 2022 security
 releases of 3.7-3.10, impose on int-to-str conversion (4300 by default, past which Python raises
 ValueError). The strict parser below reads back exactly the texts that the
 printer can produce.
 */
module Decimal {
  import opened Wrappers

  predicate IsDigit(c: char) {
    '0' <= c <= '9'
  }

  predicate AllDigits(s: string) {
    forall i :: 0 <= i < |s| ==> IsDigit(s[i])
  }

  /** A numeral for a natural number: digits only, and a leading '0' only in "0" itself. */
  predicate IsCanonicalNat(s: string) {
    && |s| >= 1
    && AllDigits(s)
    && (s[0] == '0' ==> |s| == 1)
  }

  /** A numeral for an integer: a natural numeral, or '-' before a nonzero natural numeral. */
  predicate IsCanonicalInt(s: string) {
    || IsCanonicalNat(s)
    || (|s| >= 2 && s[0] == '-' && IsCanonicalNat(s[1..]) && s[1] != '0')
  }

  function DigitChar(d: nat): (c: char)
    requires d < 10
    ensures IsDigit(c)
  {
    ('0' as int + d) as char
  }

  function DigitValue(c: char): (d: nat)
    requires IsDigit(c)
    ensures d < 10 && DigitChar(d) == c
  {
    c as int - '0' as int
  }

  /** The decimal digits of n, most significant first. */
  function NatToDecimal(n: nat): (s: string)
    ensures IsCanonicalNat(s)
    ensures s[0] == '0' <==> n == 0
    decreases n
  {
    if n < 10 then [DigitChar(n)]
    else NatToDecimal(n / 10) + [DigitChar(n % 10)]
  }

  /** The text str(n) gives for a Python int n. */
  function IntToDecimal(n: int): (s: string)
    ensures IsCanonicalInt(s)
    ensures s[0] == '-' <==> n < 0
  {
    if n < 0 then "-" + NatToDecimal(-n) else NatToDecimal(n)
  }

  /** The value of a string of digits, read most significant first. */
  function ParseDigits(s: string): nat
    requires AllDigits(s)
    decreases |s|
  {
    if |s| == 0 then 0
    else 10 * ParseDigits(s[..|s| - 1]) + DigitValue(s[|s| - 1])
  }

  /** Reads a canonical integer numeral; any other text is rejected. */
  function ParseDecimal(s: string): (r: Option<int>)
    ensures r.Some? <==> IsCanonicalInt(s)
  {
    if IsCanonicalNat(s) then Some(ParseDigits(s))
    else if |s| >= 2 && s[0] == '-' && IsCanonicalNat(s[1..]) && s[1] != '0' then
      var magnitude: int := ParseDigits(s[1..]);
      Some(-magnitude)
    else None
  }

  lemma {:induction false} ParseNatToDecimal(n: nat)
    ensures ParseDigits(NatToDecimal(n)) == n
    decreases n
  {
    if n >= 10 {
      var s := NatToDecimal(n);
      assert s[..|s| - 1] == NatToDecimal(n / 10);
      ParseNatToDecimal(n / 10);
    }
  }

  lemma {:induction false} NatToDecimalOfParse(s: string)
    requires IsCanonicalNat(s)
    ensures NatToDecimal(ParseDigits(s)) == s
    decreases |s|
  {
    if |s| == 1 {
      assert ParseDigits(s[..0]) == 0;
      assert [s[0]] == s;
    } else {
      var p := s[..|s| - 1];
      var d := DigitValue(s[|s| - 1]);
      assert p[0] == s[0];
      NatToDecimalOfParse(p);
      var m := ParseDigits(p);
      assert m != 0;
      var n := 10 * m + d;
      assert n / 10 == m && n % 10 == d;
      assert s == p + [s[|s| - 1]];
    }
  }

  /** The text Python writes for a few integers: zero, a negative one, six and nine digits. */
  lemma IntToDecimalExamples()
    ensures IntToDecimal(0) == "0"
    ensures IntToDecimal(-1) == "-1"
    ensures IntToDecimal(123456) == "123456"
    ensures IntToDecimal(999999999) == "999999999"
  {
    assert NatToDecimal(12) == "12";
    assert NatToDecimal(1234) == "1234";
    assert NatToDecimal(99) == "99";
    assert NatToDecimal(9999) == "9999";
    assert NatToDecimal(9999999) == "9999999";
  }

  /** Parsing the printed text of an integer gives the integer back. */
  lemma ParseIntToDecimal(n: int)
    ensures ParseDecimal(IntToDecimal(n)) == Some(n)
  {
    var s := IntToDecimal(n);
    if n < 0 {
      assert s[1..] == NatToDecimal(-n);
      ParseNatToDecimal(-n);
    } else {
      ParseNatToDecimal(n);
    }
  }

  /** Printing the integer a text parses to gives the text back. */
  lemma IntToDecimalOfParse(s: string)
    requires ParseDecimal(s).Some?
    ensures IntToDecimal(ParseDecimal(s).value) == s
  {
    if IsCanonicalNat(s) {
      NatToDecimalOfParse(s);
    } else {
      NatToDecimalOfParse(s[1..]);
      assert s == "-" + s[1..];
    }
  }

  /** Printing and strict parsing are inverse to each other, in both directions. */
  lemma ParseDecimalIff(s: string, n: int)
    ensures ParseDecimal(s) == Some(n) <==> IntToDecimal(n) == s
  {
    if IntToDecimal(n) == s {
      ParseIntToDecimal(n);
    }
    if ParseDecimal(s) == Some(n) {
      IntToDecimalOfParse(s);
    }
  }
}
