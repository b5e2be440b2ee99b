/** Decimal numerals as Go's `fmt.Sprintf("%d", n)` writes them for an integer:
    an optional leading '-' for negatives, then the digits of the absolute value
    with no leading zero (except for the numeral "0" itself). */
module Numerals {

  datatype Option<T> = None | Some(value: T)

  predicate IsDigit(c: char) {
    '0' <= c <= '9'
  }

  predicate AllDigits(s: string) {
    forall i :: 0 <= i < |s| ==> IsDigit(s[i])
  }

  /** The shape of a numeral for a natural number: non-empty, digits only,
      and a leading '0' only in the numeral "0". */
  predicate Canonical(s: string) {
    |s| >= 1 && AllDigits(s) && (s[0] == '0' ==> |s| == 1)
  }

  function DigitValue(c: char): (d: nat)
    requires IsDigit(c)
    ensures d < 10
  {
    c as int - '0' as int
  }

  function DigitChar(d: nat): (c: char)
    requires d < 10
    ensures IsDigit(c) && DigitValue(c) == d
    ensures (c == '0') == (d == 0)
  {
    ('0' as int + d) as char
  }

  /** The numeral of a natural number, most significant digit first. */
  function NatToDecimal(n: nat): (s: string)
    ensures Canonical(s)
    ensures (s[0] == '0') == (n == 0)
    decreases n
  {
    if n < 10 then [DigitChar(n)] else NatToDecimal(n / 10) + [DigitChar(n % 10)]
  }

  /** Go's `%d` verb applied to an integer. */
  function IntToDecimal(n: int): (s: string)
    ensures |s| >= 1
    ensures (s[0] == '-') == (n < 0)
    ensures n < 0 ==> Canonical(s[1..]) && s[1] != '0'
    ensures n >= 0 ==> Canonical(s)
  {
    if n < 0 then "-" + NatToDecimal(-n) else NatToDecimal(n)
  }

  /** The value of a string of digits, read most significant digit first. */
  function NatValue(s: string): nat
    requires AllDigits(s)
  {
    if s == [] then 0 else 10 * NatValue(s[..|s| - 1]) + DigitValue(s[|s| - 1])
  }

  /** Reads back a numeral: an optional '-' followed by at least one digit. */
  function ParseInt(s: string): Option<int> {
    if |s| >= 2 && s[0] == '-' && AllDigits(s[1..]) then Some(0 - NatValue(s[1..]) as int)
    else if |s| >= 1 && AllDigits(s) then Some(NatValue(s))
    else None
  }

  lemma {:induction false} NatValueOfNatToDecimal(n: nat)
    ensures NatValue(NatToDecimal(n)) == n
    decreases n
  {
    var s := NatToDecimal(n);
    if n >= 10 {
      NatValueOfNatToDecimal(n / 10);
      assert s[..|s| - 1] == NatToDecimal(n / 10);
    }
  }

  /** Reading back what `%d` wrote gives the original integer. */
  lemma ParseIntToDecimal(n: int)
    ensures ParseInt(IntToDecimal(n)) == Some(n)
  {
    var s := IntToDecimal(n);
    if n < 0 {
      assert s[1..] == NatToDecimal(-n);
      NatValueOfNatToDecimal(-n);
    } else {
      NatValueOfNatToDecimal(n);
      assert s[0] != '-';
    }
  }

  /** Distinct integers get distinct numerals. */
  lemma IntToDecimalInjective(m: int, n: int)
    requires IntToDecimal(m) == IntToDecimal(n)
    ensures m == n
  {
    ParseIntToDecimal(m);
    ParseIntToDecimal(n);
  }

  lemma {:induction false} NatValuePositive(s: string)
    requires |s| >= 1 && AllDigits(s) && s[0] != '0'
    ensures NatValue(s) >= 1
    decreases |s|
  {
    if |s| > 1 {
      NatValuePositive(s[..|s| - 1]);
    } else {
      assert DigitValue(s[0]) != 0;
    }
  }

  lemma {:induction false} NatToDecimalOfNatValue(s: string)
    requires Canonical(s)
    ensures NatToDecimal(NatValue(s)) == s
    decreases |s|
  {
    var n := NatValue(s);
    var t, d := s[..|s| - 1], s[|s| - 1];
    if |s| == 1 {
      assert NatValue(s) == DigitValue(d);
      assert DigitChar(DigitValue(d)) == d;
    } else {
      NatValuePositive(t);
      NatToDecimalOfNatValue(t);
      assert n / 10 == NatValue(t) && n % 10 == DigitValue(d);
      assert DigitChar(DigitValue(d)) == d;
      assert s == t + [d];
    }
  }

  /** Every canonical numeral is the `%d` numeral of the integer it reads as, so
      `%d` produces exactly the canonical numerals and nothing else. */
  lemma IntToDecimalOfParseInt(s: string)
    requires (|s| >= 2 && s[0] == '-' && Canonical(s[1..]) && s[1] != '0') || Canonical(s)
    ensures ParseInt(s).Some? && IntToDecimal(ParseInt(s).value) == s
  {
    if s[0] == '-' {
      NatValuePositive(s[1..]);
      NatToDecimalOfNatValue(s[1..]);
      assert s == "-" + s[1..];
    } else {
      NatToDecimalOfNatValue(s);
    }
  }
}
