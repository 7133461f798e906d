/** Canonical decimal numerals, as Go's `netip` package accepts them in an
    IPv4 field and in the length after the '/' of a prefix: one or more
    ASCII digits, and no leading zero unless the numeral is "0". */
module Decimal {
  import opened Options

  predicate IsDigit(c: char) {
    '0' <= c <= '9'
  }

  predicate AllDigits(s: string) {
    forall i :: 0 <= i < |s| ==> IsDigit(s[i])
  }

  /** Non-empty, digits only, and no leading zero except in "0" itself. */
  predicate IsCanonical(s: string) {
    |s| > 0 && AllDigits(s) && (s[0] == '0' ==> |s| == 1)
  }

  function DigitValue(c: char): (d: nat)
    requires IsDigit(c)
    ensures d < 10
  {
    c as int - '0' as int
  }

  function DigitChar(d: nat): (c: char)
    requires d < 10
    ensures IsDigit(c) && DigitValue(c) == d
  {
    ('0' as int + d) as char
  }

  /** The number a string of digits denotes, most significant digit first. */
  function Value(s: string): nat
    requires AllDigits(s)
  {
    if s == [] then 0 else Value(s[..|s| - 1]) * 10 + DigitValue(s[|s| - 1])
  }

  function Parse(s: string): Option<nat> {
    if IsCanonical(s) then Some(Value(s)) else None
  }

  /** The shortest decimal numeral of n, as Go's `strconv.Itoa` writes it. */
  function Format(n: nat): (s: string)
    ensures |s| > 0 && AllDigits(s)
  {
    (if n < 10 then [] else Format(n / 10)) + [DigitChar(n % 10)]
  }

  lemma {:induction false} FormatLeadingDigit(n: nat)
    ensures Format(n)[0] == '0' <==> n == 0
  {
    if n >= 10 {
      FormatLeadingDigit(n / 10);
    }
  }

  lemma {:induction false} ValueOfFormat(n: nat)
    ensures Value(Format(n)) == n
  {
    var s := Format(n);
    if n >= 10 {
      ValueOfFormat(n / 10);
      assert s[..|s| - 1] == Format(n / 10);
    } else {
      assert s[..|s| - 1] == [];
    }
  }

  /** Formatting a number and parsing the text gives the number back. */
  lemma ParseFormat(n: nat)
    ensures Parse(Format(n)) == Some(n)
  {
    FormatLeadingDigit(n);
    ValueOfFormat(n);
  }

  lemma {:induction false} ValuePositive(s: string)
    requires |s| > 0 && AllDigits(s) && s[0] != '0'
    ensures Value(s) >= 1
  {
    if |s| > 1 {
      ValuePositive(s[..|s| - 1]);
    }
  }

  /** A canonical numeral is the one Format writes for its value, so two
      different canonical numerals never denote the same number. */
  lemma {:induction false} FormatParse(s: string)
    requires IsCanonical(s)
    ensures Format(Value(s)) == s
  {
    var p := s[..|s| - 1];
    if |s| == 1 {
      assert Format(Value(s)) == [DigitChar(DigitValue(s[0]))];
    } else {
      ValuePositive(p);
      FormatParse(p);
      var v := Value(s);
      assert v / 10 == Value(p) && v % 10 == DigitValue(s[|s| - 1]);
      assert s == p + [s[|s| - 1]];
    }
  }

  /** Parse succeeds exactly on the numerals Format can produce. */
  lemma ParseIsFormatInverse(s: string, n: nat)
    ensures Parse(s) == Some(n) <==> s == Format(n)
  {
    if Parse(s) == Some(n) {
      FormatParse(s);
    }
    if s == Format(n) {
      ParseFormat(n);
    }
  }
}
