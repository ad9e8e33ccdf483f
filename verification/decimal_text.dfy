/**
 * Decimal rendering of integers, as JavaScript's `Number.prototype.toString()`
 * renders an integral id, and its inverse.
 *
 * The reservation handler compares `p.id.toString()` with the requested package
 * reference by strict string equality; the lemmas here show that this comparison
 * identifies at most one id (the rendering is injective).
 */
module DecimalText {
  import opened Wrappers

  predicate IsDigit(c: char) {
    '0' <= c <= '9'
  }

  function DigitChar(d: nat): (c: char)
    requires d < 10
    ensures IsDigit(c) && c as int - '0' as int == d
  {
    ('0' as int + d) as char
  }

  function DigitValue(c: char): (d: nat)
    requires IsDigit(c)
    ensures d < 10 && DigitChar(d) == c
  {
    c as int - '0' as int
  }

  predicate AllDigits(s: string) {
    forall i :: 0 <= i < |s| ==> IsDigit(s[i])
  }

  /** A non-empty digit string without a leading zero (except "0" itself). */
  predicate Canonical(s: string) {
    |s| >= 1 && AllDigits(s) && (|s| > 1 ==> s[0] != '0')
  }

  /** The digits of a natural number, most significant first. */
  function Digits(n: nat): (s: string)
    ensures Canonical(s)
    ensures s[0] == '0' <==> n == 0
    decreases n
  {
    if n < 10 then [DigitChar(n)] else Digits(n / 10) + [DigitChar(n % 10)]
  }

  /**
   * The integer `n` as `toString()` writes it: an optional '-' then canonical
   * digits. This agrees with JavaScript for magnitudes below 10^21, where it
   * switches to exponent notation; ids are 32-bit, far below that. Parsing
   * the rendering gives `n` back.
   */
  function Render(n: int): (s: string)
    ensures |s| >= 1
    ensures Parse(s) == Some(n)
  {
    if n < 0 then
      ValueOfDigits(-n);
      NegativeRendering(Digits(-n));
      "-" + Digits(-n)
    else
      ParseDigits(n);
      Digits(n)
  }

  /** The number a digit string denotes (Horner's rule from the right end). */
  function Value(s: string): nat
    requires AllDigits(s)
    decreases |s|
  {
    if s == [] then 0 else Value(s[..|s| - 1]) * 10 + DigitValue(s[|s| - 1])
  }

  /** The integer whose rendering is `s`, if there is one. */
  function Parse(s: string): Option<int> {
    if |s| >= 2 && s[0] == '-' && Canonical(s[1..]) && s[1] != '0' then Some(0 - Value(s[1..]) as int)
    else if Canonical(s) then Some(Value(s))
    else None
  }

  lemma {:induction false} ValueOfDigits(n: nat)
    ensures Value(Digits(n)) == n
    decreases n
  {
    if n >= 10 {
      var s := Digits(n);
      ValueOfDigits(n / 10);
      assert s[..|s| - 1] == Digits(n / 10);
    }
  }

  /** A canonical digit string with at least two digits denotes at least 10. */
  lemma {:induction false} ValueOfLeadingNonZero(s: string)
    requires AllDigits(s) && |s| >= 1 && s[0] != '0'
    ensures Value(s) >= 1
    ensures |s| >= 2 ==> Value(s) >= 10
    decreases |s|
  {
    if |s| >= 2 {
      var p := s[..|s| - 1];
      assert p[0] == s[0];
      ValueOfLeadingNonZero(p);
    }
  }

  lemma {:induction false} DigitsOfValue(s: string)
    requires Canonical(s)
    ensures Digits(Value(s)) == s
    decreases |s|
  {
    if |s| >= 2 {
      var p := s[..|s| - 1];
      assert p[0] == s[0];
      ValueOfLeadingNonZero(s);
      ValueOfLeadingNonZero(p);
      DigitsOfValue(p);
      var n := Value(s);
      assert n / 10 == Value(p) && n % 10 == DigitValue(s[|s| - 1]);
      assert s == p + [s[|s| - 1]];
    }
  }

  /** The digits of a natural number parse back to it. */
  lemma ParseDigits(n: nat)
    ensures Parse(Digits(n)) == Some(n)
  {
    var s := Digits(n);
    ValueOfDigits(n);
    assert s[0] != '-' by {
      assert IsDigit(s[0]);
    }
  }

  /** A '-' in front of the canonical digits of a positive number parses as the negated number. */
  lemma NegativeRendering(d: string)
    requires Canonical(d) && d[0] != '0'
    ensures Parse("-" + d) == Some(0 - Value(d) as int)
  {
    assert ("-" + d)[1..] == d;
  }

  /** Rendering undoes parsing: `Parse` accepts exactly the renderings of integers. */
  lemma RenderParse(s: string, n: int)
    requires Parse(s) == Some(n)
    ensures Render(n) == s
  {
    if |s| >= 2 && s[0] == '-' && Canonical(s[1..]) && s[1] != '0' {
      ValueOfLeadingNonZero(s[1..]);
      DigitsOfValue(s[1..]);
      assert s == "-" + s[1..];
    } else {
      DigitsOfValue(s);
    }
  }

  /** Two ids with the same rendering are the same id. */
  lemma RenderInjective(a: int, b: int)
    requires Render(a) == Render(b)
    ensures a == b
  {
  }
}
