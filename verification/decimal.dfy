/** Decimal rendering of whole numbers, as JavaScript's `Number.prototype.toString()`
    produces it for an integral value below 1e21 in magnitude (from 1e21 on,
    JavaScript switches to exponent form, which is not modelled): base ten, no
    leading zeros, "0" for zero and a leading '-' for a negative value. `Value` reads a digit string back, and the two
    lemmas at the end show that `Show` and `Value` are mutually inverse on canonical
    strings. */
module Decimal {

  predicate IsDigit(c: char) {
    '0' <= c <= '9'
  }

  predicate AllDigits(s: string) {
    forall i :: 0 <= i < |s| ==> IsDigit(s[i])
  }

  /** A digit string as `toString()` writes it: at least one digit, and no leading
      zero unless the whole string is "0". */
  predicate Canonical(s: string) {
    && |s| >= 1
    && AllDigits(s)
    && (s[0] == '0' ==> |s| == 1)
  }

  function DigitValue(c: char): (d: nat)
    requires IsDigit(c)
    ensures d < 10
  {
    c as int - '0' as int
  }

  function DigitChar(d: nat): (c: char)
    requires d < 10
    ensures IsDigit(c)
    ensures DigitValue(c) == d
    ensures d == 0 <==> c == '0'
  {
    ('0' as int + d) as char
  }

  lemma DigitCharOfValue(c: char)
    requires IsDigit(c)
    ensures DigitChar(DigitValue(c)) == c
  {
  }

  /** The number a digit string denotes, most significant digit first. */
  function Value(s: string): nat
    requires AllDigits(s)
  {
    if s == [] then 0 else Value(s[..|s| - 1]) * 10 + DigitValue(s[|s| - 1])
  }

  /** `n.toString()` for a non-negative integer `n`. */
  function Show(n: nat): (s: string)
    ensures Canonical(s)
    ensures |s| == 1 <==> n < 10
    decreases n
  {
    if n < 10 then [DigitChar(n)] else Show(n / 10) + [DigitChar(n % 10)]
  }

  /** `i.toString()` for any integer `i`. */
  function ShowInt(i: int): (s: string)
    ensures |s| >= 1
    ensures i >= 0 ==> Canonical(s) && Value(s) == i
    ensures i < 0 ==> s[0] == '-' && Canonical(s[1..]) && Value(s[1..]) == -i
  {
    if i < 0 then
      ValueOfShow(-i);
      assert ("-" + Show(-i))[1..] == Show(-i);
      "-" + Show(-i)
    else
      ValueOfShow(i);
      Show(i)
  }

  lemma {:induction false} ValueOfShow(n: nat)
    ensures Value(Show(n)) == n
    decreases n
  {
    if n < 10 {
    } else {
      var s := Show(n);
      assert s[..|s| - 1] == Show(n / 10);
      ValueOfShow(n / 10);
    }
  }

  /** A canonical string of two or more digits denotes at least ten. */
  lemma {:induction false} ValueOfLongCanonical(s: string)
    requires Canonical(s) && |s| >= 2
    ensures Value(s) >= 10
  {
    var p := s[..|s| - 1];
    assert p[0] == s[0];
    PositiveLeadingDigit(p);
  }

  lemma {:induction false} PositiveLeadingDigit(s: string)
    requires |s| >= 1 && AllDigits(s) && s[0] != '0'
    ensures Value(s) >= 1
    decreases |s|
  {
    if |s| > 1 {
      var p := s[..|s| - 1];
      assert p[0] == s[0];
      PositiveLeadingDigit(p);
    }
  }

  lemma {:induction false} ShowOfValue(s: string)
    requires Canonical(s)
    ensures Show(Value(s)) == s
    decreases |s|
  {
    if |s| == 1 {
      assert s[..0] == [];
      DigitCharOfValue(s[0]);
      assert s == [s[0]];
    } else {
      var p := s[..|s| - 1];
      assert p[0] == s[0];
      ValueOfLongCanonical(s);
      ShowOfValue(p);
      DigitCharOfValue(s[|s| - 1]);
      assert s == p + [s[|s| - 1]];
    }
  }

  /** Two canonical strings denote the same number only when they are equal. */
  lemma ValueInjective(s: string, t: string)
    requires Canonical(s) && Canonical(t)
    ensures Value(s) == Value(t) <==> s == t
  {
    if Value(s) == Value(t) {
      ShowOfValue(s);
      ShowOfValue(t);
    }
  }
}
