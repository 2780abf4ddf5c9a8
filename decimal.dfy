/**
 * The firmware's decimal argument parser `stringtoint` (STM32code.c:32-48): the value of an
 * all-digit string, or -1 as soon as a character falls outside '0'..'9'.
 *
 * A C string is modelled by its characters before the terminating NUL.
 */
module Decimal {

  /** Size of the terminal's argument buffer (ARGBUF_SIZE). */
  const ArgumentCapacity: int := 3

  predicate IsDigit(c: char)
  {
    '0' <= c <= '9'
  }

  predicate AllDigits(s: string)
  {
    forall i :: 0 <= i < |s| ==> IsDigit(s[i])
  }

  function DigitValue(c: char): nat
    requires IsDigit(c)
  {
    (c as int) - ('0' as int)
  }

  /** Value of a digit string, most significant digit first; 0 for the empty string. */
  function Value(s: string): nat
    requires AllDigits(s)
  {
    if s == [] then 0 else 10 * Value(s[..|s| - 1]) + DigitValue(s[|s| - 1])
  }

  /** What `stringtoint` returns: the decimal value, or -1 to report a non-digit. */
  function StringToInt(s: string): int
  {
    if AllDigits(s) then Value(s) else -1
  }

  function Pow10(n: nat): nat
  {
    if n == 0 then 1 else 10 * Pow10(n - 1)
  }

  /** Shortest decimal spelling of `n`, used to state that the parser is onto the naturals. */
  function Spell(n: nat): string
  {
    if n < 10 then [(('0' as int) + n) as char]
    else Spell(n / 10) + [(('0' as int) + n % 10) as char]
  }

  /** The loop of `stringtoint`, left early on the first character outside '0'..'9'. */
  method ParseInt(s: string) returns (r: int)
    ensures r == StringToInt(s)
  {
    var total := 0;
    var i := 0;
    while i < |s|
      invariant 0 <= i <= |s|
      invariant AllDigits(s[..i]) && total == Value(s[..i])
    {
      var c := s[i];
      if c < '0' || c > '9' {
        assert !IsDigit(s[i]);
        return -1;
      }
      total := total * 10;
      total := total + ((c as int) - ('0' as int));
      assert s[..i + 1][..i] == s[..i];
      i := i + 1;
    }
    assert s[..i] == s;
    return total;
  }

  /** A non-negative result means a pure digit string and -1 means anything else. */
  lemma ResultMeaning(s: string)
    ensures StringToInt(s) >= 0 <==> AllDigits(s)
    ensures StringToInt(s) == -1 <==> !AllDigits(s)
    ensures s == [] ==> StringToInt(s) == 0
  {
  }

  /** A digit string of n characters stays below 10^n. */
  lemma {:induction false} ValueBound(s: string)
    requires AllDigits(s)
    ensures Value(s) < Pow10(|s|)
    decreases |s|
  {
    if s != [] {
      ValueBound(s[..|s| - 1]);
    }
  }

  /**
   * A digit string of at most 3 characters, the size of the argument buffer, parses to a
   * value in 0..999.
   */
  lemma ArgumentFits(s: string)
    requires AllDigits(s) && |s| <= ArgumentCapacity
    ensures 0 <= StringToInt(s) <= 999
  {
    ValueBound(s);
    assert Pow10(|s|) <= 1000 by {
      assert Pow10(0) == 1 && Pow10(1) == 10 && Pow10(2) == 100 && Pow10(3) == 1000;
    }
  }

  /** Every natural number has a spelling that the parser reads back. */
  lemma {:induction false} SpellRoundTrip(n: nat)
    ensures AllDigits(Spell(n))
    ensures StringToInt(Spell(n)) == n
    decreases n
  {
    if n >= 10 {
      SpellRoundTrip(n / 10);
      var t := Spell(n / 10);
      var d := (('0' as int) + n % 10) as char;
      assert Spell(n) == t + [d];
      assert (t + [d])[..|t|] == t;
      assert DigitValue(d) == n % 10;
      assert Value(t + [d]) == 10 * (n / 10) + n % 10;
    } else {
      var d := (('0' as int) + n) as char;
      assert Spell(n) == [d] && [d][..0] == [];
      assert DigitValue(d) == n;
      assert Value([d]) == 10 * Value([]) + DigitValue(d);
    }
  }
}
