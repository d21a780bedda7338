/**
 * Decimal text of Java `long` values: `Long.toString` and `Long.parseLong`,
 * which JobStatistics uses to store and read counters of type long.
 */
module Decimal {
  import opened Wrappers

  const LONG_MIN: int := -0x8000_0000_0000_0000
  const LONG_MAX: int := 0x7FFF_FFFF_FFFF_FFFF

  /** Java's 64-bit `long`. */
  type Long = x: int | LONG_MIN <= x <= LONG_MAX

  predicate IsDigit(c: char) { '0' <= c <= '9' }

  predicate AllDigits(s: string) { forall i :: 0 <= i < |s| ==> IsDigit(s[i]) }

  function DigitValue(c: char): nat
    requires IsDigit(c)
  {
    c as int - '0' as int
  }

  function DigitChar(d: nat): (c: char)
    requires d < 10
    ensures IsDigit(c) && DigitValue(c) == d
  {
    ('0' as int + d) as char
  }

  /** The number a string of decimal digits denotes, most significant digit first. */
  function DigitsValue(s: string): nat
    requires AllDigits(s)
    decreases |s|
  {
    if s == [] then 0 else DigitsValue(s[..|s| - 1]) * 10 + DigitValue(s[|s| - 1])
  }

  /** Decimal text of a natural number: digits only, no leading zero except for 0 itself. */
  function NaturalToString(n: nat): (s: string)
    ensures 1 <= |s| && AllDigits(s)
    ensures s[0] == '0' ==> s == "0"
  {
    if n < 10 then [DigitChar(n)] else NaturalToString(n / 10) + [DigitChar(n % 10)]
  }

  /** `Long.toString(v)`: a minus sign for negative values, then the digits of |v|. */
  function LongToString(v: Long): (s: string)
    ensures 1 <= |s|
    ensures s[0] == '-' <==> v < 0
    ensures IsDigit(s[|s| - 1])
  {
    if v < 0 then "-" + NaturalToString(-(v as int)) else NaturalToString(v)
  }

  /**
   * `Long.parseLong(s)`: an optional sign, then one or more decimal digits whose value
   * must fit in a long. None stands for the NumberFormatException thrown otherwise.
   */
  function ParseLong(s: string): (r: Option<Long>)
    ensures r.Some? ==> s != [] && IsDigit(s[|s| - 1])
    ensures r.Some? && r.value < 0 ==> s[0] == '-'
  {
    if s == [] then None
    else
      var digits := if s[0] == '-' || s[0] == '+' then s[1..] else s;
      if digits == [] || !AllDigits(digits) then None
      else
        var magnitude := DigitsValue(digits);
        var v: int := if s[0] == '-' then -(magnitude as int) else magnitude;
        if LONG_MIN <= v <= LONG_MAX then Some(v) else None
  }

  /**
   * Unsigned digit text parses to the number it denotes when that fits in a long, and
   * any text that parses is digits after at most one leading sign.
   */
  lemma ParseLongOfDigits(s: string)
    ensures s != [] && AllDigits(s) ==>
              ParseLong(s) == if DigitsValue(s) <= LONG_MAX then Some(DigitsValue(s)) else None
    ensures ParseLong(s).Some? ==> AllDigits(if s[0] == '-' || s[0] == '+' then s[1..] else s)
  {
  }

  /** Reading back the decimal text of n gives n. */
  lemma {:induction false} DigitsValueOfNaturalToString(n: nat)
    ensures DigitsValue(NaturalToString(n)) == n
  {
    if n >= 10 {
      var s := NaturalToString(n);
      assert s[..|s| - 1] == NaturalToString(n / 10);
      DigitsValueOfNaturalToString(n / 10);
    }
  }

  /** `Long.parseLong(Long.toString(v)) == v` for every long v. */
  lemma ParseLongOfLongToString(v: Long)
    ensures ParseLong(LongToString(v)) == Some(v)
  {
    var s := LongToString(v);
    if v < 0 {
      var d := NaturalToString(-(v as int));
      assert s == "-" + d && s[0] == '-' && s[1..] == d;
      DigitsValueOfNaturalToString(-(v as int));
      assert d != [] && AllDigits(d) && DigitsValue(d) == -(v as int);
    } else {
      assert s == NaturalToString(v);
      DigitsValueOfNaturalToString(v);
      assert IsDigit(s[0]) && s[0] != '-' && s[0] != '+';
      assert AllDigits(s) && DigitsValue(s) == v;
    }
  }

  /** Text that is not a decimal number (here, a missing digit after the sign) is rejected. */
  lemma ParseLongRejectsLoneSign()
    ensures ParseLong("-") == None && ParseLong("+") == None && ParseLong("") == None
  {
  }
}
