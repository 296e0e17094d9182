/**
 * Decimal text of a Java `long`: `Long.parseLong(s)` and `Long.toString(n)`,
 * as the key derivation and the id recovery use them.
 */
module JavaLong {
  import opened Wrappers
  import opened Entity

  predicate IsDigit(c: char) { '0' <= c <= '9' }

  predicate AllDigits(s: string) { forall i :: 0 <= i < |s| ==> IsDigit(s[i]) }

  function DigitValue(c: char): (d: nat)
    requires IsDigit(c)
    ensures d < 10
  {
    (c as int) - ('0' as int)
  }

  function DigitChar(d: nat): (c: char)
    requires d < 10
    ensures IsDigit(c) && DigitValue(c) == d
  {
    (('0' as int) + d) as char
  }

  /** The value of a run of decimal digits, most significant digit first. */
  function DigitsValue(s: string): nat
    requires AllDigits(s)
  {
    if s == [] then 0 else DigitsValue(s[..|s| - 1]) * 10 + DigitValue(s[|s| - 1])
  }

  /**
   * `Long.parseLong(s)`: an optional `-` or `+`, then one or more decimal
   * digits (leading zeros allowed) whose signed value fits in a `long`.
   * Anything else is a `NumberFormatException`, here `None`.
   */
  function ParseLong(s: string): (r: Option<Long>)
    ensures s == [] ==> r == None
    ensures r.Some? ==> IsDigit(s[0]) || s[0] == '-' || s[0] == '+'
    ensures r.Some? ==> IsDigit(s[|s| - 1])
    ensures r.Some? && r.value < 0 ==> s[0] == '-'
    ensures r.Some? ==> forall i :: 0 < i < |s| ==> IsDigit(s[i])
  {
    if s == [] then None
    else
      var negative := s[0] == '-';
      var digits := if s[0] == '-' || s[0] == '+' then s[1..] else s;
      if digits == [] || !AllDigits(digits) then None
      else
        var magnitude: int := DigitsValue(digits);
        var v := if negative then -magnitude else magnitude;
        if MinLong <= v <= MaxLong then Some(v) else None
  }

  /**
   * Every well-formed text is read: an optional `-` or `+` followed by one or
   * more digits gives the signed value of the digits when it fits in a long,
   * and a `NumberFormatException` when it does not.
   */
  lemma ParseLongAccepts(sign: string, digits: string)
    requires sign == "" || sign == "-" || sign == "+"
    requires digits != [] && AllDigits(digits)
    ensures var v := if sign == "-" then -(DigitsValue(digits) as int) else DigitsValue(digits);
      ParseLong(sign + digits) == if MinLong <= v <= MaxLong then Some(v) else None
  {
    var s := sign + digits;
    if sign == "" {
      assert s == digits;
    } else {
      assert s[0] == sign[0] && s[1..] == digits;
    }
  }

  /** The digits of a natural number, without leading zeros. */
  function NatToString(n: nat): (s: string)
    ensures s != [] && AllDigits(s)
    ensures DigitsValue(s) == n
    ensures |s| > 1 ==> s[0] != '0'
  {
    if n < 10 then [DigitChar(n)]
    else
      var prefix := NatToString(n / 10);
      var s := prefix + [DigitChar(n % 10)];
      assert s[..|s| - 1] == prefix;
      s
  }

  /** `Long.toString(n)`: a `-` for a negative value, then the digits of its magnitude. */
  function LongToString(n: Long): (s: string)
    ensures s != [] && IsDigit(s[|s| - 1])
    ensures s[0] == '-' <==> n < 0
    ensures forall i :: 0 <= i < |s| ==> IsDigit(s[i]) || (i == 0 && s[i] == '-')
  {
    if n < 0 then "-" + NatToString(-(n as int)) else NatToString(n)
  }

  /** `Long.parseLong` reads back every `Long.toString` exactly. */
  lemma ParseLongToString(n: Long)
    ensures ParseLong(LongToString(n)) == Some(n)
  {
    var s := LongToString(n);
    if n < 0 {
      assert s[1..] == NatToString(-(n as int));
    } else {
      assert s == NatToString(n);
      assert IsDigit(s[0]);
    }
  }

  /** Distinct longs have distinct decimal texts. */
  lemma LongToStringInjective(m: Long, n: Long)
    requires LongToString(m) == LongToString(n)
    ensures m == n
  {
    ParseLongToString(m);
    ParseLongToString(n);
  }
}
