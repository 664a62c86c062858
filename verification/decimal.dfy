/**
 * The field decoders of the sentence parser (gps/gps.c, str2int and
 * str2float): a strict decimal decoder that answers -1 for any span that is
 * not all digits, and the length guard in front of the C library's
 * text-to-double conversion, which is a parameter of the model.
 */
module Decimal {

  predicate IsDigit(c: char) {
    '0' <= c <= '9'
  }

  predicate AllDigits(s: seq<char>) {
    forall i :: 0 <= i < |s| ==> IsDigit(s[i])
  }

  function DigitValue(c: char): nat
    requires IsDigit(c)
  {
    c as int - '0' as int
  }

  /** The value of a run of decimal digits, most significant digit first. */
  function DigitsValue(s: seq<char>): nat
    requires AllDigits(s)
  {
    if s == [] then 0 else 10 * DigitsValue(s[..|s| - 1]) + DigitValue(s[|s| - 1])
  }

  /** The answer of str2int on a span: its value when it is all digits, -1 otherwise. */
  function IntValue(s: seq<char>): int {
    if AllDigits(s) then DigitsValue(s) else -1
  }

  /**
   * str2int: an accumulator loop over the span that gives up with -1 at the
   * first character that is not a decimal digit. The empty span is 0.
   */
  method Str2Int(s: seq<char>) returns (r: int)
    ensures AllDigits(s) ==> r == DigitsValue(s)
    ensures !AllDigits(s) ==> r == -1
    ensures r == IntValue(s)
  {
    r := 0;
    var i := 0;
    while i < |s|
      invariant 0 <= i <= |s|
      invariant AllDigits(s[..i])
      invariant r == DigitsValue(s[..i])
    {
      if !IsDigit(s[i]) {
        return -1;
      }
      assert s[..i + 1][..i] == s[..i];
      r := r * 10 + DigitValue(s[i]);
      i := i + 1;
    }
    assert s[..i] == s;
  }

  /** A decimal value is -1 exactly when some character is not a digit; otherwise it is never negative. */
  lemma IntValueSentinel(s: seq<char>)
    ensures IntValue(s) == -1 <==> exists i :: 0 <= i < |s| && !IsDigit(s[i])
    ensures IntValue(s) >= -1
    ensures s == [] ==> IntValue(s) == 0
  {
  }

  /** Leading zeros do not change the value of a run of digits. */
  lemma {:induction false} LeadingZeros(z: seq<char>, s: seq<char>)
    requires forall i :: 0 <= i < |z| ==> z[i] == '0'
    requires AllDigits(s)
    ensures AllDigits(z + s) && DigitsValue(z + s) == DigitsValue(s)
    decreases |s|
  {
    if s == [] {
      assert z + s == z;
      AllZeros(z);
    } else {
      var t := s[..|s| - 1];
      assert (z + s)[..|z + s| - 1] == z + t;
      LeadingZeros(z, t);
    }
  }

  lemma {:induction false} AllZeros(z: seq<char>)
    requires forall i :: 0 <= i < |z| ==> z[i] == '0'
    ensures AllDigits(z) && DigitsValue(z) == 0
    decreases |z|
  {
    if z != [] {
      AllZeros(z[..|z| - 1]);
    }
  }

  /** The C cast of a double to int: truncation toward zero. */
  function Trunc(x: real): int {
    if x >= 0.0 then x.Floor else -((-x).Floor)
  }

  /**
   * str2float: a span of 16 characters or more does not fit the 16-byte
   * scratch buffer and decodes as 0.0; a shorter one is handed to the C
   * library's conversion, given here as `strtod`.
   */
  function Str2Float(strtod: seq<char> -> real, s: seq<char>): (r: real)
    ensures |s| >= 16 ==> r == 0.0
    ensures |s| < 16 ==> r == strtod(s)
  {
    if |s| >= 16 then 0.0 else strtod(s)
  }
}
