/**
  Decimal text of integers, as Java writes it (`"" + value` for an `int`) and reads it
  back (`Integer.parseInt`, and the digit strings `Integer.parseUnsignedInt` is given).
  Only the ASCII digits '0'..'9' are modelled.
*/
module Decimal {
  import opened JavaTypes

  predicate IsDigit(c: char) {
    '0' <= c <= '9'
  }

  /** Every character of `s` is a digit. */
  predicate AllDigits(s: string) {
    forall i :: 0 <= i < |s| ==> IsDigit(s[i])
  }

  function DigitChar(d: int): (c: char)
    requires 0 <= d <= 9
    ensures IsDigit(c) && c as int - '0' as int == d
  {
    (d + '0' as int) as char
  }

  /** The digits of `n` without leading zeros. */
  function Digits(n: nat): (s: string)
    decreases n
    ensures |s| > 0 && AllDigits(s)
    ensures |s| > 1 ==> s[0] != '0'
  {
    if n < 10 then [DigitChar(n)] else Digits(n / 10) + [DigitChar(n % 10)]
  }

  /** The number a string of digits denotes (leading zeros allowed). */
  function ValueOf(s: string): (v: nat)
    requires AllDigits(s)
    decreases |s|
  {
    if |s| == 0 then 0 else 10 * ValueOf(s[..|s| - 1]) + (s[|s| - 1] as int - '0' as int)
  }

  /** Java's `"" + value` for an `int`. */
  function Text(v: int): (s: string) {
    if v < 0 then "-" + Digits(-v) else Digits(v)
  }

  /** Java's `Integer.parseInt`: an optional sign and at least one digit, whose value
      fits an `int`; anything else throws, here `None`. */
  function ParseInt(s: string): (r: Option<Int32>) {
    if |s| > 0 && (s[0] == '-' || s[0] == '+') then
      var t := s[1..];
      if |t| == 0 || !AllDigits(t) then None
      else
        var n: int := ValueOf(t);
        var v := if s[0] == '-' then -n else n;
        if -0x8000_0000 <= v < 0x8000_0000 then Some(v) else None
    else if |s| == 0 || !AllDigits(s) then None
    else
      var v := ValueOf(s);
      if v < 0x8000_0000 then Some(v) else None
  }

  /** The digits of `n` denote `n`. */
  lemma {:induction false} ValueOfDigits(n: nat)
    ensures ValueOf(Digits(n)) == n
    decreases n
  {
    if n >= 10 {
      var s := Digits(n);
      assert s[..|s| - 1] == Digits(n / 10);
      ValueOfDigits(n / 10);
    }
  }

  /** Reading back what Java writes for an `int` gives that `int`. */
  lemma ParseText(v: Int32)
    ensures ParseInt(Text(v)) == Some(v)
  {
    if v < 0 {
      var n: nat := -(v as int);
      assert Text(v)[1..] == Digits(n);
      ValueOfDigits(n);
    } else {
      ValueOfDigits(v);
    }
  }

  /** Different numbers are written differently. */
  lemma TextInjective(a: Int32, b: Int32)
    ensures Text(a) == Text(b) <==> a == b
  {
    if Text(a) == Text(b) {
      ParseText(a);
      ParseText(b);
    }
  }

  /** The text of an `int` is a minus sign, if any, followed by digits. */
  lemma TextShape(v: int)
    ensures |Text(v)| > 0
    ensures forall i :: 0 <= i < |Text(v)| ==> IsDigit(Text(v)[i]) || (i == 0 && Text(v)[i] == '-')
  {
  }
}
