/**
  `ParseUtilities.intToString` of the current route planner: distances are printed in
  decimal, except the "not reached" sentinel `Integer.MAX_VALUE`, which is printed as
  the infinity sign.
*/
module ParseUtilities {
  import opened JavaTypes
  import opened Decimal
  import Graphs

  /** The infinity sign, U+221E. */
  const Infinity: string := "\U{221E}"

  function IntToString(value: Int32): (r: string)
    ensures |r| > 0
    ensures r == Infinity <==> value == Graphs.MaxInt
  {
    if value == Graphs.MaxInt then Infinity else Text(value)
  }

  /** Every other value is printed as its decimal text. */
  lemma IntToStringDecimal(value: Int32)
    requires value != Graphs.MaxInt
    ensures ParseInt(IntToString(value)) == Some(value)
  {
    ParseText(value);
  }

  /** Different values are printed differently. */
  lemma IntToStringInjective(a: Int32, b: Int32)
    ensures IntToString(a) == IntToString(b) <==> a == b
  {
    if a != Graphs.MaxInt && b != Graphs.MaxInt {
      TextInjective(a, b);
    } else if a != Graphs.MaxInt {
      TextShape(a);
      assert Text(a)[0] != Infinity[0];
    } else if b != Graphs.MaxInt {
      TextShape(b);
      assert Text(b)[0] != Infinity[0];
    }
  }
}
