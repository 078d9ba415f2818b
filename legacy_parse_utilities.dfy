/**
  `ParseUtilities.intToString` of the earlier route planner: distances are printed in
  decimal, except the "not reached" sentinel `Integer.MAX_VALUE`, which is printed as
  "-1" and so cannot be told apart from the value -1.
*/
module LegacyParseUtilities {
  import opened JavaTypes
  import opened Decimal
  import Graphs

  function IntToString(value: Int32): (r: string)
    ensures |r| > 0
  {
    if value == Graphs.MaxInt then "-1" else Text(value)
  }

  /** Every value but the sentinel reads back as itself; the sentinel reads back as -1. */
  lemma IntToStringParses(value: Int32)
    ensures ParseInt(IntToString(value)) == Some(if value == Graphs.MaxInt then -1 else value)
  {
    if value == Graphs.MaxInt {
      ParseText(-1);
    } else {
      ParseText(value);
    }
  }

  /** The sentinel and -1 print alike, so the printing is not injective. */
  lemma SentinelLooksLikeMinusOne()
    ensures IntToString(Graphs.MaxInt) == IntToString(-1)
  {
    assert Digits(1) == "1";
  }

  /** "-1" is printed for exactly two values. */
  lemma MinusOneFromTwo(value: Int32)
    ensures IntToString(value) == "-1" <==> value == Graphs.MaxInt || value == -1
  {
    SentinelLooksLikeMinusOne();
    if value != Graphs.MaxInt {
      TextInjective(value, -1);
    }
  }

  /** Apart from that pair, different values are printed differently. */
  lemma IntToStringInjectiveOtherwise(a: Int32, b: Int32)
    requires a != Graphs.MaxInt && b != Graphs.MaxInt
    ensures IntToString(a) == IntToString(b) <==> a == b
  {
    TextInjective(a, b);
  }
}
