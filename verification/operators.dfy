/** The comparison operators of Operator.java, each carrying one bit so that
    sets of operators can be formed with bitwise OR. */
module Operators {

  datatype Operator = EQ | GTE | GT | LTE | LT

  /** getValue: the bit the operator was constructed with (1, 2, 4, 8, 16). */
  function Bit(op: Operator): (v: bv32)
    ensures v != 0 && v & (v - 1) == 0
    ensures v < 32
  {
    match op
    case EQ => 1
    case GTE => 2
    case GT => 4
    case LTE => 8
    case LT => 16
  }

  /** The documented meaning of each operator (==, >=, >, <=, <), applied to
      the sign of a comparison between a column and a value. */
  predicate Holds(op: Operator, diff: int) {
    match op
    case EQ => diff == 0
    case GTE => diff >= 0
    case GT => diff > 0
    case LTE => diff <= 0
    case LT => diff < 0
  }

  /** Two operators share a bit only when they are the same operator. */
  lemma DistinctBits(a: Operator, b: Operator)
    ensures a != b <==> Bit(a) & Bit(b) == 0
  {
  }
}
