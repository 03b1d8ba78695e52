/** The three-way comparison the JDK and Guava share: `Double.compare`,
    `Integer.compare` and `ComparisonChain.compare` all answer -1, 0 or 1
    according to the order of their arguments. */
module Comparison {

  /** `Double.compare` on ordinary values (no NaN, no negative zero). */
  function CompareReal(x: real, y: real): (c: int)
    ensures c == -1 <==> x < y
    ensures c == 0 <==> x == y
    ensures c == 1 <==> x > y
  {
    if x < y then -1 else if x > y then 1 else 0
  }

  /** `Integer.compare` (and `Ints.compare`): integers compare as the reals
      they denote. */
  function CompareInt(x: int, y: int): (c: int)
    ensures c == -1 <==> x < y
    ensures c == 0 <==> x == y
    ensures c == 1 <==> x > y
  {
    CompareReal(x as real, y as real)
  }
}
