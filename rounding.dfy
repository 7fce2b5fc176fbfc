/** Real-number helpers for the floating-point comparisons and roundings of
    the source, computed exactly. */
module Rounding {

  function RealAbs(x: real): (r: real)
    ensures r >= 0.0 && (r == x || r == -x)
  {
    if x < 0.0 then -x else x
  }

  /** Rust's `f64::round`: to the nearest integer, halves away from zero. */
  function RoundHalfAway(x: real): (r: int)
    ensures RealAbs(x - r as real) <= 0.5
    ensures RealAbs(x - r as real) == 0.5 ==> RealAbs(r as real) > RealAbs(x)
  {
    if x >= 0.0 then (x + 0.5).Floor else -((0.5 - x).Floor)
  }

  /** Rounding leaves integers where they are. */
  lemma RoundIntegerIsIdentity(n: int)
    ensures RoundHalfAway(n as real) == n
  {
  }
}
