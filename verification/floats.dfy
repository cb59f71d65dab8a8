/** Go's `float64` values as the request code meets them: a finite value,
    held exactly, NaN, or an infinity. Comparisons follow IEEE 754: every
    comparison with NaN is false, and an infinity lies beyond every finite
    value. */
module Floats {

  datatype Float = Finite(value: real) | NaN | Inf(negative: bool)

  /** f < x. */
  predicate Less(f: Float, x: real) {
    match f
    case Finite(v) => v < x
    case NaN => false
    case Inf(negative) => negative
  }

  /** f > x. */
  predicate Greater(f: Float, x: real) {
    match f
    case Finite(v) => v > x
    case NaN => false
    case Inf(negative) => !negative
  }

  /** f >= x. */
  predicate AtLeast(f: Float, x: real) {
    match f
    case Finite(v) => v >= x
    case NaN => false
    case Inf(negative) => !negative
  }

  /** f <= x. */
  predicate AtMost(f: Float, x: real) {
    match f
    case Finite(v) => v <= x
    case NaN => false
    case Inf(negative) => negative
  }

  /** Neither below lo nor above hi: NaN, or a finite value from lo to hi. */
  predicate NotOutside(f: Float, lo: real, hi: real) {
    f.NaN? || (f.Finite? && lo <= f.value <= hi)
  }

  /** The range test `f < lo || f > hi` fails exactly for NaN and for the
      finite values from lo to hi. */
  lemma OutsideMeaning(f: Float, lo: real, hi: real)
    ensures !(Less(f, lo) || Greater(f, hi)) <==> NotOutside(f, lo, hi)
  {
    match f
    case Finite(v) =>
    case NaN =>
    case Inf(negative) =>
  }

  /** x * f for a finite x: zero times an infinity is NaN. */
  function Times(x: real, f: Float): Float {
    match f
    case Finite(v) => Finite(x * v)
    case NaN => NaN
    case Inf(negative) => if x == 0.0 then NaN else Inf(negative != (x < 0.0))
  }

  /** f / d for a finite, non-zero d. */
  function Over(f: Float, d: real): Float
    requires d != 0.0
  {
    match f
    case Finite(v) => Finite(v / d)
    case NaN => NaN
    case Inf(negative) => Inf(negative != (d < 0.0))
  }

  /** Dividing by a positive d and multiplying back by d gives f again. */
  lemma OverTimes(f: Float, d: real)
    requires d > 0.0
    ensures Times(d, Over(f, d)) == f
  {
    match f
    case Finite(v) =>
      assert d * (v / d) == v;
    case NaN =>
    case Inf(negative) =>
  }
}
