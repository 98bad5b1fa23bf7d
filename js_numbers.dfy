/**
 * The part of JavaScript's number type the chart touches: the integers a CSV
 * cell can spell, the two infinities and NaN, and the `<` comparison.
 */
module JsNumbers {

  /** A JavaScript number value, restricted to the integral ones plus the non-finite ones. */
  datatype JsNumber = NaN | Finite(n: int) | PositiveInfinity | NegativeInfinity

  /**
   * The smallest magnitude that a correctly rounded decimal-to-double conversion
   * turns into an infinity: 2^1024 - 2^970, halfway between the largest finite
   * double (2^1024 - 2^971) and 2^1024, a tie that rounds to the even 2^1024.
   */
  const OverflowThreshold: int := 0xffff_ffff_ffff_fc00_0000_0000_0000_0000_0000_0000_0000_0000_0000_0000_0000_0000_0000_0000_0000_0000_0000_0000_0000_0000_0000_0000_0000_0000_0000_0000_0000_0000_0000_0000_0000_0000_0000_0000_0000_0000_0000_0000_0000_0000_0000_0000_0000_0000_0000_0000_0000_0000_0000_0000_0000_0000_0000_0000_0000_0000_0000_0000_0000_0000

  /** The number an exact integer denotes once converted to a double's range. */
  function Rounded(v: int): (r: JsNumber)
    ensures r.Finite? <==> -OverflowThreshold < v < OverflowThreshold
    ensures r.Finite? ==> r.n == v
    ensures v >= OverflowThreshold ==> r == PositiveInfinity
    ensures v <= -OverflowThreshold ==> r == NegativeInfinity
    ensures !r.NaN?
  {
    if v >= OverflowThreshold then PositiveInfinity
    else if v <= -OverflowThreshold then NegativeInfinity
    else Finite(v)
  }

  /** `Number.isFinite(x)` on a number: true of a finite number, false of NaN and of both infinities. */
  predicate IsFinite(x: JsNumber)
    ensures x.NaN? || x.PositiveInfinity? || x.NegativeInfinity? ==> !IsFinite(x)
    ensures x.Finite? ==> IsFinite(x)
  {
    x.Finite?
  }

  /** JavaScript's unary `-x`. */
  function Negate(x: JsNumber): JsNumber {
    match x
    case NaN => NaN
    case Finite(n) => Finite(-n)
    case PositiveInfinity => NegativeInfinity
    case NegativeInfinity => PositiveInfinity
  }

  /** Conversion to a double's range is symmetric: a sign can be applied before or after. */
  lemma RoundedOfNegation(v: int)
    ensures Rounded(-v) == Negate(Rounded(v))
  {
  }

  /**
   * JavaScript's `x < y` on two numbers: false whenever NaN takes part,
   * integer order between finite numbers, every finite number below
   * `Infinity` and nothing above it.
   */
  predicate LessThan(x: JsNumber, y: JsNumber)
    ensures x.NaN? || y.NaN? ==> !LessThan(x, y)
    ensures x.Finite? && y.Finite? ==> (LessThan(x, y) <==> x.n < y.n)
    ensures x.Finite? && y.PositiveInfinity? ==> LessThan(x, y)
    ensures x.PositiveInfinity? ==> !LessThan(x, y)
  {
    match (x, y)
    case (NaN, _) => false
    case (_, NaN) => false
    case (Finite(a), Finite(b)) => a < b
    case (NegativeInfinity, _) => !y.NegativeInfinity?
    case (_, PositiveInfinity) => !x.PositiveInfinity?
    case (_, _) => false
  }

  /** `<` is a strict order: irreflexive, asymmetric and transitive. */
  lemma LessThanIsStrictOrder(x: JsNumber, y: JsNumber, z: JsNumber)
    ensures !LessThan(x, x)
    ensures LessThan(x, y) ==> !LessThan(y, x)
    ensures LessThan(x, y) && LessThan(y, z) ==> LessThan(x, z)
  {
  }
}
