/** The part of a C# `float` (IEEE 754 binary32) that the correlation pass
    observes: which value it is, and how the ordered `<` compares it. */
module Floats {

  /** A 32-bit float. Finite values are carried as reals; the rounding of the
      arithmetic that produced them is not modelled, only the value itself. */
  datatype Float32 = Finite(value: real) | PositiveInfinity | NegativeInfinity | NaN

  /** The C# `<` on floats: false whenever either side is NaN, otherwise the
      order of the extended reals. */
  predicate Less(x: Float32, y: Float32)
    ensures x.NaN? || y.NaN? ==> !Less(x, y)
    ensures x.Finite? && y.Finite? ==> (Less(x, y) <==> x.value < y.value)
    ensures x.NegativeInfinity? && y.Finite? ==> Less(x, y)
    ensures x.PositiveInfinity? ==> !Less(x, y)
  {
    match (x, y)
    case (NaN, _) => false
    case (_, NaN) => false
    case (PositiveInfinity, _) => false
    case (NegativeInfinity, NegativeInfinity) => false
    case (NegativeInfinity, _) => true
    case (Finite(_), NegativeInfinity) => false
    case (Finite(_), PositiveInfinity) => true
    case (Finite(a), Finite(b)) => a < b
  }

  /** The float comparison is a strict order on the non-NaN values, and NaN
      is unordered against everything, itself included. */
  lemma LessIsStrictAndNaNUnordered(x: Float32, y: Float32, z: Float32)
    ensures !Less(x, x)
    ensures Less(x, y) ==> !Less(y, x)
    ensures Less(x, y) && Less(y, z) ==> Less(x, z)
    ensures !Less(NaN, y) && !Less(y, NaN)
  {
  }
}
