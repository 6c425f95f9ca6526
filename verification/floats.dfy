/** The float64 values that strconv.ParseFloat can hand to the amount check.
    A finite value is kept as the exact decimal it was parsed from, not its
    nearest binary64 neighbour; infinities and NaN are kept as IEEE 754 has
    them, because the range check in `Transfer.validate` treats them apart. */
module Floats {

  datatype Float = Finite(value: real) | Infinity(negative: bool) | NaN

  /** IEEE 754 `a < b` (Go's `<` on float64): every comparison with NaN is false. */
  predicate Less(a: Float, b: Float)
  {
    match (a, b)
    case (Finite(x), Finite(y)) => x < y
    case (Infinity(na), Infinity(nb)) => na && !nb
    case (Infinity(na), Finite(_)) => na
    case (Finite(_), Infinity(nb)) => !nb
    case _ => false
  }

  /** IEEE 754 `a <= b`: the ordering of the extended reals, false with NaN. */
  predicate LessEq(a: Float, b: Float)
  {
    match (a, b)
    case (Finite(x), Finite(y)) => x <= y
    case (Infinity(na), Infinity(nb)) => na || !nb
    case (Infinity(na), Finite(_)) => na
    case (Finite(_), Infinity(nb)) => !nb
    case _ => false
  }
}
