/** The generic predicates of package `asserts`. Go instantiates
    `AssertInBetween` at float64 in `Transfer.validate` and at int in its
    tests; the model states it once over `Float`, into which every integer
    embeds exactly. */
module Asserts {
  import opened Floats

  newtype byte = b: int | 0 <= b < 256

  /** Inclusive range check written as Go writes it: false when
      `left > value` or `right < value`. With ordered operands that is
      `left <= value <= right`; a NaN value makes both comparisons false,
      so NaN is always "in between". */
  function AssertInBetween(left: Float, right: Float, value: Float): (r: bool)
    ensures !left.NaN? && !right.NaN? && !value.NaN? ==>
              (r <==> LessEq(left, value) && LessEq(value, right))
    ensures value.NaN? ==> r
  {
    !(Less(value, left) || Less(right, value))
  }

  /** The integer instantiation exercised by the package's tests. */
  lemma InBetweenOnIntegers(left: int, right: int, value: int)
    ensures AssertInBetween(Finite(left as real), Finite(right as real), Finite(value as real))
            <==> left <= value <= right
  {
  }

  /** An empty (reversed) range admits no ordered value. */
  lemma ReversedRangeIsEmpty(left: Float, right: Float, value: Float)
    requires Less(right, left)
    requires !value.NaN?
    ensures !AssertInBetween(left, right, value)
  {
  }

  /** Linear scan for `value`, returning as soon as an element equals it. */
  method AssertContains<T(==)>(slice: seq<T>, value: T) returns (found: bool)
    ensures found <==> exists i :: 0 <= i < |slice| && slice[i] == value
    ensures |slice| == 0 ==> !found
  {
    var i := 0;
    while i < |slice|
      invariant 0 <= i <= |slice|
      invariant forall j :: 0 <= j < i ==> slice[j] != value
    {
      if slice[i] == value {
        return true;
      }
      i := i + 1;
    }
    return false;
  }

  /** Three-way comparison of a byte slice's length with `maxSize`. */
  function AssertSize(slice: seq<byte>, maxSize: int): (r: int)
    ensures -1 <= r <= 1
    ensures r == -1 <==> |slice| < maxSize
    ensures r == 0 <==> |slice| == maxSize
    ensures r == 1 <==> |slice| > maxSize
  {
    if |slice| < maxSize then -1
    else if |slice| == maxSize then 0
    else 1
  }
}
