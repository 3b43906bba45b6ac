// util/Range.java: a half-open interval [lowerBound, upperBound).
module Ranges {
  import opened Common

  datatype Range = Range(lowerBound: int, upperBound: int)

  /** What the Range constructor guarantees of every value it builds. */
  predicate Valid(r: Range)
  {
    r.lowerBound <= r.upperBound
  }

  /** The checked constructor: a lower bound above the upper bound throws. */
  function MakeRange(lowerBound: int, upperBound: int): (r: Result<Range>)
    ensures r.Ok? <==> lowerBound <= upperBound
    ensures r.Ok? ==> Valid(r.value)
    ensures r.Ok? ==> r.value.lowerBound == lowerBound && r.value.upperBound == upperBound
  {
    if lowerBound > upperBound then Err("IllegalArgumentException: lowerBound > upperBound")
    else Ok(Range(lowerBound, upperBound))
  }

  /** The lower bound is included, the upper bound is not. */
  predicate Contains(r: Range, e: int)
  {
    r.lowerBound <= e && r.upperBound > e
  }

  predicate IsEmpty(r: Range)
  {
    r.lowerBound == r.upperBound
  }

  /** For a range that the constructor could build, isEmpty means that no element is contained. */
  lemma EmptyIffContainsNothing(r: Range)
    requires Valid(r)
    ensures IsEmpty(r) <==> forall e :: !Contains(r, e)
  {
    if !IsEmpty(r) {
      assert Contains(r, r.lowerBound);
    }
  }

}
