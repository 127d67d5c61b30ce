/** The combined parameter vector `x0 = [w; theta0]` and the failure that numpy
    reports when an index is out of range. */
module Params {

  /** A computation that either succeeds or stops where numpy raises `IndexError`
      (index `index` on an axis of length `size`). */
  datatype Outcome<T> = Ok(value: T) | IndexError(index: int, size: nat)

  /** `np.split(x0, [D])[0]`: the weight part. */
  function Weights(x0: seq<real>, D: nat): (w: seq<real>)
    ensures |w| == if D <= |x0| then D else |x0|
    ensures w <= x0
  {
    if D <= |x0| then x0[..D] else x0
  }

  /** `np.split(x0, [D])[1]`: the threshold part, one entry per class. */
  function Thresholds(x0: seq<real>, D: nat): (theta0: seq<real>)
    ensures |theta0| == if D <= |x0| then |x0| - D else 0
    ensures Weights(x0, D) + theta0 == x0
  {
    if D <= |x0| then x0[D..] else []
  }
}
