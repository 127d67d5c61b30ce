/** The assembly of `f_grad` around the link values. `a` and `b` are the
    upper and lower link probabilities that `elem_a` and `elem_b` return; the
    sigmoid itself is not part of this model, so they are inputs here. */
module Gradient {
  import opened Vec
  import opened Params

  /** The value written over zero denominators (line 56). */
  const QuotFloor: real := 1e-32

  /** `quot` after line 56: `a - b`, with the floor wherever that is zero. */
  function FlooredDiff(a: seq<real>, b: seq<real>): (q: seq<real>)
    requires |a| == |b|
    ensures |q| == |a|
    ensures forall i :: 0 <= i < |q| ==> q[i] != 0.0
    ensures forall i :: 0 <= i < |q| ==> a[i] != b[i] ==> q[i] == a[i] - b[i]
    ensures forall i :: 0 <= i < |q| ==> a[i] == b[i] ==> q[i] == QuotFloor
  {
    seq(|a|, i requires 0 <= i < |a| => if a[i] - b[i] == 0.0 then QuotFloor else a[i] - b[i])
  }

  /** Lines 55-56: `quot = a - b`, then the masked overwrite `quot[quot == 0] = 1e-32`. */
  method FloorQuotient(a: seq<real>, b: seq<real>) returns (quot: seq<real>)
    requires |a| == |b|
    ensures quot == FlooredDiff(a, b)
  {
    var q := new real[|a|](i requires 0 <= i < |a| => a[i] - b[i]);
    forall i | 0 <= i < q.Length && q[i] == 0.0 {
      q[i] := QuotFloor;
    }
    quot := q[..];
  }

  predicate NonZero(q: seq<real>) {
    forall i :: 0 <= i < |q| ==> q[i] != 0.0
  }

  /** `p * (1 - p)`, the derivative of the sigmoid expressed through its value. */
  function Spread(p: real): real {
    p * (1.0 - p)
  }

  /** `tmp` at line 57: the per-sample coefficient of the weight gradient. */
  function WeightCoefficients(a: seq<real>, b: seq<real>, quot: seq<real>): (c: seq<real>)
    requires |a| == |b| == |quot| && NonZero(quot)
    ensures |c| == |a|
    ensures forall i :: 0 <= i < |a| ==> c[i] * quot[i] == Spread(a[i]) - Spread(b[i])
  {
    seq(|a|, i requires 0 <= i < |a| => (Spread(a[i]) - Spread(b[i])) / quot[i])
  }

  /** `tmp_a` (line 61, from `a`) and `tmp_b` (line 62, from `b`): each link
      value's spread divided by the floored difference. */
  function Terms(p: seq<real>, quot: seq<real>): (t: seq<real>)
    requires |p| == |quot| && NonZero(quot)
    ensures |t| == |p|
    ensures forall i :: 0 <= i < |p| ==> t[i] * quot[i] == Spread(p[i])
  {
    seq(|p|, i requires 0 <= i < |p| => Spread(p[i]) / quot[i])
  }

  /** The weight coefficient of a sample is its upper term minus its lower term. */
  lemma CoefficientsSplit(a: seq<real>, b: seq<real>, quot: seq<real>)
    requires |a| == |b| == |quot| && NonZero(quot)
    ensures WeightCoefficients(a, b, quot) == Add(Terms(a, quot), Negate(Terms(b, quot)))
  {
    var c, r := WeightCoefficients(a, b, quot), Add(Terms(a, quot), Negate(Terms(b, quot)));
    forall i | 0 <= i < |a| ensures c[i] == r[i] {
      DivideDifference(Spread(a[i]), Spread(b[i]), quot[i]);
    }
  }

  lemma DivideDifference(x: real, z: real, q: real)
    requires q != 0.0
    ensures (x - z) / q == x / q + -(z / q)
  {
    calc {
      (x - z) / q;
      (x - z) * (1.0 / q);
      x * (1.0 / q) - z * (1.0 / q);
      x / q + -(z / q);
    }
  }

  /** `X * tmp[:, None]`: row i of `X` scaled by `c[i]`. */
  function ScaleRows(X: seq<seq<real>>, c: seq<real>, D: nat): (M: seq<seq<real>>)
    requires IsMatrix(X, D) && |c| == |X|
    ensures |M| == |X| && IsMatrix(M, D)
    ensures forall i, d :: 0 <= i < |X| && 0 <= d < D ==> M[i][d] == X[i][d] * c[i]
  {
    seq(|X|, i requires 0 <= i < |X| => seq(D, d requires 0 <= d < D => X[i][d] * c[i]))
  }

  /** `.sum(0)`: the sum of the rows of `M`. */
  function ColumnSums(M: seq<seq<real>>, D: nat): (s: seq<real>)
    requires IsMatrix(M, D)
    ensures |s| == D
    ensures forall d :: 0 <= d < D ==> s[d] == Sum(Column(M, D, d))
  {
    if M == [] then Zeros(D)
    else
      var init := M[..|M| - 1];
      assert forall d :: 0 <= d < D ==> Column(M, D, d)[..|M| - 1] == Column(init, D, d);
      Add(ColumnSums(init, D), M[|M| - 1])
  }

  /** `X^T c`: entry d is the inner product of column d of `X` with `c`. */
  function TransposeTimes(X: seq<seq<real>>, c: seq<real>, D: nat): (r: seq<real>)
    requires IsMatrix(X, D) && |c| == |X|
    ensures |r| == D
  {
    seq(D, d requires 0 <= d < D => Dot(Column(X, D, d), c))
  }

  /** Summing entrywise products is the inner product. */
  lemma {:induction false} SumOfProducts(u: seq<real>, c: seq<real>, p: seq<real>)
    requires |u| == |c| == |p| && forall i :: 0 <= i < |p| ==> p[i] == u[i] * c[i]
    ensures Sum(p) == Dot(u, c)
  {
    if p != [] {
      var n := |p| - 1;
      SumOfProducts(u[..n], c[..n], p[..n]);
    }
  }

  /** Line 58 computes `X^T c`: summing the scaled rows gives, per feature, the
      inner product of that feature's column with the coefficients. */
  lemma WeightPartIsTransposeProduct(X: seq<seq<real>>, c: seq<real>, D: nat)
    requires IsMatrix(X, D) && |c| == |X|
    ensures ColumnSums(ScaleRows(X, c, D), D) == TransposeTimes(X, c, D)
  {
    var M := ScaleRows(X, c, D);
    forall d | 0 <= d < D ensures ColumnSums(M, D)[d] == TransposeTimes(X, c, D)[d] {
      SumOfProducts(Column(X, D, d), c, Column(M, D, d));
    }
  }

  /** The sum of `v[i]` over the samples with `y[i] == k`. */
  function ClassSum(v: seq<real>, y: seq<int>, k: int): real
    requires |v| == |y|
  {
    if v == [] then 0.0
    else ClassSum(v[..|v| - 1], y[..|y| - 1], k) + (if y[|y| - 1] == k then v[|v| - 1] else 0.0)
  }

  /** `tmp3` after the loop: class k collects the upper terms of its own
      samples and loses the lower terms of the samples of class k+1. */
  function ThresholdScatter(tmpA: seq<real>, tmpB: seq<real>, y: seq<int>, K: nat): (t: seq<real>)
    requires |tmpA| == |y| && |tmpB| == |y|
    ensures |t| == K
  {
    seq(K, k requires 0 <= k < K => ClassSum(tmpA, y, k) - ClassSum(tmpB, y, k + 1))
  }

  /** Lines 63-71: the per-sample loop adding `tmp_a[i]` at `y[i]` and taking
      `tmp_b[i]` off at `y[i] - 1` when `y[i] > 0`. */
  method ScatterThresholds(tmpA: seq<real>, tmpB: seq<real>, y: seq<int>, K: nat) returns (tmp3: seq<real>)
    requires |tmpA| == |y| && |tmpB| == |y|
    requires forall i :: 0 <= i < |y| ==> 0 <= y[i] < K
    ensures tmp3 == ThresholdScatter(tmpA, tmpB, y, K)
  {
    var acc := new real[K](_ => 0.0);
    assert tmpA[..0] == [] && tmpB[..0] == [] && y[..0] == [];
    assert acc[..] == ThresholdScatter([], [], [], K);
    for i := 0 to |y|
      invariant acc[..] == ThresholdScatter(tmpA[..i], tmpB[..i], y[..i], K)
    {
      var e := Unit(K, y[i]);
      var e1 := Zeros(K);
      ghost var prev := acc[..];
      forall k | 0 <= k < K {
        acc[k] := acc[k] + tmpA[i] * e[k];
      }
      if y[i] > 0 {
        e1 := Unit(K, y[i] - 1);
        forall k | 0 <= k < K {
          acc[k] := acc[k] - tmpB[i] * e1[k];
        }
      }
      forall k | 0 <= k < K
        ensures acc[k] == prev[k] + (if y[i] == k then tmpA[i] else 0.0) - (if y[i] == k + 1 then tmpB[i] else 0.0)
      {
        assert e[k] == if y[i] == k then 1.0 else 0.0;
        assert e1[k] == if y[i] == k + 1 then 1.0 else 0.0;
      }
      ScatterStep(tmpA, tmpB, y, K, i);
    }
    assert tmpA[..|y|] == tmpA && tmpB[..|y|] == tmpB && y[..|y|] == y;
    tmp3 := acc[..];
  }

  /** One more sample adds its upper term at its own class and takes its
      lower term off the class below. */
  lemma ScatterStep(tmpA: seq<real>, tmpB: seq<real>, y: seq<int>, K: nat, i: nat)
    requires |tmpA| == |y| && |tmpB| == |y| && i < |y|
    ensures forall k :: 0 <= k < K ==>
      ThresholdScatter(tmpA[..i + 1], tmpB[..i + 1], y[..i + 1], K)[k] ==
        ThresholdScatter(tmpA[..i], tmpB[..i], y[..i], K)[k]
          + (if y[i] == k then tmpA[i] else 0.0) - (if y[i] == k + 1 then tmpB[i] else 0.0)
  {
    forall k | 0 <= k < K
      ensures ThresholdScatter(tmpA[..i + 1], tmpB[..i + 1], y[..i + 1], K)[k] ==
        ThresholdScatter(tmpA[..i], tmpB[..i], y[..i], K)[k]
          + (if y[i] == k then tmpA[i] else 0.0) - (if y[i] == k + 1 then tmpB[i] else 0.0)
    {
      ClassSumStep(tmpA, y, i, k);
      ClassSumStep(tmpB, y, i, k + 1);
    }
  }

  /** Extending the samples by one adds that sample's value to its own class. */
  lemma ClassSumStep(v: seq<real>, y: seq<int>, i: nat, k: int)
    requires |v| == |y| && i < |v|
    ensures ClassSum(v[..i + 1], y[..i + 1], k) ==
      ClassSum(v[..i], y[..i], k) + (if y[i] == k then v[i] else 0.0)
  {
    assert v[..i + 1][..i] == v[..i] && y[..i + 1][..i] == y[..i];
  }

  /** A class that no sample carries collects nothing. */
  lemma {:induction false} ClassSumAbsent(v: seq<real>, y: seq<int>, k: int)
    requires |v| == |y| && forall i :: 0 <= i < |y| ==> y[i] != k
    ensures ClassSum(v, y, k) == 0.0
  {
    if v != [] {
      ClassSumAbsent(v[..|v| - 1], y[..|y| - 1], k);
    }
  }

  /** A class sum reads the values of that class's samples only. */
  lemma {:induction false} ClassSumLocal(v: seq<real>, v': seq<real>, y: seq<int>, k: int)
    requires |v| == |y| && |v'| == |y|
    requires forall i :: 0 <= i < |y| && y[i] == k ==> v[i] == v'[i]
    ensures ClassSum(v, y, k) == ClassSum(v', y, k)
  {
    if v != [] {
      ClassSumLocal(v[..|v| - 1], v'[..|v'| - 1], y[..|y| - 1], k);
    }
  }

  /** The last threshold (index K-1) never receives a lower term: no sample is
      of class K. */
  lemma TopThresholdHasNoLowerTerm(tmpA: seq<real>, tmpB: seq<real>, y: seq<int>, K: nat)
    requires |tmpA| == |y| && |tmpB| == |y| && K > 0
    requires forall i :: 0 <= i < |y| ==> 0 <= y[i] < K
    ensures ThresholdScatter(tmpA, tmpB, y, K)[K - 1] == ClassSum(tmpA, y, K - 1)
  {
    ClassSumAbsent(tmpB, y, K);
  }

  /** Samples of class 0 never subtract: their lower terms do not reach `tmp3`. */
  lemma ClassZeroNeverSubtracts(tmpA: seq<real>, tmpB: seq<real>, tmpB': seq<real>, y: seq<int>, K: nat)
    requires |tmpA| == |y| && |tmpB| == |y| && |tmpB'| == |y|
    requires forall i :: 0 <= i < |y| ==> 0 <= y[i] < K
    requires forall i :: 0 <= i < |y| && y[i] != 0 ==> tmpB[i] == tmpB'[i]
    ensures ThresholdScatter(tmpA, tmpB, y, K) == ThresholdScatter(tmpA, tmpB', y, K)
  {
    forall k | 0 <= k < K
      ensures ThresholdScatter(tmpA, tmpB, y, K)[k] == ThresholdScatter(tmpA, tmpB', y, K)[k]
    {
      ClassSumLocal(tmpB, tmpB', y, k + 1);
    }
  }

  /** `f_grad` without the sigmoid: the weight part `X^T c` followed by the
      negated threshold part, `D + K` entries in all. */
  method Grad(x0: seq<real>, X: seq<seq<real>>, D: nat, y: seq<int>, a: seq<real>, b: seq<real>)
    returns (g: seq<real>)
    requires IsMatrix(X, D) && |y| == |X| && |a| == |X| && |b| == |X|
    requires forall i :: 0 <= i < |y| ==> 0 <= y[i] < |Thresholds(x0, D)|
    ensures var K := |Thresholds(x0, D)|;
      var quot := FlooredDiff(a, b);
      |g| == D + K &&
      g[..D] == TransposeTimes(X, WeightCoefficients(a, b, quot), D) &&
      g[D..] == Negate(ThresholdScatter(Terms(a, quot), Terms(b, quot), y, K))
  {
    var K := |Thresholds(x0, D)|;
    var quot := FloorQuotient(a, b);
    var c := WeightCoefficients(a, b, quot);
    var tmp := ColumnSums(ScaleRows(X, c, D), D);
    WeightPartIsTransposeProduct(X, c, D);
    var tmpA := Terms(a, quot);
    var tmpB := Terms(b, quot);
    var tmp3 := ScatterThresholds(tmpA, tmpB, y, K);
    g := tmp + Negate(tmp3);
  }
}
