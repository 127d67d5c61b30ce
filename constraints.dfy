/** The inequality constraints that keep the thresholds in order (`f_ineqcons`)
    and their Jacobian (`f_ineqcons_grad`). */
module Constraints {
  import opened Distinct
  import opened Vec
  import opened Params

  /** `np.diff`: consecutive differences; an empty vector has none. */
  function Diff(v: seq<real>): (r: seq<real>)
    ensures |r| == if |v| == 0 then 0 else |v| - 1
    ensures forall i :: 0 <= i < |r| ==> r[i] == v[i + 1] - v[i]
  {
    if |v| == 0 then [] else seq(|v| - 1, i requires 0 <= i < |v| - 1 => v[i + 1] - v[i])
  }

  /** `f_ineqcons`: the solver keeps every entry non-negative. */
  function IneqCons(x0: seq<real>, D: nat): (r: seq<real>)
    ensures |r| == if D < |x0| then |x0| - D - 1 else 0
    ensures forall i :: 0 <= i < |r| ==> r[i] == x0[D + i + 1] - x0[D + i]
  {
    var theta0 := Thresholds(x0, D);
    assert forall k :: 0 <= k < |theta0| ==> theta0[k] == x0[D + k];
    Diff(theta0)
  }

  /** A chain of non-negative neighbour gaps orders every pair of entries. */
  lemma {:induction false} NonNegativeGapsChain(v: seq<real>, i: nat, j: nat)
    requires forall k :: 0 <= k < |Diff(v)| ==> Diff(v)[k] >= 0.0
    requires i <= j < |v|
    ensures v[i] <= v[j]
  {
    if i < j {
      NonNegativeGapsChain(v, i, j - 1);
      assert Diff(v)[j - 1] == v[j] - v[j - 1];
    }
  }

  lemma {:induction false} PositiveGapsChain(v: seq<real>, i: nat, j: nat)
    requires forall k :: 0 <= k < |Diff(v)| ==> Diff(v)[k] > 0.0
    requires i < j < |v|
    ensures v[i] < v[j]
  {
    if i < j - 1 {
      PositiveGapsChain(v, i, j - 1);
    }
    assert Diff(v)[j - 1] == v[j] - v[j - 1];
  }

  predicate NonDecreasing(v: seq<real>) {
    forall i, j :: 0 <= i <= j < |v| ==> v[i] <= v[j]
  }

  /** Non-negative neighbour gaps are exactly a non-decreasing vector. */
  lemma GapsNonNegativeIffOrdered(v: seq<real>)
    ensures (forall k :: 0 <= k < |Diff(v)| ==> Diff(v)[k] >= 0.0) <==> NonDecreasing(v)
  {
    if forall k :: 0 <= k < |Diff(v)| ==> Diff(v)[k] >= 0.0 {
      forall i, j | 0 <= i <= j < |v| ensures v[i] <= v[j] {
        NonNegativeGapsChain(v, i, j);
      }
    }
  }

  /** Positive neighbour gaps are exactly a strictly increasing vector. */
  lemma GapsPositiveIffIncreasing(v: seq<real>)
    ensures (forall k :: 0 <= k < |Diff(v)| ==> Diff(v)[k] > 0.0) <==> StrictlyIncreasing(v)
  {
    if forall k :: 0 <= k < |Diff(v)| ==> Diff(v)[k] > 0.0 {
      forall i, j | 0 <= i < j < |v| ensures v[i] < v[j] {
        PositiveGapsChain(v, i, j);
      }
    }
  }

  /** The constraints hold exactly when the thresholds are non-decreasing. */
  lemma ConstraintsMeanOrdered(x0: seq<real>, D: nat)
    ensures (forall k :: 0 <= k < |IneqCons(x0, D)| ==> IneqCons(x0, D)[k] >= 0.0)
        <==> NonDecreasing(Thresholds(x0, D))
  {
    var v := Thresholds(x0, D);
    assert IneqCons(x0, D) == Diff(v);
    GapsNonNegativeIffOrdered(v);
  }

  /** The constraints are strictly satisfied exactly when the thresholds are strictly increasing. */
  lemma ConstraintsStrictMeanIncreasing(x0: seq<real>, D: nat)
    ensures (forall k :: 0 <= k < |IneqCons(x0, D)| ==> IneqCons(x0, D)[k] > 0.0)
        <==> StrictlyIncreasing(Thresholds(x0, D))
  {
    var v := Thresholds(x0, D);
    assert IneqCons(x0, D) == Diff(v);
    GapsPositiveIffIncreasing(v);
  }

  /** `scipy.linalg.toeplitz(c, r)`: first column `c`, first row `r` (whose
      first entry is ignored); entry (i, j) is `c[i-j]` on and below the
      diagonal and `r[j-i]` above it. */
  function Toeplitz(c: seq<real>, r: seq<real>): (T: seq<seq<real>>)
    ensures |T| == |c| && IsMatrix(T, |r|)
  {
    seq(|c|, i requires 0 <= i < |c| =>
      seq(|r|, j requires 0 <= j < |r| => if i >= j then c[i - j] else r[j - i]))
  }

  /** `f_ineqcons_grad`: the (K-1) x |x0| Jacobian of `f_ineqcons`. The
      assignment `e2[1] = -1.` fails when there are fewer than two thresholds. */
  function IneqConsGrad(x0: seq<real>, D: nat): (r: Outcome<seq<seq<real>>>)
    ensures r.Ok? <==> |Thresholds(x0, D)| >= 2
    ensures r.IndexError? ==> r.index == 1 && r.size == |Thresholds(x0, D)|
  {
    var K := |Thresholds(x0, D)|;
    var e1 := Unit(K, 0);  // np.eye(K, 1).ravel()
    if K < 2 then IndexError(1, K)
    else
      var e2 := e1[1 := -1.0];
      var L := seq(K, i requires 0 <= i < K => Negate(Toeplitz(e1, e2)[i]))[..K - 1];
      var offset := |x0| - K;
      Ok(seq(K - 1, i requires 0 <= i < K - 1 =>
        seq(|x0|, j requires 0 <= j < |x0| => if j < offset then 0.0 else L[i][j - offset])))
  }

  /** The Jacobian is the banded difference operator: row i holds -1 at column
      D+i and +1 at column D+i+1 and zeros elsewhere, in particular in all D
      weight columns. */
  lemma JacobianBanded(x0: seq<real>, D: nat)
    requires |Thresholds(x0, D)| >= 2
    ensures var T := IneqConsGrad(x0, D).value;
      |T| == |x0| - D - 1 && IsMatrix(T, |x0|) &&
      forall i, j :: 0 <= i < |T| && 0 <= j < |x0| ==>
        T[i][j] == if j == D + i then -1.0 else if j == D + i + 1 then 1.0 else 0.0
  {
  }

  /** The Jacobian depends on the length of `x0` only, not on its values. */
  lemma JacobianConstant(x0: seq<real>, x1: seq<real>, D: nat)
    requires |x0| == |x1|
    ensures IneqConsGrad(x0, D) == IneqConsGrad(x1, D)
  {
  }

  /** Dot product with a row that is zero except for -1 at `p` and +1 at `p+1`,
      over the first `n` entries. */
  lemma {:induction false} DotBandPrefix(u: seq<real>, v: seq<real>, p: nat, n: nat)
    requires |u| == |v| && n <= |u|
    requires forall j :: 0 <= j < |u| ==> u[j] == if j == p then -1.0 else if j == p + 1 then 1.0 else 0.0
    ensures Dot(u[..n], v[..n]) == (if p + 1 < n then v[p + 1] else 0.0) - (if p < n then v[p] else 0.0)
  {
    if n > 0 {
      DotBandPrefix(u, v, p, n - 1);
      assert u[..n][..n - 1] == u[..n - 1];
      assert v[..n][..n - 1] == v[..n - 1];
    }
  }

  /** Applying the Jacobian to `x0` reproduces `f_ineqcons(x0)`: `np.diff` is linear. */
  lemma JacobianTimesPoint(x0: seq<real>, D: nat)
    requires |Thresholds(x0, D)| >= 2
    ensures IsMatrix(IneqConsGrad(x0, D).value, |x0|)
    ensures MatVec(IneqConsGrad(x0, D).value, x0) == IneqCons(x0, D)
  {
    JacobianBanded(x0, D);
    BandTimesPoint(IneqConsGrad(x0, D).value, x0, D);
  }

  /** A banded difference matrix applied to `x` gives the gaps of `x[D..]`. */
  lemma BandTimesPoint(T: seq<seq<real>>, x: seq<real>, D: nat)
    requires D + |T| + 1 == |x| && IsMatrix(T, |x|)
    requires forall i, j :: 0 <= i < |T| && 0 <= j < |x| ==>
      T[i][j] == if j == D + i then -1.0 else if j == D + i + 1 then 1.0 else 0.0
    ensures MatVec(T, x) == Diff(x[D..])
  {
    var m, c := MatVec(T, x), Diff(x[D..]);
    forall i | 0 <= i < |T| ensures m[i] == c[i] {
      DotBand(T[i], x, D + i);
    }
  }

  /** The whole dot product with such a band row is one neighbour gap. */
  lemma DotBand(u: seq<real>, v: seq<real>, p: nat)
    requires |u| == |v| && p + 1 < |u|
    requires forall j :: 0 <= j < |u| ==> u[j] == if j == p then -1.0 else if j == p + 1 then 1.0 else 0.0
    ensures Dot(u, v) == v[p + 1] - v[p]
  {
    DotBandPrefix(u, v, p, |u|);
    assert u[..|u|] == u && v[..|v|] == v;
  }
}
