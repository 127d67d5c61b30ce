/** `predict_logistic`: each test sample gets the index of the reference point
    nearest to its score, the reference points being -1 followed by the
    midpoints between consecutive distinct thresholds. */
module Predict {
  import opened Distinct
  import opened Vec

  /** `mu` after line 103, for the sorted distinct thresholds `u`. */
  function Midpoints(u: seq<real>): (mu: seq<real>)
    ensures |mu| == if |u| == 0 then 1 else |u|
    ensures mu[0] == -1.0
  {
    [-1.0] + seq(if |u| == 0 then 0 else |u| - 1, k requires 0 <= k < |u| - 1 => (u[k] + u[k + 1]) / 2.0)
  }

  /** Lines 99-103: `mu = [-1]`, then one midpoint appended per neighbouring pair. */
  method BuildMidpoints(theta: seq<real>) returns (mu: seq<real>)
    ensures mu == Midpoints(Unique(theta))
  {
    var u := Unique(theta);
    mu := [-1.0];
    var i := 0;
    while i + 1 < |u|
      invariant |mu| == i + 1 && (|u| == 0 ==> i == 0) && (|u| > 0 ==> i < |u|)
      invariant mu[0] == -1.0
      invariant forall k :: 1 <= k <= i ==> mu[k] == (u[k - 1] + u[k]) / 2.0
    {
      mu := mu + [(u[i] + u[i + 1]) / 2.0];
      i := i + 1;
    }
    assert mu == Midpoints(u);
  }

  /** Each midpoint lies strictly between the two thresholds it separates;
      when the thresholds stay within the lower bound -1, the reference points
      are strictly increasing, the fixed first one included. */
  lemma MidpointsSeparate(u: seq<real>)
    requires StrictlyIncreasing(u)
    ensures forall k :: 1 <= k < |u| ==> u[k - 1] < Midpoints(u)[k] < u[k]
    ensures (forall k :: 0 <= k < |u| ==> -1.0 <= u[k]) ==> StrictlyIncreasing(Midpoints(u))
  {
    var mu := Midpoints(u);
    forall k | 1 <= k < |u| ensures u[k - 1] < mu[k] < u[k] {
      assert mu[k] == (u[k - 1] + u[k]) / 2.0;
    }
    if forall k :: 0 <= k < |u| ==> -1.0 <= u[k] {
      forall i, j | 0 <= i < j < |mu| ensures mu[i] < mu[j] {
        MidpointsPair(u, i, j);
      }
    }
  }

  lemma MidpointsPair(u: seq<real>, i: nat, j: nat)
    requires StrictlyIncreasing(u) && i < j < |Midpoints(u)|
    requires -1.0 <= u[0]
    ensures Midpoints(u)[i] < Midpoints(u)[j]
  {
    var mu := Midpoints(u);
    assert mu[j] == (u[j - 1] + u[j]) / 2.0;
    if i == 0 {
      assert u[0] <= u[j - 1];
    } else {
      assert mu[i] == (u[i - 1] + u[i]) / 2.0;
      assert u[i] <= u[j - 1];
    }
  }

  /** `pairwise_distances` between two points on the line. */
  function Distance(s: real, m: real): (d: real)
    ensures d >= 0.0 && (d == 0.0 <==> s == m)
  {
    if s >= m then s - m else m - s
  }

  /** `np.argmin` of the distances from `s` to the points `mu`: an index of a
      nearest point, the first such index on ties. */
  function Nearest(s: real, mu: seq<real>): (k: nat)
    requires |mu| > 0
    ensures k < |mu|
    ensures forall j :: 0 <= j < |mu| ==> Distance(s, mu[k]) <= Distance(s, mu[j])
    ensures forall j :: 0 <= j < k ==> Distance(s, mu[k]) < Distance(s, mu[j])
  {
    if |mu| == 1 then 0
    else
      var k := Nearest(s, mu[..|mu| - 1]);
      if Distance(s, mu[|mu| - 1]) < Distance(s, mu[k]) then |mu| - 1 else k
  }

  /** What `predict_logistic` returns, stated on values. */
  function Predictions(w: seq<real>, theta: seq<real>, X: seq<seq<real>>): (out: seq<nat>)
    requires IsMatrix(X, |w|)
    ensures |out| == |X|
  {
    var mu := Midpoints(Unique(theta));
    seq(|X|, i requires 0 <= i < |X| => Nearest(Dot(X[i], w), mu))
  }

  /** Lines 98-108: class index of every test sample. */
  method PredictLogistic(w: seq<real>, theta: seq<real>, X: seq<seq<real>>) returns (out: seq<nat>)
    requires IsMatrix(X, |w|)
    ensures out == Predictions(w, theta, X)
    ensures var mu := Midpoints(Unique(theta));
      && |out| == |X|
      && (forall i :: 0 <= i < |X| ==> out[i] < |mu|)
      && (forall i, k :: 0 <= i < |X| && 0 <= k < |mu| ==>
            Distance(Dot(X[i], w), mu[out[i]]) <= Distance(Dot(X[i], w), mu[k]))
  {
    var mu := BuildMidpoints(theta);
    var scores := MatVec(X, w);
    out := seq(|X|, i requires 0 <= i < |X| => Nearest(scores[i], mu));
  }

  /** Supplying the sorted distinct thresholds in place of the per-sample
      thresholds changes no prediction. */
  lemma PredictionsIgnoreDuplicates(w: seq<real>, theta: seq<real>, v: seq<real>, X: seq<seq<real>>)
    requires IsMatrix(X, |w|)
    requires StrictlyIncreasing(v) && forall z :: z in v <==> z in theta
    ensures Predictions(w, v, X) == Predictions(w, theta, X)
  {
    UniqueBySet(v, theta);
  }

  /** In particular, predicting from `np.unique(theta)` gives the same classes. */
  lemma PredictionsOfUniqueThresholds(w: seq<real>, theta: seq<real>, X: seq<seq<real>>)
    requires IsMatrix(X, |w|)
    ensures Predictions(w, Unique(theta), X) == Predictions(w, theta, X)
  {
    UniqueIdempotent(theta);
  }
}
