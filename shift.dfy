/** The threshold shift inside `elem_b`: each per-sample threshold is replaced
    by the next smaller distinct threshold, and the smallest by minus infinity,
    giving the lower boundary of each sample's ordinal bin. The sigmoid applied
    afterwards is not part of this model. */
module Shift {
  import opened Distinct
  import opened Vec
  import opened Params

  /** A threshold slot: a finite boundary or the open lower end. */
  datatype Bound = NegInf | Fin(value: real)

  /** The lower boundary of the bin whose upper boundary is `x`, found by value. */
  function Predecessor(theta: seq<real>, x: real): Bound
    requires x in theta
  {
    var k := Rank(theta, x);
    if k == 0 then NegInf else Fin(Unique(theta)[k - 1])
  }

  /** What the shift produces for every sample. */
  function Shifted(theta: seq<real>): (r: seq<Bound>)
    ensures |r| == |theta|
  {
    seq(|theta|, j requires 0 <= j < |theta| => Predecessor(theta, theta[j]))
  }

  /** Entry `j` after the first `i` rounds of the shift loop: values of rank
      1..i have moved down one rank, the others are untouched. */
  function AfterRounds(theta: seq<real>, i: nat, j: nat): Bound
    requires j < |theta|
  {
    var k := Rank(theta, theta[j]);
    if 1 <= k <= i then Fin(Unique(theta)[k - 1]) else Fin(theta[j])
  }

  /** Lines 15-21 of `elem_b`: the in-place rewrite of the copy `_theta`. Every
      masked assignment tests the current contents of `_theta`, yet no entry
      moves more than one step: the rounds go upwards, so an entry that has
      just moved down never equals a later round's target. An empty `theta`
      has no `unique_theta[0]`. */
  method ShiftDown(theta: seq<real>) returns (r: Outcome<seq<Bound>>)
    ensures |theta| == 0 <==> r == IndexError(0, 0)
    ensures |theta| > 0 ==> r == Ok(Shifted(theta))
  {
    if |theta| == 0 {
      return IndexError(0, 0);
    }
    var u := Unique(theta);
    var t := new Bound[|theta|](j requires 0 <= j < |theta| => Fin(theta[j]));
    for i := 0 to |u| - 1
      invariant forall j :: 0 <= j < t.Length ==> t[j] == AfterRounds(theta, i, j)
    {
      var t1, t2 := u[i], u[i + 1];
      forall j | 0 <= j < t.Length && t[j] == Fin(t2) {
        t[j] := Fin(t1);
      }
      forall j | 0 <= j < t.Length ensures t[j] == AfterRounds(theta, i + 1, j) {
        RoundStep(theta, i, j);
      }
    }
    forall j | 0 <= j < t.Length && theta[j] == u[0] {
      t[j] := NegInf;
    }
    forall j | 0 <= j < t.Length ensures t[j] == Predecessor(theta, theta[j]) {
      FinalStep(theta, j);
    }
    assert t[..] == Shifted(theta);
    return Ok(t[..]);
  }

  /** Round i moves the entries now equal to the (i+1)-th distinct threshold
      down to the i-th, and no entry moved in an earlier round matches it. */
  lemma RoundStep(theta: seq<real>, i: nat, j: nat)
    requires i + 1 < |Unique(theta)| && j < |theta|
    ensures var u := Unique(theta);
      AfterRounds(theta, i + 1, j) ==
        if AfterRounds(theta, i, j) == Fin(u[i + 1]) then Fin(u[i]) else AfterRounds(theta, i, j)
  {
    var u, k := Unique(theta), Rank(theta, theta[j]);
    if 1 <= k <= i {
      assert u[k - 1] < u[i + 1];
    } else if k != i + 1 {
      assert u[k] != u[i + 1];
    }
  }

  /** The final masked write sets the smallest threshold's samples to minus
      infinity, which completes the predecessor map. */
  lemma FinalStep(theta: seq<real>, j: nat)
    requires j < |theta|
    ensures var u := Unique(theta);
      Predecessor(theta, theta[j]) ==
        if theta[j] == u[0] then NegInf else AfterRounds(theta, |u| - 1, j)
  {
    var u, k := Unique(theta), Rank(theta, theta[j]);
    if k > 0 {
      assert u[0] < u[k];
    }
  }

  /** The shifted value is the next smaller distinct threshold, or minus
      infinity exactly for the smallest threshold. */
  lemma ShiftedIsNextSmaller(theta: seq<real>, j: nat)
    requires j < |theta|
    ensures Shifted(theta)[j] == NegInf <==> forall m :: 0 <= m < |theta| ==> theta[j] <= theta[m]
    ensures Shifted(theta)[j].Fin? ==>
      var v := Shifted(theta)[j].value;
      v in theta && v < theta[j] &&
      forall m :: 0 <= m < |theta| ==> !(v < theta[m] < theta[j])
  {
    var u := Unique(theta);
    var k := Rank(theta, theta[j]);
    forall m | 0 <= m < |theta|
      ensures k == 0 ==> theta[j] <= theta[m]
      ensures k > 0 ==> !(u[k - 1] < theta[m] < theta[j])
    {
      var p := Rank(theta, theta[m]);
      assert p < k ==> u[p] < u[k];
      assert 0 < k && k - 1 < p ==> u[k - 1] < u[p];
      assert k <= p ==> u[k] <= u[p];
    }
    if k > 0 {
      assert u[k - 1] in theta && u[k - 1] < u[k];
      RankOnto(theta, k - 1);
    }
  }

  /** Each entry moves exactly one rank down. */
  lemma ShiftedOneRankDown(theta: seq<real>, j: nat)
    requires j < |theta| && Shifted(theta)[j].Fin?
    ensures Shifted(theta)[j].value in theta
    ensures Rank(theta, Shifted(theta)[j].value) + 1 == Rank(theta, theta[j])
  {
    var k := Rank(theta, theta[j]);
    RankOnto(theta, k - 1);
  }

  /** When every class is present, the distinct per-sample thresholds are the
      class thresholds themselves. */
  lemma UniqueOfAllClasses(theta0: seq<real>, y: seq<int>)
    requires StrictlyIncreasing(theta0)
    requires forall i :: 0 <= i < |y| ==> 0 <= y[i] < |theta0|
    requires forall k :: 0 <= k < |theta0| ==> k in y
    ensures Unique(Gather(theta0, y)) == theta0
  {
    var theta := Gather(theta0, y);
    forall z ensures z in theta <==> z in theta0 {
      if z in theta0 {
        var k :| 0 <= k < |theta0| && theta0[k] == z;
        assert k in y;
        var i :| 0 <= i < |y| && y[i] == k;
        assert theta[i] == z;
      }
    }
    UniqueBySet(theta, theta0);
    UniqueOfIncreasing(theta0);
  }

  /** With strictly increasing class thresholds and every class present, the
      value-based shift gives the label-based lower boundary `theta0[y-1]`
      that `f_grad` relies on. */
  lemma ShiftedIsLowerBoundary(theta0: seq<real>, y: seq<int>, i: nat)
    requires StrictlyIncreasing(theta0)
    requires forall i :: 0 <= i < |y| ==> 0 <= y[i] < |theta0|
    requires forall k :: 0 <= k < |theta0| ==> k in y
    requires i < |y|
    ensures Shifted(Gather(theta0, y))[i] == if y[i] == 0 then NegInf else Fin(theta0[y[i] - 1])
  {
    var theta := Gather(theta0, y);
    var x := theta0[y[i]];
    assert theta[i] == x;
    UniqueOfAllClasses(theta0, y);
    IndexOfIncreasing(theta0, y[i]);
    assert Rank(theta, x) == y[i];
    assert Shifted(theta)[i] == Predecessor(theta, x);
  }
}
