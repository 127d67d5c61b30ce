/** The bookkeeping of `ordinal_logistic` around the solver: sort permutation
    and its inverse, dense relabelling of the labels, the feasible starting
    point, the bounds list, and the per-sample thresholds handed back in the
    caller's sample order. The gradient check and the SLSQP solver are not part
    of this model: the solver's result `out` is an input of `Recover`. */
module Driver {
  import opened Distinct
  import opened Vec
  import opened Params
  import opened Constraints

  /** Box bound on every weight (line 8). */
  const BIG: real := 1e10

  /** `p` lists 0..|p|-1, each once. */
  predicate IsPermutation(p: seq<int>) {
    && (forall j :: 0 <= j < |p| ==> 0 <= p[j] < |p|)
    && (forall i, j :: 0 <= i < j < |p| ==> p[i] != p[j])
    && (forall k :: 0 <= k < |p| ==> k in p)
  }

  /** What `np.argsort(y)` returns: a permutation that puts `y` in order. */
  predicate SortsBy(idx: seq<int>, y: seq<int>) {
    && |idx| == |y| && IsPermutation(idx)
    && forall i, j :: 0 <= i < j < |idx| ==> y[idx[i]] <= y[idx[j]]
  }

  /** Lines 76-77: `idx_inv = np.zeros_like(idx); idx_inv[idx] = np.arange(idx.size)`. */
  method InvertPermutation(idx: seq<int>) returns (inv: seq<int>)
    requires IsPermutation(idx)
    ensures |inv| == |idx| && IsPermutation(inv)
    ensures forall j :: 0 <= j < |idx| ==> inv[idx[j]] == j
    ensures forall i :: 0 <= i < |idx| ==> idx[inv[i]] == i
  {
    var a := new int[|idx|](_ => 0);
    PermutationInjective(idx);
    forall j | 0 <= j < |idx| {
      a[idx[j]] := j;
    }
    inv := a[..];
    InverseOfPermutation(idx, inv);
  }

  /** Distinct positions of a permutation hold distinct values. */
  lemma PermutationInjective(p: seq<int>)
    requires IsPermutation(p)
    ensures forall i, j :: 0 <= i < |p| && 0 <= j < |p| && i != j ==> p[i] != p[j]
  {
    forall i, j | 0 <= i < |p| && 0 <= j < |p| && i != j ensures p[i] != p[j] {
      if j < i {
        assert p[j] != p[i];
      }
    }
  }

  /** A vector that undoes `idx` on the left undoes it on the right as well,
      and is itself a permutation. */
  lemma InverseOfPermutation(idx: seq<int>, inv: seq<int>)
    requires IsPermutation(idx) && |inv| == |idx|
    requires forall j :: 0 <= j < |idx| ==> inv[idx[j]] == j
    ensures forall i :: 0 <= i < |idx| ==> 0 <= inv[i] < |idx| && idx[inv[i]] == i
    ensures IsPermutation(inv)
  {
    forall i | 0 <= i < |idx| ensures 0 <= inv[i] < |idx| && idx[inv[i]] == i {
      assert i in idx;
      var j :| 0 <= j < |idx| && idx[j] == i;
      assert inv[i] == j;
    }
    forall k | 0 <= k < |idx| ensures k in inv {
      assert inv[idx[k]] == k;
    }
  }

  /** `v[idx][idx_inv] == v`: the inverse permutation undoes the sort. */
  lemma UnpermuteRoundTrip<T>(v: seq<T>, idx: seq<int>, inv: seq<int>)
    requires IsPermutation(idx) && |v| == |idx| && |inv| == |idx|
    requires forall i :: 0 <= i < |inv| ==> 0 <= inv[i] < |idx| && idx[inv[i]] == i
    ensures Gather(Gather(v, idx), inv) == v
  {
  }

  /** The rank of each label among the distinct labels: the labels the model
      is fitted on. */
  function DenseRanks(y: seq<int>): (r: seq<int>)
    ensures |r| == |y|
  {
    seq(|y|, j requires 0 <= j < |y| => Rank(AsReals(y), y[j] as real))
  }

  /** Dense ranks run over 0..K-1 with no gap, and compare exactly as the
      labels they replace. */
  lemma DenseRanksFaithful(y: seq<int>)
    ensures var r, K := DenseRanks(y), |UniqueInts(y)|;
      && (forall j :: 0 <= j < |y| ==> 0 <= r[j] < K)
      && (forall k :: 0 <= k < K ==> k in r)
      && (forall i, j :: 0 <= i < |y| && 0 <= j < |y| ==> (y[i] < y[j] <==> r[i] < r[j]))
      && (forall i, j :: 0 <= i < |y| && 0 <= j < |y| ==> (y[i] == y[j] <==> r[i] == r[j]))
  {
    var r, s := DenseRanks(y), AsReals(y);
    forall i, j | 0 <= i < |y| && 0 <= j < |y|
      ensures (y[i] < y[j] <==> r[i] < r[j]) && (y[i] == y[j] <==> r[i] == r[j])
    {
      assert s[i] == y[i] as real && s[j] == y[j] as real;
      RankOrder(s, y[i] as real, y[j] as real);
    }
    forall k | 0 <= k < |UniqueInts(y)| ensures k in r {
      RankOnto(s, k);
      var x := Unique(s)[k];
      var j :| 0 <= j < |s| && s[j] == x;
      assert r[j] == k;
    }
  }

  /** `y` with every entry equal to `from` replaced by `to`: one masked
      assignment `y[y == from] = to`. */
  function Replace(y: seq<int>, from: int, to: int): (r: seq<int>)
    ensures |r| == |y|
  {
    seq(|y|, j requires 0 <= j < |y| => if y[j] == from then to else y[j])
  }

  /** The labels after the first `i` rounds of the loop at lines 82-83 as
      written: round r rewrites the entries that CURRENTLY equal `u[r]`. */
  function RelabelRounds(y: seq<int>, u: seq<int>, i: nat): (r: seq<int>)
    requires i <= |u|
    ensures |r| == |y|
  {
    if i == 0 then y else Replace(RelabelRounds(y, u, i - 1), u[i - 1], i - 1)
  }

  /** Lines 81-83 as written: relabel `y` in place, each round masking against
      the partly relabelled array. */
  method RelabelInPlace(y: array<int>)
    modifies y
    ensures y[..] == RelabelRounds(old(y[..]), UniqueInts(old(y[..])), |UniqueInts(old(y[..]))|)
  {
    ghost var y0 := y[..];
    var u := UniqueInts(y[..]);
    for i := 0 to |u|
      invariant y[..] == RelabelRounds(y0, u, i)
    {
      forall j | 0 <= j < y.Length && y[j] == u[i] {
        y[j] := i;
      }
    }
  }

  /** For non-negative labels the k-th smallest distinct label is at least k. */
  lemma {:induction false} UniqueIntsAtLeastIndex(y: seq<int>, k: nat)
    requires forall j :: 0 <= j < |y| ==> y[j] >= 0
    requires k < |UniqueInts(y)|
    ensures UniqueInts(y)[k] >= k
  {
    var u := UniqueInts(y);
    if k == 0 {
      assert u[0] in y;
    } else {
      UniqueIntsAtLeastIndex(y, k - 1);
    }
  }

  /** The rank of an integer label is its position among the distinct labels. */
  lemma RankOfLabel(y: seq<int>, j: nat, k: nat)
    requires j < |y| && k < |UniqueInts(y)|
    ensures DenseRanks(y)[j] == k <==> y[j] == UniqueInts(y)[k]
  {
    var s, u := AsReals(y), UniqueInts(y);
    assert AsReals(u)[k] == u[k] as real;
    IndexOfIncreasing(Unique(s), k);
  }

  /** After i rounds of the loop as written, on non-negative labels: ranks
      below i are in place, every other entry still holds its label. */
  lemma RelabelRoundsProgress(y: seq<int>, i: nat, j: nat)
    requires forall m :: 0 <= m < |y| ==> y[m] >= 0
    requires i <= |UniqueInts(y)| && j < |y|
    ensures RelabelRounds(y, UniqueInts(y), i)[j] ==
      if DenseRanks(y)[j] < i then DenseRanks(y)[j] else y[j]
  {
    var u := UniqueInts(y);
    forall k | 0 <= k < |u| ensures !(0 <= u[k] < k) && (DenseRanks(y)[j] == k <==> y[j] == u[k]) {
      UniqueIntsAtLeastIndex(y, k);
      RankOfLabel(y, j, k);
    }
    RoundsKeepRank(y, u, DenseRanks(y)[j], i, j);
  }

  /** One entry through the rounds: an entry whose label is the r-th distinct
      label becomes r in round r, provided no distinct label u[k] equals an
      earlier round's result, that is, lies in [0, k). */
  lemma {:induction false} RoundsKeepRank(y: seq<int>, u: seq<int>, r: nat, i: nat, j: nat)
    requires i <= |u| && j < |y|
    requires forall k :: 0 <= k < |u| ==> !(0 <= u[k] < k) && (r == k <==> y[j] == u[k])
    ensures RelabelRounds(y, u, i)[j] == if r < i then r else y[j]
  {
    if i > 0 {
      var prev := RelabelRounds(y, u, i - 1);
      assert RelabelRounds(y, u, i) == Replace(prev, u[i - 1], i - 1);
      RoundsKeepRank(y, u, r, i - 1, j);
      assert !(0 <= u[i - 1] < i - 1) && (r == i - 1 <==> y[j] == u[i - 1]);
      if r < i - 1 {
        assert prev[j] == r != u[i - 1];
      } else {
        assert prev[j] == y[j];
      }
    }
  }

  /** The cascade: when the k-th distinct label equals an earlier rank m < k,
      the entries labelled u[m] become m in round m, are caught again in
      round k, and end at k or above instead of m. */
  lemma {:induction false} CascadeCarriesPast(y: seq<int>, u: seq<int>, m: nat, k: nat, i: nat, j: nat)
    requires forall a, b :: 0 <= a < b < |u| ==> u[a] < u[b]
    requires m < k < |u| && u[k] == m && i <= |u| && j < |y| && y[j] == u[m]
    ensures i <= m ==> RelabelRounds(y, u, i)[j] == u[m]
    ensures m < i <= k ==> RelabelRounds(y, u, i)[j] == m
    ensures k < i ==> RelabelRounds(y, u, i)[j] >= k
  {
    if i > 0 {
      var prev := RelabelRounds(y, u, i - 1);
      assert RelabelRounds(y, u, i) == Replace(prev, u[i - 1], i - 1);
      CascadeCarriesPast(y, u, m, k, i - 1, j);
      if i - 1 < m {
        assert u[i - 1] < u[m];
      } else if m < i - 1 < k {
        assert u[i - 1] < u[k];
      }
    }
  }

  /** Without a collision, each entry ends at its rank. */
  lemma NoCollisionKeepsRank(y: seq<int>, j: nat)
    requires j < |y|
    requires var u := UniqueInts(y); forall k :: 0 <= k < |u| ==> !(0 <= u[k] < k)
    ensures var u := UniqueInts(y); RelabelRounds(y, u, |u|)[j] == DenseRanks(y)[j]
  {
    var u := UniqueInts(y);
    forall k | 0 <= k < |u| ensures DenseRanks(y)[j] == k <==> y[j] == u[k] {
      RankOfLabel(y, j, k);
    }
    RoundsKeepRank(y, u, DenseRanks(y)[j], |u|, j);
  }

  /** The loop as written computes the dense ranks exactly when no distinct
      label u[k] lies in [0, k); this needs a negative label. */
  lemma RelabelAsWrittenIff(y: seq<int>)
    ensures var u := UniqueInts(y);
      RelabelRounds(y, u, |u|) == DenseRanks(y) <==> forall k :: 0 <= k < |u| ==> !(0 <= u[k] < k)
  {
    var u := UniqueInts(y);
    var K := |u|;
    DenseRanksFaithful(y);
    if forall k :: 0 <= k < K ==> !(0 <= u[k] < k) {
      forall j | 0 <= j < |y| ensures RelabelRounds(y, u, K)[j] == DenseRanks(y)[j] {
        NoCollisionKeepsRank(y, j);
      }
    } else {
      var k :| 0 <= k < K && 0 <= u[k] < k;
      var m: nat := u[k];
      assert u[m] in y;
      var j :| 0 <= j < |y| && y[j] == u[m];
      CascadeCarriesPast(y, u, m, k, K, j);
      RankOfLabel(y, j, m);
      assert RelabelRounds(y, u, K)[j] != DenseRanks(y)[j];
    }
  }

  /** On non-negative labels, which the data loader guarantees by subtracting
      the minimum, the loop as written computes the dense ranks. */
  lemma RelabelInPlaceRanksNonNegative(y: seq<int>)
    requires forall m :: 0 <= m < |y| ==> y[m] >= 0
    ensures RelabelRounds(y, UniqueInts(y), |UniqueInts(y)|) == DenseRanks(y)
  {
    var K := |UniqueInts(y)|;
    forall j | 0 <= j < |y| ensures RelabelRounds(y, UniqueInts(y), K)[j] == DenseRanks(y)[j] {
      RelabelRoundsProgress(y, K, j);
      DenseRanksFaithful(y);
    }
  }

  /** With a negative label the loop as written cascades: labels [-1, 0] have
      ranks [0, 1], but round 0 turns -1 into 0 and round 1 then turns both
      entries into 1. */
  lemma RelabelCascadesOnNegativeLabels()
    ensures RelabelRounds([-1, 0], UniqueInts([-1, 0]), |UniqueInts([-1, 0])|) == [1, 1]
    ensures DenseRanks([-1, 0]) == [0, 1]
  {
    var y := [-1, 0];
    DistinctOfMinusOneZero();
    assert RelabelRounds(y, [-1, 0], 1) == [0, 0];
  }

  /** The labels [-1, 0] are already sorted and distinct. */
  lemma DistinctOfMinusOneZero()
    ensures UniqueInts([-1, 0]) == [-1, 0]
    ensures DenseRanks([-1, 0]) == [0, 1]
  {
    var s := AsReals([-1, 0]);
    assert s == [-1.0, 0.0];
    assert Unique(s) == s by {
      UniqueOfIncreasing(s);
    }
    assert AsReals(UniqueInts([-1, 0])) == s;
    assert Rank(s, -1.0) == 0 by {
      IndexOfIncreasing(s, 0);
    }
    assert Rank(s, 0.0) == 1 by {
      IndexOfIncreasing(s, 1);
    }
  }

  /** The relabelling as intended: every round masks against the labels as
      they came in, so no entry is rewritten twice. */
  method DenseRelabel(y: array<int>)
    modifies y
    ensures y[..] == DenseRanks(old(y[..]))
  {
    var orig := y[..];
    var u := UniqueInts(orig);
    for i := 0 to |u|
      invariant forall j :: 0 <= j < y.Length ==>
        y[j] == if DenseRanks(orig)[j] < i then DenseRanks(orig)[j] else orig[j]
    {
      forall j | 0 <= j < y.Length && orig[j] == u[i] {
        y[j] := i;
      }
      forall j | 0 <= j < y.Length
        ensures y[j] == if DenseRanks(orig)[j] < i + 1 then DenseRanks(orig)[j] else orig[j]
      {
        RankOfLabel(orig, j, i);
      }
    }
    DenseRanksFaithful(orig);
  }

  /** `np.linspace(lo, hi, n)`; a single point is `lo`. */
  function Linspace(lo: real, hi: real, n: nat): (r: seq<real>)
    ensures |r| == n
    ensures n > 0 ==> r[0] == lo
    ensures n > 1 ==> r[n - 1] == hi
  {
    seq(n, k requires 0 <= k < n =>
      if n == 1 then lo else lo + (k as real) * (hi - lo) / ((n - 1) as real))
  }

  /** Entry k of `np.linspace(-1, 1, K)` is k steps of 2/(K-1) above -1. */
  lemma LinspaceAt(K: nat, k: nat)
    requires 2 <= K && k < K
    ensures Linspace(-1.0, 1.0, K)[k] == -1.0 + (k as real) * (2.0 / ((K - 1) as real))
  {
  }

  lemma ScaleStrict(x: real, z: real, c: real)
    requires x < z && c > 0.0
    ensures x * c < z * c
  {
  }

  lemma StepPositive(n: real)
    requires n >= 1.0
    ensures 2.0 / n > 0.0 && n * (2.0 / n) == 2.0
  {
  }

  lemma StepsIncrease(x: real, z: real, step: real)
    requires x < z && step > 0.0
    ensures -1.0 + x * step < -1.0 + z * step
  {
    ScaleStrict(x, z, step);
  }

  lemma LinspacePairIncreasing(K: nat, i: nat, j: nat)
    requires 2 <= K && i < j < K
    ensures Linspace(-1.0, 1.0, K)[i] < Linspace(-1.0, 1.0, K)[j]
  {
    var r, step := Linspace(-1.0, 1.0, K), 2.0 / ((K - 1) as real);
    var lo, hi := -1.0 + (i as real) * step, -1.0 + (j as real) * step;
    StepPositive((K - 1) as real);
    StepsIncrease(i as real, j as real, step);
    assert lo < hi;
    LinspaceAt(K, i);
    assert r[i] == lo;
    LinspaceAt(K, j);
    assert r[j] == hi;
  }

  lemma LinspaceEntryWithin(K: nat, k: nat)
    requires 2 <= K && k < K
    ensures -1.0 <= Linspace(-1.0, 1.0, K)[k] <= 1.0
  {
    var n := (K - 1) as real;
    var step := 2.0 / n;
    StepPositive(n);
    LinspaceAt(K, k);
    if k < K - 1 {
      ScaleStrict(k as real, n, step);
    }
  }

  /** `np.linspace(-1, 1, K)` runs from -1 to 1 in equal, positive steps. */
  lemma LinspaceSpans(K: nat)
    requires K >= 2
    ensures var r := Linspace(-1.0, 1.0, K);
      r[0] == -1.0 && r[K - 1] == 1.0 &&
      (forall k :: 0 <= k < K ==> -1.0 <= r[k] <= 1.0) &&
      StrictlyIncreasing(r)
  {
    var r := Linspace(-1.0, 1.0, K);
    StepPositive((K - 1) as real);
    LinspaceAt(K, K - 1);
    forall k | 0 <= k < K ensures -1.0 <= r[k] <= 1.0 {
      LinspaceEntryWithin(K, k);
    }
    forall i, j | 0 <= i < j < K ensures r[i] < r[j] {
      LinspacePairIncreasing(K, i, j);
    }
  }

  /** The starting point of line 84-85: D ones, then the evenly spaced thresholds. */
  function StartPoint(D: nat, K: nat): (x0: seq<real>)
    ensures |x0| == D + K
    ensures Weights(x0, D) == seq(D, _ => 1.0)
    ensures Thresholds(x0, D) == Linspace(-1.0, 1.0, K)
  {
    seq(D, _ => 1.0) + Linspace(-1.0, 1.0, K)
  }

  /** Lines 84-85: `x0 = np.ones(D + K)`, then the threshold slice overwritten. */
  method InitialPoint(D: nat, K: nat) returns (x0: seq<real>)
    ensures x0 == StartPoint(D, K)
  {
    var a := new real[D + K](_ => 1.0);
    var ls := Linspace(-1.0, 1.0, K);
    forall k | 0 <= k < K {
      a[D + k] := ls[k];
    }
    x0 := a[..];
  }

  /** Line 90: `(-BIG, BIG)` for each weight, then `(-1, 1)` for each threshold. */
  function Bounds(D: nat, K: nat): (bs: seq<(real, real)>)
    ensures |bs| == D + K
    ensures forall k :: 0 <= k < D + K ==> bs[k] == if k < D then (-BIG, BIG) else (-1.0, 1.0)
    ensures forall k :: 0 <= k < D + K ==> bs[k].0 < bs[k].1
  {
    seq(D, _ => (-BIG, BIG)) + seq(K, _ => (-1.0, 1.0))
  }

  predicate WithinBounds(x: seq<real>, bs: seq<(real, real)>) {
    |x| == |bs| && forall j :: 0 <= j < |x| ==> bs[j].0 <= x[j] <= bs[j].1
  }

  /** The starting point is feasible: inside the box bounds, with strictly
      increasing thresholds that satisfy every ordering constraint strictly. */
  lemma StartPointFeasible(D: nat, K: nat)
    requires K >= 2
    ensures WithinBounds(StartPoint(D, K), Bounds(D, K))
    ensures Thresholds(StartPoint(D, K), D) == Linspace(-1.0, 1.0, K)
    ensures StrictlyIncreasing(Thresholds(StartPoint(D, K), D))
    ensures forall k :: 0 <= k < K - 1 ==> IneqCons(StartPoint(D, K), D)[k] > 0.0
  {
    var x0, bs := StartPoint(D, K), Bounds(D, K);
    LinspaceSpans(K);
    assert Thresholds(x0, D) == Linspace(-1.0, 1.0, K);
    forall j | 0 <= j < |x0| ensures bs[j].0 <= x0[j] <= bs[j].1 {
      if j >= D {
        assert x0[j] == Linspace(-1.0, 1.0, K)[j - D];
      }
    }
    ConstraintsStrictMeanIncreasing(x0, D);
  }

  /** What the driver hands to the solver, and what it keeps for afterwards. */
  datatype Problem = Problem(
    X: seq<seq<real>>,           // features in label order
    labels: seq<int>,            // dense ranks 0..K-1, in label order
    x0: seq<real>,               // starting point
    bounds: seq<(real, real)>,   // box bounds
    idxInv: seq<int>)            // inverse of the sort permutation

  /** Reordering the samples leaves the distinct labels as they were. */
  lemma PermutedLabelsSameClasses(y: seq<int>, idx: seq<int>)
    requires IsPermutation(idx) && |idx| == |y|
    ensures Unique(AsReals(Gather(y, idx))) == Unique(AsReals(y))
    ensures UniqueInts(Gather(y, idx)) == UniqueInts(y)
  {
    var ys := Gather(y, idx);
    var s, t := AsReals(ys), AsReals(y);
    forall z ensures z in s <==> z in t {
      if z in t {
        var j :| 0 <= j < |t| && t[j] == z;
        assert j in idx;
        var i :| 0 <= i < |idx| && idx[i] == j;
        assert s[i] == z;
      }
      if z in s {
        var i :| 0 <= i < |s| && s[i] == z;
        assert t[idx[i]] == z;
      }
    }
    UniqueBySet(s, t);
    var u, v := UniqueInts(ys), UniqueInts(y);
    assert AsReals(u) == AsReals(v);
    assert |u| == |v|;
    forall k | 0 <= k < |u| ensures u[k] == v[k] {
      assert AsReals(u)[k] == AsReals(v)[k];
    }
  }

  /** Lines 75-90, `idx` being the result of `np.argsort(y)`. */
  method Prepare(X: seq<seq<real>>, D: nat, y: seq<int>, idx: seq<int>) returns (p: Problem)
    requires IsMatrix(X, D) && |X| == |y| && SortsBy(idx, y)
    ensures var K := |UniqueInts(y)|;
      && p.X == Gather(X, idx)
      && p.labels == DenseRanks(Gather(y, idx))
      && p.x0 == StartPoint(D, K)
      && p.bounds == Bounds(D, K)
      && |p.idxInv| == |y|
      && (forall i :: 0 <= i < |y| ==> 0 <= p.idxInv[i] < |y| && idx[p.idxInv[i]] == i)
    ensures forall i, j :: 0 <= i < j < |y| ==> p.labels[i] <= p.labels[j]
    ensures var u := UniqueInts(y);
      p.labels == RelabelRounds(Gather(y, idx), u, |u|) <==> forall k :: 0 <= k < |u| ==> !(0 <= u[k] < k)
  {
    var inv := InvertPermutation(idx);
    var ys := Gather(y, idx);
    var labels := new int[|ys|](j requires 0 <= j < |ys| => ys[j]);
    assert labels[..] == ys;
    DenseRelabel(labels);
    var ranks := labels[..];
    var K := |UniqueInts(ys)|;
    PermutedLabelsSameClasses(y, idx);
    var x0 := InitialPoint(D, K);
    p := Problem(Gather(X, idx), ranks, x0, Bounds(D, K), inv);
    SortedRanksNonDecreasing(y, idx);
    SortedRelabelAsWritten(y, idx);
  }

  /** After the sort, the ranks of the labels are non-decreasing. */
  lemma SortedRanksNonDecreasing(y: seq<int>, idx: seq<int>)
    requires SortsBy(idx, y)
    ensures var r := DenseRanks(Gather(y, idx));
      forall i, j :: 0 <= i < j < |r| ==> r[i] <= r[j]
  {
    var ys := Gather(y, idx);
    assert forall i, j :: 0 <= i < j < |ys| ==> ys[i] <= ys[j];
    RanksOfSortedLabels(ys);
  }

  /** The sorted labels' ranks agree with the loop as written exactly when no
      distinct label u[k] lies in [0, k). */
  lemma SortedRelabelAsWritten(y: seq<int>, idx: seq<int>)
    requires SortsBy(idx, y)
    ensures var u, ys := UniqueInts(y), Gather(y, idx);
      DenseRanks(ys) == RelabelRounds(ys, u, |u|) <==> forall k :: 0 <= k < |u| ==> !(0 <= u[k] < k)
  {
    PermutedLabelsSameClasses(y, idx);
    RelabelAsWrittenIff(Gather(y, idx));
  }

  /** Labels in sorted order get non-decreasing ranks. */
  lemma RanksOfSortedLabels(ys: seq<int>)
    requires forall i, j :: 0 <= i < j < |ys| ==> ys[i] <= ys[j]
    ensures forall i, j :: 0 <= i < j < |ys| ==> DenseRanks(ys)[i] <= DenseRanks(ys)[j]
  {
    forall i, j | 0 <= i < j < |ys| ensures DenseRanks(ys)[i] <= DenseRanks(ys)[j] {
      RankOrder(AsReals(ys), ys[i] as real, ys[j] as real);
    }
  }

  /** Lines 95-96: split the solver's result and hand each sample the
      threshold of its class, in the caller's sample order. */
  function Recover(out: seq<real>, D: nat, labels: seq<int>, idxInv: seq<int>): (r: (seq<real>, seq<real>))
    requires forall j :: 0 <= j < |labels| ==> 0 <= labels[j] < |Thresholds(out, D)|
    requires forall i :: 0 <= i < |idxInv| ==> 0 <= idxInv[i] < |labels|
    ensures r.0 + Thresholds(out, D) == out
    ensures |r.1| == |idxInv|
    ensures forall i :: 0 <= i < |idxInv| ==>
      D + labels[idxInv[i]] < |out| && r.1[i] == out[D + labels[idxInv[i]]]
  {
    (Weights(out, D), Gather(Gather(Thresholds(out, D), labels), idxInv))
  }

  /** Whatever the solver returns, sample j of the caller's input receives the
      fitted threshold of its own class (the rank of its original label). */
  lemma RecoverInOriginalOrder(X: seq<seq<real>>, D: nat, y: seq<int>, idx: seq<int>, p: Problem, out: seq<real>)
    requires SortsBy(idx, y)
    requires p.labels == DenseRanks(Gather(y, idx))
    requires |p.idxInv| == |y| && forall i :: 0 <= i < |y| ==> 0 <= p.idxInv[i] < |y| && idx[p.idxInv[i]] == i
    requires |out| == D + |UniqueInts(y)|
    ensures forall j :: 0 <= j < |p.labels| ==> 0 <= p.labels[j] < |Thresholds(out, D)|
    ensures var r := Recover(out, D, p.labels, p.idxInv);
      && r.0 == out[..D]
      && |r.1| == |y|
      && forall j :: 0 <= j < |y| ==> r.1[j] == out[D + DenseRanks(y)[j]]
  {
    var ys := Gather(y, idx);
    PermutedLabelsSameClasses(y, idx);
    DenseRanksFaithful(ys);
    DenseRanksFaithful(y);
    var r := Recover(out, D, p.labels, p.idxInv);
    forall j | 0 <= j < |y| ensures r.1[j] == out[D + DenseRanks(y)[j]] {
      RankAfterSort(y, idx, p.idxInv[j], j);
    }
  }

  /** Sorting does not change a sample's rank: position i of the sorted labels
      holds sample idx[i], with the same rank. */
  lemma RankAfterSort(y: seq<int>, idx: seq<int>, i: nat, j: nat)
    requires SortsBy(idx, y) && i < |idx| && idx[i] == j
    ensures DenseRanks(Gather(y, idx))[i] == DenseRanks(y)[j]
  {
    var ys := Gather(y, idx);
    PermutedLabelsSameClasses(y, idx);
    assert AsReals(ys)[i] == AsReals(y)[j];
  }
}
