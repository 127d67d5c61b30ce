/** The sorted distinct values of a vector, as `np.unique` returns them, and the
    rank of a value among them. Defined once over `real`; integer labels are
    carried over with `AsReals`. */
module Distinct {

  predicate StrictlyIncreasing(u: seq<real>) {
    forall i, j :: 0 <= i < j < |u| ==> u[i] < u[j]
  }

  /** Inserts `x` into the sorted distinct vector `u`, unless it is already there. */
  function Insert(u: seq<real>, x: real): (r: seq<real>)
    requires StrictlyIncreasing(u)
    ensures StrictlyIncreasing(r)
    ensures forall z :: z in r <==> z in u || z == x
    ensures |r| <= |u| + 1
  {
    if u == [] then [x]
    else if x < u[0] then [x] + u
    else if x == u[0] then u
    else
      var tail := Insert(u[1..], x);
      assert forall j :: 0 <= j < |tail| ==> u[0] < tail[j] by {
        forall j | 0 <= j < |tail| ensures u[0] < tail[j] {
          assert tail[j] in tail;
        }
      }
      [u[0]] + tail
  }

  /** `np.unique`: the distinct values of `s` in increasing order. */
  function Unique(s: seq<real>): (u: seq<real>)
    ensures StrictlyIncreasing(u)
    ensures forall z :: z in u <==> z in s
    ensures |u| <= |s| && (|s| > 0 ==> |u| > 0)
  {
    if s == [] then []
    else
      var init := s[..|s| - 1];
      assert s == init + [s[|s| - 1]];
      var u := Insert(Unique(init), s[|s| - 1]);
      assert s[|s| - 1] in u;
      u
  }

  /** The position of `x` in `u`: the first one, and for a distinct vector the only one. */
  function IndexOf(u: seq<real>, x: real): (k: nat)
    requires x in u
    ensures k < |u| && u[k] == x
    ensures forall j :: 0 <= j < k ==> u[j] != x
  {
    if u[0] == x then 0 else 1 + IndexOf(u[1..], x)
  }

  /** Rank of a value of `s` among the distinct values of `s`. */
  function Rank(s: seq<real>, x: real): (k: nat)
    requires x in s
    ensures k < |Unique(s)| && Unique(s)[k] == x
  {
    IndexOf(Unique(s), x)
  }

  /** In a strictly increasing vector each value sits at exactly one position. */
  lemma IndexOfIncreasing(u: seq<real>, k: nat)
    requires StrictlyIncreasing(u) && k < |u|
    ensures IndexOf(u, u[k]) == k
  {
  }

  lemma HeadIsMember(s: seq<real>)
    ensures s == [] || s[0] in s
  {
  }

  /** A strictly increasing vector is determined by its set of values. */
  lemma {:induction false} SortedDistinctEqual(a: seq<real>, b: seq<real>)
    requires StrictlyIncreasing(a) && StrictlyIncreasing(b)
    requires forall z :: z in a <==> z in b
    ensures a == b
  {
    if a == [] {
      HeadIsMember(b);
    } else {
      assert a[0] == b[0] by {
        assert a[0] in a;
        assert b[0] in b;
        var i :| 0 <= i < |a| && a[i] == b[0];
        var k :| 0 <= k < |b| && b[k] == a[0];
        assert a[0] <= a[i] && b[0] <= b[k];
      }
      forall z
        ensures z in a[1..] <==> z in b[1..]
      {
        assert z in a[1..] <==> z in a && z != a[0];
        assert z in b[1..] <==> z in b && z != b[0];
      }
      SortedDistinctEqual(a[1..], b[1..]);
      assert a == [a[0]] + a[1..];
      assert b == [b[0]] + b[1..];
    }
  }

  /** Passing an already sorted distinct vector through `np.unique` changes nothing. */
  lemma UniqueOfIncreasing(v: seq<real>)
    requires StrictlyIncreasing(v)
    ensures Unique(v) == v
  {
    SortedDistinctEqual(Unique(v), v);
  }

  /** `np.unique` depends on the set of values only, not on order or multiplicity. */
  lemma UniqueBySet(s: seq<real>, t: seq<real>)
    requires forall z :: z in s <==> z in t
    ensures Unique(s) == Unique(t)
  {
    SortedDistinctEqual(Unique(s), Unique(t));
  }

  lemma UniqueIdempotent(s: seq<real>)
    ensures Unique(Unique(s)) == Unique(s)
  {
    UniqueOfIncreasing(Unique(s));
  }

  /** Ranks order samples exactly as their values do. */
  lemma RankOrder(s: seq<real>, x: real, z: real)
    requires x in s && z in s
    ensures x < z <==> Rank(s, x) < Rank(s, z)
    ensures x == z <==> Rank(s, x) == Rank(s, z)
  {
    var u, i, k := Unique(s), Rank(s, x), Rank(s, z);
    assert i < k ==> u[i] < u[k];
    assert k < i ==> u[k] < u[i];
  }

  /** Every rank below the number of distinct values is the rank of some value. */
  lemma RankOnto(s: seq<real>, k: nat)
    requires k < |Unique(s)|
    ensures Unique(s)[k] in s && Rank(s, Unique(s)[k]) == k
  {
    IndexOfIncreasing(Unique(s), k);
  }

  /** Integer labels viewed as reals, so that `np.unique` of labels is `Unique`. */
  function AsReals(y: seq<int>): (r: seq<real>)
    ensures |r| == |y| && forall j :: 0 <= j < |y| ==> r[j] == y[j] as real
  {
    seq(|y|, j requires 0 <= j < |y| => y[j] as real)
  }

  /** `np.unique` of an integer vector. */
  function UniqueInts(y: seq<int>): (u: seq<int>)
    ensures AsReals(u) == Unique(AsReals(y))
    ensures forall i, j :: 0 <= i < j < |u| ==> u[i] < u[j]
    ensures forall n :: n in u <==> n in y
  {
    var ur := Unique(AsReals(y));
    var u := seq(|ur|, k requires 0 <= k < |ur| => ur[k].Floor);
    assert forall k :: 0 <= k < |ur| ==> u[k] as real == ur[k] by {
      forall k | 0 <= k < |ur| ensures u[k] as real == ur[k] {
        assert ur[k] in AsReals(y);
      }
    }
    assert AsReals(u) == ur;
    forall n ensures n in u <==> n in y {
      if n in y {
        var j :| 0 <= j < |y| && y[j] == n;
        assert AsReals(y)[j] == n as real;
        var k := IndexOf(ur, n as real);
        assert u[k] == n;
      }
      if n in u {
        var k :| 0 <= k < |u| && u[k] == n;
        assert ur[k] in AsReals(y);
      }
    }
    u
  }
}
