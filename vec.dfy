/** Vector and matrix arithmetic over `real` used in place of numpy's array
    operations. A matrix is a sequence of rows. */
module Vec {

  /** numpy fancy indexing `v[idx]`: the entries of `v` at the positions `idx`. */
  function Gather<T>(v: seq<T>, idx: seq<int>): (r: seq<T>)
    requires forall j :: 0 <= j < |idx| ==> 0 <= idx[j] < |v|
    ensures |r| == |idx| && forall j :: 0 <= j < |idx| ==> r[j] == v[idx[j]]
  {
    seq(|idx|, j requires 0 <= j < |idx| => v[idx[j]])
  }

  function Zeros(n: nat): (r: seq<real>)
    ensures |r| == n && forall j :: 0 <= j < n ==> r[j] == 0.0
  {
    seq(n, _ => 0.0)
  }

  /** `e = np.zeros(n); e[p] = 1.`: the unit vector with its one at `p`. */
  function Unit(n: nat, p: int): (e: seq<real>)
    ensures |e| == n && forall j :: 0 <= j < n ==> e[j] == if j == p then 1.0 else 0.0
  {
    seq(n, j => if j == p then 1.0 else 0.0)
  }

  function Add(u: seq<real>, v: seq<real>): (r: seq<real>)
    requires |u| == |v|
    ensures |r| == |u| && forall j :: 0 <= j < |u| ==> r[j] == u[j] + v[j]
  {
    seq(|u|, j requires 0 <= j < |u| => u[j] + v[j])
  }

  function Negate(v: seq<real>): (r: seq<real>)
    ensures |r| == |v| && forall j :: 0 <= j < |v| ==> r[j] == -v[j]
  {
    seq(|v|, j requires 0 <= j < |v| => -v[j])
  }

  /** Sum of the entries of `v`, accumulated from the front. */
  function Sum(v: seq<real>): real
  {
    if v == [] then 0.0 else Sum(v[..|v| - 1]) + v[|v| - 1]
  }

  /** Inner product, accumulated from the front. */
  function Dot(u: seq<real>, v: seq<real>): real
    requires |u| == |v|
  {
    if u == [] then 0.0 else Dot(u[..|u| - 1], v[..|v| - 1]) + u[|u| - 1] * v[|v| - 1]
  }

  predicate IsMatrix(M: seq<seq<real>>, cols: nat) {
    forall i :: 0 <= i < |M| ==> |M[i]| == cols
  }

  /** Matrix-vector product `M.dot(v)`. */
  function MatVec(M: seq<seq<real>>, v: seq<real>): (r: seq<real>)
    requires IsMatrix(M, |v|)
    ensures |r| == |M| && forall i :: 0 <= i < |M| ==> r[i] == Dot(M[i], v)
  {
    seq(|M|, i requires 0 <= i < |M| => Dot(M[i], v))
  }

  /** Column `d` of `M`. */
  function Column(M: seq<seq<real>>, cols: nat, d: nat): (r: seq<real>)
    requires IsMatrix(M, cols) && d < cols
    ensures |r| == |M| && forall i :: 0 <= i < |M| ==> r[i] == M[i][d]
  {
    seq(|M|, i requires 0 <= i < |M| => M[i][d])
  }
}
