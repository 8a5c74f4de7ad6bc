/**
 * Real-valued vectors and matrices: the mathematical meaning of the fraction
 * matrices the Markov-chain solver computes with.  Only what the proofs need:
 * dot products, columns, and how a dot product reacts to the two row
 * operations of Gauss-Jordan elimination.
 */
module Matrices {

  /** Every row of `a` has `cols` entries. */
  predicate Rectangular<T>(a: seq<seq<T>>, cols: nat) {
    forall i :: 0 <= i < |a| ==> |a[i]| == cols
  }

  /** Sum of u[k] * v[k]. */
  function Dot(u: seq<real>, v: seq<real>): real
    requires |u| == |v|
    decreases |u|
  {
    if |u| == 0 then 0.0 else Dot(u[..|u| - 1], v[..|v| - 1]) + u[|u| - 1] * v[|v| - 1]
  }

  /** Sum of the entries of a vector. */
  function Sum(v: seq<real>): real
    decreases |v|
  {
    if |v| == 0 then 0.0 else Sum(v[..|v| - 1]) + v[|v| - 1]
  }

  /** Column j of a matrix. */
  function Column(a: seq<seq<real>>, j: nat): (c: seq<real>)
    requires forall i :: 0 <= i < |a| ==> j < |a[i]|
    ensures |c| == |a| && forall i :: 0 <= i < |a| ==> c[i] == a[i][j]
  {
    seq(|a|, i requires 0 <= i < |a| => a[i][j])
  }

  /** The entry (i, j) of the identity matrix. */
  function Delta(i: int, j: int): real {
    if i == j then 1.0 else 0.0
  }

  /** Scaling one side scales the dot product. */
  lemma {:induction false} DotScale(u: seq<real>, v: seq<real>, s: real, su: seq<real>)
    requires |u| == |v| == |su|
    requires forall k :: 0 <= k < |u| ==> su[k] == u[k] * s
    ensures Dot(su, v) == Dot(u, v) * s
    decreases |u|
  {
    if |u| > 0 {
      var n := |u| - 1;
      DotScale(u[..n], v[..n], s, su[..n]);
    }
  }

  /** Subtracting c times w from u subtracts c times w's dot product. */
  lemma {:induction false} DotSubMultiple(u: seq<real>, w: seq<real>, c: real, d: seq<real>, v: seq<real>)
    requires |u| == |w| == |d| == |v|
    requires forall k :: 0 <= k < |u| ==> d[k] == u[k] - c * w[k]
    ensures Dot(d, v) == Dot(u, v) - c * Dot(w, v)
    decreases |u|
  {
    if |u| > 0 {
      var n := |u| - 1;
      DotSubMultiple(u[..n], w[..n], c, d[..n], v[..n]);
    }
  }

  /** A row of the identity picks one entry. */
  lemma {:induction false} DotUnit(e: seq<real>, v: seq<real>, i: nat)
    requires |e| == |v| && i < |e|
    requires forall k :: 0 <= k < |e| ==> e[k] == Delta(i, k)
    ensures Dot(e, v) == v[i]
    decreases |e|
  {
    var n := |e| - 1;
    if i < n {
      DotUnit(e[..n], v[..n], i);
    } else {
      DotZero(e[..n], v[..n]);
    }
  }

  lemma {:induction false} DotZero(e: seq<real>, v: seq<real>)
    requires |e| == |v|
    requires forall k :: 0 <= k < |e| ==> e[k] == 0.0
    ensures Dot(e, v) == 0.0
    decreases |e|
  {
    if |e| > 0 {
      DotZero(e[..|e| - 1], v[..|v| - 1]);
    }
  }
}
