/**
 * `doomsday_fuel`: absorption probabilities of an absorbing Markov chain,
 * starting from state 0, in exact fractions.
 *
 * The first half of the module is the specification of the pipeline as
 * functions: classification of the states, the reordered transition matrix
 * P, its blocks Q and R, the fundamental matrix N = (I - Q)^-1, the row of
 * absorption probabilities N[0] * R, and the common-denominator
 * normalisation.  The second half is the class `AbsorbingMarkovChain` and
 * `Solution`, the loops of the source, each proved to compute what the
 * specification says.
 */
module DoomsdayFuel {
  import opened Fractions
  import opened Matrices
  import opened GaussJordan

  /** Every row has one weight per state. */
  predicate IsSquareInt(m: seq<seq<int>>) {
    forall i :: 0 <= i < |m| ==> |m[i]| == |m|
  }

  /** Python's `sum(row)`. */
  function RowSum(row: seq<int>): int
    decreases |row|
  {
    if |row| == 0 then 0 else RowSum(row[..|row| - 1]) + row[|row| - 1]
  }

  /** Strictly increasing: indices listed in their original order. */
  predicate Increasing(s: seq<nat>) {
    forall a, b :: 0 <= a < b < |s| ==> s[a] < s[b]
  }

  /** `trans_indices` after the first k rows: the rows with a non-zero sum. */
  function TransientIndices(m: seq<seq<int>>, k: nat): (r: seq<nat>)
    requires k <= |m|
    ensures forall x {:trigger x in r} :: x in r <==> 0 <= x < k && RowSum(m[x]) != 0
    ensures forall a :: 0 <= a < |r| ==> r[a] < k
    ensures Increasing(r)
  {
    if k == 0 then []
    else
      var prev := TransientIndices(m, k - 1);
      assert forall a :: 0 <= a < |prev| ==> prev[a] < k - 1 by {
        forall a | 0 <= a < |prev| ensures prev[a] < k - 1 { assert prev[a] in prev; }
      }
      prev + (if RowSum(m[k - 1]) != 0 then [k - 1] else [])
  }

  /** `abs_indices` after the first k rows: the rows whose sum is zero. */
  function AbsorbingIndices(m: seq<seq<int>>, k: nat): (r: seq<nat>)
    requires k <= |m|
    ensures forall x {:trigger x in r} :: x in r <==> 0 <= x < k && RowSum(m[x]) == 0
    ensures forall a :: 0 <= a < |r| ==> r[a] < k
    ensures Increasing(r)
  {
    if k == 0 then []
    else
      var prev := AbsorbingIndices(m, k - 1);
      assert forall a :: 0 <= a < |prev| ==> prev[a] < k - 1 by {
        forall a | 0 <= a < |prev| ensures prev[a] < k - 1 { assert prev[a] in prev; }
      }
      prev + (if RowSum(m[k - 1]) == 0 then [k - 1] else [])
  }

  /** Every row is classified exactly once: the two lists together have k entries. */
  lemma {:induction false} ClassificationSize(m: seq<seq<int>>, k: nat)
    requires k <= |m|
    ensures |TransientIndices(m, k)| + |AbsorbingIndices(m, k)| == k
  {
    if k > 0 {
      ClassificationSize(m, k - 1);
      ClassifyStep(m, k);
    }
  }

  /** `new_col_order`: transient states first, then absorbing ones. */
  function StateOrder(m: seq<seq<int>>): (order: seq<nat>)
    ensures |order| == |m|
    ensures forall x :: x in order <==> 0 <= x < |m|
    ensures forall a :: 0 <= a < |order| ==> order[a] < |m|
    ensures forall a, b :: 0 <= a < b < |order| ==> order[a] != order[b]
  {
    ClassificationSize(m, |m|);
    var order := TransientIndices(m, |m|) + AbsorbingIndices(m, |m|);
    OrderDistinct(m, order);
    order
  }

  lemma OrderDistinct(m: seq<seq<int>>, order: seq<nat>)
    requires order == TransientIndices(m, |m|) + AbsorbingIndices(m, |m|)
    ensures forall a, b :: 0 <= a < b < |order| ==> order[a] != order[b]
  {
    var t, z := TransientIndices(m, |m|), AbsorbingIndices(m, |m|);
    forall a, c | 0 <= a < |t| && 0 <= c < |z| ensures t[a] != z[c] {
      assert t[a] in t && z[c] in z;
    }
    DistinctConcat(t, z);
  }

  /** Indexing into a concatenation, stated on plain variables. */
  lemma ConcatIndex(t: seq<nat>, z: seq<nat>, order: seq<nat>)
    requires order == t + z
    ensures |order| == |t| + |z|
    ensures forall a :: 0 <= a < |t| ==> order[a] == t[a]
    ensures forall c :: 0 <= c < |z| ==> order[|t| + c] == z[c]
  {
  }

  /** Two increasing lists with no common entry concatenate to a list without repeats. */
  lemma DistinctConcat(t: seq<nat>, z: seq<nat>)
    requires Increasing(t) && Increasing(z)
    requires forall a, c :: 0 <= a < |t| && 0 <= c < |z| ==> t[a] != z[c]
    ensures forall a, b :: 0 <= a < b < |t + z| ==> (t + z)[a] != (t + z)[b]
  {
    forall a, b | 0 <= a < b < |t + z| ensures (t + z)[a] != (t + z)[b] {
      if b < |t| {
        assert t[a] < t[b];
      } else if a >= |t| {
        assert z[a - |t|] < z[b - |t|];
      } else {
        assert t[a] != z[b - |t|];
      }
    }
  }

  /** The number of transient states, `n_transient`. */
  function TransientCount(m: seq<seq<int>>): (t: nat)
    ensures t <= |m|
    ensures |m| > 0 && RowSum(m[0]) != 0 ==> t > 0
  {
    ClassificationSize(m, |m|);
    assert |m| > 0 && RowSum(m[0]) != 0 ==> 0 in TransientIndices(m, |m|);
    |TransientIndices(m, |m|)|
  }

  /** A row of weights as probabilities: divided by its sum, or all zero if the sum is zero. */
  function ProbabilityRow(row: seq<int>): (r: seq<Fraction>)
    ensures |r| == |row|
    ensures RowSum(row) != 0 ==> forall j :: 0 <= j < |row| ==> Value(r[j]) == row[j] as real / RowSum(row) as real
    ensures RowSum(row) == 0 ==> forall j :: 0 <= j < |row| ==> Value(r[j]) == 0.0
  {
    if RowSum(row) == 0 then seq(|row|, _ => Zero)
    else seq(|row|, j requires 0 <= j < |row| => Make(row[j], RowSum(row)))
  }

  /** The entries of a row taken in the given column order (`[row[j] for j in new_col_order]`). */
  function Permute<T>(row: seq<T>, order: seq<nat>): (r: seq<T>)
    requires forall a :: 0 <= a < |order| ==> order[a] < |row|
    ensures |r| == |order| && forall j :: 0 <= j < |order| ==> r[j] == row[order[j]]
  {
    seq(|order|, j requires 0 <= j < |order| => row[order[j]])
  }

  /** The probability rows of the states listed in `idx`, in that order. */
  function ProbabilityRows(m: seq<seq<int>>, idx: seq<nat>): (rows: seq<seq<Fraction>>)
    requires forall a :: 0 <= a < |idx| ==> idx[a] < |m|
    ensures |rows| == |idx| && forall a :: 0 <= a < |idx| ==> rows[a] == ProbabilityRow(m[idx[a]])
  {
    seq(|idx|, a requires 0 <= a < |idx| => ProbabilityRow(m[idx[a]]))
  }

  lemma ProbabilityRowsAppend(m: seq<seq<int>>, idx: seq<nat>, x: nat)
    requires x < |m| && forall a :: 0 <= a < |idx| ==> idx[a] < |m|
    ensures ProbabilityRows(m, idx + [x]) == ProbabilityRows(m, idx) + [ProbabilityRow(m[x])]
  {
  }

  lemma ProbabilityRowsConcat(m: seq<seq<int>>, a: seq<nat>, b: seq<nat>)
    requires forall k :: 0 <= k < |a| ==> a[k] < |m|
    requires forall k :: 0 <= k < |b| ==> b[k] < |m|
    ensures ProbabilityRows(m, a + b) == ProbabilityRows(m, a) + ProbabilityRows(m, b)
  {
  }

  /** Every row with its columns in the given order. */
  function PermuteColumns(rows: seq<seq<Fraction>>, order: seq<nat>): (r: FMatrix)
    requires forall a, k :: 0 <= a < |rows| && 0 <= k < |order| ==> order[k] < |rows[a]|
    ensures |r| == |rows| && forall a :: 0 <= a < |rows| ==> r[a] == Permute(rows[a], order)
  {
    seq(|rows|, a requires 0 <= a < |rows| => Permute(rows[a], order))
  }

  /** The two classified lists, put together, give the state order and its probability rows. */
  lemma ClassifiedRows(m: seq<seq<int>>)
    requires IsSquareInt(m)
    ensures var t, a := TransientIndices(m, |m|), AbsorbingIndices(m, |m|);
      t + a == StateOrder(m) && |t| == TransientCount(m) && |t| + |a| == |m| &&
      ProbabilityRows(m, t) + ProbabilityRows(m, a) == ProbabilityRows(m, StateOrder(m))
    ensures forall r, k :: 0 <= r < |m| && 0 <= k < |m| ==> StateOrder(m)[k] < |ProbabilityRows(m, StateOrder(m))[r]|
  {
    ClassificationSize(m, |m|);
    ProbabilityRowsConcat(m, TransientIndices(m, |m|), AbsorbingIndices(m, |m|));
  }

  /** P: row i is the probability row of state order[i], with its columns taken in that order too. */
  function PMatrix(m: seq<seq<int>>): (p: FMatrix)
    requires IsSquareInt(m)
    ensures IsSquare(p, |m|)
  {
    var order := StateOrder(m);
    PermuteColumns(ProbabilityRows(m, order), order)
  }

  /** Q: the transitions between transient states, the top-left t-by-t block. */
  function QBlock(p: FMatrix, t: nat): (q: FMatrix)
    requires t <= |p| && Rectangular(p, |p|)
    ensures IsSquare(q, t)
    ensures forall i, j :: 0 <= i < t && 0 <= j < t ==> q[i][j] == p[i][j]
  {
    seq(t, i requires 0 <= i < t => p[i][..t])
  }

  /** R: the transitions from transient to absorbing states, the top-right block. */
  function RBlock(p: FMatrix, t: nat): (r: FMatrix)
    requires t <= |p| && Rectangular(p, |p|)
    ensures |r| == t && Rectangular(r, |p| - t)
    ensures forall i, j :: 0 <= i < t && 0 <= j < |p| - t ==> r[i][j] == p[i][t + j]
  {
    seq(t, i requires 0 <= i < t => p[i][t..])
  }

  /** I - Q, entry by entry. */
  function IMinusQ(q: FMatrix): (r: FMatrix)
    requires IsSquare(q, |q|)
    ensures IsSquare(r, |q|)
    ensures forall i, j :: 0 <= i < |q| && 0 <= j < |q| ==>
      Value(r[i][j]) == Delta(i, j) - Value(q[i][j])
  {
    seq(|q|, i requires 0 <= i < |q| =>
      seq(|q|, j requires 0 <= j < |q| => Sub(FromInt(if i == j then 1 else 0), q[i][j])))
  }

  /** The running `_sum` of N[0][j] * R[j][i] over the first k values of j. */
  function AbsorptionSum(n0: seq<Fraction>, r: FMatrix, i: nat, k: nat): (s: Fraction)
    requires k <= |n0| == |r| && forall j :: 0 <= j < |r| ==> i < |r[j]|
    ensures Value(s) == Dot(RowValues(n0[..k]), Column(Values(r[..k]), i))
    decreases k
  {
    if k == 0 then FromInt(0)
    else
      var s := Add(AbsorptionSum(n0, r, i, k - 1), Mul(n0[k - 1], r[k - 1][i]));
      AbsorptionStep(n0, r, i, k);
      s
  }

  /** One more term of the dot product: the prefixes of length k - 1 are what `Dot` recurses on. */
  lemma AbsorptionStep(n0: seq<Fraction>, r: FMatrix, i: nat, k: nat)
    requires 0 < k <= |n0| == |r| && forall j :: 0 <= j < |r| ==> i < |r[j]|
    ensures Dot(RowValues(n0[..k]), Column(Values(r[..k]), i))
      == Dot(RowValues(n0[..k - 1]), Column(Values(r[..k - 1]), i)) + Value(n0[k - 1]) * Value(r[k - 1][i])
  {
    var u, v := RowValues(n0[..k]), Column(Values(r[..k]), i);
    assert u[..k - 1] == RowValues(n0[..k - 1]);
    assert v[..k - 1] == Column(Values(r[..k - 1]), i);
  }

  /** The absorption probabilities from state 0: row 0 of N times R. */
  function AbsorptionRow(n: FMatrix, r: FMatrix): (probs: seq<Fraction>)
    requires |n| > 0 && |n[0]| == |r| > 0 && Rectangular(r, |r[0]|)
    ensures |probs| == |r[0]|
    ensures forall i :: 0 <= i < |r[0]| ==> Value(probs[i]) == Dot(RowValues(n[0]), Column(Values(r), i))
  {
    var probs := seq(|r[0]|, i requires 0 <= i < |r[0]| => AbsorptionSum(n[0], r, i, |r|));
    assert n[0][..|r|] == n[0] && r[..|r|] == r;
    probs
  }

  /** Row i of P comes from state order[i]; it is a transient state exactly when i < n_transient. */
  lemma PTransientEntry(m: seq<seq<int>>, i: nat, j: nat)
    requires IsSquareInt(m) && i < TransientCount(m) && j < |m|
    ensures RowSum(m[StateOrder(m)[i]]) != 0
    ensures Value(PMatrix(m)[i][j])
      == m[StateOrder(m)[i]][StateOrder(m)[j]] as real / RowSum(m[StateOrder(m)[i]]) as real
  {
    var t, order := TransientIndices(m, |m|), StateOrder(m);
    ClassificationSize(m, |m|);
    ConcatIndex(t, AbsorbingIndices(m, |m|), order);
    assert order[i] == t[i] && t[i] in t;
    PEntry(m, i, j);
  }

  /** The rows of P below n_transient belong to absorbing states and are all zero. */
  lemma PAbsorbingRow(m: seq<seq<int>>, i: nat)
    requires IsSquareInt(m) && TransientCount(m) <= i < |m|
    ensures RowSum(m[StateOrder(m)[i]]) == 0
    ensures forall j :: 0 <= j < |m| ==> Value(PMatrix(m)[i][j]) == 0.0
  {
    var t, z, order := TransientIndices(m, |m|), AbsorbingIndices(m, |m|), StateOrder(m);
    ClassificationSize(m, |m|);
    ConcatIndex(t, z, order);
    assert order[|t| + (i - |t|)] == z[i - |t|] && z[i - |t|] in z;
    forall j | 0 <= j < |m| ensures Value(PMatrix(m)[i][j]) == 0.0 {
      PEntry(m, i, j);
    }
  }

  /** Entry (i, j) of P is entry order[j] of the probability row of state order[i]. */
  lemma PEntry(m: seq<seq<int>>, i: nat, j: nat)
    requires IsSquareInt(m) && i < |m| && j < |m|
    ensures StateOrder(m)[j] < |ProbabilityRow(m[StateOrder(m)[i]])|
    ensures PMatrix(m)[i][j] == ProbabilityRow(m[StateOrder(m)[i]])[StateOrder(m)[j]]
  {
  }


  lemma {:induction false} RowSumAppend(a: seq<int>, b: seq<int>)
    ensures RowSum(a + b) == RowSum(a) + RowSum(b)
    decreases |b|
  {
    if |b| == 0 {
      assert a + b == a;
    } else {
      assert (a + b)[..|a + b| - 1] == a + b[..|b| - 1];
      RowSumAppend(a, b[..|b| - 1]);
    }
  }

  lemma PermuteAppend(row: seq<int>, idx: seq<nat>, x: nat)
    requires x < |row| && forall a :: 0 <= a < |idx| ==> idx[a] < |row|
    ensures RowSum(Permute(row, idx + [x])) == RowSum(Permute(row, idx)) + row[x]
  {
    assert Permute(row, idx + [x]) == Permute(row, idx) + [row[x]];
    RowSumAppend(Permute(row, idx), [row[x]]);
  }

  /** Row k - 1 joins exactly one of the two lists. */
  lemma ClassifyStep(m: seq<seq<int>>, k: nat)
    requires 0 < k <= |m|
    ensures RowSum(m[k - 1]) != 0 ==>
      TransientIndices(m, k) == TransientIndices(m, k - 1) + [k - 1] &&
      AbsorbingIndices(m, k) == AbsorbingIndices(m, k - 1)
    ensures RowSum(m[k - 1]) == 0 ==>
      TransientIndices(m, k) == TransientIndices(m, k - 1) &&
      AbsorbingIndices(m, k) == AbsorbingIndices(m, k - 1) + [k - 1]
  {
  }

  /** Splitting the first k entries of a row by the classification keeps their sum. */
  lemma {:induction false} ClassifiedSum(m: seq<seq<int>>, row: seq<int>, k: nat)
    requires k <= |m| <= |row|
    ensures RowSum(Permute(row, TransientIndices(m, k))) + RowSum(Permute(row, AbsorbingIndices(m, k)))
      == RowSum(row[..k])
  {
    if k > 0 {
      ClassifiedSum(m, row, k - 1);
      PrefixSum(row, k);
      ClassifyStep(m, k);
      if RowSum(m[k - 1]) != 0 {
        PermuteAppend(row, TransientIndices(m, k - 1), k - 1);
      } else {
        PermuteAppend(row, AbsorbingIndices(m, k - 1), k - 1);
      }
    }
  }

  lemma PrefixSum(row: seq<int>, k: nat)
    requires 0 < k <= |row|
    ensures RowSum(row[..k]) == RowSum(row[..k - 1]) + row[k - 1]
  {
    assert row[..k][..k - 1] == row[..k - 1];
  }

  lemma PermuteConcat(row: seq<int>, a: seq<nat>, b: seq<nat>)
    requires forall x :: 0 <= x < |a| ==> a[x] < |row|
    requires forall x :: 0 <= x < |b| ==> b[x] < |row|
    ensures RowSum(Permute(row, a + b)) == RowSum(Permute(row, a)) + RowSum(Permute(row, b))
  {
    assert Permute(row, a + b) == Permute(row, a) + Permute(row, b);
    RowSumAppend(Permute(row, a), Permute(row, b));
  }

  /** Reordering a row by the state order does not change its sum. */
  lemma ReorderedSum(m: seq<seq<int>>, row: seq<int>)
    requires |row| == |m|
    ensures RowSum(Permute(row, StateOrder(m))) == RowSum(row)
  {
    var t, z := TransientIndices(m, |m|), AbsorbingIndices(m, |m|);
    PermuteConcat(row, t, z);
    ClassifiedSum(m, row, |m|);
    assert row[..|m|] == row;
  }

  lemma {:induction false} SumDivided(v: seq<real>, g: seq<int>, s: int)
    requires s != 0 && |v| == |g|
    requires forall j :: 0 <= j < |v| ==> v[j] == g[j] as real / s as real
    ensures Sum(v) == RowSum(g) as real / s as real
    decreases |v|
  {
    if |v| > 0 {
      var n := |v| - 1;
      SumDivided(v[..n], g[..n], s);
    }
  }

  lemma UnitSum(v: seq<real>, g: seq<int>, s: int)
    requires s != 0 && |v| == |g| && RowSum(g) == s
    requires forall j :: 0 <= j < |v| ==> v[j] == g[j] as real / s as real
    ensures Sum(v) == 1.0
  {
    SumDivided(v, g, s);
    SelfQuotient(s as real);
  }

  lemma SelfQuotient(x: real)
    requires x != 0.0
    ensures x / x == 1.0
  {
  }

  /** Each transient row of P is a probability distribution: its entries sum to exactly 1. */
  lemma PTransientRowSumsToOne(m: seq<seq<int>>, i: nat)
    requires IsSquareInt(m) && i < TransientCount(m)
    ensures Sum(RowValues(PMatrix(m)[i])) == 1.0
  {
    var order := StateOrder(m);
    var row := m[order[i]];
    PTransientEntry(m, i, 0);
    var s := RowSum(row);
    var v, g := RowValues(PMatrix(m)[i]), Permute(row, order);
    assert |v| == |g| == |m|;
    forall j | 0 <= j < |m| ensures v[j] == g[j] as real / s as real {
      PTransientEntry(m, i, j);
    }
    ReorderedSum(m, row);
    UnitSum(v, g, s);
  }

  /**
   * Q in terms of the input: Q[i][j] is the weight from the i-th to the j-th
   * transient state over the sum of the i-th transient state's row.
   */
  lemma QEntry(m: seq<seq<int>>, i: nat, j: nat)
    requires IsSquareInt(m) && i < TransientCount(m) && j < TransientCount(m)
    ensures var t := TransientIndices(m, |m|);
      RowSum(m[t[i]]) != 0 &&
      Value(QBlock(PMatrix(m), |t|)[i][j]) == m[t[i]][t[j]] as real / RowSum(m[t[i]]) as real
  {
    var t, z := TransientIndices(m, |m|), AbsorbingIndices(m, |m|);
    var order := StateOrder(m);
    ClassificationSize(m, |m|);
    ConcatIndex(t, z, order);
    PTransientEntry(m, i, j);
    assert order[i] == t[i] && order[j] == t[j];
  }

  /**
   * R in terms of the input: R[i][j] is the weight from the i-th transient
   * state to the j-th absorbing state over the transient state's row sum.
   */
  lemma REntry(m: seq<seq<int>>, i: nat, j: nat)
    requires IsSquareInt(m) && i < TransientCount(m) && j < |m| - TransientCount(m)
    ensures var t, z := TransientIndices(m, |m|), AbsorbingIndices(m, |m|);
      j < |z| && RowSum(m[t[i]]) != 0 &&
      Value(RBlock(PMatrix(m), |t|)[i][j]) == m[t[i]][z[j]] as real / RowSum(m[t[i]]) as real
  {
    var t, z := TransientIndices(m, |m|), AbsorbingIndices(m, |m|);
    OrderSplit(m, i, j);
    REntryAt(m, i, j, |t|, t[i], z[j]);
  }

  /** Entry (i, j) of R, given the transient count tc and the states order[i] and order[tc + j]. */
  lemma REntryAt(m: seq<seq<int>>, i: nat, j: nat, tc: nat, from: nat, to: nat)
    requires IsSquareInt(m) && tc == TransientCount(m) && i < tc && j < |m| - tc
    requires from == StateOrder(m)[i] && to == StateOrder(m)[tc + j]
    ensures from < |m| && to < |m| && RowSum(m[from]) != 0
    ensures Value(RBlock(PMatrix(m), tc)[i][j]) == m[from][to] as real / RowSum(m[from]) as real
  {
    PTransientEntry(m, i, tc + j);
    RBlockEntry(PMatrix(m), tc, i, j, m[from][to] as real / RowSum(m[from]) as real);
  }

  /** The i-th state of the order is the i-th transient state, and the one at t + j the j-th absorbing state. */
  lemma OrderSplit(m: seq<seq<int>>, i: nat, j: nat)
    requires IsSquareInt(m) && i < TransientCount(m) && j < |m| - TransientCount(m)
    ensures var t, z := TransientIndices(m, |m|), AbsorbingIndices(m, |m|);
      |t| == TransientCount(m) && j < |z| && StateOrder(m)[i] == t[i] && StateOrder(m)[|t| + j] == z[j]
  {
    var t, z, order := TransientIndices(m, |m|), AbsorbingIndices(m, |m|), StateOrder(m);
    assert |t| == TransientCount(m) && |t| + |z| == |m| by {
      ClassificationSize(m, |m|);
    }
    assert order == t + z;
    ConcatIndex(t, z, order);
  }

  /** An entry of R is the matching entry of P, shifted past the transient columns. */
  lemma RBlockEntry(p: FMatrix, t: nat, i: nat, j: nat, v: real)
    requires t <= |p| && Rectangular(p, |p|) && i < t && j < |p| - t
    requires Value(p[i][t + j]) == v
    ensures Value(RBlock(p, t)[i][j]) == v
  {
  }

  /** When state 0 is transient it stays state 0 after reordering, so row 0 of N is the start state. */
  lemma StartStaysFirst(m: seq<seq<int>>)
    requires |m| > 0 && RowSum(m[0]) != 0
    ensures TransientCount(m) > 0 && StateOrder(m)[0] == 0
  {
    var t := TransientIndices(m, |m|);
    assert 0 in t;
    var a :| 0 <= a < |t| && t[a] == 0;
  }

  // ---- Least common multiples ----

  /** Division with remainder has only one answer. */
  lemma ModUnique(x: int, d: int, q: int, r: int)
    requires d > 0 && x == d * q + r && 0 <= r < d
    ensures x / d == q && x % d == r
  {
    var t := q - x / d;
    assert d * t == x % d - r;
    if t > 0 { MulAtLeast(d, t); } else if t < 0 { MulAtLeast(d, -t); }
  }

  lemma ModScale(k: int, a: nat, b: int)
    requires k > 0 && b > 0
    ensures (k * a) % (k * b) == k * (a % b)
  {
    var q, r := a / b, a % b;
    assert k * a == (k * b) * q + k * r;
    assert k * r < k * b by { MulAtLeast(k, b - r); }
    ModUnique(k * a, k * b, q, k * r);
  }

  /** gcd(k*a, k*b) == k * gcd(a, b). */
  lemma {:induction false} GcdScale(k: nat, a: nat, b: nat)
    requires k > 0
    ensures Gcd(k * a, k * b) == k * Gcd(a, b)
    decreases b
  {
    if b > 0 {
      ModScale(k, a, b);
      GcdScale(k, b, a % b);
    }
  }

  lemma ModTransitive(a: int, b: int, c: int)
    requires b > 0 && c > 0 && a % b == 0 && b % c == 0
    ensures a % c == 0
  {
    var p, q := a / b, b / c;
    assert a == b * p && b == c * q;
    assert a == c * (q * p);
    DivExact(a, c, q * p);
  }

  /** The gcd splits both arguments into coprime cofactors, so |x*y| / g == x * (y/g) == (x/g) * y. */
  lemma LcmShape(x: int, y: int)
    requires x > 0 && y > 0
    ensures Gcd(x, y) > 0 && x % Gcd(x, y) == 0 && y % Gcd(x, y) == 0
    ensures Gcd(x / Gcd(x, y), y / Gcd(x, y)) == 1 && y / Gcd(x, y) > 0 && x / Gcd(x, y) > 0
    ensures Abs(x * y) / Gcd(x, y) == x * (y / Gcd(x, y)) == (x / Gcd(x, y)) * y
  {
    CoprimeAfterDivision(x, y);
    var g := Gcd(x, y);
    var qx, qy := x / g, y / g;
    ExactQuotient(x, g);
    ExactQuotient(y, g);
    CofactorPositive(x, g, qx);
    Regroup(x, y, g, qx, qy);
    MulAtLeast(x, y);
    assert Abs(x * y) == x * y;
    DivExact(x * y, g, x * qy);
  }

  lemma ExactQuotient(a: int, g: int)
    requires g > 0 && a % g == 0
    ensures a == g * (a / g)
  {
  }

  lemma Regroup(x: int, y: int, g: int, qx: int, qy: int)
    requires x == g * qx && y == g * qy
    ensures x * y == g * (x * qy) && x * qy == qx * y
  {
  }

  /** `lcm(x, y)`: a positive common multiple of x and y. */
  function Lcm(x: int, y: int): (l: int)
    requires x > 0 && y > 0
    ensures l > 0 && l % x == 0 && l % y == 0
  {
    LcmShape(x, y);
    var l := Abs(x * y) / Gcd(x, y);
    CommonMultiple(l, x, y, x / Gcd(x, y), y / Gcd(x, y));
    l
  }

  lemma CommonMultiple(l: int, x: int, y: int, qx: int, qy: int)
    requires x > 0 && y > 0 && qx > 0 && qy > 0 && l == x * qy == qx * y
    ensures l > 0 && l % x == 0 && l % y == 0
  {
    MulAtLeast(x, qy);
    DivExact(l, x, qy);
    DivExact(l, y, qx);
  }

  /** The lcm is the least common multiple: it divides every positive common multiple. */
  lemma LcmLeast(x: int, y: int, c: int)
    requires x > 0 && y > 0 && c > 0 && c % x == 0 && c % y == 0
    ensures c % Lcm(x, y) == 0
  {
    LcmShape(x, y);
    var g := Gcd(x, y);
    var qx, qy := x / g, y / g;
    ExactQuotient(x, g);
    ExactQuotient(y, g);
    var a, b := c / x, c / y;
    ExactQuotient(c, x);
    ExactQuotient(c, y);
    CofactorPositive(c, x, a);
    var t := CofactorOfCoprime(g, qx, qy, a, b);
    assert c == (x * qy) * t by { Reassociate(c, x, a, qy, t); }
    DivExact(c, x * qy, t);
  }

  lemma Reassociate(c: int, x: int, a: int, qy: int, t: int)
    requires c == x * a && a == qy * t
    ensures c == (x * qy) * t
  {
  }

  /** From g*qx*a == g*qy*b with qx, qy coprime, qy divides a. */
  lemma CofactorOfCoprime(g: int, qx: int, qy: int, a: int, b: int) returns (t: int)
    requires g > 0 && qx > 0 && qy > 0 && a > 0 && Gcd(qx, qy) == 1
    requires (g * qx) * a == (g * qy) * b
    ensures a == qy * t
  {
    var p1, p2 := a * qx, a * qy;
    MulAtLeast(a, qx);
    MulAtLeast(a, qy);
    assert Divides(qy, p1) by { CancelCommon(g, qx, qy, a, b); }
    assert Divides(qy, p2) by { assert p2 == qy * a; }
    GcdGreatest(p1, p2, qy);
    assert Gcd(p1, p2) == a by { GcdScale(a, qx, qy); }
    t :| a == qy * t;
  }

  lemma CancelCommon(g: int, qx: int, qy: int, a: int, b: int)
    requires g > 0 && (g * qx) * a == (g * qy) * b
    ensures a * qx == qy * b
  {
    assert g * (a * qx) == g * (qy * b);
    MulCancel(g, a * qx, qy * b);
  }

  /** `l` after the first k steps of the fold `l = lcm(l, item.denominator)` starting from 1. */
  function DenominatorLcm(probs: seq<Fraction>, k: nat): (l: int)
    requires k <= |probs|
    ensures l > 0 && forall j :: 0 <= j < k ==> l % probs[j].den == 0
  {
    if k == 0 then 1
    else
      var prev := DenominatorLcm(probs, k - 1);
      var l := Lcm(prev, probs[k - 1].den);
      assert forall j :: 0 <= j < k - 1 ==> l % probs[j].den == 0 by {
        forall j | 0 <= j < k - 1 ensures l % probs[j].den == 0 {
          ModTransitive(l, prev, probs[j].den);
        }
      }
      l
  }

  /** The fold gives the least common denominator: it divides every positive common multiple. */
  lemma {:induction false} DenominatorLcmLeast(probs: seq<Fraction>, k: nat, c: int)
    requires k <= |probs| && c > 0 && forall j :: 0 <= j < k ==> c % probs[j].den == 0
    ensures c % DenominatorLcm(probs, k) == 0
  {
    if k > 0 {
      DenominatorLcmLeast(probs, k - 1, c);
      LcmLeast(DenominatorLcm(probs, k - 1), probs[k - 1].den, c);
    }
  }

  lemma ScaledNumerator(f: Fraction, l: int)
    requires l > 0 && l % f.den == 0
    ensures (f.num * l / f.den) as real / l as real == Value(f)
  {
    var q := l / f.den;
    assert l == f.den * q;
    assert f.num * l == f.den * (f.num * q);
    DivExact(f.num * l, f.den, f.num * q);
    assert (l as real) == (f.den as real) * (q as real);
    assert ((f.num * q) as real) == (f.num as real) * (q as real);
  }

  /**
   * The answer: each probability as a numerator over the common denominator l,
   * followed by l (`x.numerator * l // x.denominator`, then `append(l)`).
   */
  function Normalise(probs: seq<Fraction>, l: int): (r: seq<int>)
    requires l > 0 && forall j :: 0 <= j < |probs| ==> l % probs[j].den == 0
    ensures |r| == |probs| + 1 && r[|probs|] == l
    ensures forall i :: 0 <= i < |probs| ==> r[i] as real / l as real == Value(probs[i])
  {
    var r := seq(|probs|, i requires 0 <= i < |probs| => probs[i].num * l / probs[i].den) + [l];
    assert forall i :: 0 <= i < |probs| ==> r[i] as real / l as real == Value(probs[i]) by {
      forall i | 0 <= i < |probs| ensures r[i] as real / l as real == Value(probs[i]) {
        ScaledNumerator(probs[i], l);
      }
    }
    r
  }

  // ---- The whole computation ----

  /** N = (I - Q)^-1, or the zero pivot at which the inversion divides by zero. */
  function FundamentalMatrix(m: seq<seq<int>>): Outcome
    requires IsSquareInt(m)
  {
    Inverse(IMinusQ(QBlock(PMatrix(m), TransientCount(m))))
  }

  /** `result_probabilities` when state 0 is transient: row 0 of N times R. */
  function AbsorptionProbabilities(m: seq<seq<int>>): (probs: seq<Fraction>)
    requires |m| > 0 && IsSquareInt(m) && RowSum(m[0]) != 0 && FundamentalMatrix(m).Inverted?
    ensures |probs| == |m| - TransientCount(m)
  {
    AbsorptionRow(FundamentalMatrix(m).inverse, RBlock(PMatrix(m), TransientCount(m)))
  }

  /** What `solution(matrix)` returns, or the ZeroDivisionError it raises. */
  datatype Answer = Answer(values: seq<int>) | DivisionByZero

  /**
   * `solution(matrix)`: [1, 1] when state 0 is absorbing; otherwise the
   * absorption probabilities over their least common denominator, then that
   * denominator.
   */
  function Solve(m: seq<seq<int>>): Answer
    requires |m| > 0 && IsSquareInt(m)
  {
    if RowSum(m[0]) == 0 then Answer([1, 1])
    else if FundamentalMatrix(m).ZeroPivot? then DivisionByZero
    else
      var probs := AbsorptionProbabilities(m);
      Answer(Normalise(probs, DenominatorLcm(probs, |probs|)))
  }

  /** When every pivot is non-zero, N is a left inverse of I - Q. */
  lemma FundamentalIsLeftInverse(m: seq<seq<int>>)
    requires IsSquareInt(m) && FundamentalMatrix(m).Inverted?
    ensures var imq := IMinusQ(QBlock(PMatrix(m), TransientCount(m)));
      var n := FundamentalMatrix(m).inverse;
      IsSquare(n, |imq|) &&
      forall i, j :: 0 <= i < |imq| && 0 <= j < |imq| ==>
        Dot(RowValues(n[i]), Column(Values(imq), j)) == Delta(i, j)
  {
    InverseIsLeftInverse(IMinusQ(QBlock(PMatrix(m), TransientCount(m))));
  }

  /**
   * The answer when state 0 is transient and the inversion succeeds: one
   * numerator per absorbing state and then a positive denominator l, and
   * numerator i over l is the sum over j of N[0][j] * R[j][i].
   */
  lemma SolveMeaning(m: seq<seq<int>>)
    requires |m| > 0 && IsSquareInt(m) && RowSum(m[0]) != 0 && FundamentalMatrix(m).Inverted?
    ensures Solve(m).Answer?
    ensures var t := TransientCount(m);
      var res := Solve(m).values;
      |res| == |m| - t + 1 && res[|m| - t] > 0 &&
      forall i :: 0 <= i < |m| - t ==>
        res[i] as real / res[|m| - t] as real == Value(AbsorptionProbabilities(m)[i])
  {
    var probs := AbsorptionProbabilities(m);
    var l := DenominatorLcm(probs, |probs|);
    var res := Normalise(probs, l);
    assert Solve(m) == Answer(res);
  }

  /** Entry i of the absorption probabilities is the sum over j of N[0][j] * R[j][i]. */
  lemma AbsorptionProbabilitiesMeaning(m: seq<seq<int>>, i: nat)
    requires |m| > 0 && IsSquareInt(m) && RowSum(m[0]) != 0 && FundamentalMatrix(m).Inverted?
    requires i < |m| - TransientCount(m)
    ensures var t := TransientCount(m);
      var n := FundamentalMatrix(m).inverse;
      var rr := RBlock(PMatrix(m), t);
      |n| == t == |rr| && t > 0 && Rectangular(rr, |m| - t) &&
      Value(AbsorptionProbabilities(m)[i]) == Dot(RowValues(n[0]), Column(Values(rr), i))
  {
  }

  /** The denominator of the answer is the least common denominator of the probabilities. */
  lemma SolveLeastDenominator(m: seq<seq<int>>, c: int)
    requires |m| > 0 && IsSquareInt(m) && RowSum(m[0]) != 0 && FundamentalMatrix(m).Inverted?
    requires c > 0 && forall i :: 0 <= i < |m| - TransientCount(m) ==> c % AbsorptionProbabilities(m)[i].den == 0
    ensures Solve(m).Answer? && |Solve(m).values| == |m| - TransientCount(m) + 1
    ensures c % Solve(m).values[|m| - TransientCount(m)] == 0
  {
    var probs := AbsorptionProbabilities(m);
    var l := DenominatorLcm(probs, |probs|);
    assert Solve(m) == Answer(Normalise(probs, l));
    DenominatorLcmLeast(probs, |probs|, c);
  }

  // ---- The solver object ----

  /** The rows of a two-dimensional array, as a matrix. */
  function Rows(a: array2<Fraction>): (m: FMatrix)
    reads a
    ensures |m| == a.Length0 && Rectangular(m, a.Length1)
    ensures forall i, j :: 0 <= i < a.Length0 && 0 <= j < a.Length1 ==> m[i][j] == a[i, j]
  {
    RowsBefore(a, a.Length0)
  }

  /** Rows 0 .. k-1 of a two-dimensional array. */
  function RowsBefore(a: array2<Fraction>, k: nat): (m: FMatrix)
    requires k <= a.Length0
    reads a
    ensures |m| == k && Rectangular(m, a.Length1)
    ensures forall i, j :: 0 <= i < k && 0 <= j < a.Length1 ==> m[i][j] == a[i, j]
  {
    if k == 0 then []
    else RowsBefore(a, k - 1) + [seq(a.Length1, j requires 0 <= j < a.Length1 reads a => a[k - 1, j])]
  }

  /** An array whose every entry agrees with a matrix has that matrix as its rows. */
  lemma RowsAre(a: array2<Fraction>, m: FMatrix)
    requires |m| == a.Length0 && Rectangular(m, a.Length1)
    requires forall i, j :: 0 <= i < a.Length0 && 0 <= j < a.Length1 ==> a[i, j] == m[i][j]
    ensures Rows(a) == m
  {
    var r := Rows(a);
    forall i | 0 <= i < |m| ensures r[i] == m[i] {
    }
  }

  class AbsorbingMarkovChain {
    var nTransient: nat
    var nAbsorbing: nat
    var nStates: nat
    var resultProbabilities: seq<Fraction>
    /** The transition matrix, transient states first. */
    var P: FMatrix
    /** Transitions between transient states. */
    var Q: FMatrix
    /** Transitions from transient to absorbing states. */
    var R: FMatrix
    /** The fundamental matrix (I - Q)^-1. */
    var N: FMatrix
    /** Set where the source raises ZeroDivisionError inside `invert_matrix`. */
    var divisionByZero: bool

    /**
     * `AbsorbingMarkhovChain(matrix)`: runs the whole pipeline unless state 0
     * is absorbing, in which case the result is [1, 1].
     */
    constructor (matrix: seq<seq<int>>)
      requires |matrix| > 0 && IsSquareInt(matrix)
      ensures nStates == |matrix|
      ensures RowSum(matrix[0]) == 0 ==> !divisionByZero && resultProbabilities == [One, One]
      ensures RowSum(matrix[0]) != 0 ==>
        P == PMatrix(matrix) && nTransient == TransientCount(matrix) &&
        nAbsorbing == |matrix| - nTransient &&
        Q == QBlock(P, nTransient) && R == RBlock(P, nTransient) &&
        (divisionByZero <==> Inverse(IMinusQ(Q)).ZeroPivot?) &&
        (!divisionByZero ==> N == Inverse(IMinusQ(Q)).inverse && resultProbabilities == AbsorptionRow(N, R))
    {
      nTransient, nAbsorbing, nStates := 0, 0, |matrix|;
      resultProbabilities := [];
      P, Q, R, N := [], [], [], [];
      divisionByZero := false;
      new;
      if RowSum(matrix[0]) != 0 {
        InitBlocks(matrix);
        CalcFromBlocks();
      } else {
        resultProbabilities := [One, One];
      }
    }

    /** The first two steps of the constructor: `_init_P_matrix`, then `_init_Q_R`. */
    method InitBlocks(matrix: seq<seq<int>>)
      requires |matrix| > 0 && IsSquareInt(matrix) && P == [] && RowSum(matrix[0]) != 0
      modifies `P, `nTransient, `nAbsorbing, `Q, `R
      ensures P == PMatrix(matrix) && nTransient == TransientCount(matrix) && nAbsorbing == |matrix| - nTransient
      ensures Q == QBlock(P, nTransient) && R == RBlock(P, nTransient)
      ensures 0 < nTransient <= |P| && IsSquare(Q, nTransient) && |R| == nTransient && Rectangular(R, |P| - nTransient)
    {
      InitPMatrix(matrix);
      InitQR();
    }

    /**
     * The last two steps of the constructor: `_calc_N`, then, unless the
     * inversion divided by zero, `_calc_absorption_probabilities`.
     */
    method CalcFromBlocks()
      requires 0 < nTransient && IsSquare(Q, nTransient) && |R| == nTransient && Rectangular(R, |R[0]|) && !divisionByZero
      modifies `N, `divisionByZero, `resultProbabilities
      ensures divisionByZero <==> Inverse(IMinusQ(Q)).ZeroPivot?
      ensures !divisionByZero ==> N == Inverse(IMinusQ(Q)).inverse && resultProbabilities == AbsorptionRow(N, R)
    {
      CalcN();
      if !divisionByZero {
        CalcAbsorptionProbabilities();
      }
    }

    /**
     * `_init_P_matrix`: classifies the rows, turns transient rows into
     * probabilities, and appends the rows to P in the new state order with
     * their columns in that order too.
     */
    method InitPMatrix(matrix: seq<seq<int>>)
      requires IsSquareInt(matrix) && P == []
      modifies `P, `nTransient, `nAbsorbing
      ensures P == PMatrix(matrix)
      ensures nTransient == TransientCount(matrix) && nAbsorbing == |matrix| - nTransient
    {
      var transients, absorbatives, transIndices, absIndices := ClassifyRows(matrix);
      nTransient := |transients|;
      nAbsorbing := |absorbatives|;
      var newMatrix := transients + absorbatives;
      var newColOrder := transIndices + absIndices;
      assert newMatrix == ProbabilityRows(matrix, StateOrder(matrix)) && newColOrder == StateOrder(matrix)
        && nTransient == TransientCount(matrix) && nAbsorbing == |matrix| - nTransient by {
        ClassifiedRows(matrix);
      }
      AppendPermutedRows(newMatrix, newColOrder);
      assert [] + PermuteColumns(newMatrix, newColOrder) == PermuteColumns(newMatrix, newColOrder);
    }

    /** The second loop of `_init_P_matrix`: each row, its columns reordered, is appended to P. */
    method AppendPermutedRows(rows: seq<seq<Fraction>>, order: seq<nat>)
      requires forall a, k :: 0 <= a < |rows| && 0 <= k < |order| ==> order[k] < |rows[a]|
      modifies `P
      ensures P == old(P) + PermuteColumns(rows, order)
    {
      ghost var target := PermuteColumns(rows, order);
      for i := 0 to |rows|
        invariant P == old(P) + target[..i]
      {
        var row := rows[i];
        assert target[..i + 1] == target[..i] + [Permute(row, order)];
        P := P + [Permute(row, order)];
      }
      assert target[..|rows|] == target;
    }

    /**
     * The first loop of `_init_P_matrix`: each row goes, as probabilities, to
     * the transient or the absorbing list, and its index with it.
     */
    static method ClassifyRows(matrix: seq<seq<int>>)
      returns (transients: seq<seq<Fraction>>, absorbatives: seq<seq<Fraction>>,
               transIndices: seq<nat>, absIndices: seq<nat>)
      ensures transIndices == TransientIndices(matrix, |matrix|)
      ensures absIndices == AbsorbingIndices(matrix, |matrix|)
      ensures transients == ProbabilityRows(matrix, transIndices)
      ensures absorbatives == ProbabilityRows(matrix, absIndices)
    {
      transients, absorbatives, transIndices, absIndices := [], [], [], [];
      for n := 0 to |matrix|
        invariant transIndices == TransientIndices(matrix, n)
        invariant absIndices == AbsorbingIndices(matrix, n)
        invariant transients == ProbabilityRows(matrix, transIndices)
        invariant absorbatives == ProbabilityRows(matrix, absIndices)
      {
        var row := matrix[n];
        ClassifyStep(matrix, n + 1);
        if RowSum(row) == 0 {
          ProbabilityRowsAppend(matrix, absIndices, n);
          absorbatives := absorbatives + [ProbabilityRow(row)];
          absIndices := absIndices + [n];
        } else {
          ProbabilityRowsAppend(matrix, transIndices, n);
          transients := transients + [ProbabilityRow(row)];
          transIndices := transIndices + [n];
        }
      }
    }

    /** `_init_Q_R`: Q and R are the top-left and top-right blocks of P. */
    method InitQR()
      requires nTransient <= |P| && Rectangular(P, |P|)
      modifies `Q, `R
      ensures Q == QBlock(P, nTransient) && R == RBlock(P, nTransient)
    {
      var t, p := nTransient, P;
      Q := seq(t, i requires 0 <= i < t => p[i][..t]);
      R := seq(t, i requires 0 <= i < t => p[i][t..]);
    }

    /** `_calc_N`: builds I - Q entry by entry and inverts it. */
    method CalcN()
      requires IsSquare(Q, nTransient)
      modifies `N, `divisionByZero
      ensures Inverse(IMinusQ(Q)).Inverted? ==>
        N == Inverse(IMinusQ(Q)).inverse && divisionByZero == old(divisionByZero)
      ensures Inverse(IMinusQ(Q)).ZeroPivot? ==> N == old(N) && divisionByZero
    {
      var iMinusQ := IdentityMinus(Q);
      var im, ok := InvertMatrix(iMinusQ);
      if ok {
        N := Rows(im);
      } else {
        divisionByZero := true;
      }
    }

    /** The nested loop of `_calc_N`: entry (i, j) of I - Q is `(1 if i == j else 0) - Q[i][j]`. */
    static method IdentityMinus(q: FMatrix) returns (a: array2<Fraction>)
      requires IsSquare(q, |q|)
      ensures fresh(a) && a.Length0 == a.Length1 == |q| && Rows(a) == IMinusQ(q)
    {
      var t := |q|;
      ghost var target := IMinusQ(q);
      a := new Fraction[t, t];
      for i := 0 to t
        invariant forall r, c :: 0 <= r < i && 0 <= c < t ==> a[r, c] == target[r][c]
      {
        for j := 0 to t
          invariant forall r, c :: 0 <= r < i && 0 <= c < t ==> a[r, c] == target[r][c]
          invariant forall c :: 0 <= c < j ==> a[i, c] == target[i][c]
        {
          var x := if i == j then 1 else 0;
          a[i, j] := Sub(FromInt(x), q[i][j]);
        }
      }
      RowsAre(a, target);
    }

    /** `_calc_absorption_probabilities`: row 0 of N times R, one accumulated sum per column of R. */
    method CalcAbsorptionProbabilities()
      requires |N| > 0 && |N[0]| == |R| > 0 && Rectangular(R, |R[0]|)
      modifies `resultProbabilities
      ensures resultProbabilities == AbsorptionRow(N, R)
    {
      var probs: seq<Fraction> := [];
      var nTopRow := N[0];
      ghost var target := AbsorptionRow(N, R);
      for i := 0 to |R[0]|
        invariant probs == target[..i]
      {
        var sum := FromInt(0);
        for j := 0 to |nTopRow|
          invariant sum == AbsorptionSum(nTopRow, R, i, j)
        {
          sum := Add(sum, Mul(nTopRow[j], R[j][i]));
        }
        assert target[..i + 1] == target[..i] + [sum];
        probs := probs + [sum];
      }
      assert target[..|R[0]|] == target;
      resultProbabilities := probs;
    }

    /**
     * `invert_matrix(matrix)`: Gauss-Jordan elimination without row swaps,
     * overwriting `matrix` and a fresh identity `im` row operation by row
     * operation.  `ok` is false where the source raises ZeroDivisionError at
     * a zero pivot.
     */
    method InvertMatrix(matrix: array2<Fraction>) returns (im: array2<Fraction>, ok: bool)
      requires matrix.Length0 == matrix.Length1
      modifies matrix
      ensures fresh(im) && im.Length0 == im.Length1 == matrix.Length0
      ensures ok <==> Inverse(old(Rows(matrix))).Inverted?
      ensures ok ==> Rows(im) == Inverse(old(Rows(matrix))).inverse
    {
      im := GetIdentity(matrix.Length0);
      ok := PivotAll(matrix, im);
    }

    /** The outer loop of `invert_matrix`: one pivot per row, stopping at a zero pivot. */
    static method PivotAll(matrix: array2<Fraction>, im: array2<Fraction>) returns (ok: bool)
      requires matrix != im
      requires matrix.Length0 == matrix.Length1 == im.Length0 == im.Length1
      modifies matrix, im
      ensures ok <==> InvertFrom(old(Rows(matrix)), old(Rows(im)), 0).Inverted?
      ensures ok ==> Rows(im) == InvertFrom(old(Rows(matrix)), old(Rows(im)), 0).inverse
    {
      ghost var outcome := InvertFrom(Rows(matrix), Rows(im), 0);
      ok := true;
      for focus := 0 to matrix.Length0
        invariant InvertFrom(Rows(matrix), Rows(im), focus) == outcome
      {
        ok := Pivot(matrix, im, focus);
        if !ok {
          return;
        }
      }
    }

    /**
     * One pass of the outer loop of `invert_matrix`: scale row `focus` by the
     * reciprocal of its pivot, then clear column `focus` in every other row.
     * Returns false, changing nothing, when the pivot is zero.
     */
    static method Pivot(matrix: array2<Fraction>, im: array2<Fraction>, focus: nat) returns (ok: bool)
      requires matrix != im && focus < matrix.Length0
      requires matrix.Length0 == matrix.Length1 == im.Length0 == im.Length1
      modifies matrix, im
      ensures ok <==> old(matrix[focus, focus]).num != 0
      ensures ok ==> InvertFrom(Rows(matrix), Rows(im), focus + 1) == InvertFrom(old(Rows(matrix)), old(Rows(im)), focus)
      ensures !ok ==> InvertFrom(old(Rows(matrix)), old(Rows(im)), focus) == ZeroPivot(focus)
    {
      ghost var w, i0 := Rows(matrix), Rows(im);
      if matrix[focus, focus].num == 0 {
        // `1 / matrix[focus][focus]` divides by zero
        ZeroPivotStep(w, i0, focus);
        return false;
      }
      var scale := Div(One, matrix[focus, focus]);
      ScalePivotRow(matrix, im, focus, scale);
      InvertFromStep(w, i0, focus, scale, Rows(matrix), Rows(im));
      EliminateColumn(matrix, im, focus);
      return true;
    }

    /** The loop over the rows other than `focus`, clearing column `focus` in each. */
    static method EliminateColumn(matrix: array2<Fraction>, im: array2<Fraction>, focus: nat)
      requires matrix != im && focus < matrix.Length0
      requires matrix.Length0 == matrix.Length1 == im.Length0 == im.Length1
      modifies matrix, im
      ensures (Rows(matrix), Rows(im)) == EliminateFrom(old(Rows(matrix)), old(Rows(im)), focus, 0)
    {
      var n := matrix.Length0;
      ghost var w1, i1 := Rows(matrix), Rows(im);
      for i := 0 to n
        invariant EliminateFrom(Rows(matrix), Rows(im), focus, i) == EliminateFrom(w1, i1, focus, 0)
      {
        EliminateFromStep(Rows(matrix), Rows(im), focus, i);
        if i != focus {
          var rowScale := matrix[i, focus];
          SubtractPivotRow(matrix, im, i, focus, rowScale);
        }
      }
    }

    /** The loop that multiplies row `focus` of both matrices by `scale`. */
    static method ScalePivotRow(matrix: array2<Fraction>, im: array2<Fraction>, focus: nat, scale: Fraction)
      requires matrix != im && focus < matrix.Length0
      requires matrix.Length0 == matrix.Length1 == im.Length0 == im.Length1
      modifies matrix, im
      ensures Rows(matrix) == ScaleRow(old(Rows(matrix)), focus, scale)
      ensures Rows(im) == ScaleRow(old(Rows(im)), focus, scale)
    {
      ScaleRowIn(matrix, focus, scale);
      ScaleRowIn(im, focus, scale);
    }

    /** Row `focus` of one square array multiplied by `scale`, entry by entry. */
    static method ScaleRowIn(a: array2<Fraction>, focus: nat, scale: Fraction)
      requires focus < a.Length0 == a.Length1
      modifies a
      ensures Rows(a) == ScaleRow(old(Rows(a)), focus, scale)
    {
      var n := a.Length0;
      ghost var w0 := Rows(a);
      ghost var w1 := ScaleRow(w0, focus, scale);
      for j := 0 to n
        invariant forall r, c :: 0 <= r < n && 0 <= c < n ==>
          a[r, c] == (if r == focus && c < j then w1[r][c] else w0[r][c])
      {
        a[focus, j] := Mul(a[focus, j], scale);
      }
      RowsAre(a, w1);
    }

    /** The loop that subtracts `rowScale` times row `focus` from row i of both matrices. */
    static method SubtractPivotRow(matrix: array2<Fraction>, im: array2<Fraction>, i: nat, focus: nat, rowScale: Fraction)
      requires matrix != im && i < matrix.Length0 && focus < matrix.Length0 && i != focus
      requires matrix.Length0 == matrix.Length1 == im.Length0 == im.Length1
      modifies matrix, im
      ensures Rows(matrix) == SubtractRowMultiple(old(Rows(matrix)), i, focus, rowScale)
      ensures Rows(im) == SubtractRowMultiple(old(Rows(im)), i, focus, rowScale)
    {
      SubtractRowIn(matrix, i, focus, rowScale);
      SubtractRowIn(im, i, focus, rowScale);
    }

    /** Row i of one square array minus `rowScale` times row `focus`, entry by entry. */
    static method SubtractRowIn(a: array2<Fraction>, i: nat, focus: nat, rowScale: Fraction)
      requires i < a.Length0 == a.Length1 && focus < a.Length0 && i != focus
      modifies a
      ensures Rows(a) == SubtractRowMultiple(old(Rows(a)), i, focus, rowScale)
    {
      var n := a.Length0;
      ghost var w0 := Rows(a);
      ghost var w1 := SubtractRowMultiple(w0, i, focus, rowScale);
      for j := 0 to n
        invariant forall r, c :: 0 <= r < n && 0 <= c < n ==>
          a[r, c] == (if r == i && c < j then w1[r][c] else w0[r][c])
      {
        a[i, j] := Sub(a[i, j], Mul(rowScale, a[focus, j]));
      }
      RowsAre(a, w1);
    }

    /** `get_identity(dim)`: a fresh dim-by-dim identity matrix. */
    static method GetIdentity(dim: nat) returns (id: array2<Fraction>)
      ensures fresh(id) && id.Length0 == id.Length1 == dim && Rows(id) == Identity(dim)
    {
      id := new Fraction[dim, dim];
      for i := 0 to dim
        invariant forall r, c :: 0 <= r < i && 0 <= c < dim ==> id[r, c] == Identity(dim)[r][c]
      {
        for j := 0 to dim
          invariant forall r, c :: 0 <= r < i && 0 <= c < dim ==> id[r, c] == Identity(dim)[r][c]
          invariant forall c :: 0 <= c < j ==> id[i, c] == Identity(dim)[i][c]
        {
          id[i, j] := if i == j then One else Zero;
        }
      }
      RowsAre(id, Identity(dim));
    }
  }

  /**
   * `solution(matrix)`: the absorption probabilities from state 0 as
   * numerators over their least common denominator, then the denominator.
   */
  method Solution(matrix: seq<seq<int>>) returns (r: Answer)
    requires |matrix| > 0 && IsSquareInt(matrix)
    ensures r == Solve(matrix)
  {
    var mat := new AbsorbingMarkovChain(matrix);
    if mat.divisionByZero {
      assert mat.Q == QBlock(PMatrix(matrix), TransientCount(matrix));
      return DivisionByZero;
    }
    var absProbs := mat.resultProbabilities;
    if RowSum(matrix[0]) == 0 {
      // the chain's result [1, 1] is returned as it is
      return Answer([1, 1]);
    }
    assert mat.Q == QBlock(PMatrix(matrix), TransientCount(matrix));
    assert mat.R == RBlock(PMatrix(matrix), TransientCount(matrix));
    assert FundamentalMatrix(matrix) == Inverse(IMinusQ(mat.Q));
    var result := Normalised(absProbs);
    return Answer(result);
  }

  /**
   * The end of `solution`: fold lcm over the denominators starting from 1,
   * then put every probability over that common denominator and append it.
   */
  method Normalised(absProbs: seq<Fraction>) returns (result: seq<int>)
    ensures result == Normalise(absProbs, DenominatorLcm(absProbs, |absProbs|))
  {
    var l := 1;
    for k := 0 to |absProbs|
      invariant l == DenominatorLcm(absProbs, k)
    {
      l := Lcm(l, absProbs[k].den);
    }
    result := seq(|absProbs|, i requires 0 <= i < |absProbs| => absProbs[i].num * l / absProbs[i].den);
    result := result + [l];
  }
}
