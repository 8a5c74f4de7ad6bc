/**
 * The specification of `AbsorbingMarkhovChain.invert_matrix`: Gauss-Jordan
 * elimination over exact fractions, without row swaps, applied to a working
 * matrix and to an identity matrix that turns into the inverse.  Every row
 * operation is applied to both, in the order the source applies them.
 *
 * The main theorem, `InverseIsLeftInverse`, says that when no pivot is zero
 * the result N satisfies N * M == I in exact arithmetic.
 */
module GaussJordan {
  import opened Fractions
  import opened Matrices

  type FMatrix = seq<seq<Fraction>>

  predicate IsSquare(m: FMatrix, n: nat) {
    |m| == n && Rectangular(m, n)
  }

  /** `get_identity(n)`: ones on the diagonal, zeros elsewhere. */
  function Identity(n: nat): (r: FMatrix)
    ensures IsSquare(r, n)
    ensures forall i, j :: 0 <= i < n && 0 <= j < n ==> Value(r[i][j]) == Delta(i, j)
  {
    seq(n, i => seq(n, j => if i == j then One else Zero))
  }

  /** The values of a row of fractions. */
  function RowValues(row: seq<Fraction>): (v: seq<real>)
    ensures |v| == |row| && forall j :: 0 <= j < |row| ==> v[j] == Value(row[j])
  {
    seq(|row|, j requires 0 <= j < |row| => Value(row[j]))
  }

  /** The values of a matrix of fractions. */
  function Values(m: FMatrix): (v: seq<seq<real>>)
    ensures |v| == |m| && forall i :: 0 <= i < |m| ==> v[i] == RowValues(m[i])
  {
    seq(|m|, i requires 0 <= i < |m| => RowValues(m[i]))
  }

  /** Row k multiplied entry by entry by s (`matrix[focus][j] *= scale`). */
  function ScaleRow(m: FMatrix, k: nat, s: Fraction): FMatrix
    requires k < |m|
  {
    m[k := seq(|m[k]|, j requires 0 <= j < |m[k]| => Mul(m[k][j], s))]
  }

  /** Row i minus c times row k (`matrix[i][j] = matrix[i][j] - row_scale * matrix[focus][j]`). */
  function SubtractRowMultiple(m: FMatrix, i: nat, k: nat, c: Fraction): FMatrix
    requires i < |m| && k < |m| && |m[i]| == |m[k]|
  {
    m[i := seq(|m[i]|, j requires 0 <= j < |m[i]| => Sub(m[i][j], Mul(c, m[k][j])))]
  }

  /**
   * The elimination of column k from the rows i, i+1, ... other than the
   * pivot row k, each with the multiplier read from the working matrix.
   */
  function EliminateFrom(w: FMatrix, im: FMatrix, k: nat, i: nat): (r: (FMatrix, FMatrix))
    requires IsSquare(w, |w|) && IsSquare(im, |w|) && k < |w| && i <= |w|
    ensures IsSquare(r.0, |w|) && IsSquare(r.1, |w|)
    decreases |w| - i
  {
    if i == |w| then (w, im)
    else if i == k then EliminateFrom(w, im, k, i + 1)
    else
      var c := w[i][k];
      EliminateFrom(SubtractRowMultiple(w, i, k, c), SubtractRowMultiple(im, i, k, c), k, i + 1)
  }

  /** What inversion produces: the inverse, or the pivot whose zero divides by zero. */
  datatype Outcome = Inverted(inverse: FMatrix) | ZeroPivot(focus: nat)

  /** Pivots focus, focus+1, ... of the elimination on the pair (w, im). */
  function InvertFrom(w: FMatrix, im: FMatrix, focus: nat): (r: Outcome)
    requires IsSquare(w, |w|) && IsSquare(im, |w|) && focus <= |w|
    ensures r.Inverted? ==> IsSquare(r.inverse, |w|)
    ensures r.ZeroPivot? ==> focus <= r.focus < |w|
    decreases |w| - focus, 1
  {
    if focus == |w| then Inverted(im)
    else if w[focus][focus].num == 0 then ZeroPivot(focus)
    else PivotAt(w, im, focus)
  }

  /** A non-zero pivot: scale its row by its reciprocal, clear its column, go on to the next. */
  function PivotAt(w: FMatrix, im: FMatrix, focus: nat): (r: Outcome)
    requires IsSquare(w, |w|) && IsSquare(im, |w|) && focus < |w| && w[focus][focus].num != 0
    ensures r.Inverted? ==> IsSquare(r.inverse, |w|)
    ensures r.ZeroPivot? ==> focus < r.focus < |w|
    decreases |w| - focus, 0
  {
    var scale := Div(One, w[focus][focus]);
    var (w', im') := EliminateFrom(ScaleRow(w, focus, scale), ScaleRow(im, focus, scale), focus, 0);
    InvertFrom(w', im', focus + 1)
  }

  /** One step of the elimination, for the loop that performs it. */
  lemma EliminateFromStep(w: FMatrix, im: FMatrix, k: nat, i: nat)
    requires IsSquare(w, |w|) && IsSquare(im, |w|) && k < |w| && i < |w|
    ensures i == k ==> EliminateFrom(w, im, k, i) == EliminateFrom(w, im, k, i + 1)
    ensures i != k ==>
      EliminateFrom(w, im, k, i) == EliminateFrom(SubtractRowMultiple(w, i, k, w[i][k]), SubtractRowMultiple(im, i, k, w[i][k]), k, i + 1)
  {
  }

  /** One pivot of the inversion, for the loop that performs it. */
  lemma ZeroPivotStep(w: FMatrix, im: FMatrix, focus: nat)
    requires IsSquare(w, |w|) && IsSquare(im, |w|) && focus < |w| && w[focus][focus].num == 0
    ensures InvertFrom(w, im, focus) == ZeroPivot(focus)
  {
  }

  lemma InvertFromStep(w: FMatrix, im: FMatrix, focus: nat, scale: Fraction, w': FMatrix, im': FMatrix)
    requires IsSquare(w, |w|) && IsSquare(im, |w|) && focus < |w| && w[focus][focus].num != 0
    requires scale == Div(One, w[focus][focus])
    requires w' == ScaleRow(w, focus, scale) && im' == ScaleRow(im, focus, scale)
    ensures IsSquare(w', |w|) && IsSquare(im', |w|)
    ensures InvertFrom(w, im, focus) ==
      InvertFrom(EliminateFrom(w', im', focus, 0).0, EliminateFrom(w', im', focus, 0).1, focus + 1)
  {
    assert InvertFrom(w, im, focus) == PivotAt(w, im, focus);
  }

  /** `invert_matrix(m)`. */
  function Inverse(m: FMatrix): Outcome
    requires IsSquare(m, |m|)
  {
    InvertFrom(m, Identity(|m|), 0)
  }

  // The same elimination on the values: the proofs of correctness are done
  // here, over real matrices, and carried to fractions by the lemmas below.

  ghost predicate RSquare(x: seq<seq<real>>, n: nat) {
    |x| == n && Rectangular(x, n)
  }

  ghost function RScaleRow(x: seq<seq<real>>, k: nat, s: real): seq<seq<real>>
    requires k < |x|
  {
    x[k := seq(|x[k]|, j requires 0 <= j < |x[k]| => x[k][j] * s)]
  }

  ghost function RSubtractRowMultiple(x: seq<seq<real>>, i: nat, k: nat, c: real): seq<seq<real>>
    requires i < |x| && k < |x| && |x[i]| == |x[k]|
  {
    x[i := seq(|x[i]|, j requires 0 <= j < |x[i]| => x[i][j] - c * x[k][j])]
  }

  ghost function REliminateFrom(w: seq<seq<real>>, im: seq<seq<real>>, k: nat, i: nat): (r: (seq<seq<real>>, seq<seq<real>>))
    requires RSquare(w, |w|) && RSquare(im, |w|) && k < |w| && i <= |w|
    ensures RSquare(r.0, |w|) && RSquare(r.1, |w|)
    decreases |w| - i
  {
    if i == |w| then (w, im)
    else if i == k then REliminateFrom(w, im, k, i + 1)
    else
      var c := w[i][k];
      REliminateFrom(RSubtractRowMultiple(w, i, k, c), RSubtractRowMultiple(im, i, k, c), k, i + 1)
  }

  /** Value-level inversion: `None` where the fraction version meets a zero pivot. */
  ghost function RInvertFrom(w: seq<seq<real>>, im: seq<seq<real>>, focus: nat): (r: Option<seq<seq<real>>>)
    requires RSquare(w, |w|) && RSquare(im, |w|) && focus <= |w|
    ensures r.Some? ==> RSquare(r.value, |w|)
    decreases |w| - focus
  {
    if focus == |w| then Some(im)
    else if w[focus][focus] == 0.0 then None
    else
      var scale := 1.0 / w[focus][focus];
      var (w', im') := REliminateFrom(RScaleRow(w, focus, scale), RScaleRow(im, focus, scale), focus, 0);
      RInvertFrom(w', im', focus + 1)
  }

  datatype Option<T> = None | Some(value: T)

  /** The working matrix is the would-be inverse times the original matrix a. */
  ghost predicate Tracks(w: seq<seq<real>>, im: seq<seq<real>>, a: seq<seq<real>>) {
    var n := |w|;
    RSquare(w, n) && RSquare(im, n) && RSquare(a, n) &&
    forall r, j :: 0 <= r < n && 0 <= j < n ==> w[r][j] == Dot(im[r], Column(a, j))
  }

  /** Columns 0 .. k-1 of the working matrix are columns of the identity. */
  ghost predicate UnitColumns(w: seq<seq<real>>, k: nat) {
    RSquare(w, |w|) && k <= |w| &&
    forall r, c :: 0 <= r < |w| && 0 <= c < k ==> w[r][c] == Delta(r, c)
  }

  lemma ScaleRowTracks(w: seq<seq<real>>, im: seq<seq<real>>, a: seq<seq<real>>, k: nat, s: real)
    requires Tracks(w, im, a) && k < |w|
    ensures Tracks(RScaleRow(w, k, s), RScaleRow(im, k, s), a)
  {
    var n := |w|;
    var w', im' := RScaleRow(w, k, s), RScaleRow(im, k, s);
    forall r, j | 0 <= r < n && 0 <= j < n
      ensures w'[r][j] == Dot(im'[r], Column(a, j))
    {
      if r == k {
        DotScale(im[k], Column(a, j), s, im'[k]);
      }
    }
  }

  lemma SubtractRowTracks(w: seq<seq<real>>, im: seq<seq<real>>, a: seq<seq<real>>, i: nat, k: nat, c: real)
    requires Tracks(w, im, a) && i < |w| && k < |w| && i != k
    ensures Tracks(RSubtractRowMultiple(w, i, k, c), RSubtractRowMultiple(im, i, k, c), a)
  {
    var n := |w|;
    var w', im' := RSubtractRowMultiple(w, i, k, c), RSubtractRowMultiple(im, i, k, c);
    forall r, j | 0 <= r < n && 0 <= j < n
      ensures w'[r][j] == Dot(im'[r], Column(a, j))
    {
      if r == i {
        DotSubMultiple(im[i], im[k], c, im'[i], Column(a, j));
      }
    }
  }

  /**
   * Eliminating column k from the remaining rows keeps the pair tracking the
   * original matrix and turns column k into a unit column.
   */
  lemma {:induction false} EliminateFromCorrect(w: seq<seq<real>>, im: seq<seq<real>>, a: seq<seq<real>>, k: nat, i: nat)
    requires Tracks(w, im, a) && UnitColumns(w, k) && k < |w| && i <= |w|
    requires w[k][k] == 1.0
    requires forall r :: 0 <= r < i && r != k ==> w[r][k] == 0.0
    ensures Tracks(REliminateFrom(w, im, k, i).0, REliminateFrom(w, im, k, i).1, a)
    ensures UnitColumns(REliminateFrom(w, im, k, i).0, k + 1)
    decreases |w| - i
  {
    var n := |w|;
    if i == n {
      forall r, c | 0 <= r < n && 0 <= c < k + 1
        ensures w[r][c] == Delta(r, c)
      {
      }
    } else if i == k {
      EliminateFromCorrect(w, im, a, k, i + 1);
    } else {
      var c := w[i][k];
      var w', im' := RSubtractRowMultiple(w, i, k, c), RSubtractRowMultiple(im, i, k, c);
      SubtractRowTracks(w, im, a, i, k, c);
      forall r, col | 0 <= r < n && 0 <= col < k
        ensures w'[r][col] == Delta(r, col)
      {
        if r == i {
          assert w[k][col] == 0.0;
        }
      }
      EliminateFromCorrect(w', im', a, k, i + 1);
    }
  }

  /** When the elimination from pivot `focus` on succeeds, its result is a left inverse of a. */
  lemma {:induction false} InvertFromCorrect(w: seq<seq<real>>, im: seq<seq<real>>, a: seq<seq<real>>, focus: nat)
    requires Tracks(w, im, a) && UnitColumns(w, focus)
    requires RInvertFrom(w, im, focus).Some?
    ensures forall r, j :: 0 <= r < |w| && 0 <= j < |w| ==>
      Dot(RInvertFrom(w, im, focus).value[r], Column(a, j)) == Delta(r, j)
    decreases |w| - focus
  {
    var n := |w|;
    if focus < n {
      var scale := 1.0 / w[focus][focus];
      var w1, im1 := RScaleRow(w, focus, scale), RScaleRow(im, focus, scale);
      ScaleRowTracks(w, im, a, focus, scale);
      assert w1[focus][focus] == 1.0;
      assert UnitColumns(w1, focus) by {
        forall r, c | 0 <= r < n && 0 <= c < focus
          ensures w1[r][c] == Delta(r, c)
        {
          if r == focus {
            assert w[focus][c] == 0.0;
          }
        }
      }
      EliminateFromCorrect(w1, im1, a, focus, 0);
      var p := REliminateFrom(w1, im1, focus, 0);
      InvertFromCorrect(p.0, p.1, a, focus + 1);
    }
  }

  // Bridges: the fraction operations do to values what the real ones do.

  lemma ScaleRowValues(m: FMatrix, k: nat, s: Fraction)
    requires IsSquare(m, |m|) && k < |m|
    ensures Values(ScaleRow(m, k, s)) == RScaleRow(Values(m), k, Value(s))
  {
    var m' := ScaleRow(m, k, s);
    var x := RScaleRow(Values(m), k, Value(s));
    forall r | 0 <= r < |m| ensures RowValues(m'[r]) == x[r] {
      if r == k {
        forall j | 0 <= j < |m| ensures Value(m'[k][j]) == x[k][j] {
          MulValue(m[k][j], s);
        }
      }
    }
  }

  lemma MulValue(a: Fraction, b: Fraction)
    ensures Value(Mul(a, b)) == Value(a) * Value(b)
  {
  }

  lemma SubMulValue(a: Fraction, c: Fraction, b: Fraction)
    ensures Value(Sub(a, Mul(c, b))) == Value(a) - Value(c) * Value(b)
  {
  }

  lemma SubtractRowValues(m: FMatrix, i: nat, k: nat, c: Fraction)
    requires IsSquare(m, |m|) && i < |m| && k < |m|
    ensures Values(SubtractRowMultiple(m, i, k, c)) == RSubtractRowMultiple(Values(m), i, k, Value(c))
  {
    var m' := SubtractRowMultiple(m, i, k, c);
    var x := RSubtractRowMultiple(Values(m), i, k, Value(c));
    SubtractedRowValues(m[i], m[k], c, m'[i], x[i]);
    forall r | 0 <= r < |m| ensures RowValues(m'[r]) == x[r] {
    }
  }

  /** One row of `SubtractRowValues`, on plain rows. */
  lemma SubtractedRowValues(a: seq<Fraction>, b: seq<Fraction>, c: Fraction, a': seq<Fraction>, v: seq<real>)
    requires |a| == |b| == |a'| == |v|
    requires forall j :: 0 <= j < |a| ==> a'[j] == Sub(a[j], Mul(c, b[j]))
    requires forall j :: 0 <= j < |a| ==> v[j] == Value(a[j]) - Value(c) * Value(b[j])
    ensures RowValues(a') == v
  {
    var r := RowValues(a');
    forall j | 0 <= j < |a| ensures r[j] == v[j] {
      SubMulEntry(a[j], c, b[j], a'[j], v[j]);
    }
    assert r == v;
  }

  /** One entry of `SubtractedRowValues`. */
  lemma SubMulEntry(x: Fraction, c: Fraction, y: Fraction, x': Fraction, u: real)
    requires x' == Sub(x, Mul(c, y)) && u == Value(x) - Value(c) * Value(y)
    ensures Value(x') == u
  {
    SubMulValue(x, c, y);
  }

  lemma {:induction false} EliminateFromValues(w: FMatrix, im: FMatrix, k: nat, i: nat)
    requires IsSquare(w, |w|) && IsSquare(im, |w|) && k < |w| && i <= |w|
    ensures Values(EliminateFrom(w, im, k, i).0) == REliminateFrom(Values(w), Values(im), k, i).0
    ensures Values(EliminateFrom(w, im, k, i).1) == REliminateFrom(Values(w), Values(im), k, i).1
    decreases |w| - i
  {
    if i < |w| {
      if i == k {
        EliminateFromValues(w, im, k, i + 1);
      } else {
        var c := w[i][k];
        SubtractRowValues(w, i, k, c);
        SubtractRowValues(im, i, k, c);
        EliminateFromValues(SubtractRowMultiple(w, i, k, c), SubtractRowMultiple(im, i, k, c), k, i + 1);
      }
    }
  }

  /** One pivot step on fractions has, as values, the effect of one pivot step on reals. */
  lemma PivotStepValues(w: FMatrix, im: FMatrix, focus: nat)
    requires IsSquare(w, |w|) && IsSquare(im, |w|) && focus < |w| && w[focus][focus].num != 0
    ensures Value(w[focus][focus]) != 0.0
    ensures
      var scale := Div(One, w[focus][focus]);
      var p := EliminateFrom(ScaleRow(w, focus, scale), ScaleRow(im, focus, scale), focus, 0);
      var rscale := 1.0 / Values(w)[focus][focus];
      var q := REliminateFrom(RScaleRow(Values(w), focus, rscale), RScaleRow(Values(im), focus, rscale), focus, 0);
      Values(p.0) == q.0 && Values(p.1) == q.1
  {
    ZeroIffNumeratorZero(w[focus][focus]);
    var scale := Div(One, w[focus][focus]);
    assert Value(scale) == 1.0 / Values(w)[focus][focus];
    ScaleRowValues(w, focus, scale);
    ScaleRowValues(im, focus, scale);
    EliminateFromValues(ScaleRow(w, focus, scale), ScaleRow(im, focus, scale), focus, 0);
  }

  lemma {:induction false} InvertFromValues(w: FMatrix, im: FMatrix, focus: nat)
    requires IsSquare(w, |w|) && IsSquare(im, |w|) && focus <= |w|
    ensures InvertFrom(w, im, focus).Inverted? <==> RInvertFrom(Values(w), Values(im), focus).Some?
    ensures InvertFrom(w, im, focus).Inverted? ==>
      Values(InvertFrom(w, im, focus).inverse) == RInvertFrom(Values(w), Values(im), focus).value
    decreases |w| - focus
  {
    if focus < |w| {
      ZeroIffNumeratorZero(w[focus][focus]);
      if w[focus][focus].num != 0 {
        PivotStepValues(w, im, focus);
        assert InvertFrom(w, im, focus) == PivotAt(w, im, focus);
        var scale := Div(One, w[focus][focus]);
        var p := EliminateFrom(ScaleRow(w, focus, scale), ScaleRow(im, focus, scale), focus, 0);
        InvertFromValues(p.0, p.1, focus + 1);
      }
    }
  }

  /**
   * When no pivot is zero, `invert_matrix(m)` returns N with N * m == I,
   * entry by entry, in exact arithmetic.
   */
  lemma InverseIsLeftInverse(m: FMatrix)
    requires IsSquare(m, |m|) && Inverse(m).Inverted?
    ensures IsSquare(Inverse(m).inverse, |m|)
    ensures forall r, j :: 0 <= r < |m| && 0 <= j < |m| ==>
      Dot(RowValues(Inverse(m).inverse[r]), Column(Values(m), j)) == Delta(r, j)
  {
    var n := |m|;
    var id := Identity(n);
    var a := Values(m);
    assert Tracks(a, Values(id), a) by {
      forall r, j | 0 <= r < n && 0 <= j < n
        ensures a[r][j] == Dot(Values(id)[r], Column(a, j))
      {
        DotUnit(Values(id)[r], Column(a, j), r);
      }
    }
    InvertFromValues(m, id, 0);
    InvertFromCorrect(a, Values(id), a, 0);
  }
}
