/**
 * The affine change of coordinates `x = N y + p` that removes the equality
 * constraints `C x = d`: `N` spans the null space of `C` and `p` is a
 * particular solution. Sampling happens over `y`; results are mapped back.
 */
module Transformation {
  import opened Wrappers
  import opened LinAlg
  import Constraints

  /** The default threshold below which a singular value counts as zero. */
  const DefaultEps: real := 1.0 / 10000000000.0

  /** The basis `nullspace` (`|particular|` rows, `cols` columns) and the offset `particular`. */
  datatype Transform = Transform(nullspace: Matrix, cols: nat, particular: Vector)
  {
    predicate Valid()
    {
      |nullspace| == |particular| && IsMatrix(nullspace, cols)
    }
  }

  /**
   * The factors a singular-value decomposition `C = U W V^T` of the equality
   * matrix supplies: the nullity and a basis of the null space, `W`, `V`
   * and `U`. They come from a numerical library and are taken as given.
   */
  datatype Svd = Svd(nullity: nat, nullSpace: Matrix, W: Matrix, V: Matrix, U: Matrix)

  /** The shapes of the full decomposition of the `|C|`-by-`n` matrix `C`. */
  predicate SvdShape(C: Matrix, d: Vector, svd: Svd)
    requires |C| > 0
  {
    var m, n := |C|, |C[0]|;
    && IsMatrix(C, n) && |d| == m
    && |svd.W| == m && IsMatrix(svd.W, n)
    && |svd.V| == n && IsMatrix(svd.V, n)
    && |svd.U| == m && IsMatrix(svd.U, m)
    && |svd.nullSpace| == n && IsMatrix(svd.nullSpace, svd.nullity)
  }

  /** The reciprocal of a singular value, or zero when it does not exceed `eps`. */
  function Reciprocal(w: real, eps: real): (r: real)
    requires 0.0 <= eps
    ensures r * w == 1.0 <==> w > eps
    ensures r == 0.0 <==> w <= eps
  {
    if w > eps then 1.0 / w else 0.0
  }

  /** `values`: the `cols`-by-`rows` matrix with reciprocated singular values on its diagonal. */
  function InvertedValues(W: Matrix, cols: nat, rows: nat, eps: real): (r: Matrix)
    requires |W| == rows && IsMatrix(W, cols) && 0.0 <= eps
    ensures |r| == cols && IsMatrix(r, rows)
  {
    seq(cols, i requires 0 <= i < cols =>
      seq(rows, j requires 0 <= j < rows => if i == j then Reciprocal(W[i][i], eps) else 0.0))
  }

  /**
   * The nested loop that fills `values`: a diagonal entry is `1 / w` exactly
   * when `w > eps`, every other entry is zero.
   */
  method InvertSingularValues(W: Matrix, cols: nat, rows: nat, eps: real) returns (values: Matrix)
    requires |W| == rows && IsMatrix(W, cols) && 0.0 <= eps
    ensures values == InvertedValues(W, cols, rows, eps)
    ensures forall i :: 0 <= i < cols && i < rows ==> (values[i][i] * W[i][i] == 1.0 <==> W[i][i] > eps)
    ensures forall i, j :: 0 <= i < cols && 0 <= j < rows ==>
      (values[i][j] != 0.0 <==> i == j && W[i][i] > eps)
  {
    values := [];
    for i := 0 to cols
      invariant values == InvertedValues(W, cols, rows, eps)[..i]
    {
      var row := [];
      for j := 0 to rows
        invariant row == InvertedValues(W, cols, rows, eps)[i][..j]
      {
        if i == j {
          row := row + [if W[i][i] > eps then 1.0 / W[i][i] else 0.0];
        } else {
          row := row + [0.0];
        }
      }
      assert row == InvertedValues(W, cols, rows, eps)[i];
      values := values + [row];
    }
  }

  /** The transform the constructor builds from the decomposition, or why it cannot. */
  function TransformOf(C: Matrix, d: Vector, numberOfVariables: nat, eps: real, svd: Svd): (r: Result<Transform, Error>)
    requires |C| > 0 ==> SvdShape(C, d, svd)
    requires 0.0 <= eps
    ensures r.Ok? ==> r.value.Valid() && |r.value.nullspace| == if |C| == 0 then numberOfVariables else |C[0]|
  {
    if |C| == 0 then Ok(Transform(Identity(numberOfVariables), numberOfVariables, Zeros(numberOfVariables)))
    else if svd.nullity == 0 then Err(SingleSolution)
    else Ok(Transform(svd.nullSpace, svd.nullity,
                      MatVec(MatMul(MatMul(svd.V, InvertedValues(svd.W, |C[0]|, |C|, eps), |C|), svd.U, |C|), d)))
  }

  /**
   * The constructor. Without equalities the basis is the identity and the
   * offset is zero; with equalities a null space of dimension zero leaves
   * nothing to sample, and otherwise the null space is the basis and the
   * offset is `V values U d`.
   */
  method Build(C: Matrix, d: Vector, numberOfVariables: nat, eps: real, svd: Svd) returns (r: Result<Transform, Error>)
    requires |C| > 0 ==> SvdShape(C, d, svd)
    requires 0.0 <= eps
    ensures r == TransformOf(C, d, numberOfVariables, eps, svd)
    ensures r.Ok? ==> r.value.Valid()
    ensures |C| == 0 ==> r == Ok(Transform(Identity(numberOfVariables), numberOfVariables, Zeros(numberOfVariables)))
    ensures |C| > 0 ==> (r.Err? <==> svd.nullity == 0) && (r.Err? ==> r.error == SingleSolution)
    ensures |C| > 0 && r.Ok? ==>
      && r.value.nullspace == svd.nullSpace && r.value.cols == svd.nullity
      && r.value.particular
         == MatVec(MatMul(MatMul(svd.V, InvertedValues(svd.W, |C[0]|, |C|, eps), |C|), svd.U, |C|), d)
  {
    if |C| == 0 {
      return Ok(Transform(Identity(numberOfVariables), numberOfVariables, Zeros(numberOfVariables)));
    }
    if svd.nullity == 0 {
      return Err(SingleSolution);
    }
    var values := InvertSingularValues(svd.W, |C[0]|, |C|, eps);
    var p := MatVec(MatMul(MatMul(svd.V, values, |C|), svd.U, |C|), d);
    return Ok(Transform(svd.nullSpace, svd.nullity, p));
  }

  /**
   * `project(M)`: `M N`, copied entry by entry. It fails on a matrix with no
   * rows (its first row is read), on a column count other than the rows of
   * `N`, and on ragged rows.
   */
  method Project(t: Transform, M: Matrix) returns (r: Result<Matrix, Error>)
    requires t.Valid()
    ensures r.Err? <==> |M| == 0 || |M[0]| != |t.nullspace| || !IsMatrix(M, |M[0]|)
    ensures r.Ok? ==> r.value == MatMul(M, t.nullspace, t.cols)
    ensures r.Ok? ==> |r.value| == |M| && IsMatrix(r.value, t.cols)
  {
    if |M| == 0 {
      return Err(IndexOutOfBounds);
    }
    if |t.nullspace| != |M[0]| || !IsMatrix(M, |M[0]|) {
      return Err(IllegalArgument);
    }
    var projection := MatMul(M, t.nullspace, t.cols);
    var result := [];
    for i := 0 to |M|
      invariant result == projection[..i]
    {
      var row := [];
      for j := 0 to t.cols
        invariant row == projection[i][..j]
      {
        row := row + [projection[i][j]];
      }
      assert row == projection[i];
      result := result + [row];
    }
    return Ok(result);
  }

  /** `projectBack(v)`: `N v + p`, for `v` as long as `N` has columns. */
  function ProjectBack(t: Transform, v: Vector): (r: Result<Vector, Error>)
    requires t.Valid()
    ensures r.Ok? <==> |v| == t.cols
    ensures r.Err? ==> r.error == IllegalArgument
    ensures r.Ok? ==> |r.value| == |t.particular|
  {
    if |v| != t.cols then Err(IllegalArgument)
    else Ok(Add(MatVec(t.nullspace, v), t.particular))
  }

  /** `solveForParticularSolution(A, b)`: `b - A p`. */
  function SolveForParticularSolution(t: Transform, A: Matrix, b: Vector): (r: Vector)
    requires |A| == |b| && IsMatrix(A, |t.particular|)
    ensures |r| == |b|
  {
    seq(|b|, i requires 0 <= i < |b| => b[i] - Dot(A[i], t.particular))
  }

  /**
   * The substitution `x = N y + p` turns `A x <= b` into
   * `(A N) y <= b - A p`: a reduced point satisfies the projected system
   * exactly when its image satisfies the original one.
   */
  lemma {:induction false} Substitution(t: Transform, A: Matrix, b: Vector, y: Vector)
    requires t.Valid() && |A| == |b| && IsMatrix(A, |t.nullspace|) && |y| == t.cols
    ensures Constraints.Satisfied(A, ProjectBack(t, y).value, b)
      <==> Constraints.Satisfied(MatMul(A, t.nullspace, t.cols), y, SolveForParticularSolution(t, A, b))
  {
    var x := ProjectBack(t, y).value;
    var Q := MatMul(A, t.nullspace, t.cols);
    var q := SolveForParticularSolution(t, A, b);
    forall i | 0 <= i < |A|
      ensures Dot(A[i], x) <= b[i] <==> Dot(Q[i], y) <= q[i]
    {
      DotAdd(A[i], MatVec(t.nullspace, y), t.particular);
      DotMatVec(A[i], t.nullspace, t.cols, y);
    }
  }

  /** Without equalities, projecting changes nothing. */
  lemma {:induction false} IdentityProjectsToItself(n: nat, M: Matrix)
    requires IsMatrix(M, n)
    ensures MatMul(M, Transform(Identity(n), n, Zeros(n)).nullspace, n) == M
  {
    MatMulIdentity(M, n);
  }

  /** Without equalities, mapping back changes nothing and the right-hand side is kept. */
  lemma {:induction false} IdentityMapsBackToItself(v: Vector, A: Matrix, b: Vector)
    requires |A| == |b| && IsMatrix(A, |v|)
    ensures ProjectBack(Transform(Identity(|v|), |v|, Zeros(|v|)), v) == Ok(v)
    ensures SolveForParticularSolution(Transform(Identity(|v|), |v|, Zeros(|v|)), A, b) == b
  {
    MatVecIdentity(v);
    assert Add(MatVec(Identity(|v|), v), Zeros(|v|)) == v;
    forall i | 0 <= i < |A| ensures Dot(A[i], Zeros(|v|)) == 0.0 {
      DotZerosRight(A[i], |v|);
    }
  }

  /**
   * The columns of the basis are orthonormal and the offset is orthogonal
   * to them, as they are for a null-space basis and a minimum-norm
   * particular solution taken from a singular-value decomposition.
   */
  predicate Orthogonal(t: Transform)
    requires t.Valid()
  {
    && (forall i, j :: 0 <= i < t.cols && 0 <= j < t.cols ==>
          Dot(Column(t.nullspace, i), Column(t.nullspace, j)) == if i == j then 1.0 else 0.0)
    && (forall k :: 0 <= k < t.cols ==> Dot(Column(t.nullspace, k), t.particular) == 0.0)
  }

  /**
   * `project` undoes `projectBack`: for an orthogonal transform the row
   * `x N` of a point `x = N y + p` is `y` again, so a point of the affine
   * space survives the trip into reduced coordinates and back.
   */
  lemma {:induction false} ProjectionRoundTrip(t: Transform, y: Vector)
    requires t.Valid() && Orthogonal(t) && |y| == t.cols
    ensures var x := ProjectBack(t, y).value;
      RowTimes(x, t.nullspace, t.cols) == y && ProjectBack(t, RowTimes(x, t.nullspace, t.cols)) == Ok(x)
  {
    var N := t.nullspace;
    var x := ProjectBack(t, y).value;
    var Ny := MatVec(N, y);
    forall k | 0 <= k < t.cols
      ensures RowTimes(x, N, t.cols)[k] == y[k]
    {
      var col := Column(N, k);
      DotSymmetric(x, col);
      DotAdd(col, Ny, t.particular);
      DotMatVec(col, N, t.cols, y);
      var e := RowTimes(col, N, t.cols);
      forall j | 0 <= j < t.cols
        ensures e[j] == if j == k then 1.0 else 0.0
      {
        assert e[j] == Dot(col, Column(N, j));
      }
      DotIndicatorLeft(e, y, k, 1.0);
    }
  }
}
