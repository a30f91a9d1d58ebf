/**
 * Finding a point strictly inside `A x <= b` by solving the auxiliary
 * linear program "maximise `delta` subject to `A x + e = b`, `delta <= e`"
 * over the variables `(x, e, delta)`.
 */
module InteriorPoint {
  import opened Wrappers
  import opened LinAlg
  import Constraints
  import opened Solver

  /** Row `i` of the equalities: `A_i` over `x`, 1 on `e_i`, 0 on `delta`. */
  function EqualityRow(A: Matrix, i: nat): (r: Vector)
    requires i < |A|
  {
    A[i] + Unit(|A|, i) + [0.0]
  }

  /** `-1` at position `i` of `m` entries, zero elsewhere. */
  function NegatedUnit(m: nat, i: nat): (r: Vector)
    ensures |r| == m
  {
    seq(m, j => if j == i then -1.0 else 0.0)
  }

  /** Row `i` of the inequalities: 0 over `x`, -1 on `e_i`, 1 on `delta`. */
  function InequalityRow(n: nat, m: nat, i: nat): (r: Vector)
  {
    Zeros(n) + NegatedUnit(m, i) + [1.0]
  }

  /** The objective: the unit vector on `delta`, the last of `n + m + 1` columns. */
  function Objective(n: nat, m: nat): (r: Vector)
  {
    Zeros(n + m) + [1.0]
  }

  /** The auxiliary program's matrices as the solver receives them. */
  datatype Auxiliary = Auxiliary(
    equalitiesLhs: Matrix, equalitiesRhs: Vector,
    inequalitiesLhs: Matrix, inequalitiesRhs: Vector,
    objective: Vector)

  function AuxiliaryOf(A: Matrix, b: Vector): Auxiliary
    requires |A| > 0 && |A| == |b|
  {
    var n, m := |A[0]|, |A|;
    Auxiliary(
      seq(m, i requires 0 <= i < m => EqualityRow(A, i)), b,
      seq(m, i requires 0 <= i < m => InequalityRow(n, m, i)), Zeros(m),
      Objective(n, m))
  }

  /** The auxiliary constraints as a system over `n + m + 1` variables. */
  function AuxiliarySystem(A: Matrix, b: Vector): Constraints.System
    requires |A| > 0 && |A| == |b|
  {
    var aux := AuxiliaryOf(A, b);
    Constraints.System(aux.inequalitiesLhs, aux.inequalitiesRhs, aux.equalitiesLhs, aux.equalitiesRhs,
                       |A[0]| + |A| + 1)
  }

  /**
   * The layout the solver sees: `n + m + 1` columns; equality row `i` is
   * `A_i` on the first `n` columns, 1 at column `n + i`, 0 elsewhere with
   * right-hand side `b_i`; inequality row `i` is -1 at column `n + i`, 1 at
   * the last column, 0 elsewhere with right-hand side 0; the objective is 1
   * on the last column only. The system passes the matrix constructor's checks.
   */
  lemma {:induction false} AuxiliaryLayout(A: Matrix, b: Vector)
    requires |A| > 0 && |A| == |b| && IsMatrix(A, |A[0]|)
    ensures var n, m := |A[0]|, |A|;
      var aux := AuxiliaryOf(A, b);
      && |aux.equalitiesLhs| == |aux.inequalitiesLhs| == m
      && IsMatrix(aux.equalitiesLhs, n + m + 1) && IsMatrix(aux.inequalitiesLhs, n + m + 1)
      && aux.equalitiesRhs == b && aux.inequalitiesRhs == Zeros(m)
      && (forall i, c :: 0 <= i < m && 0 <= c < n + m + 1 ==>
            aux.equalitiesLhs[i][c] == if c < n then A[i][c] else if c == n + i then 1.0 else 0.0)
      && (forall i, c :: 0 <= i < m && 0 <= c < n + m + 1 ==>
            aux.inequalitiesLhs[i][c] == if c == n + i then -1.0 else if c == n + m then 1.0 else 0.0)
      && |aux.objective| == n + m + 1
      && (forall c :: 0 <= c < n + m + 1 ==> aux.objective[c] == if c == n + m then 1.0 else 0.0)
    ensures Constraints.FromMatrices(AuxiliaryOf(A, b).inequalitiesLhs, AuxiliaryOf(A, b).inequalitiesRhs,
                                     AuxiliaryOf(A, b).equalitiesLhs, AuxiliaryOf(A, b).equalitiesRhs)
            == Ok(AuxiliarySystem(A, b))
  {
  }

  /**
   * The nested loops that build the auxiliary program, row by row with the
   * `i == j` test for the slack columns.
   */
  method BuildAuxiliary(A: Matrix, b: Vector) returns (aux: Auxiliary)
    requires |A| > 0 && |A| == |b| && IsMatrix(A, |A[0]|)
    ensures aux == AuxiliaryOf(A, b)
  {
    var n, m := |A[0]|, |A|;
    var equalitiesLhs, inequalitiesLhs := [], [];
    for i := 0 to m
      invariant equalitiesLhs == seq(i, k requires 0 <= k < i => EqualityRow(A, k))
    {
      var slack := [];
      for j := 0 to m
        invariant slack == Unit(m, i)[..j]
      {
        slack := slack + [if i == j then 1.0 else 0.0];
      }
      assert slack == Unit(m, i);
      equalitiesLhs := equalitiesLhs + [A[i] + slack + [0.0]];
    }
    for i := 0 to m
      invariant inequalitiesLhs == seq(i, k requires 0 <= k < i => InequalityRow(n, m, k))
    {
      var slack := [];
      for j := 0 to m
        invariant slack == NegatedUnit(m, i)[..j]
      {
        slack := slack + [if i == j then -1.0 else 0.0];
      }
      assert slack == NegatedUnit(m, i);
      inequalitiesLhs := inequalitiesLhs + [Zeros(n) + slack + [1.0]];
    }
    aux := Auxiliary(equalitiesLhs, b, inequalitiesLhs, Zeros(m), Objective(n, m));
  }

  /** `z = (x, e, delta)` satisfies the auxiliary constraints. */
  predicate SolvesAuxiliary(A: Matrix, b: Vector, z: Vector)
    requires |A| > 0 && |A| == |b| && IsMatrix(A, |A[0]|)
  {
    var n, m := |A[0]|, |A|;
    && |z| == n + m + 1
    && (forall i :: 0 <= i < m ==> Dot(EqualityRow(A, i), z) == b[i])
    && (forall i :: 0 <= i < m ==> Dot(InequalityRow(n, m, i), z) <= 0.0)
  }

  /** Equality row `i` at `z = (x, e, delta)` is `A_i x + e_i`. */
  lemma {:induction false} EqualityRowAt(A: Matrix, z: Vector, i: nat)
    requires |A| > 0 && IsMatrix(A, |A[0]|) && i < |A| && |z| == |A[0]| + |A| + 1
    ensures Dot(EqualityRow(A, i), z) == Dot(A[i], z[..|A[0]|]) + z[|A[0]| + i]
  {
    var n, m := |A[0]|, |A|;
    DotConcat(A[i] + Unit(m, i), [0.0], z);
    DotConcat(A[i], Unit(m, i), z);
    DotCongruent(A[i], z, z[..n]);
    DotIndicatorLeft(Unit(m, i), z[n..], i, 1.0);
    assert Dot([0.0], z[n + m..]) == 0.0;
  }

  /** Inequality row `i` at `z = (x, e, delta)` is `delta - e_i`. */
  lemma {:induction false} InequalityRowAt(n: nat, m: nat, z: Vector, i: nat)
    requires i < m && |z| == n + m + 1
    ensures Dot(InequalityRow(n, m, i), z) == z[n + m] - z[n + i]
  {
    DotConcat(Zeros(n) + NegatedUnit(m, i), [1.0], z);
    DotConcat(Zeros(n), NegatedUnit(m, i), z);
    DotZerosLeft(Zeros(n), z);
    DotIndicatorLeft(NegatedUnit(m, i), z[n..], i, -1.0);
    assert Dot([1.0], z[n + m..]) == z[n + m];
  }

  /** The two auxiliary rows of constraint `i`, evaluated at `z`. */
  lemma {:induction false} RowsAt(A: Matrix, z: Vector, i: nat)
    requires |A| > 0 && IsMatrix(A, |A[0]|) && i < |A| && |z| == |A[0]| + |A| + 1
    ensures Dot(EqualityRow(A, i), z) == Dot(A[i], z[..|A[0]|]) + z[|A[0]| + i]
    ensures Dot(InequalityRow(|A[0]|, |A|, i), z) == z[|A[0]| + |A|] - z[|A[0]| + i]
  {
    EqualityRowAt(A, z, i);
    InequalityRowAt(|A[0]|, |A|, z, i);
  }

  /**
   * A solution of the auxiliary program with `delta > 0` gives a point
   * strictly inside every constraint, by at least `delta`.
   */
  lemma {:induction false} SlackGivesInterior(A: Matrix, b: Vector, z: Vector)
    requires |A| > 0 && |A| == |b| && IsMatrix(A, |A[0]|)
    requires SolvesAuxiliary(A, b, z) && z[|A[0]| + |A|] > 0.0
    ensures forall i :: 0 <= i < |A| ==> Dot(A[i], z[..|A[0]|]) <= b[i] - z[|A[0]| + |A|] < b[i]
  {
    forall i | 0 <= i < |A|
      ensures Dot(A[i], z[..|A[0]|]) <= b[i] - z[|A[0]| + |A|]
    {
      RowsAt(A, z, i);
    }
  }

  /**
   * Conversely, a point inside every constraint by at least `delta` extends,
   * with its slacks, to a solution of the auxiliary program of value `delta`.
   */
  lemma {:induction false} InteriorGivesSlack(A: Matrix, b: Vector, x: Vector, delta: real)
    requires |A| > 0 && |A| == |b| && IsMatrix(A, |A[0]|) && |x| == |A[0]|
    requires forall i :: 0 <= i < |A| ==> Dot(A[i], x) <= b[i] - delta
    ensures var z := x + seq(|A|, i requires 0 <= i < |A| => b[i] - Dot(A[i], x)) + [delta];
      SolvesAuxiliary(A, b, z) && z[|A[0]| + |A|] == delta
  {
    var n, m := |A[0]|, |A|;
    var slack := seq(|A|, i requires 0 <= i < |A| => b[i] - Dot(A[i], x));
    var z := x + slack + [delta];
    assert z[..n] == x;
    assert z[n + m] == delta;
    forall i | 0 <= i < m
      ensures Dot(EqualityRow(A, i), z) == b[i] && Dot(InequalityRow(n, m, i), z) <= 0.0
    {
      RowsAt(A, z, i);
      assert z[n + i] == slack[i];
    }
  }

  /** `Arrays.copyOfRange(s, 0, n)`: the first `n` entries, padded with zeros. */
  function CopyOfRange(s: Vector, n: nat): (r: Vector)
    ensures |r| == n
    ensures forall i :: 0 <= i < n ==> r[i] == if i < |s| then s[i] else 0.0
  {
    seq(n, i requires 0 <= i < n => if i < |s| then s[i] else 0.0)
  }

  /**
   * `generate(A, b, solver)`: build and solve the auxiliary program. An
   * unbounded program, an infeasible answer or an optimal `delta <= 0` is a
   * failure; otherwise the point is the first `n` entries of the solution.
   * When the solver's answer is a genuine solution with value `delta`, the
   * point lies strictly inside every constraint.
   */
  method Generate(A: Matrix, b: Vector, solver: GLPSolver) returns (r: Result<Vector, Error>)
    requires |A| == |b| && (|A| > 0 ==> IsMatrix(A, |A[0]|))
    ensures |A| == 0 ==> r == Err(IndexOutOfBounds)
    ensures |A| > 0 ==>
      var answer := solver(Maximize, Objective(|A[0]|, |A|), AuxiliarySystem(A, b));
      && (answer.Unbounded? ==> r == Err(Error.Unbounded))
      && (answer.Solved? && (!answer.result.feasible || answer.result.value <= 0.0) ==> r == Err(Infeasible))
      && (answer.Solved? && answer.result.feasible && answer.result.value > 0.0 ==>
            r == Ok(CopyOfRange(answer.result.solution, |A[0]|)))
    ensures r.Ok? ==> |A| > 0 && |r.value| == |A[0]|
    ensures r.Ok? ==>
      var answer := solver(Maximize, Objective(|A[0]|, |A|), AuxiliarySystem(A, b));
      var z := answer.result.solution;
      SolvesAuxiliary(A, b, z) && answer.result.value == z[|A[0]| + |A|] ==>
        forall i :: 0 <= i < |A| ==> Dot(A[i], r.value) < b[i]
  {
    if |A| == 0 {
      return Err(IndexOutOfBounds);
    }
    var n, m := |A[0]|, |A|;
    var aux := BuildAuxiliary(A, b);
    AuxiliaryLayout(A, b);
    var system := Constraints.FromMatrices(aux.inequalitiesLhs, aux.inequalitiesRhs,
                                           aux.equalitiesLhs, aux.equalitiesRhs);
    var answer := solver(Maximize, aux.objective, system.value);
    if answer.Unbounded? {
      return Err(Error.Unbounded);
    }
    if !answer.result.feasible {
      return Err(Infeasible);
    }
    if answer.result.value <= 0.0 {
      return Err(Infeasible);
    }
    var point := CopyOfRange(answer.result.solution, n);
    var z := answer.result.solution;
    if SolvesAuxiliary(A, b, z) && answer.result.value == z[n + m] {
      SlackGivesInterior(A, b, z);
      assert point == z[..n];
    }
    return Ok(point);
  }
}
