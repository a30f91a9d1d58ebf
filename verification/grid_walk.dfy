/**
 * Grid walk: move one grid step up or down along one coordinate axis, and
 * stay put if that leaves the polytope.
 */
module GridWalk {
  import opened Wrappers
  import opened LinAlg
  import Constraints

  datatype Grid = Grid(gridSpacing: real)

  /** The constructor: the grid spacing has to be positive. */
  function Create(gridSpacing: real): (r: Result<Grid, Error>)
    ensures r.Ok? <==> gridSpacing > 0.0
    ensures r.Ok? ==> r.value.gridSpacing == gridSpacing
    ensures r.Err? ==> r.error == IllegalArgument
  {
    if gridSpacing <= 0.0 then Err(IllegalArgument) else Ok(Grid(gridSpacing))
  }

  /** The drawn index in `[0, 2n)` names the axis `index / 2` ... */
  function Axis(index: nat): nat
  {
    index / 2
  }

  /** ... and the sense: up for an even index, down for an odd one. */
  function Sign(index: nat): real
  {
    if index % 2 == 0 then 1.0 else -1.0
  }

  /**
   * The candidate point as the walk computes it: a copy of `x` whose
   * coordinate on the drawn axis is set to `+-gridSpacing`.
   */
  function CandidateAsWritten(x: Vector, index: nat, gridSpacing: real): (r: Vector)
    requires index < 2 * |x|
    ensures |r| == |x|
  {
    x[Axis(index) := Sign(index) * gridSpacing]
  }

  /**
   * The candidate as written does not move by one grid step: from `(5)`
   * with spacing 1 and index 0 it jumps to `(1)`, four units away, and it
   * is the same point whatever coordinate it starts from.
   */
  lemma {:induction false} AsWrittenLeavesTheGrid()
    ensures CandidateAsWritten([5.0], 0, 1.0) == [1.0]
    ensures CandidateAsWritten([5.0], 0, 1.0)[0] - 5.0 != 1.0
    ensures CandidateAsWritten([5.0], 0, 1.0) == CandidateAsWritten([-3.0], 0, 1.0)
  {
  }

  /** The intended candidate: `x` moved by `+-gridSpacing` along the drawn axis. */
  function Candidate(x: Vector, index: nat, gridSpacing: real): (r: Vector)
    requires index < 2 * |x|
    ensures |r| == |x|
  {
    x[Axis(index) := x[Axis(index)] + Sign(index) * gridSpacing]
  }

  /**
   * The intended candidate is a grid neighbour: it agrees with `x` off the
   * drawn axis and differs on it by exactly the spacing, upwards for an
   * even index and downwards for an odd one.
   */
  lemma {:induction false} CandidateIsNeighbour(x: Vector, index: nat, gridSpacing: real)
    requires index < 2 * |x|
    ensures var y := Candidate(x, index, gridSpacing);
      && (forall k :: 0 <= k < |x| && k != index / 2 ==> y[k] == x[k])
      && (index % 2 == 0 ==> y[index / 2] == x[index / 2] + gridSpacing)
      && (index % 2 == 1 ==> y[index / 2] == x[index / 2] - gridSpacing)
  {
  }

  /** A step up followed by a step down along the same axis comes back. */
  lemma {:induction false} UpThenDown(x: Vector, axis: nat, gridSpacing: real)
    requires axis < |x|
    ensures Candidate(Candidate(x, 2 * axis, gridSpacing), 2 * axis + 1, gridSpacing) == x
  {
    var up := Candidate(x, 2 * axis, gridSpacing);
    assert Axis(2 * axis) == axis && Axis(2 * axis + 1) == axis;
    assert up[axis] == x[axis] + gridSpacing;
  }

  /** The shapes the feasibility check indexes into. */
  predicate Shape(A: Matrix, b: Vector, n: nat)
  {
    |A| == |b| && forall j :: 0 <= j < |A| ==> |A[j]| == n
  }

  /**
   * Where `next` moves `x`: the candidate as written, if it passes the
   * tolerant check, otherwise `x`.
   */
  function Target(g: Grid, A: Matrix, b: Vector, x: Vector, index: nat, eps: real): (r: Vector)
    requires Shape(A, b, |x|) && index < 2 * |x|
    ensures |r| == |x|
  {
    var candidate := CandidateAsWritten(x, index, g.gridSpacing);
    if Constraints.SatisfiedWithin(A, candidate, b, eps) then candidate else x
  }

  /**
   * `next`: the candidate is built in a fresh array, so `to` may be the same
   * array as `from`. With no coordinates there is no index to draw.
   */
  method Next(g: Grid, A: Matrix, b: Vector, index: nat, from: array<real>, to: array<real>)
    returns (o: Outcome<Error>)
    requires from.Length == to.Length && Shape(A, b, from.Length)
    requires from.Length > 0 ==> index < 2 * from.Length
    modifies to
    ensures from.Length == 0 <==> o.Fail?
    ensures o.Fail? ==> o.error == IllegalArgument && to[..] == old(to[..])
    ensures o.Pass? ==> to[..] == Target(g, A, b, old(from[..]), index, Tolerance)
  {
    if from.Length == 0 {
      return Fail(IllegalArgument);
    }
    var nextPoint := new real[from.Length];
    ArrayCopy(from, nextPoint);
    // index / 2 is the axis, index % 2 the sense (0 up, 1 down)
    nextPoint[Axis(index)] := Sign(index) * g.gridSpacing;
    assert nextPoint[..] == CandidateAsWritten(from[..], index, g.gridSpacing);
    if Constraints.SatisfiedWithin(A, nextPoint[..], b, Tolerance) {
      ArrayCopy(nextPoint, to);
    } else {
      ArrayCopy(from, to);
    }
    return Pass;
  }

  /**
   * Every outcome of the step as written differs from `x` in at most the
   * drawn coordinate; it moves exactly when the candidate passes the check,
   * and then that coordinate becomes `+gridSpacing` for an even index and
   * `-gridSpacing` for an odd one.
   */
  lemma {:induction false} MovesOneCoordinate(g: Grid, A: Matrix, b: Vector, x: Vector, index: nat, eps: real)
    requires Shape(A, b, |x|) && index < 2 * |x|
    ensures var y := Target(g, A, b, x, index, eps);
      && (forall k :: 0 <= k < |x| && k != index / 2 ==> y[k] == x[k])
      && (Constraints.SatisfiedWithin(A, CandidateAsWritten(x, index, g.gridSpacing), b, eps) ==>
            y[index / 2] == (if index % 2 == 0 then g.gridSpacing else -g.gridSpacing))
      && (!Constraints.SatisfiedWithin(A, CandidateAsWritten(x, index, g.gridSpacing), b, eps) ==> y == x)
  {
    var y := Target(g, A, b, x, index, eps);
    if Constraints.SatisfiedWithin(A, CandidateAsWritten(x, index, g.gridSpacing), b, eps) {
      assert y == x[index / 2 := Sign(index) * g.gridSpacing];
    }
  }

  /**
   * The step as written keeps the tolerant check true: from a point that
   * passes it, it moves only to a point that passes it. Over exact
   * arithmetic (`eps = 0`) this is `A x <= b`.
   */
  lemma {:induction false} KeepsInside(g: Grid, A: Matrix, b: Vector, x: Vector, index: nat, eps: real)
    requires Shape(A, b, |x|) && index < 2 * |x|
    requires Constraints.SatisfiedWithin(A, x, b, eps)
    ensures Constraints.SatisfiedWithin(A, Target(g, A, b, x, index, eps), b, eps)
    ensures eps == 0.0 ==> Constraints.Satisfied(A, Target(g, A, b, x, index, eps), b)
  {
    Constraints.SatisfiedWithinMeaning(A, Target(g, A, b, x, index, eps), b, eps, eps);
  }

  /** The intended step: the grid neighbour if it passes the tolerant check, otherwise `x`. */
  function TargetIntended(g: Grid, A: Matrix, b: Vector, x: Vector, index: nat, eps: real): (r: Vector)
    requires Shape(A, b, |x|) && index < 2 * |x|
    ensures |r| == |x|
  {
    var candidate := Candidate(x, index, g.gridSpacing);
    if Constraints.SatisfiedWithin(A, candidate, b, eps) then candidate else x
  }

  /**
   * The intended step stays on the grid through `x`: it is `x` itself or
   * the neighbour one spacing away along the drawn axis, and from a point
   * that passes the tolerant check it moves only to one that passes it.
   */
  lemma {:induction false} IntendedStaysOnGrid(g: Grid, A: Matrix, b: Vector, x: Vector, index: nat, eps: real)
    requires Shape(A, b, |x|) && index < 2 * |x|
    requires Constraints.SatisfiedWithin(A, x, b, eps)
    ensures var y := TargetIntended(g, A, b, x, index, eps);
      && (forall k :: 0 <= k < |x| && k != index / 2 ==> y[k] == x[k])
      && (y == x || y[index / 2] == x[index / 2] + (if index % 2 == 0 then g.gridSpacing else -g.gridSpacing))
      && Constraints.SatisfiedWithin(A, y, b, eps)
  {
    CandidateIsNeighbour(x, index, g.gridSpacing);
  }
}
