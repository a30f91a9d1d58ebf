/**
 * The walks behind one interface: each step moves a point `from` to a
 * point `to` inside `A x <= b`, reading whatever random draws it needs.
 */
module RandomWalk {
  import opened Wrappers
  import opened LinAlg
  import Constraints
  import B = Boundary
  import HR = HitAndRun
  import BW = BallWalk
  import GW = GridWalk

  /**
   * The random values one step may read: a point on the unit sphere, a
   * uniform `u` in `[0, 1)`, the `n`-th root of a uniform value, and a
   * uniform index in `[0, 2n)`.
   */
  datatype Draw = Draw(direction: Vector, u: real, root: real, index: nat)

  predicate ValidDraw(draw: Draw, n: nat)
  {
    |draw.direction| == n && 0.0 <= draw.u < 1.0 && 0.0 <= draw.root <= 1.0 && (n > 0 ==> draw.index < 2 * n)
  }

  datatype Walk = HitAndRun | Ball(ball: BW.Walk) | Grid(grid: GW.Grid)

  /** A walk as its constructor accepts it. */
  predicate ValidWalk(w: Walk)
  {
    match w
    case HitAndRun => true
    case Ball(ball) => ball.radius > 0.0
    case Grid(grid) => grid.gridSpacing > 0.0
  }

  /** One right-hand side per row, rows as wide as the point, index lists naming columns. */
  predicate Shape(A: Matrix, b: Vector, x: Vector, indices: B.Indices)
  {
    |A| == |b| && B.Shape(A, b, x, x, indices)
  }

  lemma {:induction false} ShapeForDirection(A: Matrix, b: Vector, x: Vector, d: Vector, indices: B.Indices)
    requires Shape(A, b, x, indices) && |d| == |x|
    ensures B.Shape(A, b, d, x, indices) && B.Shape(A, b, d, x, None) && GW.Shape(A, b, |x|)
  {
  }

  /** Where one step of `w` moves `x`, or why it fails. */
  function Move(w: Walk, A: Matrix, indices: B.Indices, b: Vector, draw: Draw, x: Vector, eps: real)
    : (r: Result<Vector, Error>)
    requires Shape(A, b, x, indices) && ValidDraw(draw, |x|) && 0.0 <= eps
    ensures r.Ok? ==> |r.value| == |x|
  {
    ShapeForDirection(A, b, x, draw.direction, indices);
    match w
    case HitAndRun =>
      var step :- HR.StepOf(A, indices, b, draw.direction, x, draw.u, eps);
      Ok(Along(x, draw.direction, step))
    case Ball(ball) =>
      BW.Target(ball, A, b, draw.direction, x, draw.root, eps)
    case Grid(grid) =>
      if |x| == 0 then Err(IllegalArgument) else Ok(GW.Target(grid, A, b, x, draw.index, eps))
  }

  /**
   * `next` of the chosen walk. A failing step leaves `to` as it was; `to`
   * may be the same array as `from`.
   */
  method Next(w: Walk, A: Matrix, indices: B.Indices, b: Vector, buffer: array<real>, draw: Draw,
              from: array<real>, to: array<real>)
    returns (o: Outcome<Error>)
    requires buffer.Length == from.Length == to.Length && buffer != from && buffer != to
    requires Shape(A, b, from[..], indices) && ValidDraw(draw, from.Length)
    modifies buffer, to
    ensures var r := Move(w, A, indices, b, draw, old(from[..]), Tolerance);
      && (o.Fail? <==> r.Err?)
      && (o.Fail? ==> o.error == r.error && to[..] == old(to[..]))
      && (o.Pass? ==> to[..] == r.value)
  {
    ShapeForDirection(A, b, from[..], draw.direction, indices);
    match w
    case HitAndRun =>
      o := HR.Next(A, indices, b, buffer, draw.direction, draw.u, from, to);
    case Ball(ball) =>
      o := BW.Next(ball, A, b, buffer, draw.direction, draw.root, from, to);
    case Grid(grid) =>
      o := GW.Next(grid, A, b, draw.index, from, to);
  }

  /**
   * Over exact arithmetic every walk keeps a feasible point feasible: a
   * step from a point of `A x <= b`, when it succeeds, lands in `A x <= b`.
   */
  lemma {:induction false} MoveKeepsFeasible(w: Walk, A: Matrix, indices: B.Indices, b: Vector, draw: Draw, x: Vector)
    requires Shape(A, b, x, indices) && ValidDraw(draw, |x|) && ValidWalk(w)
    requires HR.ExactIndices(A, b, indices)
    requires Constraints.Satisfied(A, x, b)
    requires Move(w, A, indices, b, draw, x, 0.0).Ok?
    ensures Constraints.Satisfied(A, Move(w, A, indices, b, draw, x, 0.0).value, b)
  {
    ShapeForDirection(A, b, x, draw.direction, indices);
    var y := Move(w, A, indices, b, draw, x, 0.0).value;
    match w
    case HitAndRun =>
      HR.StepStaysInsideExactly(A, indices, b, draw.direction, x, draw.u);
    case Ball(ball) =>
      if ball.behaviour == BW.Stay {
        Constraints.SatisfiedWithinMeaning(A, x, b, 0.0, 0.0);
        BW.StayKeepsInside(ball, A, b, draw.direction, x, draw.root, 0.0);
        Constraints.SatisfiedWithinMeaning(A, y, b, 0.0, 0.0);
      } else {
        BW.CropKeepsInside(ball, A, b, draw.direction, x, draw.root, 0.0);
      }
    case Grid(grid) =>
      Constraints.SatisfiedWithinMeaning(A, x, b, 0.0, 0.0);
      GW.KeepsInside(grid, A, b, x, draw.index, 0.0);
  }
}
