/**
 * Ball walk: step from the current point a random length inside a ball of
 * the given radius. A step that would leave the polytope is either not taken
 * (`Stay`) or shortened to the boundary (`Crop`). The sphere walk is the same
 * walk with the step length fixed at the radius.
 */
module BallWalk {
  import opened Wrappers
  import opened LinAlg
  import Constraints
  import B = Boundary

  datatype OutOfBoundsBehaviour = Stay | Crop

  /**
   * A configured walk. `fixedLength` is the sphere walk's override of the
   * step length.
   */
  datatype Walk = Walk(radius: real, behaviour: OutOfBoundsBehaviour, fixedLength: bool)

  /** The constructor: the radius has to be positive. */
  function Create(radius: real, behaviour: OutOfBoundsBehaviour): (r: Result<Walk, Error>)
    ensures r.Ok? <==> radius > 0.0
    ensures r.Ok? ==> r.value == Walk(radius, behaviour, false)
    ensures r.Err? ==> r.error == IllegalArgument
  {
    if radius <= 0.0 then Err(IllegalArgument) else Ok(Walk(radius, behaviour, false))
  }

  /**
   * `getStepLength`: `root * r`, where `root` is the drawn `u^(1/n)`, which
   * lies in `[0, 1]`; the sphere walk returns `r` itself.
   */
  function StepLength(w: Walk, root: real): (r: real)
    ensures w.fixedLength ==> r == w.radius
    ensures !w.fixedLength && 0.0 <= root <= 1.0 && 0.0 < w.radius ==> 0.0 <= r <= w.radius
  {
    if w.fixedLength then w.radius
    else
      RootScales(root, w.radius, root * w.radius);
      root * w.radius
  }

  lemma {:induction false} RootScales(root: real, radius: real, p: real)
    requires p == root * radius
    ensures 0.0 <= root <= 1.0 && 0.0 < radius ==> 0.0 <= p <= radius
  {
    if 0.0 <= root <= 1.0 && 0.0 < radius {
      assert root * radius <= 1.0 * radius;
    }
  }

  /** The shapes `next` indexes into: one right-hand side per row, rows as wide as the point. */
  predicate Shape(A: Matrix, b: Vector, d: Vector, x: Vector)
  {
    |A| == |b| && B.Shape(A, b, d, x, None)
  }

  /**
   * Where `next` moves `x` along `d`. `Stay` takes the full step if the
   * result passes the tolerant feasibility check and otherwise stays put;
   * `Crop` moves by the smaller of the step and the forward distance to the
   * boundary, and fails when that distance is infinite.
   */
  function Target(w: Walk, A: Matrix, b: Vector, d: Vector, x: Vector, root: real, eps: real)
    : (r: Result<Vector, Error>)
    requires Shape(A, b, d, x) && 0.0 <= eps
    ensures r.Ok? ==> |r.value| == |x|
  {
    var step := StepLength(w, root);
    match w.behaviour
    case Stay =>
      var candidate := Along(x, d, step);
      if Constraints.SatisfiedWithin(A, candidate, b, eps) then Ok(candidate) else Ok(x)
    case Crop =>
      var chord := B.DistanceSpec(A, b, d, x, eps, None);
      if chord.Err? then Err(chord.error)
      else if chord.value.forward.PosInf? then Err(Error.Unbounded)
      else
        B.ForwardIsMinimum(A, b, d, x, eps, None, |b|);
        Ok(Along(x, d, Min(chord.value.forward.v, step)))
  }

  function Min(a: real, b: real): real
  {
    if a <= b then a else b
  }

  /**
   * `next`: the direction goes into `buffer`; the candidate point is built
   * in a fresh array before anything is written to `to`, so `to` may be the
   * same array as `from`. A failing step leaves `to` as it was.
   */
  method Next(w: Walk, A: Matrix, b: Vector, buffer: array<real>, direction: Vector, root: real,
              from: array<real>, to: array<real>)
    returns (o: Outcome<Error>)
    requires buffer.Length == |direction| == from.Length == to.Length
    requires buffer != from && buffer != to
    requires Shape(A, b, direction, from[..])
    modifies buffer, to
    ensures buffer[..] == direction
    ensures var target := Target(w, A, b, direction, old(from[..]), root, Tolerance);
      && (o.Fail? <==> target.Err?)
      && (o.Fail? ==> o.error == target.error && to[..] == old(to[..]))
      && (o.Pass? ==> to[..] == target.value)
  {
    ghost var x := from[..];
    for i := 0 to buffer.Length
      invariant buffer[..i] == direction[..i]
      invariant from[..] == x && to[..] == old(to[..])
    {
      buffer[i] := direction[i];
    }
    assert buffer[..] == direction;
    var step := StepLength(w, root);
    var length := step;
    if w.behaviour.Crop? {
      var chord := B.Distance(A, b, buffer[..], from[..], Tolerance, None);
      if chord.Err? {
        return Fail(chord.error);
      }
      if chord.value.forward.PosInf? {
        return Fail(Error.Unbounded);
      }
      B.ForwardIsMinimum(A, b, direction, x, Tolerance, None, |b|);
      length := Min(chord.value.forward.v, step);
    }
    var nextPoint := Candidate(from, buffer, length);
    if w.behaviour.Crop? || Constraints.SatisfiedWithin(A, nextPoint[..], b, Tolerance) {
      ArrayCopy(nextPoint, to);
    } else {
      ArrayCopy(from, to);
    }
    return Pass;
  }

  /** The candidate `from + length * buffer`, built in a fresh array. */
  method Candidate(from: array<real>, buffer: array<real>, length: real) returns (nextPoint: array<real>)
    requires from.Length == buffer.Length
    ensures fresh(nextPoint)
    ensures nextPoint[..] == Along(from[..], buffer[..], length)
  {
    nextPoint := new real[from.Length];
    for i := 0 to from.Length
      invariant forall k :: 0 <= k < i ==> nextPoint[k] == Along(from[..], buffer[..], length)[k]
    {
      nextPoint[i] := from[i] + buffer[i] * length;
    }
    assert forall k :: 0 <= k < from.Length ==> nextPoint[..][k] == Along(from[..], buffer[..], length)[k];
  }

  /** With `Stay` the walk never fails: it moves by the full step or not at all. */
  lemma {:induction false} StayNeverFails(w: Walk, A: Matrix, b: Vector, d: Vector, x: Vector, root: real, eps: real)
    requires Shape(A, b, d, x) && 0.0 <= eps && w.behaviour == Stay
    ensures Target(w, A, b, d, x, root, eps).Ok?
    ensures var y := Target(w, A, b, d, x, root, eps).value;
      y == x || y == Along(x, d, StepLength(w, root))
  {
  }

  /**
   * `Stay` keeps the tolerant feasibility check true: a point that passes
   * it moves only to a point that passes it.
   */
  lemma {:induction false} StayKeepsInside(w: Walk, A: Matrix, b: Vector, d: Vector, x: Vector, root: real, eps: real)
    requires Shape(A, b, d, x) && 0.0 <= eps && w.behaviour == Stay
    requires Constraints.SatisfiedWithin(A, x, b, eps)
    ensures Target(w, A, b, d, x, root, eps).Ok?
    ensures Constraints.SatisfiedWithin(A, Target(w, A, b, d, x, root, eps).value, b, eps)
  {
  }

  /**
   * `Crop` fails exactly when a row is already violated by more than `eps`
   * or nothing bounds the walk along `d`; otherwise it moves by a length
   * between 0 and both the step and the forward distance.
   */
  lemma {:induction false} CropMoves(w: Walk, A: Matrix, b: Vector, d: Vector, x: Vector, root: real, eps: real)
    requires Shape(A, b, d, x) && 0.0 <= eps && w.behaviour == Crop && 0.0 < w.radius && 0.0 <= root <= 1.0
    ensures var chord := B.DistanceSpec(A, b, d, x, eps, None);
      var r := Target(w, A, b, d, x, root, eps);
      && (r == Err(OutOfBounds) <==> exists j :: 0 <= j < |b| && B.Slack(A, b, d, x, None, j) < -eps)
      && (r == Err(Error.Unbounded) <==> chord.Ok? && forall j :: 0 <= j < |b| ==> B.Ad(A, b, d, x, None, j) <= eps)
      && (r.Ok? ==>
            chord.Ok? && chord.value.forward.Fin?
            && exists t :: r.value == Along(x, d, t)
                 && 0.0 <= t <= chord.value.forward.v && t <= StepLength(w, root)
                 && (t == chord.value.forward.v || t == StepLength(w, root)))
  {
    B.FailsIffViolated(A, b, d, x, eps, None, |b|);
    var chord := B.DistanceSpec(A, b, d, x, eps, None);
    if chord.Ok? {
      B.ForwardIsMinimum(A, b, d, x, eps, None, |b|);
      if chord.value.forward.Fin? {
        var t := Min(chord.value.forward.v, StepLength(w, root));
        assert Target(w, A, b, d, x, root, eps).value == Along(x, d, t);
      }
    }
  }

  /** A successful `Crop` move goes a length `t` within the chord and never backwards. */
  lemma {:induction false} CropLength(w: Walk, A: Matrix, b: Vector, d: Vector, x: Vector, root: real, eps: real)
    returns (t: real)
    requires Shape(A, b, d, x) && 0.0 <= eps && w.behaviour == Crop && 0.0 < w.radius && 0.0 <= root <= 1.0
    requires Target(w, A, b, d, x, root, eps).Ok?
    ensures B.DistanceSpec(A, b, d, x, eps, None).Ok?
    ensures 0.0 <= t && B.Within(B.DistanceSpec(A, b, d, x, eps, None).value, t)
    ensures Target(w, A, b, d, x, root, eps).value == Along(x, d, t)
  {
    var chord := B.DistanceSpec(A, b, d, x, eps, None);
    B.ForwardIsMinimum(A, b, d, x, eps, None, |b|);
    B.BackwardIsMaximum(A, b, d, x, eps, None, |b|);
    t := Min(chord.value.forward.v, StepLength(w, root));
  }

  /**
   * A `Crop` move stays inside the polytope up to the tolerance: row `j` at
   * the new point is at most `b_j + eps + t eps` for the length `t` moved.
   * Over exact arithmetic (`eps = 0`) it keeps `A x <= b`.
   */
  lemma {:induction false} CropKeepsInside(w: Walk, A: Matrix, b: Vector, d: Vector, x: Vector, root: real, eps: real)
    requires Shape(A, b, d, x) && 0.0 <= eps && w.behaviour == Crop && 0.0 < w.radius && 0.0 <= root <= 1.0
    requires Target(w, A, b, d, x, root, eps).Ok?
    ensures exists t :: (0.0 <= t && Target(w, A, b, d, x, root, eps).value == Along(x, d, t) &&
      forall j :: 0 <= j < |b| ==> Dot(A[j], Along(x, d, t)) <= b[j] + eps + t * eps)
    ensures eps == 0.0 ==> Constraints.Satisfied(A, Target(w, A, b, d, x, root, eps).value, b)
  {
    var t := CropLength(w, A, b, d, x, root, eps);
    B.SegmentStaysInside(A, b, d, x, eps, t);
    assert (if t < 0.0 then -t else t) == t;
  }
}
