/**
 * One Hit-and-Run step: draw a direction, find the chord of the polytope
 * through the current point along it, and move to a point drawn uniformly
 * on that chord.
 */
module HitAndRun {
  import opened Wrappers
  import opened LinAlg
  import Constraints
  import B = Boundary

  /**
   * The step length `bg + (ed - bg) u` on the chord `[bg, ed]`: a missing end
   * means the region is unbounded, and a chord with `bg >= ed` means the
   * polytope is not full-dimensional. For `u` in `[0, 1)` the step lies in
   * `[bg, ed)`.
   */
  function StepLength(chord: B.Segment, u: real): (r: Result<real, Error>)
    ensures !(chord.forward.Fin? && chord.backward.Fin?) ==> r == Err(Error.Unbounded)
    ensures chord.forward.Fin? && chord.backward.Fin? ==>
      && (r.Err? <==> chord.backward.v >= chord.forward.v)
      && (r.Err? ==> r.error == NotFullDimensional)
      && (r.Ok? && 0.0 <= u < 1.0 ==> chord.backward.v <= r.value < chord.forward.v)
  {
    if !(chord.forward.Fin? && chord.backward.Fin?) then Err(Error.Unbounded)
    else if chord.backward.v >= chord.forward.v then Err(NotFullDimensional)
    else
      StepInChord(chord.backward.v, chord.forward.v, u);
      Ok(chord.backward.v + (chord.forward.v - chord.backward.v) * u)
  }

  /** `bg + (ed - bg) u` lies in `[bg, ed)` when `bg < ed` and `0 <= u < 1`. */
  lemma {:induction false} StepInChord(bg: real, ed: real, u: real)
    requires bg < ed
    ensures 0.0 <= u < 1.0 ==> bg <= bg + (ed - bg) * u < ed
  {
    if 0.0 <= u < 1.0 {
      StepBelow(bg, ed, ed - bg, u);
    }
  }

  lemma {:induction false} StepBelow(bg: real, ed: real, w: real, u: real)
    requires w == ed - bg && 0.0 < w && 0.0 <= u < 1.0
    ensures bg <= bg + w * u < ed
  {
    FractionBelow(w, u);
  }

  lemma {:induction false} FractionBelow(w: real, u: real)
    requires 0.0 < w && 0.0 <= u < 1.0
    ensures 0.0 <= w * u < w
  {
    assert w * u < w * 1.0;
  }

  /** The step `next` takes from `x` along `d`, or the reason it fails. */
  function StepOf(A: Matrix, indices: B.Indices, b: Vector, d: Vector, x: Vector, u: real, eps: real)
    : (r: Result<real, Error>)
    requires B.Shape(A, b, d, x, indices) && 0.0 <= eps
  {
    var chord := B.DistanceSpec(A, b, d, x, eps, indices);
    if chord.Err? then Err(chord.error) else StepLength(chord.value, u)
  }

  /**
   * `next`: the direction is written into `buffer`, then every check comes
   * before the first write, so a failing step leaves `to` as it was; on
   * success `to` holds `from + step * direction`. Each coordinate of `from`
   * is read before the same coordinate of `to` is written, so `to` may be
   * the same array as `from`.
   */
  method Next(A: Matrix, indices: B.Indices, b: Vector, buffer: array<real>, direction: Vector, u: real,
              from: array<real>, to: array<real>)
    returns (o: Outcome<Error>)
    requires buffer.Length == |direction| == from.Length == to.Length
    requires buffer != from && buffer != to
    requires B.Shape(A, b, direction, from[..], indices)
    modifies buffer, to
    ensures buffer[..] == direction
    ensures var step := StepOf(A, indices, b, direction, old(from[..]), u, Tolerance);
      && (o.Fail? <==> step.Err?)
      && (o.Fail? ==> o.error == step.error && to[..] == old(to[..]))
      && (o.Pass? ==> to[..] == Along(old(from[..]), direction, step.value))
  {
    ghost var x := from[..];
    for i := 0 to buffer.Length
      invariant buffer[..i] == direction[..i]
      invariant from[..] == x && to[..] == old(to[..])
    {
      buffer[i] := direction[i];
    }
    assert buffer[..] == direction;
    var chord := B.Distance(A, b, buffer[..], from[..], Tolerance, indices);
    if chord.Err? {
      return Fail(chord.error);
    }
    var step := StepLength(chord.value, u);
    if step.Err? {
      return Fail(step.error);
    }
    var stepLength := step.value;
    for i := 0 to from.Length
      invariant buffer[..] == direction
      invariant forall k :: 0 <= k < i ==> to[k] == direction[k] * stepLength + x[k]
      invariant forall k :: i <= k < from.Length ==> from[k] == x[k]
    {
      to[i] := buffer[i] * stepLength + from[i];
    }
    assert forall k :: 0 <= k < to.Length ==> to[..][k] == Along(x, direction, stepLength)[k];
    return Pass;
  }

  /** Index lists, when given, name exactly the non-zero entries of each row. */
  predicate ExactIndices(A: Matrix, b: Vector, indices: B.Indices)
    requires |b| <= |A|
  {
    indices.Some? ==> |b| <= |indices.value| && forall j :: 0 <= j < |b| ==> indices.value[j] == NonZero(A[j])
  }

  /**
   * The reasons a step fails: a row already violated by more than `eps`
   * (the boundary computation's error), an unbounded chord, or a chord
   * with no length.
   */
  lemma {:induction false} FailureCauses(A: Matrix, indices: B.Indices, b: Vector, d: Vector, x: Vector, u: real, eps: real)
    requires B.Shape(A, b, d, x, indices) && 0.0 <= eps
    ensures var chord := B.DistanceSpec(A, b, d, x, eps, indices);
      var step := StepOf(A, indices, b, d, x, u, eps);
      && (step == Err(OutOfBounds) <==> exists j :: 0 <= j < |b| && B.Slack(A, b, d, x, indices, j) < -eps)
      && (step == Err(Error.Unbounded) <==>
            chord.Ok? && (chord.value.forward.PosInf? || chord.value.backward.NegInf?))
      && (step == Err(NotFullDimensional) <==>
            chord.Ok? && chord.value.forward.Fin? && chord.value.backward.Fin?
            && chord.value.backward.v >= chord.value.forward.v)
      && (step.Err? ==> step.error in {OutOfBounds, Error.Unbounded, NotFullDimensional})
  {
    B.FailsIffViolated(A, b, d, x, eps, indices, |b|);
    var chord := B.DistanceSpec(A, b, d, x, eps, indices);
    if chord.Ok? {
      B.ForwardIsMinimum(A, b, d, x, eps, indices, |b|);
      B.BackwardIsMaximum(A, b, d, x, eps, indices, |b|);
    }
  }

  /**
   * Every successful step stays inside the polytope up to the tolerance:
   * row `j` at the new point is at most `b_j + eps + |t| eps`. Rows the
   * boundary computation treats as parallel account for the tolerance.
   */
  lemma {:induction false} StepStaysInside(A: Matrix, indices: B.Indices, b: Vector, d: Vector, x: Vector, u: real, eps: real)
    requires B.Shape(A, b, d, x, indices) && 0.0 <= eps && ExactIndices(A, b, indices) && 0.0 <= u < 1.0
    requires StepOf(A, indices, b, d, x, u, eps).Ok?
    ensures var t := StepOf(A, indices, b, d, x, u, eps).value;
      forall j :: 0 <= j < |b| ==> Dot(A[j], Along(x, d, t)) <= b[j] + eps + (if t < 0.0 then -t else t) * eps
  {
    SameChord(A, indices, b, d, x, eps);
    var t := StepOf(A, indices, b, d, x, u, eps).value;
    B.SegmentStaysInside(A, b, d, x, eps, t);
  }

  /** Over exact arithmetic (`eps = 0`) a successful step keeps `A x <= b`. */
  lemma {:induction false} StepStaysInsideExactly(A: Matrix, indices: B.Indices, b: Vector, d: Vector, x: Vector, u: real)
    requires B.Shape(A, b, d, x, indices) && |A| == |b| && ExactIndices(A, b, indices) && 0.0 <= u < 1.0
    requires StepOf(A, indices, b, d, x, u, 0.0).Ok?
    ensures Constraints.Satisfied(A, Along(x, d, StepOf(A, indices, b, d, x, u, 0.0).value), b)
  {
    StepStaysInside(A, indices, b, d, x, u, 0.0);
  }

  /** With exact index lists the chord is the dense one. */
  lemma {:induction false} SameChord(A: Matrix, indices: B.Indices, b: Vector, d: Vector, x: Vector, eps: real)
    requires B.Shape(A, b, d, x, indices) && 0.0 <= eps && ExactIndices(A, b, indices)
    ensures B.Shape(A, b, d, x, None)
    ensures B.DistanceSpec(A, b, d, x, eps, indices) == B.DistanceSpec(A, b, d, x, eps, None)
  {
    if indices.Some? {
      B.SparseEqualsDense(A, b, d, x, eps, indices.value, |b|);
    }
  }
}
