/**
 * Sphere walk: the ball walk with every step exactly as long as the radius.
 */
module SphereWalk {
  import opened Wrappers
  import opened LinAlg
  import B = Boundary
  import BW = BallWalk

  /** The constructor: the inherited check rejects a radius that is not positive. */
  function Create(radius: real, behaviour: BW.OutOfBoundsBehaviour): (r: Result<BW.Walk, Error>)
    ensures r.Ok? <==> radius > 0.0
    ensures r.Ok? ==> r.value.radius == radius && r.value.behaviour == behaviour && r.value.fixedLength
    ensures r.Err? ==> r.error == IllegalArgument
  {
    var ball :- BW.Create(radius, behaviour);
    Ok(ball.(fixedLength := true))
  }

  /**
   * With `Stay` a sphere step either stays put or lands exactly at distance
   * `r` along the direction, whatever the drawn value.
   */
  lemma {:induction false} StayMovesByRadius(w: BW.Walk, A: Matrix, b: Vector, d: Vector, x: Vector, root: real, eps: real)
    requires BW.Shape(A, b, d, x) && 0.0 <= eps && w.behaviour == BW.Stay && w.fixedLength
    ensures BW.Target(w, A, b, d, x, root, eps).Ok?
    ensures var y := BW.Target(w, A, b, d, x, root, eps).value;
      y == x || y == Along(x, d, w.radius)
  {
    BW.StayNeverFails(w, A, b, d, x, root, eps);
  }

  /**
   * With `Crop` a successful sphere step moves by the smaller of `r` and the
   * forward distance to the boundary.
   */
  lemma {:induction false} CropMovesByRadius(w: BW.Walk, A: Matrix, b: Vector, d: Vector, x: Vector, root: real, eps: real)
    requires BW.Shape(A, b, d, x) && 0.0 <= eps && w.behaviour == BW.Crop && w.fixedLength && 0.0 < w.radius
    requires BW.Target(w, A, b, d, x, root, eps).Ok?
    ensures var chord := B.DistanceSpec(A, b, d, x, eps, None);
      && chord.Ok? && chord.value.forward.Fin?
      && BW.Target(w, A, b, d, x, root, eps).value == Along(x, d, BW.Min(chord.value.forward.v, w.radius))
  {
    BW.CropMoves(w, A, b, d, x, 0.0, eps);
    B.ForwardIsMinimum(A, b, d, x, eps, None, |b|);
  }
}
