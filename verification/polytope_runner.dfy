/**
 * The runner: it removes the equalities by the affine change of
 * coordinates, optionally drops redundant inequalities, keeps a start point
 * in the reduced space and generates samples from it with any walk, mapping
 * each sample back to the original coordinates.
 */
module Runner {
  import opened Wrappers
  import opened LinAlg
  import Constraints
  import opened Solver
  import T = Transformation
  import B = Boundary
  import HR = HitAndRun
  import RW = RandomWalk
  import IP = InteriorPoint
  import Thinning

  /** The right-hand side with row `i` relaxed by one. */
  function Relaxed(b: Vector, i: nat): (r: Vector)
    requires i < |b|
    ensures |r| == |b| && r[i] == b[i] + 1.0 && forall j :: 0 <= j < |b| && j != i ==> r[j] == b[j]
  {
    b[i := b[i] + 1.0]
  }

  /**
   * Whether row `i` is redundant: maximise `A_i y` with row `i` relaxed by
   * one; the row is redundant when the maximum stays more than the tolerance
   * below `b_i`. An unbounded or infeasible program is a failure.
   */
  function IsRedundant(solver: GLPSolver, A: Matrix, b: Vector, i: nat): (r: Result<bool, Error>)
    requires |A| == |b| && i < |A| && IsMatrix(A, |A[0]|)
    ensures var answer := solver(Maximize, A[i], Constraints.FromInequalities(A, Relaxed(b, i)).value);
      && (r.Ok? <==> answer.Solved? && answer.result.feasible)
      && (r.Err? ==> r.error == Error.Unbounded || r.error == Infeasible)
      && (r.Ok? ==> (r.value <==> answer.result.value < b[i] - Tolerance))
  {
    match solver(Maximize, A[i], Constraints.FromInequalities(A, Relaxed(b, i)).value)
    case Unbounded => Err(Error.Unbounded)
    case Solved(result) =>
      if !result.feasible then Err(Infeasible)
      else Ok(result.value - b[i] < -Tolerance)
  }

  /** The redundancy flags of the first `k` rows, or the first failure. */
  function Flags(solver: GLPSolver, A: Matrix, b: Vector, k: nat): (r: Result<seq<bool>, Error>)
    requires |A| == |b| && k <= |A| && (|A| > 0 ==> IsMatrix(A, |A[0]|))
    ensures r.Ok? ==> |r.value| == k
  {
    if k == 0 then Ok([])
    else
      var prev :- Flags(solver, A, b, k - 1);
      var last :- IsRedundant(solver, A, b, k - 1);
      Ok(prev + [last])
  }

  /**
   * The flags succeed exactly when every row's check succeeds, and then flag
   * `i` is row `i`'s verdict; a failure is the first failing row's.
   */
  lemma {:induction false} FlagsMeaning(solver: GLPSolver, A: Matrix, b: Vector, k: nat)
    requires |A| == |b| && k <= |A| && (|A| > 0 ==> IsMatrix(A, |A[0]|))
    ensures Flags(solver, A, b, k).Ok? <==> forall i :: 0 <= i < k ==> IsRedundant(solver, A, b, i).Ok?
    ensures Flags(solver, A, b, k).Ok? ==>
      forall i :: 0 <= i < k ==> Flags(solver, A, b, k).value[i] == IsRedundant(solver, A, b, i).value
    ensures Flags(solver, A, b, k).Err? ==>
      exists i :: 0 <= i < k && IsRedundant(solver, A, b, i) == Err(Flags(solver, A, b, k).error)
        && forall j :: 0 <= j < i ==> IsRedundant(solver, A, b, j).Ok?
  {
    if k > 0 {
      FlagsMeaning(solver, A, b, k - 1);
      var prev := Flags(solver, A, b, k - 1);
      var last := IsRedundant(solver, A, b, k - 1);
      if prev.Err? {
        assert Flags(solver, A, b, k) == prev;
      } else if last.Err? {
        assert Flags(solver, A, b, k) == Err(last.error);
      } else {
        assert Flags(solver, A, b, k) == Ok(prev.value + [last.value]);
      }
    }
  }

  /** Once a row's check fails, the flags of every longer prefix fail the same way. */
  lemma {:induction false} FailedFlagsPersist(solver: GLPSolver, A: Matrix, b: Vector, k: nat, total: nat)
    requires |A| == |b| && k <= total <= |A| && (|A| > 0 ==> IsMatrix(A, |A[0]|))
    requires Flags(solver, A, b, k).Err?
    ensures Flags(solver, A, b, total) == Flags(solver, A, b, k)
  {
    if k < total {
      FailedFlagsPersist(solver, A, b, k, total - 1);
    }
  }

  /** The positions whose flag is false, in increasing order. */
  function KeptPositions(flags: seq<bool>): (r: seq<nat>)
    ensures forall t :: 0 <= t < |r| ==> r[t] < |flags|
    decreases |flags|
  {
    if |flags| == 0 then []
    else KeptPositions(flags[..|flags| - 1]) + (if !flags[|flags| - 1] then [|flags| - 1] else [])
  }

  /** The kept positions are strictly increasing and are exactly the unflagged ones. */
  lemma {:induction false} KeptPositionsExact(flags: seq<bool>)
    ensures forall s, t :: 0 <= s < t < |KeptPositions(flags)| ==> KeptPositions(flags)[s] < KeptPositions(flags)[t]
    ensures forall i :: 0 <= i < |flags| ==> (i in KeptPositions(flags) <==> !flags[i])
    decreases |flags|
  {
    if |flags| > 0 {
      KeptPositionsExact(flags[..|flags| - 1]);
    }
  }

  /** The entries of `s` at the unflagged positions, in order. */
  function Kept<E>(s: seq<E>, flags: seq<bool>): (r: seq<E>)
    requires |flags| <= |s|
    ensures |r| == |KeptPositions(flags)|
  {
    var p := KeptPositions(flags);
    seq(|p|, t requires 0 <= t < |p| => s[p[t]])
  }

  /** Extending the flags by one keeps the earlier kept entries and appends the new one when unflagged. */
  lemma {:induction false} KeptSnoc<E>(s: seq<E>, flags: seq<bool>, i: nat)
    requires i < |flags| <= |s|
    ensures Kept(s, flags[..i + 1]) == Kept(s, flags[..i]) + (if !flags[i] then [s[i]] else [])
  {
    assert flags[..i + 1][..i] == flags[..i];
  }

  /** One row's redundancy check: relax its bound by one and maximise the row. */
  method CheckRow(solver: GLPSolver, A: Matrix, b: Vector, i: nat) returns (r: Result<bool, Error>)
    requires |A| == |b| && i < |A| && IsMatrix(A, |A[0]|)
    ensures r == IsRedundant(solver, A, b, i)
  {
    var reducedB := b[i := b[i] + 1.0];
    var system := Constraints.FromInequalities(A, reducedB);
    var answer := solver(Maximize, A[i], system.value);
    if answer.Unbounded? {
      return Err(Error.Unbounded);
    }
    if !answer.result.feasible {
      return Err(Infeasible);
    }
    return Ok(answer.result.value - b[i] < -Tolerance);
  }

  /** The redundancy check of every row, then the kept rows of `A` and `b` in their original order. */
  method RemoveRedundant(solver: GLPSolver, A: Matrix, b: Vector) returns (r: Result<(Matrix, Vector), Error>)
    requires |A| == |b| && (|A| > 0 ==> IsMatrix(A, |A[0]|))
    ensures var flags := Flags(solver, A, b, |A|);
      r == if flags.Err? then Err(flags.error) else Ok((Kept(A, flags.value), Kept(b, flags.value)))
  {
    var redundant: seq<bool> := [];
    for i := 0 to |A|
      invariant Flags(solver, A, b, i) == Ok(redundant)
    {
      var verdict := CheckRow(solver, A, b, i);
      if verdict.Err? {
        FailedFlagsPersist(solver, A, b, i + 1, |A|);
        return Err(verdict.error);
      }
      assert Flags(solver, A, b, i + 1) == Ok(redundant + [verdict.value]);
      redundant := redundant + [verdict.value];
    }
    var keptA := KeepUnflagged(A, redundant);
    var keptB := KeepUnflagged(b, redundant);
    return Ok((keptA, keptB));
  }

  /** The entries of `s` whose flag is false, collected in one pass. */
  method KeepUnflagged<E>(s: seq<E>, flags: seq<bool>) returns (r: seq<E>)
    requires |flags| <= |s|
    ensures r == Kept(s, flags)
  {
    r := [];
    for i := 0 to |flags|
      invariant r == Kept(s, flags[..i])
    {
      KeptSnoc(s, flags, i);
      if !flags[i] {
        r := r + [s[i]];
      }
    }
    assert flags[..|flags|] == flags;
  }

  /** The kept rows of `A` and `b` stay aligned: each is the same original row, and they keep their order. */
  lemma {:induction false} KeptRowsAligned(A: Matrix, b: Vector, flags: seq<bool>)
    requires |A| == |b| == |flags|
    ensures var p := KeptPositions(flags);
      && |Kept(A, flags)| == |Kept(b, flags)| == |p|
      && (forall t :: 0 <= t < |p| ==> Kept(A, flags)[t] == A[p[t]] && Kept(b, flags)[t] == b[p[t]] && !flags[p[t]])
      && (forall i :: 0 <= i < |flags| && !flags[i] ==> exists t :: 0 <= t < |p| && p[t] == i)
      && (forall s, t :: 0 <= s < t < |p| ==> p[s] < p[t])
  {
    KeptPositionsExact(flags);
    var p := KeptPositions(flags);
    forall i | 0 <= i < |flags| && !flags[i]
      ensures exists t :: 0 <= t < |p| && p[t] == i
    {
      var t :| 0 <= t < |p| && p[t] == i;
    }
  }

  /** The index lists of the non-zero entries of each row, built row by row. */
  method NonZeroLists(A: Matrix) returns (r: seq<seq<int>>)
    ensures r == B.NonZeroRows(A)
  {
    r := [];
    for i := 0 to |A|
      invariant r == B.NonZeroRows(A)[..i]
    {
      var row: seq<int> := [];
      for j := 0 to |A[i]|
        invariant row == NonZero(A[i][..j])
      {
        assert A[i][..j + 1][..j] == A[i][..j];
        if A[i][j] != 0.0 {
          row := row + [j];
        }
      }
      assert A[i][..|A[i]|] == A[i];
      r := r + [row];
    }
  }

  /** Rows as wide as the reduced point, one bound per row, and index lists (when kept) of the non-zero entries. */
  predicate Fits(A: Matrix, b: Vector, indices: B.Indices, n: nat)
  {
    |A| == |b| && IsMatrix(A, n) && (indices.Some? ==> indices.value == B.NonZeroRows(A))
  }

  lemma {:induction false} FitsShape(A: Matrix, b: Vector, indices: B.Indices, x: Vector)
    requires Fits(A, b, indices, |x|)
    ensures RW.Shape(A, b, x, indices) && HR.ExactIndices(A, b, indices)
  {
    if indices.Some? {
      B.NonZeroRowsShape(A, b, x, x);
    }
  }

  /** What the constructor computes: the transform, the reduced system, its index lists and the original width. */
  datatype Layout = Layout(transformation: T.Transform, A: Matrix, b: Vector, nonZeroElementsInA: B.Indices,
                           numberOfOriginalVariables: nat)

  /**
   * The constructor's result: build the transform, project `A` and `b`
   * into the reduced space, drop redundant rows when a solver is given,
   * and list the non-zero entries when asked. No inequalities, before or
   * after the filter, is a failure (the first row is read).
   */
  function Prepare(system: Constraints.System, svd: T.Svd, solver: Option<GLPSolver>, skipZeroElements: bool)
    : (r: Result<Layout, Error>)
    requires system.Valid() && (|system.C| > 0 ==> T.SvdShape(system.C, system.d, svd))
    ensures r.Ok? ==>
      && r.value.transformation.Valid() && |r.value.A| > 0
      && Fits(r.value.A, r.value.b, r.value.nonZeroElementsInA, r.value.transformation.cols)
      && r.value.numberOfOriginalVariables == |r.value.transformation.particular|
  {
    var t :- T.TransformOf(system.C, system.d, system.numberOfVariables, T.DefaultEps, svd);
    if |system.A| == 0 then Err(IndexOutOfBounds)
    else
      var tA := MatMul(system.A, t.nullspace, t.cols);
      var tb := T.SolveForParticularSolution(t, system.A, system.b);
      var kept :- if solver.None? then Ok((tA, tb)) else
        var flags :- Flags(solver.value, tA, tb, |tA|);
        Ok((Kept(tA, flags), Kept(tb, flags)));
      if |kept.0| == 0 then Err(IndexOutOfBounds)
      else Ok(Layout(t, kept.0, kept.1, if skipZeroElements then Some(B.NonZeroRows(kept.0)) else None, |system.A[0]|))
  }

  /** Where a run of steps stands: the point reached and the failure that stopped it, if any. */
  datatype Run = Run(point: Vector, failure: Option<Error>)

  /**
   * `count` steps of walk `w` from `x` with the draws `rng(0)`, `rng(1)`,
   * ...; a failing step leaves the point where it was and ends the run.
   */
  function Steps(w: RW.Walk, A: Matrix, indices: B.Indices, b: Vector, x: Vector, rng: nat -> RW.Draw, eps: real,
                 count: nat): (r: Run)
    requires Fits(A, b, indices, |x|) && 0.0 <= eps && forall t :: RW.ValidDraw(rng(t), |x|)
    ensures |r.point| == |x|
    decreases count, 1
  {
    if count == 0 then Run(x, None) else StepAt(w, A, indices, b, x, rng, eps, count - 1)
  }

  /** Step `k` of the run: taken from where the first `k` steps left the point, unless they already failed. */
  function StepAt(w: RW.Walk, A: Matrix, indices: B.Indices, b: Vector, x: Vector, rng: nat -> RW.Draw, eps: real,
                  k: nat): (r: Run)
    requires Fits(A, b, indices, |x|) && 0.0 <= eps && forall t :: RW.ValidDraw(rng(t), |x|)
    ensures |r.point| == |x|
    decreases k, 3
  {
    var prev := Steps(w, A, indices, b, x, rng, eps, k);
    if prev.failure.Some? then prev
    else
      match Attempt(w, A, indices, b, x, rng, eps, k)
      case Ok(y) => Run(y, None)
      case Err(e) => Run(prev.point, Some(e))
  }

  /** The move step `k` tries, from where the first `k` steps left the point. */
  function Attempt(w: RW.Walk, A: Matrix, indices: B.Indices, b: Vector, x: Vector, rng: nat -> RW.Draw, eps: real,
                   k: nat): (r: Result<Vector, Error>)
    requires Fits(A, b, indices, |x|) && 0.0 <= eps && forall t :: RW.ValidDraw(rng(t), |x|)
    ensures r.Ok? ==> |r.value| == |x|
    decreases k, 2
  {
    var prev := Steps(w, A, indices, b, x, rng, eps, k);
    FitsShape(A, b, indices, prev.point);
    RW.Move(w, A, indices, b, rng(k), prev.point, eps)
  }

  /** Once a step fails, the run stays stopped at the same point with the same failure. */
  lemma {:induction false} StoppedRunStays(w: RW.Walk, A: Matrix, indices: B.Indices, b: Vector, x: Vector,
                                          rng: nat -> RW.Draw, eps: real, k: nat, total: nat)
    requires Fits(A, b, indices, |x|) && 0.0 <= eps && forall t :: RW.ValidDraw(rng(t), |x|)
    requires k <= total && Steps(w, A, indices, b, x, rng, eps, k).failure.Some?
    ensures Steps(w, A, indices, b, x, rng, eps, total) == Steps(w, A, indices, b, x, rng, eps, k)
  {
    if k < total {
      StoppedRunStays(w, A, indices, b, x, rng, eps, k, total - 1);
    }
  }

  /**
   * Over exact arithmetic every point a run of a valid walk reaches from a
   * point of `A x <= b` is again in `A x <= b`.
   */
  lemma {:induction false} StepsKeepFeasible(w: RW.Walk, A: Matrix, indices: B.Indices, b: Vector, x: Vector,
                                            rng: nat -> RW.Draw, count: nat)
    requires Fits(A, b, indices, |x|) && RW.ValidWalk(w) && forall t :: RW.ValidDraw(rng(t), |x|)
    requires Constraints.Satisfied(A, x, b)
    ensures Constraints.Satisfied(A, Steps(w, A, indices, b, x, rng, 0.0, count).point, b)
  {
    if count > 0 {
      StepsKeepFeasible(w, A, indices, b, x, rng, count - 1);
      var prev := Steps(w, A, indices, b, x, rng, 0.0, count - 1);
      if prev.failure.None? {
        FitsShape(A, b, indices, prev.point);
        assert Attempt(w, A, indices, b, x, rng, 0.0, count - 1)
            == RW.Move(w, A, indices, b, rng(count - 1), prev.point, 0.0);
        if RW.Move(w, A, indices, b, rng(count - 1), prev.point, 0.0).Ok? {
          RW.MoveKeepsFeasible(w, A, indices, b, rng(count - 1), prev.point);
        }
      }
    }
  }

  /** Walk steps per emitted sample: the thinning factor, or none when it is not positive. */
  function StepsPerSample(f: Thinning.ThinningFunction, constraints: nat, dimensions: nat): (r: nat)
    ensures r >= 1 <==> Thinning.Factor(f, constraints, dimensions) >= 1
    ensures Thinning.Valid(f) ==> r == Thinning.Factor(f, constraints, dimensions)
    ensures Thinning.Valid(f) && dimensions >= 1 && (f.MN? ==> constraints >= 1) ==> r >= 1
  {
    var factor := Thinning.Factor(f, constraints, dimensions);
    if factor > 0 then factor else 0
  }

  /** The chain's samples: the reduced point after every `spp` steps, mapped back. */
  function ChainSamples(t: T.Transform, w: RW.Walk, A: Matrix, indices: B.Indices, b: Vector, x: Vector,
                        rng: nat -> RW.Draw, eps: real, count: nat, spp: nat): (r: seq<Vector>)
    requires t.Valid() && |x| == t.cols
    requires Fits(A, b, indices, |x|) && 0.0 <= eps && forall t :: RW.ValidDraw(rng(t), |x|)
    ensures |r| == count && forall s :: 0 <= s < count ==> |r[s]| == |t.particular|
  {
    seq(count, s requires 0 <= s < count =>
      T.ProjectBack(t, Steps(w, A, indices, b, x, rng, eps, (s + 1) * spp).point).value)
  }

  /** One more sample appends the point reached after one more round of `spp` steps. */
  lemma {:induction false} ChainGrows(t: T.Transform, w: RW.Walk, A: Matrix, indices: B.Indices, b: Vector, x: Vector,
                   rng: nat -> RW.Draw, eps: real, count: nat, spp: nat)
    requires t.Valid() && |x| == t.cols
    requires Fits(A, b, indices, |x|) && 0.0 <= eps && forall t :: RW.ValidDraw(rng(t), |x|)
    ensures ChainSamples(t, w, A, indices, b, x, rng, eps, count + 1, spp)
         == ChainSamples(t, w, A, indices, b, x, rng, eps, count, spp)
            + [T.ProjectBack(t, Steps(w, A, indices, b, x, rng, eps, (count + 1) * spp).point).value]
  {
  }

  /**
   * The neighbourhood's samples: one step from `x` per sample, mapped back;
   * the first failing step fails the whole call.
   */
  function Neighbours(t: T.Transform, w: RW.Walk, A: Matrix, indices: B.Indices, b: Vector, x: Vector,
                      rng: nat -> RW.Draw, eps: real, count: nat): (r: Result<seq<Vector>, Error>)
    requires t.Valid() && |x| == t.cols
    requires Fits(A, b, indices, |x|) && 0.0 <= eps && forall t :: RW.ValidDraw(rng(t), |x|)
    ensures r.Ok? ==> |r.value| == count && forall s :: 0 <= s < count ==> |r.value[s]| == |t.particular|
  {
    if count == 0 then Ok([])
    else
      var prev :- Neighbours(t, w, A, indices, b, x, rng, eps, count - 1);
      FitsShape(A, b, indices, x);
      var y :- RW.Move(w, A, indices, b, rng(count - 1), x, eps);
      Ok(prev + [T.ProjectBack(t, y).value])
  }

  /** A failed neighbourhood stays failed however many more samples are asked for. */
  lemma {:induction false} FailedNeighboursStay(t: T.Transform, w: RW.Walk, A: Matrix, indices: B.Indices, b: Vector,
                                               x: Vector, rng: nat -> RW.Draw, eps: real, k: nat, total: nat)
    requires t.Valid() && |x| == t.cols
    requires Fits(A, b, indices, |x|) && 0.0 <= eps && forall t :: RW.ValidDraw(rng(t), |x|)
    requires k <= total && Neighbours(t, w, A, indices, b, x, rng, eps, k).Err?
    ensures Neighbours(t, w, A, indices, b, x, rng, eps, total) == Neighbours(t, w, A, indices, b, x, rng, eps, k)
  {
    if k < total {
      FailedNeighboursStay(t, w, A, indices, b, x, rng, eps, k, total - 1);
    }
  }

  /**
   * Every neighbour is a single step from the start point itself, taken
   * with its own draw: the start point does not move between samples.
   */
  lemma {:induction false} NeighboursAreSingleSteps(t: T.Transform, w: RW.Walk, A: Matrix, indices: B.Indices,
                                                   b: Vector, x: Vector, rng: nat -> RW.Draw, eps: real, count: nat)
    requires t.Valid() && |x| == t.cols
    requires Fits(A, b, indices, |x|) && 0.0 <= eps && forall t :: RW.ValidDraw(rng(t), |x|)
    requires RW.Shape(A, b, x, indices) && Neighbours(t, w, A, indices, b, x, rng, eps, count).Ok?
    ensures forall s :: 0 <= s < count ==>
        && RW.Move(w, A, indices, b, rng(s), x, eps).Ok?
        && Neighbours(t, w, A, indices, b, x, rng, eps, count).value[s]
           == T.ProjectBack(t, RW.Move(w, A, indices, b, rng(s), x, eps).value).value
  {
    FitsShape(A, b, indices, x);
    if count > 0 {
      NeighboursSnoc(t, w, A, indices, b, x, rng, eps, count);
      NeighboursAreSingleSteps(t, w, A, indices, b, x, rng, eps, count - 1);
    }
  }

  /** A successful neighbourhood of `count` samples extends the one of `count - 1` by one step from `x`. */
  lemma {:induction false} NeighboursSnoc(t: T.Transform, w: RW.Walk, A: Matrix, indices: B.Indices,
                                         b: Vector, x: Vector, rng: nat -> RW.Draw, eps: real, count: nat)
    requires t.Valid() && |x| == t.cols
    requires Fits(A, b, indices, |x|) && 0.0 <= eps && forall t :: RW.ValidDraw(rng(t), |x|)
    requires RW.Shape(A, b, x, indices) && 0 < count && Neighbours(t, w, A, indices, b, x, rng, eps, count).Ok?
    ensures var prev := Neighbours(t, w, A, indices, b, x, rng, eps, count - 1);
      var last := RW.Move(w, A, indices, b, rng(count - 1), x, eps);
      && prev.Ok? && last.Ok?
      && Neighbours(t, w, A, indices, b, x, rng, eps, count).value == prev.value + [T.ProjectBack(t, last.value).value]
  {
  }

  /**
   * Without redundancy removal the reduced system is the substituted one,
   * so a reduced point inside it maps back to a point of `A x <= b`.
   */
  lemma {:induction false} ReducedPointsMapInside(system: Constraints.System, svd: T.Svd, skipZeroElements: bool, layout: Layout,
                               y: Vector)
    requires system.Valid() && (|system.C| > 0 ==> T.SvdShape(system.C, system.d, svd))
    requires Prepare(system, svd, None, skipZeroElements) == Ok(layout)
    requires |y| == layout.transformation.cols && Constraints.Satisfied(layout.A, y, layout.b)
    ensures Constraints.Satisfied(system.A, T.ProjectBack(layout.transformation, y).value, system.b)
  {
    var t := layout.transformation;
    assert layout.A == MatMul(system.A, t.nullspace, t.cols);
    assert layout.b == T.SolveForParticularSolution(t, system.A, system.b);
    T.Substitution(t, system.A, system.b, y);
  }

  /**
   * Over exact arithmetic, without redundancy removal, every sample of a
   * chain from a start point inside the reduced system is a point of the
   * original `A x <= b`.
   */
  lemma {:induction false} ChainStaysInside(system: Constraints.System, svd: T.Svd, skipZeroElements: bool, layout: Layout,
                         w: RW.Walk, x: Vector, rng: nat -> RW.Draw, count: nat, spp: nat)
    requires system.Valid() && (|system.C| > 0 ==> T.SvdShape(system.C, system.d, svd))
    requires Prepare(system, svd, None, skipZeroElements) == Ok(layout)
    requires |x| == layout.transformation.cols && Constraints.Satisfied(layout.A, x, layout.b)
    requires RW.ValidWalk(w) && forall t :: RW.ValidDraw(rng(t), |x|)
    ensures var samples := ChainSamples(layout.transformation, w, layout.A, layout.nonZeroElementsInA, layout.b, x,
                                        rng, 0.0, count, spp);
      forall s :: 0 <= s < count ==> Constraints.Satisfied(system.A, samples[s], system.b)
  {
    forall s | 0 <= s < count
      ensures Constraints.Satisfied(system.A, ChainSamples(layout.transformation, w, layout.A,
        layout.nonZeroElementsInA, layout.b, x, rng, 0.0, count, spp)[s], system.b)
    {
      StepsKeepFeasible(w, layout.A, layout.nonZeroElementsInA, layout.b, x, rng, (s + 1) * spp);
      ReducedPointsMapInside(system, svd, skipZeroElements, layout,
        Steps(w, layout.A, layout.nonZeroElementsInA, layout.b, x, rng, 0.0, (s + 1) * spp).point);
    }
  }

  /** The same for the neighbourhood of a start point inside the reduced system. */
  lemma {:induction false} NeighboursStayInside(system: Constraints.System, svd: T.Svd, skipZeroElements: bool, layout: Layout,
                             w: RW.Walk, x: Vector, rng: nat -> RW.Draw, count: nat)
    requires system.Valid() && (|system.C| > 0 ==> T.SvdShape(system.C, system.d, svd))
    requires Prepare(system, svd, None, skipZeroElements) == Ok(layout)
    requires |x| == layout.transformation.cols && Constraints.Satisfied(layout.A, x, layout.b)
    requires RW.ValidWalk(w) && forall t :: RW.ValidDraw(rng(t), |x|)
    requires Neighbours(layout.transformation, w, layout.A, layout.nonZeroElementsInA, layout.b, x, rng, 0.0, count).Ok?
    ensures var samples := Neighbours(layout.transformation, w, layout.A, layout.nonZeroElementsInA, layout.b, x,
                                      rng, 0.0, count).value;
      forall s :: 0 <= s < count ==> Constraints.Satisfied(system.A, samples[s], system.b)
  {
    var t, A, indices, b := layout.transformation, layout.A, layout.nonZeroElementsInA, layout.b;
    FitsShape(A, b, indices, x);
    NeighboursAreSingleSteps(t, w, A, indices, b, x, rng, 0.0, count);
    forall s | 0 <= s < count
      ensures Constraints.Satisfied(system.A, Neighbours(t, w, A, indices, b, x, rng, 0.0, count).value[s], system.b)
    {
      RW.MoveKeepsFeasible(w, A, indices, b, rng(s), x);
      ReducedPointsMapInside(system, svd, skipZeroElements, layout, RW.Move(w, A, indices, b, rng(s), x, 0.0).value);
    }
  }

  /** A runner over the reduced system, holding the start point the walks continue from. */
  class PolytopeRunner {
    const transformation: T.Transform
    const A: Matrix
    const b: Vector
    const nonZeroElementsInA: B.Indices
    const buffer: array<real>
    const numberOfOriginalVariables: nat
    var startPoint: array?<real>

    ghost predicate Valid()
      reads this
    {
      && transformation.Valid()
      && numberOfOriginalVariables == |transformation.particular|
      && |A| > 0 && Fits(A, b, nonZeroElementsInA, transformation.cols)
      && buffer.Length == transformation.cols
      && (startPoint != null ==> startPoint.Length == transformation.cols && startPoint != buffer)
    }

    /** The fields fixed at construction. */
    function Setup(): Layout
      reads this
    {
      Layout(transformation, A, b, nonZeroElementsInA, numberOfOriginalVariables)
    }

    /** Installs a prepared layout, with a fresh buffer as wide as the reduced space and no start point. */
    constructor (layout: Layout)
      requires |layout.A| > 0
      ensures Setup() == layout && startPoint == null && fresh(buffer) && buffer.Length == |layout.A[0]|
    {
      transformation := layout.transformation;
      A := layout.A;
      b := layout.b;
      nonZeroElementsInA := layout.nonZeroElementsInA;
      numberOfOriginalVariables := layout.numberOfOriginalVariables;
      buffer := new real[|layout.A[0]|];
      startPoint := null;
    }

    /**
     * The constructor taking a constraints system, the decomposition of its
     * equalities, an optional solver (redundant rows are removed when there
     * is one) and whether to keep index lists of non-zero entries.
     */
    static method Create(system: Constraints.System, svd: T.Svd, solver: Option<GLPSolver>, skipZeroElements: bool)
      returns (r: Result<PolytopeRunner, Error>)
      requires system.Valid() && (|system.C| > 0 ==> T.SvdShape(system.C, system.d, svd))
      ensures var p := Prepare(system, svd, solver, skipZeroElements);
        && (r.Err? <==> p.Err?)
        && (r.Err? ==> r.error == p.error)
        && (r.Ok? ==> fresh(r.value) && fresh(r.value.buffer) && r.value.Valid()
                      && r.value.startPoint == null && r.value.Setup() == p.value)
    {
      var t := T.Build(system.C, system.d, system.numberOfVariables, T.DefaultEps, svd);
      if t.Err? {
        return Err(t.error);
      }
      if |system.A| == 0 {
        return Err(IndexOutOfBounds);
      }
      var numberOfOriginalVariables := |system.A[0]|;
      var projected := T.Project(t.value, system.A);
      var transformedA := projected.value;
      var transformedB := T.SolveForParticularSolution(t.value, system.A, system.b);
      var reducedA, reducedB := transformedA, transformedB;
      if solver.Some? {
        var kept := RemoveRedundant(solver.value, transformedA, transformedB);
        if kept.Err? {
          return Err(kept.error);
        }
        reducedA, reducedB := kept.value.0, kept.value.1;
      }
      var indices: B.Indices := None;
      if skipZeroElements {
        var lists := NonZeroLists(reducedA);
        indices := Some(lists);
      }
      if |reducedA| == 0 {
        return Err(IndexOutOfBounds);
      }
      var runner := new PolytopeRunner(Layout(t.value, reducedA, reducedB, indices, numberOfOriginalVariables));
      return Ok(runner);
    }

    /** One `next` in place on the start point, continuing a run from `x` that has taken `k` steps. */
    method StepInPlace(w: RW.Walk, rng: nat -> RW.Draw, ghost x: Vector, k: nat) returns (o: Outcome<Error>)
      requires Valid() && startPoint != null && |x| == transformation.cols
      requires forall t :: RW.ValidDraw(rng(t), |x|)
      requires Steps(w, A, nonZeroElementsInA, b, x, rng, Tolerance, k) == Run(startPoint[..], None)
      modifies startPoint, buffer
      ensures Steps(w, A, nonZeroElementsInA, b, x, rng, Tolerance, k + 1)
              == Run(startPoint[..], if o.Fail? then Some(o.error) else None)
    {
      FitsShape(A, b, nonZeroElementsInA, startPoint[..]);
      assert Attempt(w, A, nonZeroElementsInA, b, x, rng, Tolerance, k)
          == RW.Move(w, A, nonZeroElementsInA, b, rng(k), startPoint[..], Tolerance);
      o := RW.Next(w, A, nonZeroElementsInA, b, buffer, rng(k), startPoint, startPoint);
    }

    /**
     * `count` steps of `next` in place on the start point, continuing a run
     * from `x` that has taken `start` steps; the first failing step stops.
     */
    method Advance(w: RW.Walk, rng: nat -> RW.Draw, ghost x: Vector, start: nat, count: nat)
      returns (o: Outcome<Error>)
      requires Valid() && startPoint != null && |x| == transformation.cols
      requires forall t :: RW.ValidDraw(rng(t), |x|)
      requires Steps(w, A, nonZeroElementsInA, b, x, rng, Tolerance, start) == Run(startPoint[..], None)
      modifies startPoint, buffer
      ensures Steps(w, A, nonZeroElementsInA, b, x, rng, Tolerance, start + count)
              == Run(startPoint[..], if o.Fail? then Some(o.error) else None)
    {
      for j := 0 to count
        invariant Steps(w, A, nonZeroElementsInA, b, x, rng, Tolerance, start + j) == Run(startPoint[..], None)
      {
        o := StepInPlace(w, rng, x, start + j);
        if o.Fail? {
          StoppedRunStays(w, A, nonZeroElementsInA, b, x, rng, Tolerance, start + j + 1, start + count);
          return;
        }
      }
      o := Pass;
    }

    /**
     * `chain`: `numberOfSamples` samples, each after `stepsPerSample` steps
     * that move the start point in place, mapped back to the original
     * coordinates; the start point ends at the last step. A negative count
     * and a missing start point are failures; a failing step ends the chain
     * with its error and leaves the start point at the last good step.
     */
    method Chain(w: RW.Walk, f: Thinning.ThinningFunction, numberOfSamples: int, rng: nat -> RW.Draw)
      returns (r: Result<seq<Vector>, Error>)
      requires Valid() && forall t :: RW.ValidDraw(rng(t), transformation.cols)
      modifies startPoint, buffer
      ensures numberOfSamples < 0 ==> r == Err(NegativeArraySize) && (startPoint != null ==> unchanged(startPoint))
      ensures numberOfSamples >= 0 && startPoint == null ==> r == Err(StartPointNotSet)
      ensures numberOfSamples >= 0 && startPoint != null ==>
        var spp := StepsPerSample(f, |A|, transformation.cols);
        var run := Steps(w, A, nonZeroElementsInA, b, old(startPoint[..]), rng, Tolerance, numberOfSamples * spp);
        && startPoint[..] == run.point
        && r == if run.failure.Some? then Err(run.failure.value)
                else Ok(ChainSamples(transformation, w, A, nonZeroElementsInA, b, old(startPoint[..]), rng, Tolerance,
                                     numberOfSamples, spp))
    {
      if numberOfSamples < 0 {
        return Err(NegativeArraySize);
      }
      if startPoint == null {
        return Err(StartPointNotSet);
      }
      var factor := Thinning.Factor(f, |A|, |A[0]|);
      var spp := if factor > 0 then factor else 0;
      ghost var x := startPoint[..];
      var result := [];
      var steps := 0;
      for i := 0 to numberOfSamples
        invariant steps == i * spp
        invariant Steps(w, A, nonZeroElementsInA, b, x, rng, Tolerance, steps) == Run(startPoint[..], None)
        invariant result == ChainSamples(transformation, w, A, nonZeroElementsInA, b, x, rng, Tolerance, i, spp)
      {
        Thinning.RoundsFit(i, spp, numberOfSamples);
        var o := Advance(w, rng, x, steps, spp);
        if o.Fail? {
          StoppedRunStays(w, A, nonZeroElementsInA, b, x, rng, Tolerance, steps + spp, numberOfSamples * spp);
          return Err(o.error);
        }
        steps := steps + spp;
        ChainGrows(transformation, w, A, nonZeroElementsInA, b, x, rng, Tolerance, i, spp);
        result := result + [T.ProjectBack(transformation, startPoint[..]).value];
      }
      return Ok(result);
    }

    /**
     * `neighborhood`: `numberOfSamples` single steps, each from the start
     * point into a fresh array, mapped back; the start point is not moved.
     * A negative count, a missing start point and a failing step are
     * failures.
     */
    method Neighborhood(w: RW.Walk, numberOfSamples: int, rng: nat -> RW.Draw) returns (r: Result<seq<Vector>, Error>)
      requires Valid() && forall t :: RW.ValidDraw(rng(t), transformation.cols)
      modifies buffer
      ensures numberOfSamples < 0 ==> r == Err(NegativeArraySize)
      ensures numberOfSamples >= 0 && startPoint == null ==> r == Err(NullPointer)
      ensures numberOfSamples >= 0 && startPoint != null ==>
        r == Neighbours(transformation, w, A, nonZeroElementsInA, b, startPoint[..], rng, Tolerance, numberOfSamples)
      ensures startPoint != null ==> unchanged(startPoint)
    {
      if numberOfSamples < 0 {
        return Err(NegativeArraySize);
      }
      if startPoint == null {
        return Err(NullPointer);
      }
      var neighbour := new real[startPoint.Length];
      var f := Thinning.NoThinning().value;
      Thinning.NoThinningFactor(|A|, |A[0]|);
      var spp := Thinning.Factor(f, |A|, |A[0]|);
      var x := startPoint[..];
      FitsShape(A, b, nonZeroElementsInA, x);
      var result := [];
      for i := 0 to numberOfSamples
        invariant startPoint[..] == x
        invariant Neighbours(transformation, w, A, nonZeroElementsInA, b, x, rng, Tolerance, i) == Ok(result)
      {
        for j := 0 to spp
          invariant startPoint[..] == x
          invariant j == 1 ==> RW.Move(w, A, nonZeroElementsInA, b, rng(i), x, Tolerance) == Ok(neighbour[..])
        {
          var o := RW.Next(w, A, nonZeroElementsInA, b, buffer, rng(i), startPoint, neighbour);
          if o.Fail? {
            FailedNeighboursStay(transformation, w, A, nonZeroElementsInA, b, x, rng, Tolerance, i + 1, numberOfSamples);
            return Err(o.error);
          }
        }
        result := result + [T.ProjectBack(transformation, neighbour[..]).value];
      }
      return Ok(result);
    }

    /**
     * `setAnyStartPoint`: installs a zero point first, then copies in the
     * interior point of the slack-maximising program; when that program
     * fails the zero point stays installed.
     */
    method SetAnyStartPoint(solver: GLPSolver) returns (o: Outcome<Error>)
      requires Valid()
      modifies this
      ensures Valid() && startPoint != null && fresh(startPoint)
      ensures var n, m := |A[0]|, |A|;
        var answer := solver(Maximize, IP.Objective(n, m), IP.AuxiliarySystem(A, b));
        && (answer.Unbounded? ==> o == Fail(Error.Unbounded) && startPoint[..] == Zeros(n))
        && (answer.Solved? && (!answer.result.feasible || answer.result.value <= 0.0) ==>
              o == Fail(Infeasible) && startPoint[..] == Zeros(n))
        && (answer.Solved? && answer.result.feasible && answer.result.value > 0.0 ==>
              o == Pass && startPoint[..] == IP.CopyOfRange(answer.result.solution, n))
      ensures o.Pass? ==>
        var answer := solver(Maximize, IP.Objective(|A[0]|, |A|), IP.AuxiliarySystem(A, b));
        var z := answer.result.solution;
        IP.SolvesAuxiliary(A, b, z) && answer.result.value == z[|A[0]| + |A|] ==>
          forall i :: 0 <= i < |A| ==> Dot(A[i], startPoint[..]) < b[i]
    {
      var n := |A[0]|;
      var point := new real[n](_ => 0.0);
      startPoint := point;
      assert point[..] == Zeros(n);
      var generated := IP.Generate(A, b, solver);
      if generated.Err? {
        return Fail(generated.error);
      }
      var interior := generated.value;
      for i := 0 to n
        invariant startPoint == point
        invariant point[..i] == interior[..i]
      {
        point[i] := interior[i];
      }
      assert point[..] == interior;
      return Pass;
    }

    /**
     * `setStartPoint`: the point needs one entry per original variable and
     * its projection `point N` must satisfy the reduced system; otherwise
     * nothing changes. The projection becomes the start point.
     */
    method SetStartPoint(point: Vector) returns (o: Outcome<Error>)
      requires Valid()
      modifies this
      ensures Valid()
      ensures |point| != numberOfOriginalVariables ==> o == Fail(IllegalArgument) && startPoint == old(startPoint)
      ensures |point| == numberOfOriginalVariables ==>
        var y := RowTimes(point, transformation.nullspace, transformation.cols);
        && (o.Pass? <==> Constraints.Satisfied(A, y, b))
        && (o.Fail? ==> o.error == IllegalArgument && startPoint == old(startPoint))
        && (o.Pass? ==> startPoint != null && fresh(startPoint) && startPoint[..] == y)
    {
      if |point| != numberOfOriginalVariables {
        return Fail(IllegalArgument);
      }
      var projected := T.Project(transformation, [point]);
      var y := projected.value[0];
      var inside := Constraints.IsSatisfied(A, y, b);
      if !inside {
        return Fail(IllegalArgument);
      }
      startPoint := new real[|y|](i requires 0 <= i < |y| => y[i]);
      return Pass;
    }

    /**
     * `getStartPoint`: nothing when no start point is set, otherwise the
     * start point mapped back to the original coordinates. For an
     * orthogonal transform, projecting the answer gives the start point
     * back, so what `setStartPoint` installed is what this returns.
     */
    function GetStartPoint(): (r: Option<Vector>)
      requires Valid()
      reads this, startPoint
      ensures r.None? <==> startPoint == null
      ensures r.Some? ==> |r.value| == numberOfOriginalVariables
      ensures r.Some? && T.Orthogonal(transformation) ==>
        RowTimes(r.value, transformation.nullspace, transformation.cols) == startPoint[..]
    {
      if startPoint == null then None
      else
        var p := T.ProjectBack(transformation, startPoint[..]).value;
        if T.Orthogonal(transformation) then
          T.ProjectionRoundTrip(transformation, startPoint[..]);
          Some(p)
        else Some(p)
    }
  }
}
