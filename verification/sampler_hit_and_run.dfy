/**
 * The older Hit-and-Run sampler: it validates its arguments, then walks
 * from the start point, computing each chord with exact comparisons, and
 * records the point after every `thin` steps.
 */
module SamplerHitAndRun {
  import opened Wrappers
  import opened LinAlg
  import Constraints
  import B = Boundary
  import RW = RandomWalk
  import HR = HitAndRun
  import Thinning

  /** Rows of `A` as wide as the point, one right-hand side per row. */
  predicate Shape(A: Matrix, b: Vector, n: nat)
  {
    |A| == |b| && IsMatrix(A, n)
  }

  /** `bax[j] = b_j - A_j x`, for every row. */
  function Baxs(A: Matrix, b: Vector, x: Vector): (r: seq<real>)
    requires |A| == |b| && forall j :: 0 <= j < |A| ==> |A[j]| <= |x|
    ensures |r| == |A|
  {
    seq(|A|, j requires 0 <= j < |A| => b[j] - Dot(A[j], x))
  }

  /**
   * The chord ends over the first `k` rows: `bg` is the greatest
   * `bax/ad` over rows with `ad < 0`, `ed` the least over rows with
   * `ad > 0`; `None` stands for the NaN both start from.
   */
  datatype Chord = Chord(bg: Option<real>, ed: Option<real>)

  function ChordUpTo(ad: seq<real>, bax: seq<real>, k: nat): Chord
    requires k <= |ad| == |bax|
  {
    if k == 0 then Chord(None, None)
    else
      var prev := ChordUpTo(ad, bax, k - 1);
      var j := k - 1;
      if ad[j] < 0.0 then
        var nV := bax[j] / ad[j];
        if prev.bg.None? || prev.bg.value < nV then prev.(bg := Some(nV)) else prev
      else if ad[j] > 0.0 then
        var nV := bax[j] / ad[j];
        if prev.ed.None? || prev.ed.value > nV then prev.(ed := Some(nV)) else prev
      else prev
  }

  /**
   * The chord bounds every row: a row with `ad < 0` has its ratio at most
   * `bg`, a row with `ad > 0` has its ratio at least `ed`; an end is missing
   * only when no row of that sign exists.
   */
  lemma {:induction false} ChordBounds(ad: seq<real>, bax: seq<real>, k: nat)
    requires k <= |ad| == |bax|
    ensures var c := ChordUpTo(ad, bax, k);
      && (c.bg.None? <==> forall j :: 0 <= j < k ==> ad[j] >= 0.0)
      && (c.ed.None? <==> forall j :: 0 <= j < k ==> ad[j] <= 0.0)
      && (forall j :: 0 <= j < k && ad[j] < 0.0 ==> bax[j] / ad[j] <= c.bg.value)
      && (forall j :: 0 <= j < k && ad[j] > 0.0 ==> c.ed.value <= bax[j] / ad[j])
  {
    if k > 0 {
      ChordBounds(ad, bax, k - 1);
    }
  }

  /**
   * One step's length `bg + (ed - bg) u`, after the checks in order: a
   * missing end (unbounded), `bg >= ed` (not full-dimensional), `bg > 0`
   * or `ed < 0` (the point has left the polytope).
   */
  function StepLength(c: Chord, u: real): (r: Result<real, Error>)
    ensures r.Ok? <==> c.bg.Some? && c.ed.Some? && c.bg.value < c.ed.value && c.bg.value <= 0.0 <= c.ed.value
    ensures r.Ok? && 0.0 <= u < 1.0 ==> c.bg.value <= r.value < c.ed.value
  {
    if c.bg.None? then Err(Error.Unbounded)
    else if c.ed.None? then Err(Error.Unbounded)
    else if c.bg.value >= c.ed.value then Err(NotFullDimensional)
    else if c.bg.value > 0.0 then Err(AccuracyError)
    else if c.ed.value < 0.0 then Err(AccuracyError)
    else
      HR.StepInChord(c.bg.value, c.ed.value, u);
      Ok(c.bg.value + (c.ed.value - c.bg.value) * u)
  }

  /** One step from `x` along `d` with uniform `u`. */
  function Step(A: Matrix, b: Vector, d: Vector, x: Vector, u: real): (r: Result<Vector, Error>)
    requires Shape(A, b, |x|) && |d| == |x|
    ensures r.Ok? ==> |r.value| == |x|
  {
    var l :- StepLength(ChordUpTo(MatVec(A, d), Baxs(A, b, x), |A|), u);
    Ok(Along(x, d, l))
  }

  /** `count` steps from `x`, with the draws numbered from `start`, stopping at the first failure. */
  function Walked(A: Matrix, b: Vector, x: Vector, rng: nat -> RW.Draw, start: nat, count: nat)
    : (r: Result<Vector, Error>)
    requires Shape(A, b, |x|) && forall t :: |rng(t).direction| == |x|
    ensures r.Ok? ==> |r.value| == |x|
    decreases count, 1
  {
    if count == 0 then Ok(x) else WalkStep(A, b, x, rng, start, count - 1)
  }

  /** Step `k` of the walk: the earlier failure if there was one, otherwise the step from the point reached. */
  function WalkStep(A: Matrix, b: Vector, x: Vector, rng: nat -> RW.Draw, start: nat, k: nat)
    : (r: Result<Vector, Error>)
    requires Shape(A, b, |x|) && forall t :: |rng(t).direction| == |x|
    ensures r.Ok? ==> |r.value| == |x|
    decreases k, 3
  {
    var prev := Walked(A, b, x, rng, start, k);
    if prev.Err? then prev else StepFrom(A, b, x, rng, start, k)
  }

  /** The step taken with draw `start + k` from where the first `k` steps led. */
  function StepFrom(A: Matrix, b: Vector, x: Vector, rng: nat -> RW.Draw, start: nat, k: nat)
    : (r: Result<Vector, Error>)
    requires Shape(A, b, |x|) && forall t :: |rng(t).direction| == |x|
    requires Walked(A, b, x, rng, start, k).Ok?
    ensures r.Ok? ==> |r.value| == |x|
    decreases k, 2
  {
    Step(A, b, rng(start + k).direction, Walked(A, b, x, rng, start, k).value, rng(start + k).u)
  }

  /** The argument checks, in order. */
  function Validate(A: Matrix, b: Vector, homogeneous: bool, startPoint: Vector, numberOfSamples: int)
    : (r: Outcome<Error>)
    ensures r.Pass? ==>
      numberOfSamples > 0 && |A| > 0 && |A[0]| > 0 && Shape(A, b, |startPoint|)
      && (homogeneous ==> |startPoint| >= 2 && Abs(startPoint[|startPoint| - 1] - 1.0) <= Tolerance)
      && Constraints.Satisfied(A, startPoint, b)
  {
    if numberOfSamples <= 0 then Fail(IllegalArgument)
    else if |A| == 0 then Fail(IllegalArgument)
    else if |A[0]| == 0 then Fail(IllegalArgument)
    else if !IsMatrix(A, |A[0]|) then Fail(IllegalArgument)
    else if |A| != |b| then Fail(IllegalArgument)
    else if |A[0]| != |startPoint| then Fail(IllegalArgument)
    else if homogeneous && |startPoint| < 2 then Fail(NoSpaceToSample)
    else if homogeneous && Abs(startPoint[|startPoint| - 1] - 1.0) > Tolerance then Fail(NotHomogeneous)
    else if !Constraints.Satisfied(A, startPoint, b) then Fail(IllegalArgument)
    else Pass
  }

  /** Steps per sample: the thinning factor of the sampled dimension, at least 1. */
  function Thin(thinningFactor: nat -> int, homogeneous: bool, n: nat): (r: nat)
    ensures r >= 1
  {
    var f := thinningFactor(if homogeneous && n > 0 then n - 1 else n);
    if f > 1 then f else 1
  }

  /**
   * `sample`: the validated arguments, then `numberOfSamples` samples, each
   * the point after another `thin` steps; the first failing step fails the
   * whole call.
   */
  function SampleSpec(A: Matrix, b: Vector, homogeneous: bool, startPoint: Vector, numberOfSamples: int,
                      thinningFactor: nat -> int, rng: nat -> RW.Draw)
    : (r: Result<seq<Vector>, Error>)
    requires forall t :: |rng(t).direction| == |startPoint|
    ensures Validate(A, b, homogeneous, startPoint, numberOfSamples).Fail? ==>
      r == Err(Validate(A, b, homogeneous, startPoint, numberOfSamples).error)
    ensures Validate(A, b, homogeneous, startPoint, numberOfSamples).Pass? ==>
      (r.Ok? <==> Walked(A, b, startPoint, rng, 0, numberOfSamples * Thin(thinningFactor, homogeneous, |startPoint|)).Ok?)
    ensures r.Ok? ==> |r.value| == numberOfSamples
  {
    var v := Validate(A, b, homogeneous, startPoint, numberOfSamples);
    if v.Fail? then Err(v.error)
    else
      var thin := Thin(thinningFactor, homogeneous, |startPoint|);
      var last := Walked(A, b, startPoint, rng, 0, numberOfSamples * thin);
      if last.Err? then Err(last.error)
      else Ok(Samples(A, b, startPoint, rng, thin, numberOfSamples))
  }

  /** The point after `t` steps, when the run of `total >= t` steps succeeds. */
  function WalkedOk(A: Matrix, b: Vector, x: Vector, rng: nat -> RW.Draw, t: nat, total: nat): (r: Vector)
    requires Shape(A, b, |x|) && forall t :: |rng(t).direction| == |x|
    requires t <= total && Walked(A, b, x, rng, 0, total).Ok?
    ensures Walked(A, b, x, rng, 0, t) == Ok(r)
  {
    PrefixSucceeds(A, b, x, rng, t, total);
    Walked(A, b, x, rng, 0, t).value
  }

  /** A run that succeeds succeeds at every earlier step too. */
  lemma {:induction false} PrefixSucceeds(A: Matrix, b: Vector, x: Vector, rng: nat -> RW.Draw, t: nat, total: nat)
    requires Shape(A, b, |x|) && forall t :: |rng(t).direction| == |x|
    requires t <= total && Walked(A, b, x, rng, 0, total).Ok?
    ensures Walked(A, b, x, rng, 0, t).Ok?
  {
    if t < total {
      PrefixSucceeds(A, b, x, rng, t, total - 1);
    }
  }

  /**
   * One row after a step of length `l` inside the chord: a row moving
   * towards its bound (`ad != 0`) reaches at most its bound, a row parallel
   * to the direction keeps its slack `bax >= 0`.
   */
  lemma {:induction false} RowAfterStep(ad: real, bax: real, l: real, c: Chord)
    requires c.bg.Some? && c.ed.Some? && c.bg.value <= l <= c.ed.value
    requires ad < 0.0 ==> bax / ad <= c.bg.value
    requires ad > 0.0 ==> c.ed.value <= bax / ad
    requires ad == 0.0 ==> bax >= 0.0
    ensures l * ad <= bax
  {
    if ad < 0.0 {
      B.RatioBoundNeg(l, bax, ad);
    } else if ad > 0.0 {
      B.RatioBound(l, bax, ad);
    }
  }

  /**
   * Over exact arithmetic a step keeps `A x <= b`: rows moving towards
   * their bound stop at it within the chord, and rows parallel to `d` do
   * not move.
   */
  lemma {:induction false} StepKeepsFeasible(A: Matrix, b: Vector, d: Vector, x: Vector, u: real)
    requires Shape(A, b, |x|) && |d| == |x| && 0.0 <= u < 1.0
    requires Constraints.Satisfied(A, x, b)
    requires Step(A, b, d, x, u).Ok?
    ensures Constraints.Satisfied(A, Step(A, b, d, x, u).value, b)
  {
    var ad, bax := MatVec(A, d), Baxs(A, b, x);
    var c := ChordUpTo(ad, bax, |A|);
    var l := StepLength(c, u).value;
    var y := Along(x, d, l);
    assert Step(A, b, d, x, u).value == y;
    forall j | 0 <= j < |A|
      ensures Dot(A[j], y) <= b[j]
    {
      RowInChord(ad, bax, j, l);
      RowStaysInside(A[j], b[j], x, d, l);
    }
  }

  /** A step of length `l` inside the chord of all rows keeps row `j` within its slack: `l ad_j <= bax_j`. */
  lemma {:induction false} RowInChord(ad: seq<real>, bax: seq<real>, j: nat, l: real)
    requires j < |ad| == |bax| && bax[j] >= 0.0
    requires var c := ChordUpTo(ad, bax, |ad|); c.bg.Some? && c.ed.Some? && c.bg.value <= l <= c.ed.value
    ensures l * ad[j] <= bax[j]
  {
    ChordBounds(ad, bax, |ad|);
    RowAfterStep(ad[j], bax[j], l, ChordUpTo(ad, bax, |ad|));
  }

  /** A row whose value grows by at most its slack along the step still holds after it. */
  lemma {:induction false} RowStaysInside(row: Vector, bound: real, x: Vector, d: Vector, l: real)
    requires |x| == |d| && |row| <= |x|
    requires l * Dot(row, d) <= bound - Dot(row, x)
    ensures Dot(row, Along(x, d, l)) <= bound
  {
    DotAlong(row, x, d, l);
  }

  /** Every point of a successful walk from a feasible start is feasible. */
  lemma {:induction false} WalkKeepsFeasible(A: Matrix, b: Vector, x: Vector, rng: nat -> RW.Draw, count: nat)
    requires Shape(A, b, |x|) && forall t :: |rng(t).direction| == |x| && 0.0 <= rng(t).u < 1.0
    requires Constraints.Satisfied(A, x, b)
    requires Walked(A, b, x, rng, 0, count).Ok?
    ensures Constraints.Satisfied(A, Walked(A, b, x, rng, 0, count).value, b)
  {
    if count > 0 {
      WalkKeepsFeasible(A, b, x, rng, count - 1);
      var y := Walked(A, b, x, rng, 0, count - 1).value;
      assert StepFrom(A, b, x, rng, 0, count - 1) == Step(A, b, rng(count - 1).direction, y, rng(count - 1).u);
      StepKeepsFeasible(A, b, rng(count - 1).direction, y, rng(count - 1).u);
    }
  }

  /**
   * The result has `numberOfSamples` rows as wide as the start point, and
   * over exact arithmetic every row satisfies `A x <= b`.
   */
  lemma {:induction false} SamplesAreFeasible(A: Matrix, b: Vector, homogeneous: bool, startPoint: Vector, numberOfSamples: int,
                           thinningFactor: nat -> int, rng: nat -> RW.Draw)
    requires forall t :: |rng(t).direction| == |startPoint| && 0.0 <= rng(t).u < 1.0
    requires SampleSpec(A, b, homogeneous, startPoint, numberOfSamples, thinningFactor, rng).Ok?
    ensures var samples := SampleSpec(A, b, homogeneous, startPoint, numberOfSamples, thinningFactor, rng).value;
      && |samples| == numberOfSamples
      && forall s :: 0 <= s < |samples| ==> |samples[s]| == |startPoint| && Constraints.Satisfied(A, samples[s], b)
  {
    assert Validate(A, b, homogeneous, startPoint, numberOfSamples).Pass?;
    var thin := Thin(thinningFactor, homogeneous, |startPoint|);
    SamplesFeasible(A, b, startPoint, rng, thin, numberOfSamples);
  }

  /** Every sample of a successful walk from a feasible start is feasible. */
  lemma {:induction false} SamplesFeasible(A: Matrix, b: Vector, x: Vector, rng: nat -> RW.Draw, thin: nat, numberOfSamples: nat)
    requires Shape(A, b, |x|) && forall t :: |rng(t).direction| == |x| && 0.0 <= rng(t).u < 1.0
    requires Constraints.Satisfied(A, x, b)
    requires Walked(A, b, x, rng, 0, numberOfSamples * thin).Ok?
    ensures forall s :: 0 <= s < numberOfSamples ==>
      var sample := Samples(A, b, x, rng, thin, numberOfSamples)[s];
      |sample| == |x| && Constraints.Satisfied(A, sample, b)
  {
    var samples := Samples(A, b, x, rng, thin, numberOfSamples);
    forall s | 0 <= s < numberOfSamples
      ensures |samples[s]| == |x| && Constraints.Satisfied(A, samples[s], b)
    {
      Thinning.RoundsFit(s, thin, numberOfSamples);
      assert samples[s] == WalkedOk(A, b, x, rng, (s + 1) * thin, numberOfSamples * thin);
      WalkKeepsFeasible(A, b, x, rng, (s + 1) * thin);
    }
  }

  /**
   * Over exact arithmetic the homogeneous coordinate stays put: when every
   * direction has a zero last coordinate, every point of the walk keeps the
   * start point's last coordinate.
   */
  lemma {:induction false} WalkKeepsLastCoordinate(A: Matrix, b: Vector, x: Vector, rng: nat -> RW.Draw, count: nat)
    requires Shape(A, b, |x|) && |x| > 0
    requires forall t :: |rng(t).direction| == |x| && rng(t).direction[|x| - 1] == 0.0
    requires Walked(A, b, x, rng, 0, count).Ok?
    ensures Walked(A, b, x, rng, 0, count).value[|x| - 1] == x[|x| - 1]
  {
    if count > 0 {
      WalkKeepsLastCoordinate(A, b, x, rng, count - 1);
      var y := Walked(A, b, x, rng, 0, count - 1).value;
      assert StepFrom(A, b, x, rng, 0, count - 1) == Step(A, b, rng(count - 1).direction, y, rng(count - 1).u);
    }
  }

  /** Once a step fails, every longer run fails with the same error. */
  lemma {:induction false} FailurePersists(A: Matrix, b: Vector, x: Vector, rng: nat -> RW.Draw, k: nat, total: nat)
    requires Shape(A, b, |x|) && forall t :: |rng(t).direction| == |x|
    requires k <= total && Walked(A, b, x, rng, 0, k).Err?
    ensures Walked(A, b, x, rng, 0, total) == Walked(A, b, x, rng, 0, k)
  {
    if k < total {
      FailurePersists(A, b, x, rng, k, total - 1);
    }
  }

  /** Fills `a` with `v`: a drawn direction, or the start point's clone. */
  method Fill(v: Vector, a: array<real>)
    requires |v| == a.Length
    modifies a
    ensures a[..] == v
  {
    for i := 0 to a.Length
      invariant a[..i] == v[..i]
    {
      a[i] := v[i];
    }
  }

  /** Fills `ad` with `A d` and then `bax` with `b - A x`, row by row and term by term. */
  method FillProducts(A: Matrix, b: Vector, d: array<real>, x: array<real>, ad: array<real>, bax: array<real>)
    requires Shape(A, b, x.Length) && d.Length == x.Length && ad.Length == |A| && bax.Length == |A|
    requires ad != d && ad != x && bax != d && bax != x && ad != bax
    modifies ad, bax
    ensures ad[..] == MatVec(A, d[..]) && bax[..] == Baxs(A, b, x[..])
  {
    for j := 0 to |A|
      invariant ad[..j] == MatVec(A, d[..])[..j]
    {
      ad[j] := 0.0;
      for i := 0 to |A[j]|
        invariant ad[j] == Dot(A[j][..i], d[..])
        invariant ad[..j] == MatVec(A, d[..])[..j]
      {
        assert A[j][..i + 1][..i] == A[j][..i];
        ad[j] := ad[j] + A[j][i] * d[i];
      }
      assert A[j][..|A[j]|] == A[j];
    }
    for j := 0 to |A|
      invariant bax[..j] == Baxs(A, b, x[..])[..j]
      invariant ad[..] == MatVec(A, d[..])
    {
      bax[j] := b[j];
      for i := 0 to |A[j]|
        invariant bax[j] == b[j] - Dot(A[j][..i], x[..])
        invariant bax[..j] == Baxs(A, b, x[..])[..j]
        invariant ad[..] == MatVec(A, d[..])
      {
        assert A[j][..i + 1][..i] == A[j][..i];
        bax[j] := bax[j] - A[j][i] * x[i];
      }
      assert A[j][..|A[j]|] == A[j];
    }
  }

  /** The chord ends, folded over the rows; `None` plays the part of NaN. */
  method FindChord(ad: array<real>, bax: array<real>) returns (c: Chord)
    requires ad.Length == bax.Length
    ensures c == ChordUpTo(ad[..], bax[..], ad.Length)
  {
    var bg: Option<real> := None;
    var ed: Option<real> := None;
    for j := 0 to ad.Length
      invariant Chord(bg, ed) == ChordUpTo(ad[..], bax[..], j)
    {
      if ad[j] < 0.0 {
        var nV := bax[j] / ad[j];
        if bg.None? || bg.value < nV {
          bg := Some(nV);
        }
      } else if ad[j] > 0.0 {
        var nV := bax[j] / ad[j];
        if ed.None? || ed.value > nV {
          ed := Some(nV);
        }
      }
    }
    c := Chord(bg, ed);
  }

  /** One step in place: the products, the chord, its checks, and `x := x + l d`. */
  method Advance(A: Matrix, b: Vector, d: array<real>, x: array<real>, ad: array<real>, bax: array<real>, u: real)
    returns (o: Outcome<Error>)
    requires Shape(A, b, x.Length) && d.Length == x.Length && ad.Length == |A| && bax.Length == |A|
    requires ad != d && ad != x && bax != d && bax != x && ad != bax && d != x
    modifies x, ad, bax
    ensures o.Fail? <==> Step(A, b, d[..], old(x[..]), u).Err?
    ensures o.Fail? ==> o.error == Step(A, b, d[..], old(x[..]), u).error
    ensures o.Pass? ==> x[..] == Step(A, b, d[..], old(x[..]), u).value
  {
    ghost var x0 := x[..];
    FillProducts(A, b, d, x, ad, bax);
    var c := FindChord(ad, bax);
    assert c == ChordUpTo(MatVec(A, d[..]), Baxs(A, b, x0), |A|);
    if c.bg.None? {
      return Fail(Error.Unbounded);
    }
    if c.ed.None? {
      return Fail(Error.Unbounded);
    }
    var bg, ed := c.bg.value, c.ed.value;
    if bg >= ed {
      return Fail(NotFullDimensional);
    }
    if bg > 0.0 {
      return Fail(AccuracyError);
    }
    if ed < 0.0 {
      return Fail(AccuracyError);
    }
    var l := bg + (ed - bg) * u;
    assert StepLength(c, u).value == l;
    MoveAlong(x, d, l);
    return Pass;
  }

  /** `x := x + l d`, coordinate by coordinate. */
  method MoveAlong(x: array<real>, d: array<real>, l: real)
    requires x.Length == d.Length && x != d
    modifies x
    ensures x[..] == Along(old(x[..]), d[..], l)
  {
    ghost var x0 := x[..];
    for i := 0 to x.Length
      invariant forall k :: 0 <= k < i ==> x[k] == d[k] * l + x0[k]
      invariant forall k :: i <= k < x.Length ==> x[k] == x0[k]
    {
      x[i] := d[i] * l + x[i];
    }
    assert forall k :: 0 <= k < x.Length ==> x[k] == Along(x0, d[..], l)[k];
  }

  /** The argument checks of `sample`, in the order they are made. */
  method Check(A: Matrix, b: Vector, homogeneous: bool, startPoint: Vector, numberOfSamples: int)
    returns (o: Outcome<Error>)
    ensures o == Validate(A, b, homogeneous, startPoint, numberOfSamples)
  {
    if numberOfSamples <= 0 {
      return Fail(IllegalArgument);
    }
    if |A| == 0 {
      return Fail(IllegalArgument);
    }
    var n := |A[0]|;
    if n == 0 {
      return Fail(IllegalArgument);
    }
    for i := 0 to |A|
      invariant forall k :: 0 <= k < i ==> |A[k]| == n
    {
      if |A[i]| != n {
        return Fail(IllegalArgument);
      }
    }
    if |A| != |b| {
      return Fail(IllegalArgument);
    }
    if n != |startPoint| {
      return Fail(IllegalArgument);
    }
    if homogeneous && |startPoint| < 2 {
      return Fail(NoSpaceToSample);
    }
    if homogeneous && Abs(startPoint[|startPoint| - 1] - 1.0) > Tolerance {
      return Fail(NotHomogeneous);
    }
    var interior := Constraints.IsSatisfied(A, startPoint, b);
    if !interior {
      return Fail(IllegalArgument);
    }
    return Pass;
  }

  /** The samples of a run of `numberOfSamples * thin` steps that succeeds. */
  function Samples(A: Matrix, b: Vector, x: Vector, rng: nat -> RW.Draw, thin: nat, numberOfSamples: nat)
    : (r: seq<Vector>)
    requires Shape(A, b, |x|) && forall t :: |rng(t).direction| == |x|
    requires Walked(A, b, x, rng, 0, numberOfSamples * thin).Ok?
    ensures |r| == numberOfSamples
  {
    seq(numberOfSamples, s requires 0 <= s < numberOfSamples =>
      WalkedOk(A, b, x, rng, (s + 1) * thin, numberOfSamples * thin))
  }

  /**
   * The walk of `sample`: `numberOfSamples` rounds of `thin` steps from a
   * copy of the start point, each round's last point becoming a sample. The
   * direction and the uniform number of global step `t` are `rng(t)`.
   */
  method Walk(A: Matrix, b: Vector, sp: Vector, thin: nat, numberOfSamples: nat, rng: nat -> RW.Draw)
    returns (r: Result<seq<Vector>, Error>)
    requires Shape(A, b, |sp|) && forall t :: |rng(t).direction| == |sp|
    ensures var last := Walked(A, b, sp, rng, 0, numberOfSamples * thin);
      r == if last.Err? then Err(last.error) else Ok(Samples(A, b, sp, rng, thin, numberOfSamples))
  {
    var n := |sp|;
    ghost var total := numberOfSamples * thin;
    var result: seq<Vector> := [];
    var ad := new real[|A|];
    var bax := new real[|A|];
    var d := new real[n];
    var x := new real[n];
    Fill(sp, x);

    var steps := 0;
    for sample := 0 to numberOfSamples
      invariant steps == sample * thin
      invariant Walked(A, b, sp, rng, 0, steps) == Ok(x[..])
      invariant |result| == sample
      invariant forall s :: 0 <= s < sample ==> Walked(A, b, sp, rng, 0, (s + 1) * thin) == Ok(result[s])
    {
      Thinning.RoundsFit(sample, thin, numberOfSamples);
      var o := Round(A, b, sp, rng, steps, thin, d, x, ad, bax);
      if o.Fail? {
        FailurePersists(A, b, sp, rng, steps + thin, total);
        return Err(o.error);
      }
      steps := steps + thin;
      result := result + [x[..]];
    }
    SamplesCollected(A, b, sp, rng, thin, numberOfSamples, result);
    return Ok(result);
  }

  /** `thin` steps in place from the point reached after `start` steps. */
  method Round(A: Matrix, b: Vector, sp: Vector, rng: nat -> RW.Draw, start: nat, thin: nat,
               d: array<real>, x: array<real>, ad: array<real>, bax: array<real>)
    returns (o: Outcome<Error>)
    requires Shape(A, b, |sp|) && forall t :: |rng(t).direction| == |sp|
    requires d.Length == x.Length == |sp| && ad.Length == |A| && bax.Length == |A|
    requires ad != d && ad != x && bax != d && bax != x && ad != bax && d != x
    requires Walked(A, b, sp, rng, 0, start) == Ok(x[..])
    modifies d, x, ad, bax
    ensures o.Pass? ==> Walked(A, b, sp, rng, 0, start + thin) == Ok(x[..])
    ensures o.Fail? ==> Walked(A, b, sp, rng, 0, start + thin) == Err(o.error)
  {
    for q := 0 to thin
      invariant Walked(A, b, sp, rng, 0, start + q) == Ok(x[..])
    {
      o := StepOnce(A, b, sp, rng, start + q, d, x, ad, bax);
      if o.Fail? {
        FailurePersists(A, b, sp, rng, start + q + 1, start + thin);
        return;
      }
    }
    o := Pass;
  }

  /** Step `t` of the run in place: the direction is copied into `d`, then `x` moves along it. */
  method StepOnce(A: Matrix, b: Vector, sp: Vector, rng: nat -> RW.Draw, t: nat,
                  d: array<real>, x: array<real>, ad: array<real>, bax: array<real>)
    returns (o: Outcome<Error>)
    requires Shape(A, b, |sp|) && forall t :: |rng(t).direction| == |sp|
    requires d.Length == x.Length == |sp| && ad.Length == |A| && bax.Length == |A|
    requires ad != d && ad != x && bax != d && bax != x && ad != bax && d != x
    requires Walked(A, b, sp, rng, 0, t) == Ok(x[..])
    modifies d, x, ad, bax
    ensures Walked(A, b, sp, rng, 0, t + 1) == if o.Pass? then Ok(x[..]) else Err(o.error)
  {
    Fill(rng(t).direction, d);
    assert StepFrom(A, b, sp, rng, 0, t) == Step(A, b, d[..], x[..], rng(t).u);
    o := Advance(A, b, d, x, ad, bax, rng(t).u);
  }

  /** The points recorded after every round are the samples of the run. */
  lemma {:induction false} SamplesCollected(A: Matrix, b: Vector, x: Vector, rng: nat -> RW.Draw, thin: nat, numberOfSamples: nat,
                         result: seq<Vector>)
    requires Shape(A, b, |x|) && forall t :: |rng(t).direction| == |x|
    requires Walked(A, b, x, rng, 0, numberOfSamples * thin).Ok?
    requires |result| == numberOfSamples
    requires forall s :: 0 <= s < numberOfSamples ==> Walked(A, b, x, rng, 0, (s + 1) * thin) == Ok(result[s])
    ensures result == Samples(A, b, x, rng, thin, numberOfSamples)
  {
    var samples := Samples(A, b, x, rng, thin, numberOfSamples);
    forall s | 0 <= s < numberOfSamples
      ensures result[s] == samples[s]
    {
      Thinning.RoundsFit(s, thin, numberOfSamples);
      var w := WalkedOk(A, b, x, rng, (s + 1) * thin, numberOfSamples * thin);
      assert samples[s] == w;
      assert Walked(A, b, x, rng, 0, (s + 1) * thin) == Ok(w);
    }
    assert |samples| == |result|;
  }

  /**
   * `sample`: the checks in order, then the walk from a copy of the start
   * point with `thin` steps per sample; the caller's start point is left as
   * it was.
   */
  method Sample(A: Matrix, b: Vector, homogeneous: bool, startPoint: array<real>, numberOfSamples: int,
                thinningFactor: nat -> int, rng: nat -> RW.Draw)
    returns (r: Result<seq<Vector>, Error>)
    requires forall t :: |rng(t).direction| == startPoint.Length
    ensures r == SampleSpec(A, b, homogeneous, startPoint[..], numberOfSamples, thinningFactor, rng)
  {
    var sp := startPoint[..];
    var valid := Check(A, b, homogeneous, sp, numberOfSamples);
    if valid.Fail? {
      return Err(valid.error);
    }
    var n := |sp|;
    var factor := thinningFactor(if homogeneous then n - 1 else n);
    var thin := if factor > 1 then factor else 1;
    assert thin == Thin(thinningFactor, homogeneous, n);
    r := Walk(A, b, sp, thin, numberOfSamples, rng);
  }
}
