# polyrun: a Dafny model of the sampling core

polyrun samples points from a convex polytope `{x | A x <= b, C x = d}`. It
handles the equalities by an affine change of coordinates: `x = N y + p`,
where `N` spans the null space of `C` and `p` is a particular solution. In
the reduced coordinates `y` it removes redundant rows with a linear-program
solver. It finds an interior start point by maximising a common slack. It
then runs a Markov chain of random-walk steps from that point and maps every
sample back to the original coordinates. There are four walks:

- Hit-and-Run, which steps to a uniform point on the chord through the current point;
- Ball walk, with a Stay or Crop policy for steps that leave the region;
- Sphere walk, the Ball walk with a fixed step length;
- Grid walk, which is meant to move one grid step along one axis (see Findings).

The walks rest on one geometric routine, `Boundary.distance`. It measures how
far a point can move along a direction, forward and backward, before it meets
a constraint. A deprecated stand-alone Hit-and-Run sampler and a family of
thinning functions complete the core. A thinning function says how many walk
steps to take per emitted sample.

The model is written over exact reals. The random draws, the LP solver and
the singular value decomposition are parameters: every property below holds
for whatever they return. Each source file becomes one module:

- `Boundary`, `Constraints`, `Transformation`, `InteriorPoint` and `MatrixUtils` for the geometry;
- `HitAndRun`, `BallWalk`, `SphereWalk`, `GridWalk` and the dispatching `RandomWalk` for the walks;
- `Runner` (with the class `PolytopeRunner`) for the runner;
- `SamplerHitAndRun` for the deprecated sampler;
- `Thinning` for the thinning functions;
- `LinAlg`, `Wrappers` and `Solver` as shared vocabulary: vectors and dot products, results and errors, and the solver's type.

Code that fills arrays in loops is modelled as methods with loops:

- `Boundary.distance`, `isSatisfied` and `isIdentity`;
- the constructors' row loops;
- the walks' `next`;
- the runner's `next`, `chain` and `neighborhood`;
- the sampler's step loop.

Each such method is proved equal to a specification function, and the
properties the source promises are lemmas about those functions. An
exception becomes the `Err`/`Fail` case of a `Result`/`Outcome`, with one
`Error` constructor per exception kind.

## Model

| member | source | states |
|---|---|---|
| Boundary.MinExt | src/main/java/polyrun/Boundary.java:55-56 | the new forward bound is finite, at most the candidate ratio, and is either the old bound or the ratio (the old bound when that is already smaller) |
| Boundary.MaxExt | src/main/java/polyrun/Boundary.java:57-58 | the new backward bound is finite, at least the candidate ratio, and is either the old bound or the ratio |
| Boundary.RowProducts | src/main/java/polyrun/Boundary.java:35-47 | the row loop computes `(A d)_j` and the slack `b_j - (A x)_j`, by the dense loop or over the row's index list |
| Boundary.Distance | src/main/java/polyrun/Boundary.java:26-63 | the loop's result is the row-by-row fold over all rows, starting from (+inf, -inf) |
| Boundary.ErrorPersists | src/main/java/polyrun/Boundary.java:49-53 | once a row throws, the whole call ends in the out-of-bounds error |
| Boundary.FailsIffViolated | src/main/java/polyrun/Boundary.java:49-53 | the call fails exactly when some row has slack below `-eps`, and the failure is the out-of-bounds error |
| Boundary.ForwardIsMinimum | src/main/java/polyrun/Boundary.java:29-59 | the forward distance is +inf iff no row has `(A d)_j > eps`; otherwise it is >= 0, is attained by such a row, and is the least clamped-slack ratio over those rows |
| Boundary.BackwardIsMaximum | src/main/java/polyrun/Boundary.java:29-59 | the backward distance is -inf iff no row has `(A d)_j < -eps`; otherwise it is <= 0, is attained, and is the greatest such ratio |
| Boundary.AllParallel | src/main/java/polyrun/Boundary.java:29-59 | when every row has `abs((A d)_j) <= eps` and no slack is below `-eps`, the result is (+inf, -inf) |
| Boundary.SegmentStaysInside | src/main/java/polyrun/Boundary.java:26-63 | every point `x + t d` with `t` in the returned segment satisfies each row up to `eps + abs(t) eps` |
| Boundary.SegmentStaysInsideExactly | src/main/java/polyrun/Boundary.java:26-63 | with `eps = 0` and a feasible start, every point of the returned segment satisfies `A x <= b` |
| Boundary.RowStaysInside | src/main/java/polyrun/Boundary.java:49-59 | the per-row version of the segment bound |
| Boundary.NonZeroRows | src/main/java/polyrun/PolytopeRunner.java:128-146 | one index list per row, listing that row's non-zero columns |
| Boundary.NonZeroRowsShape | src/main/java/polyrun/Boundary.java:20-21 | the non-zero lists are valid index lists for `distance` |
| Boundary.SparseEqualsDense | src/main/java/polyrun/Boundary.java:37-47 | with index lists naming exactly each row's non-zero entries, the sparse path gives the same result as the dense path |
| Boundary.OnBoundaryExample | src/test/java/polyrun/BoundaryTest.java:20-31 | `A = -I`, `b = 0`, `x = (0, 0.123)`, `d = (-1, 0)` gives `(0, -inf)` |
| Constraints.Negate | src/main/java/polyrun/constraints/ConstraintsSystem.java:121-129 | negation keeps the row length |
| Constraints.CountEq | src/main/java/polyrun/constraints/ConstraintsSystem.java:101-107 | the number of `=` rows is at most the number of rows |
| Constraints.SplitPlacement | src/main/java/polyrun/constraints/ConstraintsSystem.java:117-142 | `A`/`b` hold the `<=`/`>=` rows in order, with `>=` rows and their right-hand sides negated; `C`/`d` hold the `=` rows unchanged, in order; the sizes add up |
| Constraints.PositionsPartition | src/main/java/polyrun/constraints/ConstraintsSystem.java:117-142 | the positions of each half strictly increase, and row `i` is an equality iff its direction is `=` |
| Constraints.RowsSystemMeaning | src/main/java/polyrun/constraints/ConstraintsSystem.java:80-143 | the `(lhs, dir, rhs)` constructor fails exactly on no rows, no columns, a `dir` or `rhs` length different from the row count, ragged rows or an unknown direction; otherwise the split above, with `numberOfVariables` the length of `lhs[0]`, which is positive |
| Constraints.ConstraintsOfMeaning | src/main/java/polyrun/constraints/ConstraintsSystem.java:17-78 | the collection constructor fails exactly on an empty collection, unequal row lengths or an unknown direction; otherwise it negates and splits as above |
| Constraints.FromMatrices | src/main/java/polyrun/constraints/ConstraintsSystem.java:145-179 | succeeds iff A or C is non-empty, the `b` and `d` lengths match, and every row has the width of `A[0]` (else `C[0]`); it stores the matrices unchanged and takes `numberOfVariables` from `A[0]`, else `C[0]` |
| Constraints.FromInequalities | src/main/java/polyrun/constraints/ConstraintsSystem.java:181-183 | the `(A, b)` constructor is the four-matrix one with empty C and d |
| Constraints.FromRows | src/main/java/polyrun/constraints/ConstraintsSystem.java:80-143 | the imperative constructor computes the row-constructor specification |
| Constraints.FromConstraints | src/main/java/polyrun/constraints/ConstraintsSystem.java:17-78 | the imperative constructor computes the collection-constructor specification |
| Constraints.NormaliseRow | src/main/java/polyrun/constraints/ConstraintsSystem.java:51-64 | a `>=` row and its right-hand side are negated; other rows are copied |
| Constraints.SplitRows | src/main/java/polyrun/constraints/ConstraintsSystem.java:117-142 | the placement loop fails iff some direction is unknown, and otherwise yields the split |
| Constraints.SatisfiedWithinMeaning | src/main/java/polyrun/sampling/BallWalk.java:92 | the tolerant check at tolerance 0 is `isSatisfied`, and it is monotone in the tolerance |
| Constraints.IsSatisfied | src/main/java/polyrun/constraints/ConstraintsSystem.java:213-227 | true iff every row has `sum_j A[i][j] x[j] <= b[i]`; true for an empty A |
| Transformation.Reciprocal | src/main/java/polyrun/Transformation.java:79 | the reciprocal of a singular value is its inverse iff the value exceeds eps, and 0 otherwise |
| Transformation.InvertedValues | src/main/java/polyrun/Transformation.java:73-84 | the inverted value matrix has the transposed shape of W |
| Transformation.InvertSingularValues | src/main/java/polyrun/Transformation.java:73-84 | the diagonal entry inverts `W[i][i]` iff it exceeds eps, else it is 0; off-diagonal entries are 0 |
| Transformation.TransformOf | src/main/java/polyrun/Transformation.java:55-92 | a successful transform is well formed, with one null-space row per original variable |
| Transformation.Build | src/main/java/polyrun/Transformation.java:55-92 | empty C gives the identity basis and zero particular solution; otherwise it fails iff the nullity is 0, else it keeps the given null space and `p = V W+ U d` |
| Transformation.Project | src/main/java/polyrun/Transformation.java:101-116 | fails iff the column count of M differs from the row count of N (or M is empty or ragged); otherwise returns `M N` with shape rows(M) x cols(N) |
| Transformation.ProjectBack | src/main/java/polyrun/Transformation.java:124-133 | fails iff the length of `v` differs from cols(N); otherwise the result has the original width |
| Transformation.SolveForParticularSolution | src/main/java/polyrun/Transformation.java:142-146 | one entry per constraint |
| Transformation.Substitution | src/main/java/polyrun/Transformation.java:95-146 | `A (N y + p) <= b` holds iff `(A N) y <= b - A p` |
| Transformation.IdentityProjectsToItself | src/main/java/polyrun/Transformation.java:56-116 | with the empty-C transform `project(M) = M` |
| Transformation.IdentityMapsBackToItself | src/main/java/polyrun/Transformation.java:56-146 | with the empty-C transform `projectBack(v) = v` and `b - A p = b` |
| Transformation.ProjectionRoundTrip | src/main/java/polyrun/Transformation.java:101-133 | for an orthonormal null space orthogonal to `p`, projecting `N y + p` gives back `y`, and mapping back gives the same point again |
| InteriorPoint.NegatedUnit | src/main/java/polyrun/InteriorPoint.java:85-90 | the slack block of an inequality row has one entry per constraint |
| InteriorPoint.AuxiliaryLayout | src/main/java/polyrun/InteriorPoint.java:67-101 | `n + m + 1` columns; equality row `i` is `A_i`, then 1 at `n + i`, then 0, with right-hand side `b_i`; inequality row `i` is -1 at `n + i`, +1 at the last column, with right-hand side 0; the objective is the last unit vector; the four matrices form a valid system |
| InteriorPoint.BuildAuxiliary | src/main/java/polyrun/InteriorPoint.java:67-96 | the fill loops build exactly that auxiliary program |
| InteriorPoint.EqualityRowAt | src/main/java/polyrun/InteriorPoint.java:73-81 | equality row `i` applied to `(x, e, delta)` is `A_i x + e_i` |
| InteriorPoint.InequalityRowAt | src/main/java/polyrun/InteriorPoint.java:85-93 | inequality row `i` applied to `(x, e, delta)` is `delta - e_i` |
| InteriorPoint.SlackGivesInterior | src/main/java/polyrun/InteriorPoint.java:57-111 | a solution of the auxiliary program with `delta > 0` gives an `x` with `A_i x <= b_i - delta < b_i` on every row |
| InteriorPoint.InteriorGivesSlack | src/main/java/polyrun/InteriorPoint.java:57-65 | conversely, an `x` with slack at least `delta` on every row extends to a feasible point of the auxiliary program with value `delta` |
| InteriorPoint.CopyOfRange | src/main/java/polyrun/InteriorPoint.java:111 | the first `n` entries of the solution, padded with zeros |
| InteriorPoint.Generate | src/main/java/polyrun/InteriorPoint.java:53-112 | empty A fails; an unbounded answer fails; an infeasible answer or optimal value `<= 0` is the infeasible-system error; otherwise the first `A[0].length` solution entries, which lie strictly inside every row when the solver's answer is a true solution |
| HitAndRun.StepLength | src/main/java/polyrun/sampling/HitAndRun.java:58-74 | an infinite end is "unbounded"; `backward >= forward` is "not full-dimensional"; otherwise the step lies in `[backward, forward)` for `u` in `[0, 1)` |
| HitAndRun.StepInChord | src/main/java/polyrun/sampling/HitAndRun.java:74 | `bg + (ed - bg) u` lies in `[bg, ed)` for `u` in `[0, 1)` |
| HitAndRun.Next | src/main/java/polyrun/sampling/HitAndRun.java:50-80 | the buffer holds the direction; the call fails iff the step does, leaving `to` untouched; otherwise `to = from + t d`, correct even when `to` is `from` |
| HitAndRun.FailureCauses | src/main/java/polyrun/sampling/HitAndRun.java:58-71 | out of bounds iff some slack is below `-eps`; unbounded iff a chord end is infinite; not full-dimensional iff `backward >= forward`; no other failure |
| HitAndRun.StepStaysInside | src/main/java/polyrun/sampling/HitAndRun.java:58-79 | a successful step lands within `eps + abs(t) eps` of every row |
| HitAndRun.StepStaysInsideExactly | src/main/java/polyrun/sampling/HitAndRun.java:58-79 | with `eps = 0` a successful step from any point keeps `A x <= b` |
| HitAndRun.SameChord | src/main/java/polyrun/sampling/HitAndRun.java:58 | exact non-zero index lists give the same chord as the dense computation |
| BallWalk.Create | src/main/java/polyrun/sampling/BallWalk.java:63-73 | succeeds iff the radius is positive, keeping radius and policy |
| BallWalk.StepLength | src/main/java/polyrun/sampling/BallWalk.java:121-123 | the step `u^(1/n) r` lies in `[0, r]` for a root in `[0, 1]`; the fixed-length variant is `r` |
| BallWalk.RootScales | src/main/java/polyrun/sampling/BallWalk.java:121-123 | a root in `[0, 1]` times `r > 0` lies in `[0, r]` |
| BallWalk.Target | src/main/java/polyrun/sampling/BallWalk.java:76-114 | the next point has the width of `from` |
| BallWalk.Next | src/main/java/polyrun/sampling/BallWalk.java:76-114 | the buffer holds the direction; the call fails iff the target does, leaving `to` untouched; otherwise `to` is the target, correct even when `to` is `from` |
| BallWalk.Candidate | src/main/java/polyrun/sampling/BallWalk.java:86-108 | the candidate is a fresh array holding `from + step buffer` |
| BallWalk.CropMoves | src/main/java/polyrun/sampling/BallWalk.java:97-110 | Crop fails when the boundary call fails or the forward distance is +inf; otherwise it moves by `min(distance, step)` |
| BallWalk.CropLength | src/main/java/polyrun/sampling/BallWalk.java:99-110 | the Crop move is `x + t d` with `t >= 0` inside the chord |
| BallWalk.CropKeepsInside | src/main/java/polyrun/sampling/BallWalk.java:99-110 | the Crop move stays on the chord, and inside `A x <= b` when the tolerance is 0 |
| SphereWalk.Create | src/main/java/polyrun/sampling/SphereWalk.java:38-59 | succeeds iff the radius is positive, and fixes the step length to the radius |
| SphereWalk.StayMovesByRadius | src/main/java/polyrun/sampling/SphereWalk.java:61-65 | Stay never fails and yields `from` or `from + r d` |
| SphereWalk.CropMovesByRadius | src/main/java/polyrun/sampling/SphereWalk.java:61-65 | Crop yields `from + min(distance, r) d` |
| GridWalk.Create | src/main/java/polyrun/sampling/GridWalk.java:48-55 | succeeds iff the spacing is positive |
| GridWalk.CandidateAsWritten | src/main/java/polyrun/sampling/GridWalk.java:66-68 | the candidate keeps the width of `from` |
| GridWalk.AsWrittenLeavesTheGrid | src/main/java/polyrun/sampling/GridWalk.java:68 | as written, `x = (5)`, spacing 1, index 0 gives `(1)`, not `(6)`, and `(-3)` gives the same point |
| GridWalk.CandidateIsNeighbour | src/main/java/polyrun/sampling/GridWalk.java:62-68 | the corrected candidate moves coordinate `index/2` by `+spacing` for an even index and `-spacing` for an odd one, and leaves the others alone |
| GridWalk.Candidate | src/main/java/polyrun/sampling/GridWalk.java:60-68 | the corrected candidate, as the comment describes the step, keeps the width of `from` (its meaning is CandidateIsNeighbour) |
| GridWalk.UpThenDown | src/main/java/polyrun/sampling/GridWalk.java:62-68 | a step up then down the same axis with the corrected candidate returns to the start |
| GridWalk.Target | src/main/java/polyrun/sampling/GridWalk.java:66-75 | the next point, built from the candidate as written at line 68, has the width of `from` |
| GridWalk.Next | src/main/java/polyrun/sampling/GridWalk.java:58-76 | no coordinates is an error and leaves `to`; otherwise `to` is the as-written candidate (drawn coordinate set to `+-spacing`) if it passes the `1e-10` check, else `from`, correct even when `to` is `from` |
| GridWalk.MovesOneCoordinate | src/main/java/polyrun/sampling/GridWalk.java:66-75 | the step as written differs from `from` in at most coordinate `index/2`; it moves iff the candidate passes the check, and then that coordinate is `+spacing` for an even index and `-spacing` for an odd one |
| GridWalk.KeepsInside | src/main/java/polyrun/sampling/GridWalk.java:66-75 | under the step as written, a point inside the tolerant region stays inside it, and inside `A x <= b` at tolerance 0 |
| GridWalk.TargetIntended | src/main/java/polyrun/sampling/GridWalk.java:60-75 | the corrected step of the Findings row: the grid neighbour if it passes the check, else `from`, with the width of `from` |
| GridWalk.IntendedStaysOnGrid | src/main/java/polyrun/sampling/GridWalk.java:60-75 | the corrected step is `from` or its neighbour one spacing along `index/2`, leaves the other coordinates alone, and keeps the tolerant check true |
| RandomWalk.ShapeForDirection | src/main/java/polyrun/sampling/RandomWalk.java:43-45 | a well-formed point and direction are valid inputs for every walk |
| RandomWalk.Move | src/main/java/polyrun/sampling/RandomWalk.java:43-45 | a successful step keeps the width of the point |
| RandomWalk.Next | src/main/java/polyrun/sampling/RandomWalk.java:28-45 | dispatches to the chosen walk; a failure leaves `to` untouched, and success writes the step |
| RandomWalk.MoveKeepsFeasible | src/main/java/polyrun/sampling/RandomWalk.java:28-45 | over exact arithmetic every walk keeps a point of `A x <= b` inside it |
| Thinning.Ceil | src/main/java/polyrun/thinning/NCubedThinningFunction.java:23 | the ceiling is the least integer at or above the argument |
| Thinning.Create | src/main/java/polyrun/thinning/ConstantThinningFunction.java:13-16 | construction succeeds iff the parameter is positive |
| Thinning.Factor | src/main/java/polyrun/thinning/ThinningFunction.java:7-17 | the two-argument factor of a valid function is never negative, and at least 1 once the dimension (and, for `c m n`, the constraint count) is positive |
| Thinning.NoThinning | src/main/java/polyrun/thinning/NoThinning.java:6-9 | construction never fails and gives the constant 1 |
| Thinning.ConstantFactor | src/main/java/polyrun/thinning/ConstantThinningFunction.java:13-24 | the factor is the constant, the same for all arguments, and at least 1 |
| Thinning.NoThinningFactor | src/main/java/polyrun/thinning/NoThinning.java:6-9 | the factor is 1 for all arguments |
| Thinning.NCubedFactor | src/main/java/polyrun/thinning/NCubedThinningFunction.java:13-24 | `ceil(a n^3)` ignores the constraint count, is 0 at `n = 0`, at least 1 for `n >= 1`, and non-decreasing in `n` |
| Thinning.NCubedUnit | src/main/java/polyrun/thinning/NCubedThinningFunction.java:23 | with `a = 1` the factor is exactly `n^3` |
| Thinning.CreateLinearlyScalable | src/main/java/polyrun/thinning/LinearlyScalableThinningFunction.java:13-19 | construction succeeds iff the scaling factor is positive |
| Thinning.LinearlyScalableIsNCubed | src/main/java/polyrun/thinning/LinearlyScalableThinningFunction.java:21-24 | the one-argument `ceil(a n^3)` equals the n-cubed factor with the same `a` for any constraint count; for `a > 0` it is 0 at `n = 0`, at least 1 for `n >= 1`, and non-decreasing |
| Thinning.MNFactor | src/main/java/polyrun/thinning/MNThinningFunction.java:13-24 | `ceil(c m n)` is symmetric, 0 when `m` or `n` is 0, at least 1 otherwise, and non-decreasing in each argument |
| Thinning.RoundsFit | src/main/java/polyrun/sampler/HitAndRun.java:88-159 | sample `s < count` ends at step `(s + 1) thin <= count * thin` |
| MatrixUtils.IsIdentity | src/main/java/polyrun/MatrixUtils.java:7-23 | true iff every `(i, i)` entry is within `accuracy` of 1 and every other entry within `accuracy` of 0 |
| MatrixUtils.NearIdentityFacts | src/main/java/polyrun/MatrixUtils.java:7-23 | a matrix with no rows or columns passes; passing is monotone in the accuracy; an exact identity-pattern matrix passes at any accuracy >= 0 |
| MatrixUtils.IdentityPasses | src/main/java/polyrun/MatrixUtils.java:7-23 | the `n x n` identity passes at any accuracy >= 0 |
| SamplerHitAndRun.ChordBounds | src/main/java/polyrun/sampler/HitAndRun.java:109-121 | the backward end bounds every ratio of a row with `(A d)_j < 0` from above, the forward end bounds every ratio of a row with `(A d)_j > 0` from below, and an end is missing iff no row of that sign exists |
| SamplerHitAndRun.StepLength | src/main/java/polyrun/sampler/HitAndRun.java:125-152 | succeeds iff both ends exist and `bg < ed`, `bg <= 0 <= ed`; the step lies in `[bg, ed)` |
| SamplerHitAndRun.Step | src/main/java/polyrun/sampler/HitAndRun.java:95-156 | a successful step keeps the width |
| SamplerHitAndRun.Validate | src/main/java/polyrun/sampler/HitAndRun.java:26-74 | validation passes only with positive `numberOfSamples`, non-empty rectangular A, matching `b` and start point, a homogeneous start point of length >= 2 ending within `1e-10` of 1, and a feasible start point |
| SamplerHitAndRun.Thin | src/main/java/polyrun/sampler/HitAndRun.java:78 | at least one step per sample |
| SamplerHitAndRun.StepKeepsFeasible | src/main/java/polyrun/sampler/HitAndRun.java:109-156 | a successful step keeps `A x <= b` |
| SamplerHitAndRun.WalkKeepsFeasible | src/main/java/polyrun/sampler/HitAndRun.java:88-160 | every successful run of steps keeps `A x <= b` |
| SamplerHitAndRun.SamplesAreFeasible | src/test/java/polyrun/sampler/HitAndRunTest.java:41-48 | a successful call returns `numberOfSamples` samples of the start point's width, each satisfying `A x <= b` |
| SamplerHitAndRun.WalkKeepsLastCoordinate | src/main/java/polyrun/sampler/HitAndRun.java:93 | with directions that keep the homogeneous coordinate at 0, the walk never changes it |
| SamplerHitAndRun.FailurePersists | src/main/java/polyrun/sampler/HitAndRun.java:125-150 | the first failing step decides the whole run |
| SamplerHitAndRun.FindChord | src/main/java/polyrun/sampler/HitAndRun.java:109-121 | the chord loop computes the chord specification |
| SamplerHitAndRun.Advance | src/main/java/polyrun/sampler/HitAndRun.java:95-156 | one step in place fails iff the step specification fails, and otherwise writes the stepped point |
| SamplerHitAndRun.Check | src/main/java/polyrun/sampler/HitAndRun.java:26-74 | the argument checks compute `Validate` |
| SamplerHitAndRun.Samples | src/main/java/polyrun/sampler/HitAndRun.java:88-160 | one sample per round |
| SamplerHitAndRun.Walk | src/main/java/polyrun/sampler/HitAndRun.java:88-160 | the loop returns the first failure, or the point after each block of `thin` steps |
| SamplerHitAndRun.SampleSpec | src/main/java/polyrun/sampler/HitAndRun.java:25-163 | a failed argument check is the call's error; otherwise the call succeeds iff all `numberOfSamples * thin` steps do, and then yields `numberOfSamples` samples |
| SamplerHitAndRun.Sample | src/main/java/polyrun/sampler/HitAndRun.java:25-163 | `sample` computes the specification; the caller's array is read only |
| Runner.Relaxed | src/main/java/polyrun/PolytopeRunner.java:89-91 | the right-hand side with row `i` relaxed by 1 and every other entry unchanged |
| Runner.FlagsMeaning | src/main/java/polyrun/PolytopeRunner.java:87-108 | the flags succeed iff every row's test succeeds, flag `i` being row `i`'s verdict; a failure is the error of the first failing row, all earlier rows having succeeded |
| Runner.FailedFlagsPersist | src/main/java/polyrun/PolytopeRunner.java:87-108 | once a row's solve fails the whole filter fails with that error |
| Runner.KeptPositionsExact | src/main/java/polyrun/PolytopeRunner.java:110-120 | the kept positions strictly increase and are exactly the unflagged rows |
| Runner.KeptSnoc | src/main/java/polyrun/PolytopeRunner.java:110-120 | keeping one more position appends that row iff it is unflagged |
| Runner.IsRedundant | src/main/java/polyrun/PolytopeRunner.java:88-107 | the check succeeds iff the solver returns a feasible solution; its errors are unbounded and infeasible; the row is redundant iff the maximum stays more than `1e-10` below `b_i` |
| Runner.CheckRow | src/main/java/polyrun/PolytopeRunner.java:88-107 | one row's test maximises row `i` under `b` relaxed at `i`; an unbounded or infeasible answer is an error; otherwise the row is redundant iff `value - b_i < -1e-10` |
| Runner.RemoveRedundant | src/main/java/polyrun/PolytopeRunner.java:87-120 | the filter fails with the first solver error, or keeps exactly the unflagged rows of A and b |
| Runner.KeepUnflagged | src/main/java/polyrun/PolytopeRunner.java:110-120 | the filter loop keeps exactly the unflagged entries, in order |
| Runner.KeptRowsAligned | src/main/java/polyrun/PolytopeRunner.java:110-120 | the kept rows of A and b come from the same positions, in original order, and every unflagged row is kept |
| Runner.NonZeroLists | src/main/java/polyrun/PolytopeRunner.java:128-149 | the index-list loop computes the non-zero lists |
| Runner.FitsShape | src/main/java/polyrun/PolytopeRunner.java:128-152 | the runner's layout is valid input for every walk, with exact index lists |
| Runner.Prepare | src/main/java/polyrun/PolytopeRunner.java:75-153 | a prepared runner has a valid transform, a non-empty reduced A, fitting index lists and the original width of `p` |
| Runner.Steps | src/main/java/polyrun/PolytopeRunner.java:162-165 | a run of steps keeps the width of the point |
| Runner.StoppedRunStays | src/main/java/polyrun/PolytopeRunner.java:162-165 | once a step throws, later steps change nothing |
| Runner.StepsKeepFeasible | src/main/java/polyrun/PolytopeRunner.java:162-165 | over exact arithmetic a run of steps keeps the reduced point inside the reduced polytope |
| Runner.StepsPerSample | src/main/java/polyrun/PolytopeRunner.java:160-166 | the inner loop runs at least once iff the factor is at least 1; a valid thinning function's factor is used unchanged, and it is at least 1 in a non-empty space |
| Runner.ChainSamples | src/main/java/polyrun/PolytopeRunner.java:160-168 | exactly `numberOfSamples` samples, each mapped back to the original width |
| Runner.ChainGrows | src/main/java/polyrun/PolytopeRunner.java:160-168 | one more sample appends the point after another `stepsPerSample` steps |
| Runner.Neighbours | src/main/java/polyrun/PolytopeRunner.java:193-196 | a successful neighbourhood has `numberOfSamples` samples of the original width |
| Runner.FailedNeighboursStay | src/main/java/polyrun/PolytopeRunner.java:193-196 | the first failing step decides the whole neighbourhood |
| Runner.NeighboursAreSingleSteps | src/main/java/polyrun/PolytopeRunner.java:193-196 | every neighbour is one walk step from the start point, mapped back |
| Runner.ReducedPointsMapInside | src/main/java/polyrun/PolytopeRunner.java:75-86 | with no redundancy solver, a reduced point inside the reduced system maps back inside `A x <= b` |
| Runner.ChainStaysInside | src/main/java/polyrun/PolytopeRunner.java:155-183 | with no redundancy solver and exact arithmetic, every chain sample lies in the original polytope |
| Runner.NeighboursStayInside | src/main/java/polyrun/PolytopeRunner.java:193-196 | the same for every neighbour |
| Runner.PolytopeRunner.constructor | src/main/java/polyrun/PolytopeRunner.java:75-153 | a runner holds the prepared layout, no start point, and a fresh buffer of the reduced width |
| Runner.PolytopeRunner.Create | src/main/java/polyrun/PolytopeRunner.java:75-153 | the construction fails iff the preparation does, with its error; otherwise a fresh runner holding the prepared layout and no start point |
| Runner.PolytopeRunner.StepInPlace | src/main/java/polyrun/PolytopeRunner.java:162-165 | one step in place continues the run held in the start point |
| Runner.PolytopeRunner.Advance | src/main/java/polyrun/PolytopeRunner.java:162-165 | `count` steps in place continue the run |
| Runner.PolytopeRunner.Chain | src/main/java/polyrun/PolytopeRunner.java:155-220 | a negative count is a negative-array-size error; no start point is an error; otherwise the start point becomes the end of the run, and the result is the first failure or the chain samples |
| Runner.PolytopeRunner.Neighborhood | src/main/java/polyrun/PolytopeRunner.java:155-242 | a negative count fails first, then a missing start point fails; otherwise the neighbours of the start point; the start point never changes |
| Runner.PolytopeRunner.SetAnyStartPoint | src/main/java/polyrun/PolytopeRunner.java:267-271 | zeros are installed first; a solver failure leaves them; success installs a copy of the interior point, which lies strictly inside every row when the solver's answer is a true solution |
| Runner.PolytopeRunner.SetStartPoint | src/main/java/polyrun/PolytopeRunner.java:279-291 | a wrong length or a projection outside the reduced system fails and changes nothing; otherwise the projection is installed |
| Runner.PolytopeRunner.GetStartPoint | src/main/java/polyrun/PolytopeRunner.java:298-304 | nothing until a start point is set, then a point of the original width; for an orthogonal transform projecting it gives the start point back |

## Left out

- Randomness: `UnitNSphere`, `Random.nextDouble` and `Random.nextInt` become a draw parameter. A draw holds a direction, a uniform value, the `n`-th root of a uniform value and an index. Statistical properties (uniformity, mixing) are not modelled.
- Floating point: everything is over exact reals. NaN, rounding, and the overflow of `(int) Math.ceil` are not modelled. `Math.pow(u, 1/n)` is the root carried by the draw.
- The singular value decomposition (EJML, Jama) and `MatrixUtils.pseudoInverse` are outside the model. Their outputs are given as a datatype of factors, and the particular solution is computed from them as the source writes it (`V W+ U d`, with `U` rather than its transpose).
- The LP solver (Apache Commons Math wrappers) is a function parameter from a problem to an answer. The default-solver overload of `setAnyStartPoint` is not modelled.
- `cli/CLI.java`, `cli/Main.java`, `SamplerRunner.java` and `LogarithmicallyScalableThinningFunction.java` are not part of this model. They are I/O, orchestration over APIs not shown, or `Math.log`.
- The consumer-callback overloads of `chain` and `neighborhood` are modelled through the array-returning overloads. A failing step yields only the error, so samples already handed to a consumer before the failure are not returned.
- The four-argument `ConstraintsSystem.isSatisfied(A, x, b, eps)`, called by BallWalk and GridWalk, does not appear in `ConstraintsSystem.java`. It is modelled as `A x <= b + eps`. The four-argument BallWalk constructor that SphereWalk calls (SphereWalk.java:55-58) is not shown either: its `eps` argument is dropped, and the sphere walk uses the literal `1e-10` of BallWalk.java:92 and BallWalk.java:99 for every constructor. SphereWalk's fixed step length comes from its `getStepLength` override (SphereWalk.java:61-65).
- The deprecated sampler calls a one-argument `getThinningFactor(dimensions)` (sampler/HitAndRun.java:78), which the interface in `ThinningFunction.java` does not declare; LinearlyScalableThinningFunction declares only that form. The sampler takes the factor as a parameter `nat -> int`, which `Thinning.DimensionFactor` of a linearly scalable function instantiates. Its two-argument `fillVectorWithRandomPoint` is not shown and is the draw's direction.
- Thinning.Factor: models the runner's two-argument interface for the constant, n-cubed and `c m n` functions only. The linearly scalable function is kept apart, as a function of the dimension, because its source class has no two-argument method.
- The BallWalk "not supported behaviour" branch is absent: the policy is a two-valued datatype.
- Runner.ChainStaysInside: proved only for a runner built without a redundancy solver and at tolerance 0. Removing redundant rows is not proved to preserve the region, because that depends on what the solver returns.
- Runner.NeighboursStayInside: the same restriction as Runner.ChainStaysInside.
- Runner.PolytopeRunner.GetStartPoint: the round trip with `setStartPoint` is proved only for an orthogonal transform (orthonormal null space, orthogonal to `p`), which the SVD supplies but the model does not derive.
- Runner.ReducedPointsMapInside: maps points into `A x <= b` only. That mapped-back samples satisfy `C x = d` rests on the SVD and is not stated.
- HitAndRun.StepStaysInside: at tolerance `1e-10`, rows that the boundary computation treats as parallel may drift by `abs(t) eps`. Exact feasibility is stated at tolerance 0 (HitAndRun.StepStaysInsideExactly).
- Runner.PolytopeRunner.Neighborhood: reading `startPoint.length` when no start point is set throws a `NullPointerException` in the source. This is modelled as a distinct null-pointer error.
- The start point and the walk buffers are arrays. The matrices, which the source only reads, are sequences.

## Findings

| source | as written | input that shows it | evidently intended | confidence | as-written member | corrected member |
|---|---|---|---|---|---|---|
| src/main/java/polyrun/sampling/GridWalk.java:68 | the chosen coordinate is set to `+gridSpacing` or `-gridSpacing`, discarding its current value | `from = (5)`, spacing 1, index 0 gives the candidate `(1)`; `from = (-3)` gives the same `(1)` | the coordinate moves by one grid step: `from[index/2] + gridSpacing` or `- gridSpacing` | not executed | GridWalk.CandidateAsWritten, GridWalk.AsWrittenLeavesTheGrid, GridWalk.Target, GridWalk.Next | GridWalk.Candidate, GridWalk.CandidateIsNeighbour, GridWalk.UpThenDown, GridWalk.TargetIntended, GridWalk.IntendedStaysOnGrid |
