/**
 * How far a point inside `A x <= b` can travel along a direction `d`
 * (forwards) and along `-d` (backwards) before it meets the boundary.
 */
module Boundary {
  import opened Wrappers
  import opened LinAlg
  import Constraints

  /** A real number or one of the two infinities. */
  datatype Ext = NegInf | Fin(v: real) | PosInf

  /** `Math.min(a, v)` for a finite `v`. */
  function MinExt(a: Ext, v: real): (r: Ext)
    ensures r.Fin? && r.v <= v
    ensures a.Fin? ==> r.v <= a.v && (r.v == a.v || r.v == v)
    ensures !a.Fin? ==> r.v == v
  {
    match a
    case Fin(w) => if w <= v then Fin(w) else Fin(v)
    case _ => Fin(v)
  }

  /** `Math.max(a, v)` for a finite `v`. */
  function MaxExt(a: Ext, v: real): (r: Ext)
    ensures r.Fin? && v <= r.v
    ensures a.Fin? ==> a.v <= r.v && (r.v == a.v || r.v == v)
    ensures !a.Fin? ==> r.v == v
  {
    match a
    case Fin(w) => if v <= w then Fin(w) else Fin(v)
    case _ => Fin(v)
  }

  /** `result[0]` (forward, towards `d`) and `result[1]` (backward, towards `-d`). */
  datatype Segment = Segment(forward: Ext, backward: Ext)

  /** Optional per-row lists of column indices to sum over instead of whole rows. */
  type Indices = Option<seq<seq<int>>>

  /**
   * The shapes the loops index into: at least `|b|` rows of `A`, each as wide
   * as `x` and `d`, and (when given) index lists for those rows naming
   * columns of `x`.
   */
  predicate Shape(A: Matrix, b: Vector, d: Vector, x: Vector, indices: Indices)
  {
    && |b| <= |A| && |d| == |x|
    && (forall j :: 0 <= j < |A| ==> |A[j]| == |x|)
    && (indices.Some? ==>
          |b| <= |indices.value|
          && forall j, t :: 0 <= j < |indices.value| && 0 <= t < |indices.value[j]| ==>
               0 <= indices.value[j][t] < |x|)
  }

  /** Row `j` of `A` times `v`, over the index list when there is one. */
  function RowDot(A: Matrix, b: Vector, d: Vector, x: Vector, indices: Indices, j: nat, v: Vector): real
    requires Shape(A, b, d, x, indices) && j < |b| && |v| == |x|
  {
    if indices.Some? then SparseDot(A[j], v, indices.value[j]) else Dot(A[j], v)
  }

  /** `(A d)_j`. */
  function Ad(A: Matrix, b: Vector, d: Vector, x: Vector, indices: Indices, j: nat): real
    requires Shape(A, b, d, x, indices) && j < |b|
  {
    RowDot(A, b, d, x, indices, j, d)
  }

  /** `(b - A x)_j`, before clamping. */
  function Slack(A: Matrix, b: Vector, d: Vector, x: Vector, indices: Indices, j: nat): real
    requires Shape(A, b, d, x, indices) && j < |b|
  {
    b[j] - RowDot(A, b, d, x, indices, j, x)
  }

  /** A slack within `eps` of zero counts as exactly zero. */
  function Clamp(s: real, eps: real): real
  {
    if -eps <= s && s <= eps then 0.0 else s
  }

  /** The slack that makes the point count as outside the polytope. */
  predicate Violates(s: real, eps: real)
  {
    !(-eps <= s && s <= eps) && s < 0.0
  }

  /**
   * One row's contribution: fail on a violated row, otherwise tighten the
   * forward minimum (`ad > eps`) or the backward maximum (`ad < -eps`) with
   * the clamped slack over `ad`; a row nearly parallel to `d` changes nothing.
   */
  function Step(prev: Result<Segment, Error>, s: real, ad: real, eps: real): Result<Segment, Error>
    requires 0.0 <= eps
  {
    if prev.Err? then prev
    else if Violates(s, eps) then Err(OutOfBounds)
    else if ad > eps then Ok(prev.value.(forward := MinExt(prev.value.forward, Clamp(s, eps) / ad)))
    else if ad < -eps then Ok(prev.value.(backward := MaxExt(prev.value.backward, Clamp(s, eps) / ad)))
    else prev
  }

  /** The fold over the first `k` rows, starting from `(+inf, -inf)`. */
  function DistanceUpTo(A: Matrix, b: Vector, d: Vector, x: Vector, eps: real, indices: Indices, k: nat)
    : Result<Segment, Error>
    requires Shape(A, b, d, x, indices) && k <= |b| && 0.0 <= eps
  {
    if k == 0 then Ok(Segment(PosInf, NegInf))
    else Step(DistanceUpTo(A, b, d, x, eps, indices, k - 1),
              Slack(A, b, d, x, indices, k - 1), Ad(A, b, d, x, indices, k - 1), eps)
  }

  /** `distance(A, b, d, x, eps, indices)`. */
  function DistanceSpec(A: Matrix, b: Vector, d: Vector, x: Vector, eps: real, indices: Indices)
    : Result<Segment, Error>
    requires Shape(A, b, d, x, indices) && 0.0 <= eps
  {
    DistanceUpTo(A, b, d, x, eps, indices, |b|)
  }

  /** The inner loop for row `j`: `(A d)_j` and `b_j - (A x)_j`. */
  method RowProducts(A: Matrix, b: Vector, d: Vector, x: Vector, indices: Indices, j: nat)
    returns (ad: real, bax: real)
    requires Shape(A, b, d, x, indices) && j < |b|
    ensures ad == Ad(A, b, d, x, indices, j) && bax == Slack(A, b, d, x, indices, j)
  {
    ad, bax := 0.0, b[j];
    var row := A[j];
    if indices.Some? {
      var list := indices.value[j];
      assert forall t :: 0 <= t < |list| ==> 0 <= list[t] < |x|;
      for t := 0 to |list|
        invariant ad == SparseDot(row, d, list[..t])
        invariant bax == b[j] - SparseDot(row, x, list[..t])
      {
        assert list[..t + 1][..t] == list[..t];
        var i := list[t];
        ad := ad + row[i] * d[i];
        bax := bax - row[i] * x[i];
      }
      assert list[..|list|] == list;
    } else {
      assert |A[0]| == |row| == |x|;
      for i := 0 to |A[0]|
        invariant ad == Dot(row[..i], d)
        invariant bax == b[j] - Dot(row[..i], x)
      {
        assert row[..i + 1][..i] == row[..i];
        ad := ad + row[i] * d[i];
        bax := bax - row[i] * x[i];
      }
      assert row[..|A[0]|] == row;
    }
  }

  /**
   * `distance`: one pass over the rows, clamping each slack, rejecting a
   * violated row and tightening the forward minimum or the backward maximum.
   */
  method Distance(A: Matrix, b: Vector, d: Vector, x: Vector, eps: real, indices: Indices)
    returns (r: Result<Segment, Error>)
    requires Shape(A, b, d, x, indices) && 0.0 <= eps
    ensures r == DistanceSpec(A, b, d, x, eps, indices)
  {
    var forward, backward := PosInf, NegInf;
    for j := 0 to |b|
      invariant DistanceUpTo(A, b, d, x, eps, indices, j) == Ok(Segment(forward, backward))
    {
      var ad, bax := RowProducts(A, b, d, x, indices, j);
      if -eps <= bax && bax <= eps {
        bax := 0.0;
      } else if bax < 0.0 {
        ErrorPersists(A, b, d, x, eps, indices, j + 1);
        return Err(OutOfBounds);
      }
      if ad > eps {
        forward := MinExt(forward, bax / ad);
      } else if ad < -eps {
        backward := MaxExt(backward, bax / ad);
      }
    }
    r := Ok(Segment(forward, backward));
  }

  /** Once a prefix of the rows fails, the whole computation fails the same way. */
  lemma {:induction false} ErrorPersists(A: Matrix, b: Vector, d: Vector, x: Vector, eps: real, indices: Indices, k: nat)
    requires Shape(A, b, d, x, indices) && k <= |b| && 0.0 <= eps
    requires DistanceUpTo(A, b, d, x, eps, indices, k) == Err(OutOfBounds)
    ensures DistanceSpec(A, b, d, x, eps, indices) == Err(OutOfBounds)
    decreases |b| - k
  {
    if k < |b| {
      ErrorPersists(A, b, d, x, eps, indices, k + 1);
    }
  }

  /**
   * The computation over the first `k` rows fails exactly when one of them
   * has slack below `-eps`, and the failure is always `OutOfBounds`.
   */
  lemma {:induction false} FailsIffViolated(A: Matrix, b: Vector, d: Vector, x: Vector, eps: real, indices: Indices, k: nat)
    requires Shape(A, b, d, x, indices) && k <= |b| && 0.0 <= eps
    ensures DistanceUpTo(A, b, d, x, eps, indices, k).Err? <==>
      exists j :: 0 <= j < k && Slack(A, b, d, x, indices, j) < -eps
    ensures DistanceUpTo(A, b, d, x, eps, indices, k).Err? ==> DistanceUpTo(A, b, d, x, eps, indices, k).error == OutOfBounds
  {
    if k > 0 {
      FailsIffViolated(A, b, d, x, eps, indices, k - 1);
    }
  }

  /** `t` lies between the backward and the forward distance. */
  predicate Within(s: Segment, t: real)
  {
    (s.backward.NegInf? || (s.backward.Fin? && s.backward.v <= t))
    && (s.forward.PosInf? || (s.forward.Fin? && t <= s.forward.v))
  }

  /**
   * On success the forward distance over the first `k` rows is `+inf`
   * exactly when no row has `(A d)_j > eps`, and otherwise is the least
   * clamped-slack ratio over those rows, which is never negative.
   */
  lemma {:induction false} ForwardIsMinimum(A: Matrix, b: Vector, d: Vector, x: Vector, eps: real, indices: Indices, k: nat)
    requires Shape(A, b, d, x, indices) && k <= |b| && 0.0 <= eps
    requires DistanceUpTo(A, b, d, x, eps, indices, k).Ok?
    ensures var f := DistanceUpTo(A, b, d, x, eps, indices, k).value.forward;
      && !f.NegInf?
      && (f.PosInf? <==> forall j :: 0 <= j < k ==> Ad(A, b, d, x, indices, j) <= eps)
      && (f.Fin? ==>
            0.0 <= f.v
            && (exists j :: 0 <= j < k && Ad(A, b, d, x, indices, j) > eps
                  && f.v == Clamp(Slack(A, b, d, x, indices, j), eps) / Ad(A, b, d, x, indices, j))
            && forall j :: 0 <= j < k && Ad(A, b, d, x, indices, j) > eps ==>
                 f.v <= Clamp(Slack(A, b, d, x, indices, j), eps) / Ad(A, b, d, x, indices, j))
  {
    if k > 0 {
      ForwardIsMinimum(A, b, d, x, eps, indices, k - 1);
      var s := Slack(A, b, d, x, indices, k - 1);
      var ad := Ad(A, b, d, x, indices, k - 1);
      if ad > eps {
        assert !Violates(s, eps);
        NonNegativeRatio(Clamp(s, eps), ad);
      }
    }
  }

  /**
   * On success the backward distance over the first `k` rows is `-inf`
   * exactly when no row has `(A d)_j < -eps`, and otherwise is the greatest
   * clamped-slack ratio over those rows, which is never positive.
   */
  lemma {:induction false} BackwardIsMaximum(A: Matrix, b: Vector, d: Vector, x: Vector, eps: real, indices: Indices, k: nat)
    requires Shape(A, b, d, x, indices) && k <= |b| && 0.0 <= eps
    requires DistanceUpTo(A, b, d, x, eps, indices, k).Ok?
    ensures var g := DistanceUpTo(A, b, d, x, eps, indices, k).value.backward;
      && !g.PosInf?
      && (g.NegInf? <==> forall j :: 0 <= j < k ==> Ad(A, b, d, x, indices, j) >= -eps)
      && (g.Fin? ==>
            g.v <= 0.0
            && (exists j :: 0 <= j < k && Ad(A, b, d, x, indices, j) < -eps
                  && g.v == Clamp(Slack(A, b, d, x, indices, j), eps) / Ad(A, b, d, x, indices, j))
            && forall j :: 0 <= j < k && Ad(A, b, d, x, indices, j) < -eps ==>
                 Clamp(Slack(A, b, d, x, indices, j), eps) / Ad(A, b, d, x, indices, j) <= g.v)
  {
    if k > 0 {
      BackwardIsMaximum(A, b, d, x, eps, indices, k - 1);
      var s := Slack(A, b, d, x, indices, k - 1);
      var ad := Ad(A, b, d, x, indices, k - 1);
      if ad < -eps {
        assert !Violates(s, eps);
        NonPositiveRatio(Clamp(s, eps), ad);
      }
    }
  }

  lemma {:induction false} NonNegativeRatio(c: real, ad: real)
    requires 0.0 <= c && 0.0 < ad
    ensures 0.0 <= c / ad
  {
  }

  lemma {:induction false} NonPositiveRatio(c: real, ad: real)
    requires 0.0 <= c && ad < 0.0
    ensures c / ad <= 0.0
  {
  }

  /**
   * When every row is (nearly) parallel to `d`, the result stays at
   * `(+inf, -inf)`: the walk is unbounded both ways.
   */
  lemma {:induction false} AllParallel(A: Matrix, b: Vector, d: Vector, x: Vector, eps: real, indices: Indices)
    requires Shape(A, b, d, x, indices) && 0.0 <= eps
    requires forall j :: 0 <= j < |b| ==> -eps <= Ad(A, b, d, x, indices, j) <= eps
    requires DistanceSpec(A, b, d, x, eps, indices).Ok?
    ensures DistanceSpec(A, b, d, x, eps, indices) == Ok(Segment(PosInf, NegInf))
  {
    ForwardIsMinimum(A, b, d, x, eps, indices, |b|);
    BackwardIsMaximum(A, b, d, x, eps, indices, |b|);
  }

  /**
   * Every point `x + t d` with `t` between the two distances stays within
   * `eps + |t| eps` of each row's bound. With `eps = 0` it satisfies
   * `A x <= b` exactly; with `eps > 0` only rows nearly parallel to `d`
   * (`0 < |(A d)_j| <= eps`) or already within `eps` of their bound can
   * drift, by at most that much.
   */
  lemma {:induction false} SegmentStaysInside(A: Matrix, b: Vector, d: Vector, x: Vector, eps: real, t: real)
    requires Shape(A, b, d, x, None) && 0.0 <= eps
    requires DistanceSpec(A, b, d, x, eps, None).Ok?
    requires Within(DistanceSpec(A, b, d, x, eps, None).value, t)
    ensures forall j :: 0 <= j < |b| ==>
      Dot(A[j], Along(x, d, t)) <= b[j] + eps + (if t < 0.0 then -t else t) * eps
  {
    ForwardIsMinimum(A, b, d, x, eps, None, |b|);
    BackwardIsMaximum(A, b, d, x, eps, None, |b|);
    FailsIffViolated(A, b, d, x, eps, None, |b|);
    forall j | 0 <= j < |b|
      ensures Dot(A[j], Along(x, d, t)) <= b[j] + eps + (if t < 0.0 then -t else t) * eps
    {
      RowStaysInside(A, b, d, x, eps, t, j);
    }
  }

  /** With no tolerance, the whole segment lies inside `A x <= b`. */
  lemma {:induction false} SegmentStaysInsideExactly(A: Matrix, b: Vector, d: Vector, x: Vector, t: real)
    requires Shape(A, b, d, x, None) && |A| == |b|
    requires DistanceSpec(A, b, d, x, 0.0, None).Ok?
    requires Within(DistanceSpec(A, b, d, x, 0.0, None).value, t)
    ensures Constraints.Satisfied(A, Along(x, d, t), b)
  {
    SegmentStaysInside(A, b, d, x, 0.0, t);
  }

  /** The single-row argument behind `SegmentStaysInside`. */
  lemma {:induction false} RowStaysInside(A: Matrix, b: Vector, d: Vector, x: Vector, eps: real, t: real, j: nat)
    requires Shape(A, b, d, x, None) && 0.0 <= eps && j < |b|
    requires !(Slack(A, b, d, x, None, j) < -eps)
    requires Ad(A, b, d, x, None, j) > eps ==>
      t <= Clamp(Slack(A, b, d, x, None, j), eps) / Ad(A, b, d, x, None, j)
    requires Ad(A, b, d, x, None, j) < -eps ==>
      Clamp(Slack(A, b, d, x, None, j), eps) / Ad(A, b, d, x, None, j) <= t
    ensures Dot(A[j], Along(x, d, t)) <= b[j] + eps + (if t < 0.0 then -t else t) * eps
  {
    var s := Slack(A, b, d, x, None, j);
    DotAlong(A[j], x, d, t);
    RowArithmetic(s, Ad(A, b, d, x, None, j), eps, t);
  }

  /**
   * The arithmetic of one row: a slack `s` that is not below `-eps`, moved
   * by `t` within the row's ratio bound, loses at most `eps + |t| eps`.
   */
  lemma {:induction false} RowArithmetic(s: real, ad: real, eps: real, t: real)
    requires 0.0 <= eps && !(s < -eps)
    requires ad > eps ==> t <= Clamp(s, eps) / ad
    requires ad < -eps ==> Clamp(s, eps) / ad <= t
    ensures -s + t * ad <= eps + (if t < 0.0 then -t else t) * eps
  {
    var c := Clamp(s, eps);
    assert s >= c - eps;
    if ad > eps {
      RatioBound(t, c, ad);
    } else if ad < -eps {
      RatioBoundNeg(t, c, ad);
    } else {
      ParallelDrift(t, ad, eps);
    }
  }

  lemma {:induction false} RatioBound(t: real, c: real, ad: real)
    requires 0.0 < ad && t <= c / ad
    ensures t * ad <= c
  {
    assert t * ad <= (c / ad) * ad;
  }

  lemma {:induction false} RatioBoundNeg(t: real, c: real, ad: real)
    requires ad < 0.0 && c / ad <= t
    ensures t * ad <= c
  {
    assert t * ad <= (c / ad) * ad;
  }

  lemma {:induction false} ParallelDrift(t: real, ad: real, eps: real)
    requires -eps <= ad <= eps
    ensures t * ad <= (if t < 0.0 then -t else t) * eps
  {
    if t >= 0.0 {
      assert t * (eps - ad) >= 0.0;
    } else {
      assert (-t) * (eps + ad) >= 0.0;
    }
  }

  /** The index lists that name exactly the non-zero entries of each row. */
  function NonZeroRows(A: Matrix): (r: seq<seq<int>>)
    ensures |r| == |A| && forall j :: 0 <= j < |A| ==> r[j] == NonZero(A[j])
  {
    seq(|A|, j requires 0 <= j < |A| => NonZero(A[j]))
  }

  lemma {:induction false} NonZeroRowsShape(A: Matrix, b: Vector, d: Vector, x: Vector)
    requires Shape(A, b, d, x, None)
    ensures Shape(A, b, d, x, Some(NonZeroRows(A)))
  {
  }

  /**
   * Summing only over each row's non-zero entries gives the same distances
   * (and the same failure) as summing over whole rows.
   */
  lemma {:induction false} SparseEqualsDense(A: Matrix, b: Vector, d: Vector, x: Vector, eps: real, lists: seq<seq<int>>, k: nat)
    requires Shape(A, b, d, x, None) && Shape(A, b, d, x, Some(lists)) && k <= |b| && 0.0 <= eps
    requires forall j :: 0 <= j < |b| ==> lists[j] == NonZero(A[j])
    ensures DistanceUpTo(A, b, d, x, eps, Some(lists), k) == DistanceUpTo(A, b, d, x, eps, None, k)
  {
    if k > 0 {
      SparseEqualsDense(A, b, d, x, eps, lists, k - 1);
      SparseDotNonZero(A[k - 1], d);
      SparseDotNonZero(A[k - 1], x);
      assert Ad(A, b, d, x, Some(lists), k - 1) == Ad(A, b, d, x, None, k - 1);
      assert Slack(A, b, d, x, Some(lists), k - 1) == Slack(A, b, d, x, None, k - 1);
    }
  }

  /** The first unit test: on the first axis's boundary, moving along `-e1`. */
  lemma {:induction false} OnBoundaryExample()
    ensures Shape([[-1.0, 0.0], [0.0, -1.0]], [0.0, 0.0], [-1.0, 0.0], [0.0, 0.123], None)
    ensures DistanceSpec([[-1.0, 0.0], [0.0, -1.0]], [0.0, 0.0], [-1.0, 0.0], [0.0, 0.123], Tolerance, None)
      == Ok(Segment(Fin(0.0), NegInf))
  {
    var A: Matrix := [[-1.0, 0.0], [0.0, -1.0]];
    var x: Vector := [0.0, 0.123];
    var d: Vector := [-1.0, 0.0];
    assert A[0][..1] == [-1.0];
    assert A[1][..1] == [0.0];
    assert Dot(A[0], d) == 1.0;
    assert Dot(A[0], x) == 0.0;
    assert Dot(A[1], d) == 0.0;
    assert Dot(A[1], x) == -0.123;
    assert DistanceUpTo(A, [0.0, 0.0], d, x, Tolerance, None, 1) == Ok(Segment(Fin(0.0), NegInf));
  }
}
