/**
 * A system of linear constraints `A x <= b`, `C x = d` and the ways of
 * building one: from individual constraints, from rows with direction
 * symbols, or from the four matrices directly.
 */
module Constraints {
  import opened Wrappers
  import opened LinAlg

  /** One linear constraint `lhs . x  direction  rhs`. */
  datatype Constraint = Constraint(lhs: Vector, direction: string, rhs: real)

  /** `A x <= b` and `C x = d` over `numberOfVariables` unknowns. */
  datatype System = System(A: Matrix, b: Vector, C: Matrix, d: Vector, numberOfVariables: nat)
  {
    predicate Valid()
    {
      |A| == |b| && |C| == |d| && IsMatrix(A, numberOfVariables) && IsMatrix(C, numberOfVariables)
    }
  }

  /** The inequality and equality halves produced by splitting rows. */
  datatype Parts = Parts(A: Matrix, b: Vector, C: Matrix, d: Vector)

  predicate KnownDirection(dir: string)
  {
    dir == "=" || dir == "<=" || dir == ">="
  }

  predicate AllKnown(dirs: seq<string>)
  {
    forall i :: 0 <= i < |dirs| ==> KnownDirection(dirs[i])
  }

  function Negate(v: Vector): (r: Vector)
    ensures |r| == |v|
  {
    seq(|v|, j requires 0 <= j < |v| => -v[j])
  }

  /** A row as stored: `>=` rows are negated into `<=` form, the others are kept. */
  function NormalRow(lhs: Vector, dir: string): (r: Vector)
    ensures |r| == |lhs|
  {
    if dir == ">=" then Negate(lhs) else lhs
  }

  function NormalRhs(rhs: real, dir: string): real
  {
    if dir == ">=" then -rhs else rhs
  }

  /** The number of `=` symbols in `dirs`. */
  function CountEq(dirs: seq<string>): (r: nat)
    ensures r <= |dirs|
    decreases |dirs|
  {
    if |dirs| == 0 then 0
    else CountEq(dirs[..|dirs| - 1]) + (if dirs[|dirs| - 1] == "=" then 1 else 0)
  }

  /** The positions of the equality rows (`eq`) or of the inequality rows (`!eq`), in order. */
  function Positions(dirs: seq<string>, eq: bool): (r: seq<nat>)
    ensures forall t :: 0 <= t < |r| ==> r[t] < |dirs|
    decreases |dirs|
  {
    if |dirs| == 0 then []
    else
      var k := |dirs| - 1;
      Positions(dirs[..k], eq) + (if (dirs[k] == "=") == eq then [k] else [])
  }

  /**
   * Rows sorted into `A, b` (directions `<=` and `>=`) and `C, d` (direction
   * `=`), each normalised, in the order the source's loop visits them.
   */
  function Split(rows: seq<Vector>, dirs: seq<string>, rhs: Vector): (p: Parts)
    requires |rows| == |dirs| == |rhs| && AllKnown(dirs)
    decreases |rows|
  {
    if |rows| == 0 then Parts([], [], [], [])
    else
      var k := |rows| - 1;
      var p := Split(rows[..k], dirs[..k], rhs[..k]);
      var a := NormalRow(rows[k], dirs[k]);
      var c := NormalRhs(rhs[k], dirs[k]);
      if dirs[k] == "=" then p.(C := p.C + [a], d := p.d + [c])
      else p.(A := p.A + [a], b := p.b + [c])
  }

  /**
   * The split keeps every row exactly once: the `t`-th row of `A` is the
   * normalised `t`-th inequality row of the input, the `t`-th row of `C` the
   * `t`-th equality row, and nothing else appears.
   */
  lemma {:induction false} SplitPlacement(rows: seq<Vector>, dirs: seq<string>, rhs: Vector)
    requires |rows| == |dirs| == |rhs| && AllKnown(dirs)
    ensures var p := Split(rows, dirs, rhs);
      var ineq := Positions(dirs, false);
      var eq := Positions(dirs, true);
      && |p.A| == |p.b| == |ineq| == |dirs| - CountEq(dirs)
      && |p.C| == |p.d| == |eq| == CountEq(dirs)
      && (forall t :: 0 <= t < |ineq| ==>
            p.A[t] == NormalRow(rows[ineq[t]], dirs[ineq[t]]) && p.b[t] == NormalRhs(rhs[ineq[t]], dirs[ineq[t]]))
      && (forall t :: 0 <= t < |eq| ==> p.C[t] == rows[eq[t]] && p.d[t] == rhs[eq[t]])
    decreases |rows|
  {
    if |rows| > 0 {
      var k := |rows| - 1;
      SplitPlacement(rows[..k], dirs[..k], rhs[..k]);
    }
  }

  /**
   * The positions of the two halves are strictly increasing (relative order
   * is kept) and together name every row: row `i` is an equality iff its
   * direction is `=`.
   */
  lemma {:induction false} PositionsPartition(dirs: seq<string>, eq: bool)
    ensures var r := Positions(dirs, eq);
      && (forall s, t :: 0 <= s < t < |r| ==> r[s] < r[t])
      && (forall i :: 0 <= i < |dirs| ==> (i in r <==> (dirs[i] == "=") == eq))
    decreases |dirs|
  {
    if |dirs| > 0 {
      PositionsPartition(dirs[..|dirs| - 1], eq);
    }
  }

  /** The outcome of the `(lhs, dir, rhs)` constructor. */
  function RowsSystem(lhs: seq<Vector>, dir: seq<string>, rhs: Vector): Result<System, Error>
  {
    if |lhs| == 0 || |lhs[0]| == 0 || |lhs| != |dir| || |lhs| != |rhs| then Err(IllegalArgument)
    else if !IsMatrix(lhs, |lhs[0]|) || !AllKnown(dir) then Err(IllegalArgument)
    else
      var p := Split(lhs, dir, rhs);
      Ok(System(p.A, p.b, p.C, p.d, |lhs[0]|))
  }

  function Lhss(cs: seq<Constraint>): (r: seq<Vector>)
    ensures |r| == |cs|
  {
    seq(|cs|, i requires 0 <= i < |cs| => cs[i].lhs)
  }

  function Directions(cs: seq<Constraint>): (r: seq<string>)
    ensures |r| == |cs|
  {
    seq(|cs|, i requires 0 <= i < |cs| => cs[i].direction)
  }

  function Rhss(cs: seq<Constraint>): (r: Vector)
    ensures |r| == |cs|
  {
    seq(|cs|, i requires 0 <= i < |cs| => cs[i].rhs)
  }

  /** The outcome of the constructor over a collection of constraints. */
  function ConstraintsOf(cs: seq<Constraint>): Result<System, Error>
  {
    if |cs| == 0 then Err(IllegalArgument)
    else if !IsMatrix(Lhss(cs), |cs[0].lhs|) || !AllKnown(Directions(cs)) then Err(IllegalArgument)
    else
      var p := Split(Lhss(cs), Directions(cs), Rhss(cs));
      Ok(System(p.A, p.b, p.C, p.d, |cs[0].lhs|))
  }

  /**
   * What the `(lhs, dir, rhs)` constructor promises: it fails exactly on
   * zero rows or columns, mismatched lengths, ragged rows or an unknown
   * direction; otherwise every row lands, normalised and in order, in `A`
   * or `C`, and the two halves together hold all rows.
   */
  lemma {:induction false} RowsSystemMeaning(lhs: seq<Vector>, dir: seq<string>, rhs: Vector)
    ensures RowsSystem(lhs, dir, rhs).Err? <==>
      (|lhs| == 0 || |lhs[0]| == 0 || |lhs| != |dir| || |lhs| != |rhs|
       || (exists i :: 0 <= i < |lhs| && |lhs[i]| != |lhs[0]|)
       || (exists i :: 0 <= i < |dir| && !KnownDirection(dir[i])))
    ensures RowsSystem(lhs, dir, rhs).Ok? ==>
      var s := RowsSystem(lhs, dir, rhs).value;
      var ineq := Positions(dir, false);
      var eq := Positions(dir, true);
      && s.Valid() && s.numberOfVariables == |lhs[0]| > 0
      && |s.A| == |ineq| && |s.C| == |eq| && |s.A| + |s.C| == |lhs|
      && |s.C| == CountEq(dir)
      && (forall t :: 0 <= t < |ineq| ==>
            s.A[t] == NormalRow(lhs[ineq[t]], dir[ineq[t]]) && s.b[t] == NormalRhs(rhs[ineq[t]], dir[ineq[t]]))
      && (forall t :: 0 <= t < |eq| ==> s.C[t] == lhs[eq[t]] && s.d[t] == rhs[eq[t]])
  {
    if RowsSystem(lhs, dir, rhs).Ok? {
      SplitPlacement(lhs, dir, rhs);
    }
  }

  /**
   * The collection constructor fails exactly on no constraints, ragged rows
   * or an unknown direction, and otherwise splits the constraints as the
   * row constructor does.
   */
  lemma {:induction false} ConstraintsOfMeaning(cs: seq<Constraint>)
    ensures ConstraintsOf(cs).Err? <==>
      (|cs| == 0
       || (exists i :: 0 <= i < |cs| && |cs[i].lhs| != |cs[0].lhs|)
       || (exists i :: 0 <= i < |cs| && !KnownDirection(cs[i].direction)))
    ensures ConstraintsOf(cs).Ok? ==>
      var s := ConstraintsOf(cs).value;
      var ineq := Positions(Directions(cs), false);
      var eq := Positions(Directions(cs), true);
      && s.Valid() && s.numberOfVariables == |cs[0].lhs|
      && |s.A| == |ineq| && |s.C| == |eq| && |s.A| + |s.C| == |cs|
      && (forall t :: 0 <= t < |ineq| ==>
            s.A[t] == NormalRow(cs[ineq[t]].lhs, cs[ineq[t]].direction)
            && s.b[t] == NormalRhs(cs[ineq[t]].rhs, cs[ineq[t]].direction))
      && (forall t :: 0 <= t < |eq| ==> s.C[t] == cs[eq[t]].lhs && s.d[t] == cs[eq[t]].rhs)
  {
    if |cs| > 0 {
      assert forall i :: 0 <= i < |cs| ==> Lhss(cs)[i] == cs[i].lhs && Directions(cs)[i] == cs[i].direction;
      if ConstraintsOf(cs).Ok? {
        SplitPlacement(Lhss(cs), Directions(cs), Rhss(cs));
      }
    }
  }

  /** The `(A, b, C, d)` constructor. */
  function FromMatrices(A: Matrix, b: Vector, C: Matrix, d: Vector): (r: Result<System, Error>)
    ensures r.Ok? <==>
      (|A| > 0 || |C| > 0) && |A| == |b| && |C| == |d|
      && IsMatrix(A, if |A| > 0 then |A[0]| else |C[0]|)
      && IsMatrix(C, if |A| > 0 then |A[0]| else |C[0]|)
    ensures r.Ok? ==> r.value.Valid() && r.value.A == A && r.value.b == b && r.value.C == C && r.value.d == d
    ensures r.Ok? && |A| > 0 ==> r.value.numberOfVariables == |A[0]|
    ensures r.Ok? && |A| == 0 ==> r.value.numberOfVariables == |C[0]|
  {
    if |A| == 0 && |C| == 0 then Err(IllegalArgument)
    else
      var n := if |A| > 0 then |A[0]| else |C[0]|;
      if |A| != |b| || |C| != |d| then Err(IllegalArgument)
      else if !IsMatrix(A, n) || !IsMatrix(C, n) then Err(IllegalArgument)
      else Ok(System(A, b, C, d, n))
  }

  /** The `(A, b)` constructor: no equalities. */
  function FromInequalities(A: Matrix, b: Vector): (r: Result<System, Error>)
    ensures r.Ok? <==> |A| > 0 && |A| == |b| && IsMatrix(A, |A[0]|)
    ensures r.Ok? ==>
      r.value.Valid() && r.value.A == A && r.value.b == b
      && r.value.C == [] && r.value.d == [] && r.value.numberOfVariables == |A[0]|
  {
    FromMatrices(A, b, [], [])
  }

  /** The `(lhs, dir, rhs)` constructor: validate the shape, then split. */
  method FromRows(lhs: seq<Vector>, dir: seq<string>, rhs: Vector) returns (r: Result<System, Error>)
    ensures r == RowsSystem(lhs, dir, rhs)
  {
    if |lhs| == 0 || |lhs[0]| == 0 {
      return Err(IllegalArgument);
    }
    if |lhs| != |dir| || |lhs| != |rhs| {
      return Err(IllegalArgument);
    }
    var n := |lhs[0]|;
    var i := 1;
    while i < |lhs|
      invariant 1 <= i <= |lhs|
      invariant forall k :: 0 <= k < i ==> |lhs[k]| == n
    {
      if |lhs[i]| != n {
        return Err(IllegalArgument);
      }
      i := i + 1;
    }
    r := SplitRows(lhs, dir, rhs, n);
  }

  /** The collection constructor: the same split over the constraints' own rows. */
  method FromConstraints(cs: seq<Constraint>) returns (r: Result<System, Error>)
    ensures r == ConstraintsOf(cs)
  {
    if |cs| == 0 {
      return Err(IllegalArgument);
    }
    var rows, dirs, rhs := Lhss(cs), Directions(cs), Rhss(cs);
    var n := |cs[0].lhs|;
    var i := 0;
    while i < |rows|
      invariant 0 <= i <= |rows|
      invariant forall k :: 0 <= k < i ==> |rows[k]| == n
    {
      if |rows[i]| != n {
        return Err(IllegalArgument);
      }
      i := i + 1;
    }
    r := SplitRows(rows, dirs, rhs, n);
  }

  /** One more row extends the split by that row, normalised, on its own side. */
  lemma {:induction false} SplitSnoc(rows: seq<Vector>, dirs: seq<string>, rhs: Vector, i: nat)
    requires |rows| == |dirs| == |rhs| && i < |rows|
    requires forall k :: 0 <= k <= i ==> KnownDirection(dirs[k])
    ensures AllKnown(dirs[..i]) && AllKnown(dirs[..i + 1])
    ensures var p := Split(rows[..i], dirs[..i], rhs[..i]);
      var a := NormalRow(rows[i], dirs[i]);
      var c := NormalRhs(rhs[i], dirs[i]);
      Split(rows[..i + 1], dirs[..i + 1], rhs[..i + 1])
        == if dirs[i] == "=" then p.(C := p.C + [a], d := p.d + [c]) else p.(A := p.A + [a], b := p.b + [c])
  {
    assert dirs[..i + 1][..i] == dirs[..i];
    assert rows[..i + 1][..i] == rows[..i];
    assert rhs[..i + 1][..i] == rhs[..i];
  }

  /** The stored form of one row: copied for `=` and `<=`, negated for `>=`. */
  method NormaliseRow(row: Vector, dir: string, rhs: real) returns (a: Vector, c: real)
    requires dir == "=" || dir == "<=" || dir == ">="
    ensures a == NormalRow(row, dir) && c == NormalRhs(rhs, dir)
  {
    if dir == "=" || dir == "<=" {
      return row, rhs;
    }
    var negated := new real[|row|];
    for j := 0 to |row|
      invariant negated[..j] == Negate(row)[..j]
    {
      negated[j] := -row[j];
    }
    assert negated[..] == negated[..|row|];
    return negated[..], -rhs;
  }

  /**
   * Append each row, normalised, to `A, b` or to `C, d`, and fail on the
   * first unknown direction.
   */
  method SplitRows(rows: seq<Vector>, dirs: seq<string>, rhs: Vector, n: nat) returns (r: Result<System, Error>)
    requires |rows| == |dirs| == |rhs| && IsMatrix(rows, n)
    ensures r.Err? <==> !AllKnown(dirs)
    ensures r.Err? ==> r.error == IllegalArgument
    ensures r.Ok? ==> var p := Split(rows, dirs, rhs); r.value == System(p.A, p.b, p.C, p.d, n)
  {
    var A, b, C, d := [], [], [], [];
    var i := 0;
    while i < |rows|
      invariant 0 <= i <= |rows| && forall k :: 0 <= k < i ==> KnownDirection(dirs[k])
      invariant AllKnown(dirs[..i]) && Parts(A, b, C, d) == Split(rows[..i], dirs[..i], rhs[..i])
    {
      if !(dirs[i] == "=" || dirs[i] == "<=" || dirs[i] == ">=") {
        assert !KnownDirection(dirs[i]);
        return Err(IllegalArgument);
      }
      SplitSnoc(rows, dirs, rhs, i);
      var a, c := NormaliseRow(rows[i], dirs[i], rhs[i]);
      if dirs[i] == "=" {
        C, d := C + [a], d + [c];
      } else {
        A, b := A + [a], b + [c];
      }
      i := i + 1;
    }
    assert dirs[..i] == dirs && rows[..i] == rows && rhs[..i] == rhs;
    r := Ok(System(A, b, C, d, n));
  }

  /** Every row of `A x <= b` holds. */
  predicate Satisfied(A: Matrix, x: Vector, b: Vector)
    requires |A| <= |b| && forall i :: 0 <= i < |A| ==> |A[i]| <= |x|
  {
    forall i :: 0 <= i < |A| ==> Dot(A[i], x) <= b[i]
  }

  /** Every row of `A x <= b + eps` holds: the tolerant check the walks call. */
  predicate SatisfiedWithin(A: Matrix, x: Vector, b: Vector, eps: real)
    requires |A| <= |b| && forall i :: 0 <= i < |A| ==> |A[i]| <= |x|
  {
    forall i :: 0 <= i < |A| ==> Dot(A[i], x) <= b[i] + eps
  }

  /** With no tolerance the tolerant check is the exact one, and more tolerance accepts more points. */
  lemma {:induction false} SatisfiedWithinMeaning(A: Matrix, x: Vector, b: Vector, eps: real, eps': real)
    requires |A| <= |b| && forall i :: 0 <= i < |A| ==> |A[i]| <= |x|
    ensures SatisfiedWithin(A, x, b, 0.0) <==> Satisfied(A, x, b)
    ensures eps <= eps' && SatisfiedWithin(A, x, b, eps) ==> SatisfiedWithin(A, x, b, eps')
  {
  }

  /** `isSatisfied`: row by row, returning false at the first violated row. */
  method IsSatisfied(A: Matrix, x: Vector, b: Vector) returns (ok: bool)
    requires |A| <= |b| && forall i :: 0 <= i < |A| ==> |A[i]| <= |x|
    ensures ok <==> Satisfied(A, x, b)
    ensures |A| == 0 ==> ok
  {
    for i := 0 to |A|
      invariant forall k :: 0 <= k < i ==> Dot(A[k], x) <= b[k]
    {
      var ax := 0.0;
      for j := 0 to |A[i]|
        invariant ax == Dot(A[i][..j], x)
      {
        assert A[i][..j + 1][..j] == A[i][..j];
        ax := ax + A[i][j] * x[j];
      }
      assert A[i][..|A[i]|] == A[i];
      if ax > b[i] {
        return false;
      }
    }
    return true;
  }
}
