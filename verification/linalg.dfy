/**
 * Dense real vectors and matrices, the inner products the sampler's loops
 * accumulate, and the algebraic facts the proofs about them need.
 */
module LinAlg {

  type Vector = seq<real>
  type Matrix = seq<seq<real>>

  /**
   * `1e-10`, the absolute error the walks, the redundancy filter and the
   * deprecated sampler accept in their floating-point comparisons.
   */
  const Tolerance: real := 1.0 / 10000000000.0

  function Abs(r: real): real
  {
    if r < 0.0 then -r else r
  }

  /** Every row of `M` has exactly `cols` entries. */
  predicate IsMatrix(M: Matrix, cols: nat)
  {
    forall i :: 0 <= i < |M| ==> |M[i]| == cols
  }

  /**
   * The sum of `u[i] * v[i]` over the entries of `u`, accumulated from left
   * to right as the source's `ax += A[i][j] * x[j]` loops do.
   */
  function Dot(u: Vector, v: Vector): real
    requires |u| <= |v|
    decreases |u|
  {
    if |u| == 0 then 0.0 else Dot(u[..|u| - 1], v) + u[|u| - 1] * v[|u| - 1]
  }

  /** The sum of `u[i] * v[i]` over the listed indices only (the sparse path). */
  function SparseDot(u: Vector, v: Vector, indices: seq<int>): real
    requires forall t :: 0 <= t < |indices| ==> 0 <= indices[t] < |u| && indices[t] < |v|
    decreases |indices|
  {
    if |indices| == 0 then 0.0
    else
      var i := indices[|indices| - 1];
      SparseDot(u, v, indices[..|indices| - 1]) + u[i] * v[i]
  }

  /** The indices of the non-zero entries of `row`, in increasing order. */
  function NonZero(row: Vector): (r: seq<int>)
    ensures forall t :: 0 <= t < |r| ==> 0 <= r[t] < |row|
    decreases |row|
  {
    if |row| == 0 then []
    else NonZero(row[..|row| - 1]) + (if row[|row| - 1] != 0.0 then [|row| - 1] else [])
  }

  /** The point `x + t * d`, written as the source writes it: `d[i] * t + x[i]`. */
  function Along(x: Vector, d: Vector, t: real): (r: Vector)
    requires |x| == |d|
    ensures |r| == |x|
  {
    seq(|x|, i requires 0 <= i < |x| => d[i] * t + x[i])
  }

  function Add(u: Vector, v: Vector): (r: Vector)
    requires |u| == |v|
    ensures |r| == |u|
  {
    seq(|u|, i requires 0 <= i < |u| => u[i] + v[i])
  }

  function Sub(u: Vector, v: Vector): (r: Vector)
    requires |u| == |v|
    ensures |r| == |u|
  {
    seq(|u|, i requires 0 <= i < |u| => u[i] - v[i])
  }

  /** `u + c * w`, entry by entry. */
  function Combine(u: Vector, c: real, w: Vector): (r: Vector)
    requires |u| == |w|
    ensures |r| == |u|
  {
    seq(|u|, i requires 0 <= i < |u| => u[i] + c * w[i])
  }

  function Zeros(n: nat): (r: Vector)
    ensures |r| == n
  {
    seq(n, i => 0.0)
  }

  /** The `k`-th unit vector of length `n`. */
  function Unit(n: nat, k: nat): (r: Vector)
    ensures |r| == n
  {
    seq(n, j => if j == k then 1.0 else 0.0)
  }

  function Identity(n: nat): (r: Matrix)
    ensures |r| == n && IsMatrix(r, n)
  {
    seq(n, i requires 0 <= i < n => Unit(n, i))
  }

  /** `N * y`: one inner product per row of `N`. */
  function MatVec(N: Matrix, y: Vector): (r: Vector)
    requires forall j :: 0 <= j < |N| ==> |N[j]| <= |y|
    ensures |r| == |N|
  {
    seq(|N|, j requires 0 <= j < |N| => Dot(N[j], y))
  }

  function Column(N: Matrix, k: nat): (r: Vector)
    requires forall j :: 0 <= j < |N| ==> k < |N[j]|
    ensures |r| == |N|
  {
    seq(|N|, j requires 0 <= j < |N| => N[j][k])
  }

  /** The row vector `a * N`, where `N` has `cols` columns. */
  function RowTimes(a: Vector, N: Matrix, cols: nat): (r: Vector)
    requires |a| <= |N| && IsMatrix(N, cols)
    ensures |r| == cols
  {
    seq(cols, k requires 0 <= k < cols => Dot(a, Column(N, k)))
  }

  /** `M * N`, where `N` has `cols` columns. */
  function MatMul(M: Matrix, N: Matrix, cols: nat): (r: Matrix)
    requires IsMatrix(M, |N|) && IsMatrix(N, cols)
    ensures |r| == |M| && IsMatrix(r, cols)
  {
    seq(|M|, i requires 0 <= i < |M| => RowTimes(M[i], N, cols))
  }

  /** The inner product reads only the first `|u|` entries of `v`. */
  lemma {:induction false} DotCongruent(u: Vector, v: Vector, w: Vector)
    requires |u| <= |v| && |u| <= |w|
    requires forall i :: 0 <= i < |u| ==> v[i] == w[i]
    ensures Dot(u, v) == Dot(u, w)
  {
    if |u| > 0 {
      DotCongruent(u[..|u| - 1], v, w);
    }
  }

  /** Moving along a line changes every row's inner product linearly. */
  lemma {:induction false} DotAlong(u: Vector, x: Vector, d: Vector, t: real)
    requires |x| == |d| && |u| <= |x|
    ensures Dot(u, Along(x, d, t)) == Dot(u, x) + t * Dot(u, d)
  {
    if |u| > 0 {
      var k := |u| - 1;
      DotAlong(u[..k], x, d, t);
      assert u[k] * Along(x, d, t)[k] == u[k] * x[k] + t * (u[k] * d[k]);
    }
  }

  lemma {:induction false} DotAdd(u: Vector, v: Vector, w: Vector)
    requires |v| == |w| && |u| <= |v|
    ensures Dot(u, Add(v, w)) == Dot(u, v) + Dot(u, w)
  {
    if |u| > 0 {
      var k := |u| - 1;
      DotAdd(u[..k], v, w);
      assert u[k] * Add(v, w)[k] == u[k] * v[k] + u[k] * w[k];
    }
  }

  lemma {:induction false} DotCombineLeft(u: Vector, c: real, w: Vector, y: Vector)
    requires |u| == |w| <= |y|
    ensures Dot(Combine(u, c, w), y) == Dot(u, y) + c * Dot(w, y)
  {
    if |u| > 0 {
      var k := |u| - 1;
      assert Combine(u, c, w)[..k] == Combine(u[..k], c, w[..k]) by {
        forall i | 0 <= i < k ensures Combine(u, c, w)[..k][i] == Combine(u[..k], c, w[..k])[i] { }
      }
      DotCombineLeft(u[..k], c, w[..k], y);
      assert Combine(u, c, w)[k] * y[k] == u[k] * y[k] + c * (w[k] * y[k]);
      var head, last := Dot(w[..k], y), w[k] * y[k];
      assert Dot(w, y) == head + last;
      assert c * (head + last) == c * head + c * last;
    }
  }

  lemma {:induction false} DotZerosRight(u: Vector, n: nat)
    requires |u| <= n
    ensures Dot(u, Zeros(n)) == 0.0
  {
    if |u| > 0 {
      DotZerosRight(u[..|u| - 1], n);
    }
  }

  /** Against a 0/1 indicator of position `k`, the inner product picks entry `k`. */
  lemma {:induction false} DotIndicatorRight(u: Vector, e: Vector, k: nat)
    requires |u| <= |e|
    requires forall j :: 0 <= j < |e| ==> e[j] == if j == k then 1.0 else 0.0
    ensures Dot(u, e) == if k < |u| then u[k] else 0.0
  {
    if |u| > 0 {
      DotIndicatorRight(u[..|u| - 1], e, k);
    }
  }

  /** A row that is `c` at position `k` and zero elsewhere picks `c` times entry `k`. */
  lemma {:induction false} DotIndicatorLeft(e: Vector, v: Vector, k: nat, c: real)
    requires |e| <= |v|
    requires forall j :: 0 <= j < |e| ==> e[j] == if j == k then c else 0.0
    ensures Dot(e, v) == if k < |e| then c * v[k] else 0.0
  {
    if |e| > 0 {
      DotIndicatorLeft(e[..|e| - 1], v, k, c);
    }
  }

  /** The inner product of two vectors of the same length does not depend on their order. */
  lemma {:induction false} DotSymmetric(u: Vector, v: Vector)
    requires |u| == |v|
    ensures Dot(u, v) == Dot(v, u)
  {
    if |u| > 0 {
      var k := |u| - 1;
      DotSymmetric(u[..k], v[..k]);
      DotCongruent(u[..k], v, v[..k]);
      DotCongruent(v[..k], u, u[..k]);
    }
  }

  /** `a * (N * y) == (a * N) * y`: the two sums can be exchanged. */
  lemma {:induction false} DotMatVec(a: Vector, N: Matrix, cols: nat, y: Vector)
    requires |a| <= |N| && IsMatrix(N, cols) && |y| == cols
    ensures Dot(a, MatVec(N, y)) == Dot(RowTimes(a, N, cols), y)
  {
    if |a| == 0 {
      DotZerosLeft(RowTimes(a, N, cols), y);
    } else {
      DotMatVec(a[..|a| - 1], N, cols, y);
      DotMatVecLast(a, N, cols, y);
      RowTimesLast(a, N, cols, y);
    }
  }

  /** Peeling the last weight off `a` in `a * (N * y)`. */
  lemma {:induction false} DotMatVecLast(a: Vector, N: Matrix, cols: nat, y: Vector)
    requires 0 < |a| <= |N| && IsMatrix(N, cols) && |y| == cols
    ensures Dot(a, MatVec(N, y)) == Dot(a[..|a| - 1], MatVec(N, y)) + a[|a| - 1] * Dot(N[|a| - 1], y)
  {
    assert MatVec(N, y)[|a| - 1] == Dot(N[|a| - 1], y);
  }

  /** Peeling the last weight off `a` in `(a * N) * y`. */
  lemma {:induction false} RowTimesLast(a: Vector, N: Matrix, cols: nat, y: Vector)
    requires 0 < |a| <= |N| && IsMatrix(N, cols) && |y| == cols
    ensures Dot(RowTimes(a, N, cols), y) == Dot(RowTimes(a[..|a| - 1], N, cols), y) + a[|a| - 1] * Dot(N[|a| - 1], y)
  {
    RowTimesSnoc(a, N, cols);
    DotCombineLeft(RowTimes(a[..|a| - 1], N, cols), a[|a| - 1], N[|a| - 1], y);
  }

  /** Appending one weight to `a` adds that multiple of the matching row of `N`. */
  lemma {:induction false} RowTimesSnoc(a: Vector, N: Matrix, cols: nat)
    requires 0 < |a| <= |N| && IsMatrix(N, cols)
    ensures RowTimes(a, N, cols) == Combine(RowTimes(a[..|a| - 1], N, cols), a[|a| - 1], N[|a| - 1])
  {
    var k := |a| - 1;
    forall c | 0 <= c < cols
      ensures RowTimes(a, N, cols)[c] == RowTimes(a[..k], N, cols)[c] + a[k] * N[k][c]
    {
      var col := Column(N, c);
      assert col[k] == N[k][c];
      assert RowTimes(a, N, cols)[c] == Dot(a, col) == Dot(a[..k], col) + a[k] * col[k];
      assert RowTimes(a[..k], N, cols)[c] == Dot(a[..k], col);
    }
    var combined := Combine(RowTimes(a[..k], N, cols), a[k], N[k]);
    assert forall c :: 0 <= c < cols ==> RowTimes(a, N, cols)[c] == combined[c];
  }

  /** Every inner product of the empty row is zero, whatever its length. */
  lemma {:induction false} DotZerosLeft(z: Vector, y: Vector)
    requires |z| <= |y|
    requires forall i :: 0 <= i < |z| ==> z[i] == 0.0
    ensures Dot(z, y) == 0.0
  {
    if |z| > 0 {
      DotZerosLeft(z[..|z| - 1], y);
    }
  }

  /** The identity matrix leaves every matrix of matching width unchanged. */
  lemma {:induction false} MatMulIdentity(M: Matrix, n: nat)
    requires IsMatrix(M, n)
    ensures MatMul(M, Identity(n), n) == M
  {
    forall i | 0 <= i < |M|
      ensures MatMul(M, Identity(n), n)[i] == M[i]
    {
      forall k | 0 <= k < n
        ensures MatMul(M, Identity(n), n)[i][k] == M[i][k]
      {
        DotIndicatorRight(M[i], Column(Identity(n), k), k);
      }
    }
  }

  /** The identity matrix leaves every vector of matching length unchanged. */
  lemma {:induction false} MatVecIdentity(v: Vector)
    ensures MatVec(Identity(|v|), v) == v
  {
    forall j | 0 <= j < |v|
      ensures MatVec(Identity(|v|), v)[j] == v[j]
    {
      DotIndicatorLeft(Unit(|v|, j), v, j, 1.0);
    }
  }

  /**
   * With index lists that name exactly the non-zero entries of a row, the
   * sparse inner product equals the dense one.
   */
  lemma {:induction false} SparseDotNonZero(u: Vector, v: Vector)
    requires |u| <= |v|
    ensures SparseDot(u, v, NonZero(u)) == Dot(u, v)
  {
    if |u| > 0 {
      var k := |u| - 1;
      var u' := u[..k];
      SparseDotNonZero(u', v);
      SparseDotPrefix(u, u', v, NonZero(u'));
      SparseDotLast(u, v);
    }
  }

  /** The last entry of `u` adds its product to the sparse sum exactly as to the dense one. */
  lemma {:induction false} SparseDotLast(u: Vector, v: Vector)
    requires 0 < |u| <= |v|
    ensures SparseDot(u, v, NonZero(u)) == SparseDot(u, v, NonZero(u[..|u| - 1])) + u[|u| - 1] * v[|u| - 1]
  {
    var k := |u| - 1;
    var indices, prefix := NonZero(u), NonZero(u[..k]);
    if u[k] != 0.0 {
      assert indices == prefix + [k];
      assert indices[..|indices| - 1] == prefix && indices[|indices| - 1] == k;
    } else {
      assert indices == prefix;
      assert u[k] * v[k] == 0.0;
    }
  }

  /** A sparse inner product over indices below `|u'|` reads only the prefix `u'`. */
  lemma {:induction false} SparseDotPrefix(u: Vector, u': Vector, v: Vector, indices: seq<int>)
    requires |u'| <= |u| && u' == u[..|u'|]
    requires forall t :: 0 <= t < |indices| ==> 0 <= indices[t] < |u'| && indices[t] < |v|
    ensures SparseDot(u, v, indices) == SparseDot(u', v, indices)
    decreases |indices|
  {
    if |indices| > 0 {
      SparseDotPrefix(u, u', v, indices[..|indices| - 1]);
    }
  }

  /** `NonZero` lists exactly the non-zero positions, strictly increasing. */
  lemma {:induction false} NonZeroExact(row: Vector)
    ensures forall s, t :: 0 <= s < t < |NonZero(row)| ==> NonZero(row)[s] < NonZero(row)[t]
    ensures forall j :: 0 <= j < |row| ==> (row[j] != 0.0 <==> j in NonZero(row))
    decreases |row|
  {
    if |row| > 0 {
      NonZeroExact(row[..|row| - 1]);
    }
  }

  /** An inner product over a concatenated row splits into the two parts. */
  lemma {:induction false} DotConcat(u: Vector, v: Vector, z: Vector)
    requires |u| + |v| <= |z|
    ensures Dot(u + v, z) == Dot(u, z) + Dot(v, z[|u|..])
    decreases |v|
  {
    if |v| > 0 {
      var k := |v| - 1;
      assert (u + v)[..|u + v| - 1] == u + v[..k];
      DotConcat(u, v[..k], z);
      assert Dot(u + v, z) == Dot(u + v[..k], z) + v[k] * z[|u| + k];
      assert Dot(v, z[|u|..]) == Dot(v[..k], z[|u|..]) + v[k] * z[|u|..][k];
    } else {
      assert u + v == u;
    }
  }

  /**
   * `System.arraycopy(src, 0, dst, 0, src.length)`: afterwards `dst` holds
   * what `src` held. Each entry is read before it is written, so `src` may be
   * `dst`.
   */
  method ArrayCopy(src: array<real>, dst: array<real>)
    requires src.Length == dst.Length
    modifies dst
    ensures dst[..] == old(src[..])
  {
    ghost var s := src[..];
    for i := 0 to src.Length
      invariant forall k :: 0 <= k < i ==> dst[k] == s[k]
      invariant forall k :: i <= k < src.Length ==> src[k] == s[k]
    {
      dst[i] := src[i];
    }
    assert forall k :: 0 <= k < dst.Length ==> dst[..][k] == s[k];
  }
}
