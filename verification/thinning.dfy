/**
 * Thinning functions: how many walk steps the runner takes between two
 * emitted samples, as a function of the number of constraints `m` and the
 * dimension `n` of the sampling space. The linearly scalable function has
 * only the one-argument form `f(n)` that the deprecated sampler calls.
 */
module Thinning {
  import opened Wrappers

  datatype ThinningFunction =
    | Constant(constant: int)
    | NCubed(scalingFactor: real)
    | MN(scalingFactor: real)

  /** A function of the dimension alone: `getThinningFactor(dimensions)`. */
  datatype DimensionThinning = LinearlyScalable(scalingFactor: real)

  /** `Math.ceil` on reals: the least integer not below `r`. */
  function Ceil(r: real): (c: int)
    ensures r <= c as real < r + 1.0
  {
    -((-r).Floor)
  }

  /** The constructors' checks: a positive constant or a positive scaling factor. */
  predicate Valid(f: ThinningFunction)
  {
    match f
    case Constant(c) => c > 0
    case NCubed(a) => a > 0.0
    case MN(c) => c > 0.0
  }

  /** A constructor: the function, or the error for a parameter that is not positive. */
  function Create(f: ThinningFunction): (r: Result<ThinningFunction, Error>)
    ensures r.Ok? <==> Valid(f)
    ensures r.Ok? ==> r.value == f
    ensures r.Err? ==> r.error == IllegalArgument
  {
    if Valid(f) then Ok(f) else Err(IllegalArgument)
  }

  /** The linearly scalable constructor: the scaling factor has to be positive. */
  function CreateLinearlyScalable(scalingFactor: real): (r: Result<DimensionThinning, Error>)
    ensures r.Ok? <==> scalingFactor > 0.0
    ensures r.Ok? ==> r.value == LinearlyScalable(scalingFactor)
    ensures r.Err? ==> r.error == IllegalArgument
  {
    if scalingFactor <= 0.0 then Err(IllegalArgument) else Ok(LinearlyScalable(scalingFactor))
  }

  /** `NoThinning`: the constant function 1; its construction never fails. */
  function NoThinning(): (r: Result<ThinningFunction, Error>)
    ensures r == Ok(Constant(1))
  {
    Create(Constant(1))
  }

  function Cube(n: nat): nat
  {
    n * n * n
  }

  /**
   * `getThinningFactor(constraints, dimensions)`: the constant, `ceil(a n^3)`
   * or `ceil(c m n)`. A valid function never gives a negative factor, and it
   * gives at least 1 once the quantities it scales with are positive.
   */
  function Factor(f: ThinningFunction, constraints: nat, dimensions: nat): (r: int)
    ensures Valid(f) ==> r >= 0
    ensures Valid(f) && dimensions >= 1 && (f.MN? ==> constraints >= 1) ==> r >= 1
  {
    match f
    case Constant(c) => c
    case NCubed(a) =>
      if a > 0.0 then CubeScaled(a, dimensions, dimensions); Ceil(a * Cube(dimensions) as real)
      else Ceil(a * Cube(dimensions) as real)
    case MN(c) =>
      if c > 0.0 then ProductScaled(c, constraints, dimensions, constraints, dimensions); Ceil(c * constraints as real * dimensions as real)
      else Ceil(c * constraints as real * dimensions as real)
  }

  /** The linearly scalable `getThinningFactor(dimensions)`: `ceil(a n^3)`. */
  function DimensionFactor(f: DimensionThinning, dimensions: nat): int
  {
    Ceil(f.scalingFactor * Cube(dimensions) as real)
  }

  /** A valid constant function gives its constant, at least 1, whatever the arguments. */
  lemma {:induction false} ConstantFactor(c: int, m: nat, n: nat, m': nat, n': nat)
    requires Valid(Constant(c))
    ensures Factor(Constant(c), m, n) == Factor(Constant(c), m', n') == c >= 1
  {
  }

  /** `NoThinning` gives 1, so the runner takes one step per sample. */
  lemma {:induction false} NoThinningFactor(m: nat, n: nat)
    ensures NoThinning().Ok? && Factor(NoThinning().value, m, n) == 1
  {
  }

  /** `ceil(a n^3)` for `a > 0`: 0 at `n = 0`, at least 1 from `n = 1`, never decreasing in `n`. */
  lemma {:induction false} NCubedFactor(a: real, m: nat, m': nat, n: nat, n': nat)
    requires Valid(NCubed(a))
    ensures Factor(NCubed(a), m, n) == Factor(NCubed(a), m', n)
    ensures n == 0 ==> Factor(NCubed(a), m, n) == 0
    ensures n >= 1 ==> Factor(NCubed(a), m, n) >= 1
    ensures n <= n' ==> Factor(NCubed(a), m, n) <= Factor(NCubed(a), m, n')
  {
    CubeScaled(a, n, n');
    assert Factor(NCubed(a), m, n) == Ceil(a * Cube(n) as real);
    assert Factor(NCubed(a), m', n) == Ceil(a * Cube(n) as real);
    assert Factor(NCubed(a), m, n') == Ceil(a * Cube(n') as real);
  }

  /** With scaling factor 1 the factor is exactly `n^3`. */
  lemma {:induction false} NCubedUnit(m: nat, n: nat)
    ensures Factor(NCubed(1.0), m, n) == n * n * n
  {
    CeilOfInteger(Cube(n));
  }

  /**
   * The linearly scalable function of the dimension is the n-cubed function
   * of the same factor, whatever the constraint count; for `a > 0` it is 0 at
   * `n = 0`, at least 1 from `n = 1`, and never decreasing in `n`.
   */
  lemma {:induction false} LinearlyScalableIsNCubed(a: real, m: nat, n: nat, n': nat)
    requires CreateLinearlyScalable(a).Ok?
    ensures DimensionFactor(LinearlyScalable(a), n) == Factor(NCubed(a), m, n)
    ensures n == 0 ==> DimensionFactor(LinearlyScalable(a), n) == 0
    ensures n >= 1 ==> DimensionFactor(LinearlyScalable(a), n) >= 1
    ensures n <= n' ==> DimensionFactor(LinearlyScalable(a), n) <= DimensionFactor(LinearlyScalable(a), n')
  {
    NCubedFactor(a, m, m, n, n');
    assert DimensionFactor(LinearlyScalable(a), n') == Factor(NCubed(a), m, n');
  }

  /**
   * `ceil(c m n)` for `c > 0`: symmetric in `m` and `n`, 0 when either is 0,
   * at least 1 when both are, and never decreasing in either.
   */
  lemma {:induction false} MNFactor(c: real, m: nat, n: nat, m': nat, n': nat)
    requires Valid(MN(c))
    ensures Factor(MN(c), m, n) == Factor(MN(c), n, m)
    ensures m == 0 || n == 0 ==> Factor(MN(c), m, n) == 0
    ensures m >= 1 && n >= 1 ==> Factor(MN(c), m, n) >= 1
    ensures m <= m' && n <= n' ==> Factor(MN(c), m, n) <= Factor(MN(c), m', n')
  {
    ProductScaled(c, m, n, m', n');
    assert Factor(MN(c), m, n) == Ceil(c * m as real * n as real);
    assert Factor(MN(c), n, m) == Ceil(c * n as real * m as real);
    assert Factor(MN(c), m', n') == Ceil(c * m' as real * n' as real);
  }

  lemma {:induction false} CeilOfInteger(k: int)
    ensures Ceil(k as real) == k
  {
  }

  lemma {:induction false} CeilMonotone(r: real, s: real)
    requires r <= s
    ensures Ceil(r) <= Ceil(s)
  {
  }

  lemma {:induction false} CeilPositive(r: real)
    requires 0.0 < r
    ensures Ceil(r) >= 1
  {
  }

  lemma {:induction false} CubeMonotone(n: nat, n': nat)
    requires n <= n'
    ensures Cube(n) <= Cube(n')
  {
    assert n * n <= n' * n';
    assert n * n * n <= n' * n' * n;
  }

  lemma {:induction false} ScaleMonotone(a: real, r: real, s: real)
    requires 0.0 < a && r <= s
    ensures a * r <= a * s
  {
  }

  lemma {:induction false} CubeScaled(a: real, n: nat, n': nat)
    requires 0.0 < a
    ensures n == 0 ==> Ceil(a * Cube(n) as real) == 0
    ensures n >= 1 ==> Ceil(a * Cube(n) as real) >= 1
    ensures n <= n' ==> Ceil(a * Cube(n) as real) <= Ceil(a * Cube(n') as real)
  {
    if n == 0 {
      assert a * Cube(n) as real == 0.0;
      CeilOfInteger(0);
    }
    if n >= 1 {
      assert Cube(n) >= 1 by { CubeMonotone(1, n); }
      ScaleMonotone(a, 1.0, Cube(n) as real);
      CeilPositive(a * Cube(n) as real);
    }
    if n <= n' {
      CubeMonotone(n, n');
      ScaleMonotone(a, Cube(n) as real, Cube(n') as real);
      CeilMonotone(a * Cube(n) as real, a * Cube(n') as real);
    }
  }

  lemma {:induction false} ProductScaled(c: real, m: nat, n: nat, m': nat, n': nat)
    requires 0.0 < c
    ensures c * m as real * n as real == c * n as real * m as real
    ensures m == 0 || n == 0 ==> Ceil(c * m as real * n as real) == 0
    ensures m >= 1 && n >= 1 ==> Ceil(c * m as real * n as real) >= 1
    ensures m <= m' && n <= n' ==> Ceil(c * m as real * n as real) <= Ceil(c * m' as real * n' as real)
  {
    if m >= 1 && n >= 1 {
      assert m as real * n as real >= 1.0;
      CeilPositive(c * m as real * n as real);
    }
    if m <= m' && n <= n' {
      assert m as real * n as real <= m' as real * n' as real;
      ScaleMonotone(c, m as real * n as real, m' as real * n' as real);
      CeilMonotone(c * m as real * n as real, c * m' as real * n' as real);
    }
  }

  /** Round `sample` ends within the `numberOfSamples * thin` steps of the run. */
  lemma {:induction false} RoundsFit(sample: int, thin: nat, numberOfSamples: int)
    requires 0 <= sample < numberOfSamples
    ensures sample * thin + thin == (sample + 1) * thin <= numberOfSamples * thin
  {
  }
}
