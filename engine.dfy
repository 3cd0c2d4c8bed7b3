/** The approximation engine (ApproximationEngine.cs): the two grids, the
    collocation system (I - M) c = mu over the basis indices -2..N-1, its
    solution, and the evaluation of the approximations. */
module Engine {
  import opened Common
  import opened Configuration
  import opened Grids
  import SplineConstructor
  import FunctionalConstructor
  import MathUtils

  /** The index i of a basis function: -2 <= i <= N - 1. */
  predicate InBasis(n: int, i: int) {
    -2 <= i <= n - 1
  }

  /** Pair (j', i') is visited before pair (j, i) by two nested loops over j and i. */
  predicate Before(j': int, i': int, j: int, i: int) {
    j' < j || (j' == j && i' < i)
  }

  /** The integrand of Omega_i~ at t: x => K(t, x) * B_i(x), where B_i is
      spline i of the configured family on the primary grid. */
  function UnderIntegral(c: Config, el: Elementary, grid: map<int, real>, i: int, t: real): real -> Result<real>
  {
    x =>
      var s := SplineConstructor.SplineValueAtPoint(c.approxType, el, i, grid, x);
      if s.Failure? then Failure(s.error) else Success(c.kernel(t, x) * s.value)
  }

  /** Omega_i~: t => the integral of K(t, x) B_i(x) dx over [Left, Right],
      by the quadrature routine. */
  function OmegaWave(c: Config, el: Elementary, integrate: Quadrature, grid: map<int, real>, i: int): real -> Result<real>
  {
    t => integrate(UnderIntegral(c, el, grid, i, t), c.left, c.right)
  }

  /** The sum of w(i) * b(i) over i = -2..k-1 in ascending order: w(i) is
      evaluated before b(i), and the first exception ends the sum. */
  function Series(w: int -> Result<real>, b: int -> Result<real>, k: int): Result<real>
    decreases k + 2
  {
    if k <= -2 then Success(0.0)
    else
      var acc := Series(w, b, k - 1);
      if acc.Failure? then acc else
      var weight := w(k - 1);
      if weight.Failure? then weight else
      var s := b(k - 1);
      if s.Failure? then s else
      Success(acc.value + Term(weight.value, s.value))
  }

  /** One term w(i) * b(i) of a Series. */
  function Term(weight: real, spline: real): real
  {
    weight * spline
  }

  /** The basis of the configured family at point: i => B_i(point). */
  function Basis(c: Config, el: Elementary, grid: map<int, real>, point: real): (b: int -> Result<real>)
    ensures forall i :: b(i) == SplineConstructor.SplineValueAtPoint(c.approxType, el, i, grid, point)
  {
    i => SplineConstructor.SplineValueAtPoint(c.approxType, el, i, grid, point)
  }

  /** One more term of a Series: the partial sum up to k, then w(k) * b(k). */
  lemma {:induction false} SeriesStep(w: int -> Result<real>, b: int -> Result<real>, k: int, acc: real, weight: real, s: real)
    requires k >= -2
    requires Series(w, b, k) == Success(acc)
    requires w(k) == Success(weight)
    requires b(k) == Success(s)
    ensures Series(w, b, k + 1) == Success(acc + Term(weight, s))
  {
    var next := k + 1;
    assert next - 1 == k;
    assert Series(w, b, next) == Success(Series(w, b, next - 1).value + Term(w(next - 1).value, s));
  }

  /** Term k of a Series ends it with the exception of its weight, or else
      with that of b(k). */
  lemma {:induction false} SeriesStops(w: int -> Result<real>, b: int -> Result<real>, k: int)
    requires k >= -2
    requires Series(w, b, k).Success?
    ensures w(k).Failure? ==> Series(w, b, k + 1) == Failure(w(k).error)
    ensures w(k).Success? && b(k).Failure? ==> Series(w, b, k + 1) == Failure(b(k).error)
  {
    var next := k + 1;
    assert next - 1 == k;
    assert Series(w, b, next - 1).Success?;
  }

  /** A failed partial sum fails the whole sum with the same exception. */
  lemma {:induction false} SeriesFailureStays(w: int -> Result<real>, b: int -> Result<real>, k: int, m: int)
    requires k <= m
    requires Series(w, b, k).Failure?
    ensures Series(w, b, m) == Series(w, b, k)
    decreases m - k
  {
    if k < m {
      SeriesFailureStays(w, b, k, m - 1);
    }
  }

  /** The loop shared by ApproxFunction and ApproxInPoint:
      value += w(i) * b(i) for i = -2..n-1. */
  method Accumulate(w: int -> Result<real>, b: int -> Result<real>, n: int) returns (r: Result<real>)
    requires n >= -2
    ensures r == Series(w, b, n)
  {
    var value := 0.0;
    var i := -2;
    while i <= n - 1
      invariant -2 <= i <= n
      invariant Series(w, b, i) == Success(value)
    {
      var weight := w(i);
      if weight.Failure? {
        SeriesStops(w, b, i);
        SeriesFailureStays(w, b, i + 1, n);
        return Failure(weight.error);
      }
      var spline := b(i);
      if spline.Failure? {
        SeriesStops(w, b, i);
        SeriesFailureStays(w, b, i + 1, n);
        return Failure(spline.error);
      }
      SeriesStep(w, b, i, value, weight.value, spline.value);
      value := value + Term(weight.value, spline.value);
      i := i + 1;
    }
    return Success(value);
  }

  /** FunctionalValue(i, f) of the configured rule on the two grids, for
      every i, as the weights of a Series. */
  function FunctionalWeights(c: Config, el: Elementary, grid: map<int, real>, agrid: map<int, real>, f: real -> Result<real>): (w: int -> Result<real>)
    ensures forall i :: w(i) == FunctionalConstructor.FunctionalValue(c.approxType, el, c.gridPoints, i, f, grid, agrid)
  {
    i => FunctionalConstructor.FunctionalValue(c.approxType, el, c.gridPoints, i, f, grid, agrid)
  }

  /** Terms whose basis value is 0 add nothing to a Series. */
  lemma {:induction false} SeriesZeroTerms(w: int -> Result<real>, b: int -> Result<real>, k0: int, k1: int)
    requires -2 <= k0 <= k1
    requires Series(w, b, k0).Success?
    requires forall i :: k0 <= i < k1 ==> w(i).Success? && b(i) == Success(0.0)
    ensures Series(w, b, k1) == Series(w, b, k0)
    decreases k1 - k0
  {
    if k0 < k1 {
      SeriesZeroTerms(w, b, k0, k1 - 1);
      SeriesStep(w, b, k1 - 1, Series(w, b, k0).value, w(k1 - 1).value, 0.0);
      assert Term(w(k1 - 1).value, 0.0) == 0.0;
    }
  }

  /** On a strictly increasing grid every B-spline other than B_{m-2} and
      B_{m-1} is 0 at the knot grid[m]. */
  lemma {:induction false} BSplineZeroAtNode(g: map<int, real>, lo: int, hi: int, m: int, i: int)
    requires StrictlyIncreasing(g, lo, hi)
    requires lo <= i && i + 3 <= hi && lo <= m <= hi
    requires i != m - 2 && i != m - 1
    ensures SplineConstructor.SplineAtPoint(SplineConstructor.Polynomial, g, i, g[m]) == Success(0.0)
  {
    assert StrictlyIncreasing(g, i, i + 3);
    if i < m - 2 {
      assert g[i + 3] <= g[m];
      SplineConstructor.OutsideSupport(SplineConstructor.Polynomial, g, i, g[m]);
    } else if m < i {
      assert g[m] < g[i];
      SplineConstructor.OutsideSupport(SplineConstructor.Polynomial, g, i, g[m]);
    } else {
      SplineConstructor.BSplineAtKnots(g, i);
    }
  }

  /** On a strictly increasing grid the two B-splines that are non-zero at
      the knot grid[m], B_{m-2} and B_{m-1}, add up to 1 there: their values
      are the shares (grid[m+1] - grid[m]) and (grid[m] - grid[m-1]) of
      grid[m+1] - grid[m-1]. */
  lemma {:induction false} BSplinesSumToOneAtNode(g: map<int, real>, lo: int, hi: int, m: int)
    requires StrictlyIncreasing(g, lo, hi)
    requires lo <= m - 2 && m + 2 <= hi
    ensures SplineConstructor.SplineAtPoint(SplineConstructor.Polynomial, g, m - 2, g[m]).Success?
    ensures SplineConstructor.SplineAtPoint(SplineConstructor.Polynomial, g, m - 1, g[m]).Success?
    ensures SplineConstructor.SplineAtPoint(SplineConstructor.Polynomial, g, m - 2, g[m]).value +
            SplineConstructor.SplineAtPoint(SplineConstructor.Polynomial, g, m - 1, g[m]).value == 1.0
  {
    assert StrictlyIncreasing(g, m - 2, m + 1);
    assert StrictlyIncreasing(g, m - 1, m + 2);
    SplineConstructor.BSplineAtKnots(g, m - 2);
    SplineConstructor.BSplineAtKnots(g, m - 1);
    SharesOfWhole(g[m + 1] - g[m], g[m] - g[m - 1], g[m + 1] - g[m - 1]);
  }

  /** a / d + b / d == 1 when d == a + b > 0. */
  lemma {:induction false} SharesOfWhole(a: real, b: real, d: real)
    requires a > 0.0 && b > 0.0 && d == a + b
    ensures a / d + b / d == 1.0
  {
    assert a / d + b / d == (a + b) / d;
  }

  /** At a node grid[m] of [Left, Right] the basis of an algebraic rule on
      the primary grid is 0 except at m - 2 and m - 1, whose values add up to 1. */
  lemma {:induction false} BasisAtNode(c: Config, el: Elementary, m: int)
    requires c.Valid()
    requires SplineConstructor.IsAlgebraic(c.approxType)
    requires 0 <= m <= c.gridPoints
    ensures forall i :: -2 <= i <= c.gridPoints - 1 && i != m - 2 && i != m - 1 ==>
      Basis(c, el, PrimaryGrid(c), PrimaryGrid(c)[m])(i) == Success(0.0)
    ensures Basis(c, el, PrimaryGrid(c), PrimaryGrid(c)[m])(m - 2).Success?
    ensures Basis(c, el, PrimaryGrid(c), PrimaryGrid(c)[m])(m - 1).Success?
    ensures Basis(c, el, PrimaryGrid(c), PrimaryGrid(c)[m])(m - 2).value +
            Basis(c, el, PrimaryGrid(c), PrimaryGrid(c)[m])(m - 1).value == 1.0
  {
    var n := c.gridPoints;
    var g := PrimaryGrid(c);
    var b := Basis(c, el, g, g[m]);
    PrimaryGridIncreasing(c);
    forall i | -2 <= i <= n - 1 && i != m - 2 && i != m - 1
      ensures b(i) == Success(0.0)
    {
      SplineConstructor.Dispatch(c.approxType, el, i, g, g[m]);
      BSplineZeroAtNode(g, -2, n + 2, m, i);
    }
    SplineConstructor.Dispatch(c.approxType, el, m - 2, g, g[m]);
    SplineConstructor.Dispatch(c.approxType, el, m - 1, g, g[m]);
    BSplinesSumToOneAtNode(g, -2, n + 2, m);
  }

  /** A Series whose weights are all v and whose basis values are 0 except
      two that add up to 1 sums to v. */
  lemma {:induction false} NodeSeries(w: int -> Result<real>, b: int -> Result<real>, n: int, m: int, v: real)
    requires 0 <= m <= n
    requires forall i :: -2 <= i <= n - 1 ==> w(i) == Success(v)
    requires forall i :: -2 <= i <= n - 1 && i != m - 2 && i != m - 1 ==> b(i) == Success(0.0)
    requires b(m - 2).Success? && b(m - 1).Success? && b(m - 2).value + b(m - 1).value == 1.0
    ensures Series(w, b, n) == Success(v)
  {
    var p, q := b(m - 2).value, b(m - 1).value;
    assert Series(w, b, -2) == Success(0.0);
    SeriesZeroTerms(w, b, -2, m - 2);
    SeriesStep(w, b, m - 2, 0.0, v, p);
    SeriesStep(w, b, m - 1, 0.0 + Term(v, p), v, q);
    SeriesZeroTerms(w, b, m, n);
    assert Term(v, p) + Term(v, q) == v * (p + q) == v * 1.0;
    assert 0.0 + Term(v, p) + Term(v, q) == v;
  }

  /** Every functional of an algebraic rule maps a constant function to its value. */
  lemma {:induction false} WeightsOfConstant(c: Config, el: Elementary, f: real -> Result<real>, v: real)
    requires c.Valid()
    requires SplineConstructor.IsAlgebraic(c.approxType)
    requires forall x :: f(x) == Success(v)
    ensures forall i :: -2 <= i <= c.gridPoints - 1 ==>
      FunctionalWeights(c, el, PrimaryGrid(c), AuxiliaryGrid(c), f)(i) == Success(v)
  {
    forall i | -2 <= i <= c.gridPoints - 1
      ensures FunctionalWeights(c, el, PrimaryGrid(c), AuxiliaryGrid(c), f)(i) == Success(v)
    {
      FunctionalConstructor.ConstantsReproduced(c, el, c.approxType, i, f, v);
    }
  }

  /** For the algebraic rules the quasi-interpolant of a constant v, as
      ApproxFunction computes it, is v at every node grid[m] of [Left, Right]. */
  lemma {:induction false} ConstantsReproducedAtNodes(c: Config, el: Elementary, f: real -> Result<real>, v: real, m: int)
    requires c.Valid()
    requires SplineConstructor.IsAlgebraic(c.approxType)
    requires forall x :: f(x) == Success(v)
    requires 0 <= m <= c.gridPoints
    ensures Series(FunctionalWeights(c, el, PrimaryGrid(c), AuxiliaryGrid(c), f),
                   Basis(c, el, PrimaryGrid(c), PrimaryGrid(c)[m]), c.gridPoints) == Success(v)
  {
    WeightsOfConstant(c, el, f, v);
    BasisAtNode(c, el, m);
    NodeSeries(FunctionalWeights(c, el, PrimaryGrid(c), AuxiliaryGrid(c), f),
               Basis(c, el, PrimaryGrid(c), PrimaryGrid(c)[m]), c.gridPoints, m, v);
  }

  /** The functions Omega_i~ at point: i => Omega_i~(point). */
  function Omegas(c: Config, el: Elementary, integrate: Quadrature, grid: map<int, real>, point: real): (b: int -> Result<real>)
    ensures forall i :: b(i) == OmegaWave(c, el, integrate, grid, i)(point)
  {
    i => OmegaWave(c, el, integrate, grid, i)(point)
  }

  /** A coefficient table seen as the weights of a Series: lookup by key. */
  function Coefficients(coeffs: map<int, real>): (w: int -> Result<real>)
    ensures forall i :: w(i) == Get(coeffs, i)
  {
    i => Get(coeffs, i)
  }

  /** Outside [grid[-2], grid[N+2]) every basis spline of a supported family
      is 0 on the primary grid, so a sum of weighted splines with defined
      weights is 0 there. */
  lemma {:induction false} SeriesOutside(c: Config, el: Elementary, w: int -> Result<real>, point: real, k: int)
    requires c.Valid()
    requires SplineConstructor.KindOf(c.approxType, el).Success?
    requires -2 <= k <= c.gridPoints
    requires forall i :: -2 <= i < k ==> w(i).Success?
    requires point < PrimaryGrid(c)[-2] || PrimaryGrid(c)[c.gridPoints + 2] <= point
    ensures Series(w, Basis(c, el, PrimaryGrid(c), point), k) == Success(0.0)
    decreases k + 2
  {
    if k > -2 {
      var g := PrimaryGrid(c);
      var j := k - 1;
      SeriesOutside(c, el, w, point, k - 1);
      PrimaryGridIncreasing(c);
      assert StrictlyIncreasing(g, j, j + 3);
      assert point < g[j] || g[j + 3] <= point by {
        assert g[-2] <= g[j] && g[j + 3] <= g[c.gridPoints + 2];
      }
      SplineConstructor.OutsideSupport(SplineConstructor.KindOf(c.approxType, el).value, g, j, point);
      assert SplineConstructor.SplineValueAtPoint(c.approxType, el, j, g, point) == Success(0.0);
    }
  }

  /** For the algebraic rules every basis spline is defined on the primary
      grid, so a sum of weighted splines fails only when a weight does. */
  lemma {:induction false} SeriesDefined(c: Config, el: Elementary, w: int -> Result<real>, point: real, k: int)
    requires c.Valid()
    requires SplineConstructor.IsAlgebraic(c.approxType)
    requires -2 <= k <= c.gridPoints
    requires forall i :: -2 <= i < k ==> w(i).Success?
    ensures Series(w, Basis(c, el, PrimaryGrid(c), point), k).Success?
    decreases k + 2
  {
    if k > -2 {
      SeriesDefined(c, el, w, point, k - 1);
      SplineConstructor.OnPrimaryGrid(c, SplineConstructor.Polynomial, k - 1, point);
      SplineConstructor.Dispatch(c.approxType, el, k - 1, PrimaryGrid(c), point);
    }
  }

  /** For the algebraic rules the quasi-interpolant of a function that never
      throws is a number at every point: every functional and every basis
      spline on the grids of a valid configuration is. */
  lemma {:induction false} ApproximationDefined(c: Config, el: Elementary, f: real -> Result<real>, point: real)
    requires c.Valid()
    requires SplineConstructor.IsAlgebraic(c.approxType)
    requires forall x :: f(x).Success?
    ensures Series(FunctionalWeights(c, el, PrimaryGrid(c), AuxiliaryGrid(c), f),
                   Basis(c, el, PrimaryGrid(c), point), c.gridPoints).Success?
  {
    var n := c.gridPoints;
    var w := FunctionalWeights(c, el, PrimaryGrid(c), AuxiliaryGrid(c), f);
    PrimaryGridShape(c);
    AuxiliaryGridShape(c);
    forall i | -2 <= i < n
      ensures w(i).Success?
    {
      FunctionalConstructor.AlgebraicLookups(c.approxType, el, n, i, f, PrimaryGrid(c), AuxiliaryGrid(c));
    }
    SeriesDefined(c, el, w, point, n);
  }

  /** A row of I - M against x: x_p minus the row of M against x. */
  lemma {:induction false} DotIdentityMinus(row: seq<real>, mRow: seq<real>, x: seq<real>, p: int)
    requires |row| == |mRow| == |x| && 0 <= p < |x|
    requires forall q :: 0 <= q < |x| ==> row[q] == (if p == q then 1.0 else 0.0) - mRow[q]
    ensures MathUtils.Dot(row, x, 0, |x|) == x[p] - MathUtils.Dot(mRow, x, 0, |x|)
  {
    var unit := UnitRow(|x|, p);
    MathUtils.DotLinear(row, unit, mRow, -1.0, x, 0, |x|);
    DotUnitFrom(|x|, p, x, 0);
  }

  /** Row p of the identity of size `size`. */
  function UnitRow(size: nat, p: int): (u: seq<real>)
    ensures |u| == size
    ensures forall q :: 0 <= q < size ==> u[q] == if p == q then 1.0 else 0.0
  {
    seq(size, q => if p == q then 1.0 else 0.0)
  }

  /** The identity row p picks entry p of x out of the tail from lo on. */
  lemma {:induction false} DotUnitFrom(size: nat, p: int, x: seq<real>, lo: int)
    requires 0 <= lo <= size && 0 <= p < size && |x| == size
    ensures MathUtils.Dot(UnitRow(size, p), x, lo, size) == if lo <= p then x[p] else 0.0
    decreases size - lo
  {
    if lo < size {
      DotUnitFrom(size, p, x, lo + 1);
    }
  }

  class ApproximationEngine {
    const config: Config
    const el: Elementary
    const integrate: Quadrature
    var grid: map<int, real>
    var additionalGrid: map<int, real>

    /** The object after its constructor: a valid configuration and the two
        grids it determines. */
    predicate Valid()
      reads this
    {
      config.Valid() && grid == PrimaryGrid(config) && additionalGrid == AuxiliaryGrid(config)
    }

    constructor (config: Config, el: Elementary, integrate: Quadrature)
      requires config.Valid()
      ensures this.config == config && this.el == el && this.integrate == integrate
      ensures Valid()
    {
      this.config := config;
      this.el := el;
      this.integrate := integrate;
      new;
      InitializeGrid();
      InitializeAdditionalGrid();
    }

    /** InitializeGrid: GridPoints + 1 uniform points, then two points Eps
        apart beyond each end. */
    method InitializeGrid()
      requires config.gridPoints >= 1
      modifies this
      ensures grid == PrimaryGrid(config)
      ensures additionalGrid == old(additionalGrid)
    {
      var n := config.gridPoints;
      var g := map[];
      var i := 0;
      while i <= n
        invariant 0 <= i <= n + 1
        invariant forall k :: k in g <==> 0 <= k < i
        invariant forall k :: k in g ==> g[k] == UniformPoint(config, k)
      {
        var theta := 1.0 * i as real / n as real;
        g := g[i := config.left + theta * (config.right - config.left)];
        i := i + 1;
      }
      g := g[-2 := g[0] - 2.0 * config.eps];
      g := g[-1 := g[0] - config.eps];
      g := g[n + 1 := g[n] + config.eps];
      g := g[n + 2 := g[n] + 2.0 * config.eps];
      grid := g;
      assert g == PrimaryGrid(config);
    }

    /** InitializeAdditionalGrid: the midpoints of the cells under -1..N-2,
        then grid[0] under -2 and grid[N] under N-1. */
    method InitializeAdditionalGrid()
      requires config.gridPoints >= 1
      requires grid == PrimaryGrid(config)
      modifies this
      ensures additionalGrid == AuxiliaryGrid(config)
      ensures grid == old(grid)
    {
      var n := config.gridPoints;
      var g := grid;
      var a := map[];
      var i := -1;
      while i <= n - 2
        invariant -1 <= i <= n - 1
        invariant forall k :: k in a <==> -1 <= k < i
        invariant forall k :: k in a ==> a[k] == AuxiliaryPoint(config, k)
      {
        a := a[i := 0.5 * (g[i + 1] + g[i + 2])];
        i := i + 1;
      }
      a := a[-2 := g[0]];
      a := a[n - 1 := g[n]];
      additionalGrid := a;
      assert a == AuxiliaryGrid(config);
    }

    /** Entry (j, i) of M: functional j of the configured rule applied to Omega_i~. */
    function MElement(j: int, i: int): Result<real>
      reads this
    {
      FunctionalConstructor.FunctionalValue(config.approxType, el, config.gridPoints, j,
        OmegaWave(config, el, integrate, grid, i), grid, additionalGrid)
    }

    /** Entry i of mu: functional i of the configured rule applied to F. */
    function MuElement(i: int): Result<real>
      reads this
    {
      FunctionalConstructor.FunctionalValue(config.approxType, el, config.gridPoints, i,
        Lift(config.source), grid, additionalGrid)
    }

    /** Every entry of M is a number. */
    ghost predicate MDefined()
      reads this
    {
      forall j, i :: InBasis(config.gridPoints, j) && InBasis(config.gridPoints, i) ==> MElement(j, i).Success?
    }

    /** Every entry of row j of M is a number. */
    ghost predicate RowDefined(j: int)
      reads this
    {
      forall i :: InBasis(config.gridPoints, i) ==> MElement(j, i).Success?
    }

    /** Every entry of mu is a number. */
    ghost predicate MuDefined()
      reads this
    {
      forall i :: InBasis(config.gridPoints, i) ==> MuElement(i).Success?
    }

    /** e is the exception of the first entry of M, in the order of the two
        nested loops over j and i, that throws. */
    ghost predicate MFailsFirstWith(e: Error)
      reads this
    {
      exists j, i :: InBasis(config.gridPoints, j) && InBasis(config.gridPoints, i) &&
        MElement(j, i) == Failure(e) &&
        forall a, b :: InBasis(config.gridPoints, a) && InBasis(config.gridPoints, b) && Before(a, b, j, i) ==>
          MElement(a, b).Success?
    }

    /** e is the exception of the first entry of mu that throws. */
    ghost predicate MuFailsFirstWith(e: Error)
      reads this
    {
      exists i :: InBasis(config.gridPoints, i) && MuElement(i) == Failure(e) &&
        forall a :: -2 <= a < i ==> MuElement(a).Success?
    }

    /** IMatrix: the identity over the basis indices. */
    method IMatrix() returns (m: map<(int, int), real>)
      ensures forall j, i :: (j, i) in m <==> InBasis(config.gridPoints, j) && InBasis(config.gridPoints, i)
      ensures forall j, i :: (j, i) in m ==> m[(j, i)] == if j == i then 1.0 else 0.0
    {
      var n := config.gridPoints;
      m := map[];
      var j := -2;
      while j <= n - 1
        invariant j <= n || n < -2
        invariant forall a, b :: (a, b) in m <==> -2 <= a < j && InBasis(n, a) && InBasis(n, b)
        invariant forall a, b :: (a, b) in m ==> m[(a, b)] == if a == b then 1.0 else 0.0
      {
        var i := -2;
        while i <= n - 1
          invariant i <= n
          invariant forall a, b :: (a, b) in m <==> InBasis(n, a) && InBasis(n, b) && Before(a, b, j, i)
          invariant forall a, b :: (a, b) in m ==> m[(a, b)] == if a == b then 1.0 else 0.0
        {
          m := m[(j, i) := if i == j then 1.0 else 0.0];
          i := i + 1;
        }
        j := j + 1;
      }
    }

    /** MMatrix: entry (j, i) is MMatrixElement(j, i); the first entry that
        throws ends the construction with its exception. */
    method MMatrix() returns (r: Result<map<(int, int), real>>)
      ensures r.Success? <==> MDefined()
      ensures r.Success? ==> forall j, i :: (j, i) in r.value <==> InBasis(config.gridPoints, j) && InBasis(config.gridPoints, i)
      ensures r.Success? ==> forall j, i :: (j, i) in r.value ==> MElement(j, i) == Success(r.value[(j, i)])
      ensures r.Failure? ==> MFailsFirstWith(r.error)
    {
      var n := config.gridPoints;
      var m := map[];
      var j := -2;
      while j <= n - 1
        invariant j <= n || n < -2
        invariant forall a, b :: (a, b) in m <==> -2 <= a < j && InBasis(n, a) && InBasis(n, b)
        invariant forall a, b :: (a, b) in m ==> MElement(a, b) == Success(m[(a, b)])
      {
        var i := -2;
        while i <= n - 1
          invariant i <= n
          invariant forall a, b :: (a, b) in m <==> InBasis(n, a) && InBasis(n, b) && Before(a, b, j, i)
          invariant forall a, b :: (a, b) in m ==> MElement(a, b) == Success(m[(a, b)])
        {
          var e := MElement(j, i);
          if e.Failure? {
            assert forall a, b :: InBasis(n, a) && InBasis(n, b) && Before(a, b, j, i) ==> (a, b) in m;
            return Failure(e.error);
          }
          m := m[(j, i) := e.value];
          i := i + 1;
        }
        j := j + 1;
      }
      assert forall a, b :: InBasis(n, a) && InBasis(n, b) ==> (a, b) in m;
      return Success(m);
    }

    /** IMinusMMatrix: M first, then I, then entry (j, i) of I - M for every
        pair of basis indices. */
    method IMinusMMatrix() returns (r: Result<map<(int, int), real>>)
      ensures r.Success? <==> MDefined()
      ensures r.Success? ==> forall j, i :: (j, i) in r.value <==> InBasis(config.gridPoints, j) && InBasis(config.gridPoints, i)
      ensures r.Success? ==> forall j, i :: (j, i) in r.value ==>
        r.value[(j, i)] == (if j == i then 1.0 else 0.0) - MElement(j, i).value
      ensures r.Failure? ==> MFailsFirstWith(r.error)
    {
      var n := config.gridPoints;
      var mMatrix :- MMatrix();
      var iMatrix := IMatrix();
      var m := map[];
      var j := -2;
      while j <= n - 1
        invariant j <= n || n < -2
        invariant forall a, b :: (a, b) in m <==> -2 <= a < j && InBasis(n, a) && InBasis(n, b)
        invariant forall a, b :: (a, b) in m ==> m[(a, b)] == iMatrix[(a, b)] - mMatrix[(a, b)]
      {
        var i := -2;
        while i <= n - 1
          invariant i <= n
          invariant forall a, b :: (a, b) in m <==> InBasis(n, a) && InBasis(n, b) && Before(a, b, j, i)
          invariant forall a, b :: (a, b) in m ==> m[(a, b)] == iMatrix[(a, b)] - mMatrix[(a, b)]
        {
          m := m[(j, i) := iMatrix[(j, i)] - mMatrix[(j, i)]];
          i := i + 1;
        }
        j := j + 1;
      }
      return Success(m);
    }

    /** muVector: entry i is functional i applied to F; the first entry that
        throws ends the construction with its exception. */
    method MuVector() returns (r: Result<map<int, real>>)
      ensures r.Success? <==> MuDefined()
      ensures r.Success? ==> forall i :: i in r.value <==> InBasis(config.gridPoints, i)
      ensures r.Success? ==> forall i :: i in r.value ==> MuElement(i) == Success(r.value[i])
      ensures r.Failure? ==> MuFailsFirstWith(r.error)
    {
      var n := config.gridPoints;
      var v := map[];
      var i := -2;
      while i <= n - 1
        invariant i <= n || n < -2
        invariant forall a :: a in v <==> -2 <= a < i && InBasis(n, a)
        invariant forall a :: a in v ==> MuElement(a) == Success(v[a])
      {
        var e := MuElement(i);
        if e.Failure? {
          assert forall a :: -2 <= a < i ==> a in v;
          return Failure(e.error);
        }
        v := v[i := e.value];
        i := i + 1;
      }
      return Success(v);
    }

    /** I - M as a dense square: row and column k stand for basis index k - 2. */
    ghost function SystemMatrix(): (d: seq<seq<real>>)
      reads this
      requires config.gridPoints >= -2 && MDefined()
      ensures MathUtils.Square(d, config.gridPoints + 2)
      ensures forall p, q :: 0 <= p < config.gridPoints + 2 && 0 <= q < config.gridPoints + 2 ==>
        d[p][q] == (if p == q then 1.0 else 0.0) - MElement(p - 2, q - 2).value
    {
      var size := config.gridPoints + 2;
      seq(size, p requires 0 <= p < size && RowDefined(p - 2) reads this =>
        seq(size, q requires 0 <= q < size && MElement(p - 2, q - 2).Success? reads this => (if p == q then 1.0 else 0.0) - MElement(p - 2, q - 2).value))
    }

    /** mu as a dense vector, indexed the same way. */
    ghost function SystemVector(): (d: seq<real>)
      reads this
      requires config.gridPoints >= -2 && MuDefined()
      ensures |d| == config.gridPoints + 2
      ensures forall p :: 0 <= p < config.gridPoints + 2 ==> d[p] == MuElement(p - 2).value
    {
      var size := config.gridPoints + 2;
      seq(size, p requires 0 <= p < size && MuElement(p - 2).Success? reads this => MuElement(p - 2).value)
    }

    /** Both M and mu are defined and the elimination meets no zero pivot. */
    ghost predicate Solvable()
      reads this
    {
      config.gridPoints >= -2 && MDefined() && MuDefined() &&
      MathUtils.PivotsNonZero(SystemMatrix(), SystemVector(), config.gridPoints + 2)
    }

    /** e is the exception FindCoeffs ends with: the first one of M, else the
        first one of mu, else the non-finite result of a zero pivot. */
    ghost predicate SystemFailure(e: Error)
      reads this
    {
      if !MDefined() then MFailsFirstWith(e)
      else if !MuDefined() then MuFailsFirstWith(e)
      else e == NonFinite
    }

    /** FindCoeffs: the coefficients c_{-2}..c_{N-1} solving (I - M) c = mu.
        An exception of M comes first, then one of mu; with both defined the
        only failure left is a zero pivot of the elimination. */
    method FindCoeffs() returns (r: Result<map<int, real>>)
      requires Valid()
      ensures r.Success? <==> Solvable()
      ensures r.Failure? ==> SystemFailure(r.error)
      ensures r.Success? ==> forall i :: i in r.value <==> InBasis(config.gridPoints, i)
      ensures r.Success? ==>
        MathUtils.IsSolution(SystemMatrix(), SystemVector(), MathUtils.InArrayOrder(r.value, config.gridPoints + 2))
    {
      var n := config.gridPoints;
      var matrix :- IMinusMMatrix();
      var vector :- MuVector();
      forall key | key in matrix
        ensures 0 <= key.0 + 2 < n + 2 && 0 <= key.1 + 2 < n + 2
      {
        var (j, i) := key;
        assert (j, i) in matrix;
        assert InBasis(n, j) && InBasis(n, i);
      }
      MathUtils.SameSquare(MathUtils.Dense(matrix, n + 2), SystemMatrix(), n + 2);
      assert MathUtils.DenseVector(vector, n + 2) == SystemVector();
      r := MathUtils.SolveSystem(n, matrix, vector);
    }

    /** ApproxFunction: the quasi-interpolant of func at point, the sum over
        i = -2..N-1 of FunctionalValue(i, func) * B_i(point); an exception
        thrown by func reaches the caller. */
    method ApproxFunction(func: real -> Result<real>, point: real) returns (r: Result<real>)
      requires config.gridPoints >= 1
      ensures r == Series(FunctionalWeights(config, el, grid, additionalGrid, func), Basis(config, el, grid, point), config.gridPoints)
      ensures Valid() && SplineConstructor.IsAlgebraic(config.approxType) && (forall x :: func(x).Success?) ==> r.Success?
    {
      if Valid() && SplineConstructor.IsAlgebraic(config.approxType) && (forall x :: func(x).Success?) {
        ApproximationDefined(config, el, func, point);
      }
      r := Accumulate(FunctionalWeights(config, el, grid, additionalGrid, func), Basis(config, el, grid, point), config.gridPoints);
    }

    /** ApproxInPoint: the approximate solution at point, the sum of c_i B_i(point)
        with the coefficients c that FindCoeffs returns. */
    method ApproxInPoint(point: real) returns (r: Result<real>, ghost coeffs: map<int, real>)
      requires Valid()
      ensures !Solvable() ==> r.Failure? && SystemFailure(r.error)
      ensures Solvable() ==> forall i :: i in coeffs <==> InBasis(config.gridPoints, i)
      ensures Solvable() ==>
        MathUtils.IsSolution(SystemMatrix(), SystemVector(), MathUtils.InArrayOrder(coeffs, config.gridPoints + 2))
      ensures Solvable() ==> r == Series(Coefficients(coeffs), Basis(config, el, grid, point), config.gridPoints)
    {
      var found := FindCoeffs();
      if found.Failure? {
        return Failure(found.error), map[];
      }
      r := Accumulate(Coefficients(found.value), Basis(config, el, grid, point), config.gridPoints);
      coeffs := found.value;
    }

    /** ApproxSloanInPoint: the Sloan iterate at point, F(point) plus the sum
        of c_i Omega_i~(point) with the coefficients c that FindCoeffs returns. */
    method ApproxSloanInPoint(point: real) returns (r: Result<real>, ghost coeffs: map<int, real>)
      requires Valid()
      ensures !Solvable() ==> r.Failure? && SystemFailure(r.error)
      ensures Solvable() ==> forall i :: i in coeffs <==> InBasis(config.gridPoints, i)
      ensures Solvable() ==>
        MathUtils.IsSolution(SystemMatrix(), SystemVector(), MathUtils.InArrayOrder(coeffs, config.gridPoints + 2))
      ensures Solvable() ==>
        var sum := Series(Coefficients(coeffs), Omegas(config, el, integrate, grid, point), config.gridPoints);
        r == if sum.Success? then Success(config.source(point) + sum.value) else sum
    {
      var found := FindCoeffs();
      if found.Failure? {
        return Failure(found.error), map[];
      }
      coeffs := found.value;
      var sum := Accumulate(Coefficients(found.value), Omegas(config, el, integrate, grid, point), config.gridPoints);
      if sum.Failure? {
        return sum, coeffs;
      }
      r := Success(config.source(point) + sum.value);
    }

    /** Row p of M as a dense row: column q stands for basis index q - 2. */
    ghost function MRow(p: int): (row: seq<real>)
      reads this
      requires config.gridPoints >= -2 && RowDefined(p - 2)
      ensures |row| == config.gridPoints + 2
      ensures forall q :: 0 <= q < config.gridPoints + 2 ==> row[q] == MElement(p - 2, q - 2).value
    {
      var size := config.gridPoints + 2;
      seq(size, q requires 0 <= q < size && MElement(p - 2, q - 2).Success? reads this => MElement(p - 2, q - 2).value)
    }

    /** x solves (I - M) x = mu exactly when it satisfies the collocation
        equations x_j = mu_j + sum over i of M[j, i] x_i. */
    lemma CollocationEquations(x: seq<real>)
      requires config.gridPoints >= -2 && MDefined() && MuDefined()
      requires |x| == config.gridPoints + 2
      ensures MathUtils.IsSolution(SystemMatrix(), SystemVector(), x) <==>
        forall p :: 0 <= p < |x| ==> x[p] == MuElement(p - 2).value + MathUtils.Dot(MRow(p), x, 0, |x|)
    {
      var size := |x|;
      var a := SystemMatrix();
      forall p | 0 <= p < size
        ensures MathUtils.Dot(a[p], x, 0, size) == x[p] - MathUtils.Dot(MRow(p), x, 0, size)
      {
        DotIdentityMinus(a[p], MRow(p), x, p);
      }
    }
  }
}
