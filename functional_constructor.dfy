/** Projection functionals (FunctionalConstructor.cs): the functional number j
    of the configured rule, applied to a function f, on the primary grid and
    the auxiliary grid. Every call of f may throw; its failure propagates. */
module FunctionalConstructor {
  import opened Common
  import opened Configuration
  import opened Grids
  import SplineConstructor

  /** The default step h = 1e-5 of the Derivative closure. */
  const Step: real := 0.00001

  /** Derivative(func, h): the central difference x => (func(x + h) - func(x - h)) / (2h). */
  function Derivative(func: real -> Result<real>, h: real): (d: real -> Result<real>)
    requires h != 0.0
  {
    x =>
      if func(x + h).Failure? then Failure(func(x + h).error)
      else if func(x - h).Failure? then Failure(func(x - h).error)
      else Success((func(x + h).value - func(x - h).value) / (2.0 * h))
  }

  /** a * f(additionalGrid[j - 1]) + b * f(additionalGrid[j]) + c * f(additionalGrid[j + 1]),
      the three-point average shared by the three averaging rules. */
  function ThreePoint(a: real, b: real, c: real, f: real -> Result<real>, agrid: map<int, real>, j: int): Result<real>
  {
    var xl :- Get(agrid, j - 1);
    var fl :- f(xl);
    var xm :- Get(agrid, j);
    var fm :- f(xm);
    var xr :- Get(agrid, j + 1);
    var fr :- f(xr);
    Success(Weighted3(a, b, c, fl, fm, fr))
  }

  /** w1 * f(grid[lo]) + w2 * f((grid[lo] + grid[lo + 1]) / 2) + w3 * f(grid[lo + 1]),
      the stencil of the projection rules for the functionals next to the ends. */
  function EdgeStencil(w1: real, w2: real, w3: real, f: real -> Result<real>, grid: map<int, real>, lo: int): Result<real>
  {
    var p :- Get(grid, lo);
    var fp :- f(p);
    var q :- Get(grid, lo + 1);
    var fm :- f(0.5 * (p + q));
    var fq :- f(q);
    Success(Weighted3(w1, w2, w3, fp, fm, fq))
  }

  /** The five-point stencil of the projection rules: f at grid[j], at the three
      midpoints of the cells of the support, and at grid[j + 3]. */
  function InteriorStencil(w0: real, w1: real, w2: real, w3: real, w4: real,
                           f: real -> Result<real>, grid: map<int, real>, j: int): Result<real>
  {
    var g0 :- Get(grid, j);
    var f0 :- f(g0);
    var g1 :- Get(grid, j + 1);
    var f01 :- f(0.5 * (g0 + g1));
    var g2 :- Get(grid, j + 2);
    var f12 :- f(0.5 * (g1 + g2));
    var g3 :- Get(grid, j + 3);
    var f23 :- f(0.5 * (g2 + g3));
    var f3 :- f(g3);
    Success(Weighted5(w0, w1, w2, w3, w4, f0, f01, f12, f23, f3))
  }

  /** w1 x1 + w2 x2 + w3 x3. */
  function Weighted3(w1: real, w2: real, w3: real, x1: real, x2: real, x3: real): real {
    w1 * x1 + w2 * x2 + w3 * x3
  }

  /** w0 x0 + w1 x1 + w2 x2 + w3 x3 + w4 x4. */
  function Weighted5(w0: real, w1: real, w2: real, w3: real, w4: real,
                     x0: real, x1: real, x2: real, x3: real, x4: real): real {
    w0 * x0 + w1 * x1 + w2 * x2 + w3 * x3 + w4 * x4
  }

  /** The multipliers of the first and the second central difference in
      DeBoorFix0, from the knots grid[j], grid[j + 1], grid[j + 2]. */
  function DeBoorFix0Multipliers(g0: real, g1: real, g2: real): (real, real) {
    (0.5 * (g1 + g2) - g0, 0.5 * (g1 + g0) * (g2 - g0))
  }

  /** v + p d: a value corrected by a multiple of a central difference. */
  function Affine(v: real, p: real, d: real): real {
    v + p * d
  }

  /** The weights (a, b, c) of the trigonometric and hyperbolic averaging rules,
      by Cramer's rule on the 2x2 system with denominator zn; (s, c) is
      (sin, cos) or (sinh, cosh), am, a0, ap are the auxiliary nodes j - 1, j, j + 1. */
  function AveragingWeights(s: real -> real, c: real -> real, s1: real, s2: real,
                            am: real, a0: real, ap: real): Result<(real, real, real)>
  {
    var zn := (s(ap) - s(am)) * (c(a0) - c(am)) - (s(a0) - s(am)) * (c(ap) - c(am));
    var chB := (s(ap) - s(am)) * (s2 - c(am)) - (s1 - s(am)) * (c(ap) - c(am));
    var chC := (s1 - s(am)) * (c(a0) - c(am)) - (s(a0) - s(am)) * (s2 - c(am));
    var b :- Div(chB, zn);
    var cc :- Div(chC, zn);
    Success((1.0 - b - cc, b, cc))
  }

  /** The targets S1, S2 of the trigonometric averaging rule on the cell [g1, g2]. */
  function TrigTargets(el: Elementary, g1: real, g2: real): Result<(real, real)>
  {
    var s1 :- Div(el.cos(g1) - el.cos(g2), el.sin(g2 - g1));
    var s2 :- Div(el.sin(g2) - el.sin(g1), el.sin(g2 - g1));
    Success((s1, s2))
  }

  /** The targets S1, S2 of the hyperbolic averaging rule on the cell [g1, g2]. */
  function HypTargets(el: Elementary, g1: real, g2: real): Result<(real, real)>
  {
    var s1 :- Div(el.cosh(g2) - el.cosh(g1), el.sinh(g2 - g1));
    var s2 :- Div(el.sinh(g2) - el.sinh(g1), el.sinh(g2 - g1));
    Success((s1, s2))
  }

  /** The weights of the trigonometric and hyperbolic projection rules, from the
      values of spline 0 of the configured family at grid[1], at the midpoint
      of [grid[0], grid[1]], at the midpoint of [grid[1], grid[2]], at grid[2]
      and at the midpoint of [grid[2], grid[3]]. `edge` selects the weights
      K1, K2, K3 of the functionals next to the ends, otherwise those of the
      interior functionals. */
  function ProjectionWeights(t: ApproximationType, el: Elementary, grid: map<int, real>, edge: bool): Result<(real, real, real)>
  {
    var samples :- SplineSamples(t, el, grid);
    WeightsFromSamples(samples, edge)
  }

  /** The five values A, B, C, D, E of spline 0 that ProjectionWeights reads,
      in the order of the C# code. */
  function SplineSamples(t: ApproximationType, el: Elementary, grid: map<int, real>): Result<(real, real, real, real, real)>
  {
    var g1 :- Get(grid, 1);
    var A :- SplineConstructor.SplineValueAtPoint(t, el, 0, grid, g1);
    var g0 :- Get(grid, 0);
    var B :- SplineConstructor.SplineValueAtPoint(t, el, 0, grid, 0.5 * (g0 + g1));
    var g2 :- Get(grid, 2);
    var C :- SplineConstructor.SplineValueAtPoint(t, el, 0, grid, 0.5 * (g1 + g2));
    var D :- SplineConstructor.SplineValueAtPoint(t, el, 0, grid, g2);
    var g3 :- Get(grid, 3);
    var E :- SplineConstructor.SplineValueAtPoint(t, el, 0, grid, 0.5 * (g2 + g3));
    Success((A, B, C, D, E))
  }

  /** The weights K1, K2, K3 (edge) or the interior weights from the samples
      by Cramer's rule. */
  function WeightsFromSamples(samples: (real, real, real, real, real), edge: bool): Result<(real, real, real)>
  {
    var (A, B, C, D, E) := samples;
    if edge then
      var k :- Div(-1.0, A * C * D - A * A * E - B * D * D);
      Success((A * E * k, -A * D * k, B * D * k))
    else
      var k :- Div(1.0, C * C * D - A * C * E - B * D * E - D * E * E);
      Success((E * E * k, -D * E * k, (C * D - A * E) * k))
  }

  /** The AveragingTrigonometric (trig) and AveragingHyperbolic (!trig) cases:
      f at the ends of the auxiliary grid, otherwise the three-point average
      with the weights that reproduce (sin, cos) or (sinh, cosh). */
  function TranscendentalAveraging(trig: bool, el: Elementary, n: int, j: int, f: real -> Result<real>,
                                   grid: map<int, real>, agrid: map<int, real>): Result<real>
  {
    if j == -2 || j == n - 1 then
      var x :- Get(agrid, j);
      f(x)
    else
      var w :- AveragingWeightsAt(trig, el, j, grid, agrid);
      ThreePoint(w.0, w.1, w.2, f, agrid, j)
  }

  /** The weights (a, b, c) of the interior functional j of the transcendental
      averaging rules, from the cell [grid[j+1], grid[j+2]] and the auxiliary
      nodes j-1, j, j+1, read in the order of the C# code: S1 reads grid[j+1]
      first in the trigonometric rule (cos g1 - cos g2) and grid[j+2] first in
      the hyperbolic one (cosh g2 - cosh g1). */
  function AveragingWeightsAt(trig: bool, el: Elementary, j: int, grid: map<int, real>, agrid: map<int, real>): Result<(real, real, real)>
  {
    if trig then
      var g1 :- Get(grid, j + 1);
      var g2 :- Get(grid, j + 2);
      var ap :- Get(agrid, j + 1);
      var am :- Get(agrid, j - 1);
      var a0 :- Get(agrid, j);
      var targets :- TrigTargets(el, g1, g2);
      AveragingWeights(el.sin, el.cos, targets.0, targets.1, am, a0, ap)
    else
      var g2 :- Get(grid, j + 2);
      var g1 :- Get(grid, j + 1);
      var ap :- Get(agrid, j + 1);
      var am :- Get(agrid, j - 1);
      var a0 :- Get(agrid, j);
      var targets :- HypTargets(el, g1, g2);
      AveragingWeights(el.sinh, el.cosh, targets.0, targets.1, am, a0, ap)
  }

  /** The ProectionalTrigonometric and ProectionalHyperbolic cases: f at
      grid[0] and grid[N] for the end functionals, the three-point stencil
      K1, K2, K3 next to the ends, the five-point stencil K1, K2, K3, K2, K1
      inside. */
  function TranscendentalProjection(t: ApproximationType, el: Elementary, n: int, j: int, f: real -> Result<real>,
                                    grid: map<int, real>): Result<real>
  {
    if j == -2 then
      var x :- Get(grid, 0);
      f(x)
    else if j == n - 1 then
      var x :- Get(grid, n);
      f(x)
    else if j == -1 || j == n - 2 then
      var k :- ProjectionWeights(t, el, grid, true);
      EdgeStencil(k.0, k.1, k.2, f, grid, if j == -1 then 0 else n - 1)
    else
      var k :- ProjectionWeights(t, el, grid, false);
      InteriorStencil(k.0, k.1, k.2, k.1, k.0, f, grid, j)
  }

  /** FunctionalValue: functional number j of rule t applied to f; n is GridPoints. */
  function FunctionalValue(t: ApproximationType, el: Elementary, n: int, j: int, f: real -> Result<real>,
                           grid: map<int, real>, agrid: map<int, real>): Result<real>
  {
    match t
    case ShoenbergMarsden =>
      var x :- Get(agrid, j);
      f(x)
    case Averaging =>
      if j == -2 || j == n - 1 then
        var x :- Get(agrid, j);
        f(x)
      else
        ThreePoint(-1.0 / 8.0, 5.0 / 4.0, -1.0 / 8.0, f, agrid, j)
    case DeBoorFix0 =>
      var g0 :- Get(grid, j);
      var v :- f(g0);
      var g1 :- Get(grid, j + 1);
      var g2 :- Get(grid, j + 2);
      var d1 :- Derivative(f, Step)(g0);
      var d2 :- Derivative(Derivative(f, Step), Step)(g0);
      var w := DeBoorFix0Multipliers(g0, g1, g2);
      Success(Affine(Affine(v, w.0, d1), w.1, d2))
    case DeBoorFix1 =>
      var g1 :- Get(grid, j + 1);
      var v :- f(g1);
      var g2 :- Get(grid, j + 2);
      var d1 :- Derivative(f, Step)(g1);
      Success(Affine(v, 0.5 * (g2 - g1), d1))
    case DeBoorFix2 =>
      var g2 :- Get(grid, j + 2);
      var v :- f(g2);
      var g1 :- Get(grid, j + 1);
      var d1 :- Derivative(f, Step)(g2);
      Success(Affine(v, -0.5 * (g2 - g1), d1))
    case Proectional =>
      if j == -2 then
        var x :- Get(grid, 0);
        f(x)
      else if j == n - 1 then
        var x :- Get(grid, n);
        f(x)
      else if j == -1 then
        EdgeStencil(-1.0 / 2.0, 2.0, -1.0 / 2.0, f, grid, 0)
      else if j == n - 2 then
        EdgeStencil(-1.0 / 2.0, 2.0, -1.0 / 2.0, f, grid, n - 1)
      else
        InteriorStencil(1.0 / 14.0, -2.0 / 7.0, 10.0 / 7.0, -2.0 / 7.0, 1.0 / 14.0, f, grid, j)
    case AveragingTrigonometric =>
      TranscendentalAveraging(true, el, n, j, f, grid, agrid)
    case AveragingHyperbolic =>
      TranscendentalAveraging(false, el, n, j, f, grid, agrid)
    case ProectionalHyperbolic | ProectionalTrigonometric =>
      TranscendentalProjection(t, el, n, j, f, grid)
    case DeBoorFix1Trigonometric | DeBoorFix2Trigonometric | Sablonniere =>
      Failure(NotSupported)
  }

  /** The central difference of a constant function is 0, and so is the
      central difference of that. */
  lemma {:induction false} DerivativeOfConstant(f: real -> Result<real>, v: real, h: real, x: real)
    requires h != 0.0
    requires forall y :: f(y) == Success(v)
    ensures Derivative(f, h)(x) == Success(0.0)
    ensures Derivative(Derivative(f, h), h)(x) == Success(0.0)
  {
    var d := Derivative(f, h);
    assert d(x + h) == Success(0.0) && d(x - h) == Success(0.0);
  }

  /** The algebraic rules reproduce constants: for every functional j in
      -2..N-1 of the grids of a valid configuration, ShoenbergMarsden,
      Averaging, DeBoorFix0/1/2 and Proectional map x => v to v (the stencil
      weights sum to 1 and the central differences of a constant are 0). */
  lemma {:induction false} ConstantsReproduced(c: Config, el: Elementary, t: ApproximationType, j: int, f: real -> Result<real>, v: real)
    requires c.Valid()
    requires SplineConstructor.IsAlgebraic(t)
    requires -2 <= j <= c.gridPoints - 1
    requires forall x :: f(x) == Success(v)
    ensures FunctionalValue(t, el, c.gridPoints, j, f, PrimaryGrid(c), AuxiliaryGrid(c)) == Success(v)
  {
    PrimaryGridShape(c);
    AuxiliaryGridShape(c);
    if t.DeBoorFix0? || t.DeBoorFix1? || t.DeBoorFix2? {
      DeBoorReproduces(c, el, t, j, f, v);
    } else if t.Proectional? {
      ProectionalReproduces(c, el, j, f, v);
    }
  }

  /** DeBoorFix0/1/2 on a constant: the value at a knot plus multiples of
      central differences that are 0. */
  lemma {:induction false} DeBoorReproduces(c: Config, el: Elementary, t: ApproximationType, j: int, f: real -> Result<real>, v: real)
    requires c.Valid()
    requires t.DeBoorFix0? || t.DeBoorFix1? || t.DeBoorFix2?
    requires -2 <= j <= c.gridPoints - 1
    requires forall x :: f(x) == Success(v)
    ensures FunctionalValue(t, el, c.gridPoints, j, f, PrimaryGrid(c), AuxiliaryGrid(c)) == Success(v)
  {
    var grid := PrimaryGrid(c);
    PrimaryGridShape(c);
    var k := if t.DeBoorFix0? then j else if t.DeBoorFix1? then j + 1 else j + 2;
    DerivativeOfConstant(f, v, Step, grid[k]);
  }

  /** Proectional on a constant: the stencils -1/2, 2, -1/2 and
      1/14, -2/7, 10/7, -2/7, 1/14 both sum to 1. */
  lemma {:induction false} ProectionalReproduces(c: Config, el: Elementary, j: int, f: real -> Result<real>, v: real)
    requires c.Valid()
    requires -2 <= j <= c.gridPoints - 1
    requires forall x :: f(x) == Success(v)
    ensures FunctionalValue(Proectional, el, c.gridPoints, j, f, PrimaryGrid(c), AuxiliaryGrid(c)) == Success(v)
  {
    PrimaryGridShape(c);
  }

  /** The trigonometric and hyperbolic averaging weights exist exactly when
      the determinant zn is non-zero, and then they sum to 1 and reproduce
      the targets: a s(am) + b s(a0) + c s(ap) = S1 and
      a c(am) + b c(a0) + c c(ap) = S2. */
  lemma {:induction false} AveragingWeightsSolve(s: real -> real, c: real -> real, s1: real, s2: real, am: real, a0: real, ap: real)
    ensures AveragingWeights(s, c, s1, s2, am, a0, ap).Success? <==>
      (s(ap) - s(am)) * (c(a0) - c(am)) != (s(a0) - s(am)) * (c(ap) - c(am))
    ensures AveragingWeights(s, c, s1, s2, am, a0, ap).Failure? ==>
      AveragingWeights(s, c, s1, s2, am, a0, ap).error == NonFinite
    ensures AveragingWeights(s, c, s1, s2, am, a0, ap).Success? ==>
      var w := AveragingWeights(s, c, s1, s2, am, a0, ap).value;
      && w.0 + w.1 + w.2 == 1.0
      && w.0 * s(am) + w.1 * s(a0) + w.2 * s(ap) == s1
      && w.0 * c(am) + w.1 * c(a0) + w.2 * c(ap) == s2
  {
    WeightsInDifferences(s, c, s1, s2, am, a0, ap,
                         s(a0) - s(am), s(ap) - s(am), c(a0) - c(am), c(ap) - c(am), s1 - s(am), s2 - c(am));
  }

  /** AveragingWeightsSolve in the differences S0 = s(a0) - s(am),
      SP = s(ap) - s(am), C0 = c(a0) - c(am), CP = c(ap) - c(am),
      T1 = S1 - s(am), T2 = S2 - c(am). */
  lemma {:induction false} WeightsInDifferences(s: real -> real, c: real -> real, s1: real, s2: real, am: real, a0: real, ap: real,
                                                S0: real, SP: real, C0: real, CP: real, T1: real, T2: real)
    requires S0 == s(a0) - s(am) && SP == s(ap) - s(am) && C0 == c(a0) - c(am) && CP == c(ap) - c(am)
    requires T1 == s1 - s(am) && T2 == s2 - c(am)
    ensures AveragingWeights(s, c, s1, s2, am, a0, ap).Success? <==> SP * C0 - S0 * CP != 0.0
    ensures AveragingWeights(s, c, s1, s2, am, a0, ap).Success? ==>
      var w := AveragingWeights(s, c, s1, s2, am, a0, ap).value;
      w.1 * S0 + w.2 * SP == T1 && w.1 * C0 + w.2 * CP == T2
  {
    assert (s(ap) - s(am)) * (c(a0) - c(am)) - (s(a0) - s(am)) * (c(ap) - c(am)) == SP * C0 - S0 * CP;
    assert (s(ap) - s(am)) * (s2 - c(am)) - (s1 - s(am)) * (c(ap) - c(am)) == SP * T2 - T1 * CP;
    assert (s1 - s(am)) * (c(a0) - c(am)) - (s(a0) - s(am)) * (s2 - c(am)) == T1 * C0 - S0 * T2;
    if SP * C0 - S0 * CP != 0.0 {
      var b := Div(SP * T2 - T1 * CP, SP * C0 - S0 * CP).value;
      var cc := Div(T1 * C0 - S0 * T2, SP * C0 - S0 * CP).value;
      CramerSolves(S0, SP, C0, CP, T1, T2, b, cc);
    }
  }

  /** Cramer's rule for the 2x2 system b S0 + c SP = T1, b C0 + c CP = T2. */
  lemma {:induction false} CramerSolves(S0: real, SP: real, C0: real, CP: real, T1: real, T2: real, b: real, cc: real)
    requires SP * C0 - S0 * CP != 0.0
    requires b * (SP * C0 - S0 * CP) == SP * T2 - T1 * CP
    requires cc * (SP * C0 - S0 * CP) == T1 * C0 - S0 * T2
    ensures b * S0 + cc * SP == T1
    ensures b * C0 + cc * CP == T2
  {
    var zn := SP * C0 - S0 * CP;
    var bz := b * zn;
    var cz := cc * zn;
    assert zn * (b * S0 + cc * SP) == bz * S0 + cz * SP;
    assert bz * S0 + cz * SP == T1 * zn;
    assert zn * (b * C0 + cc * CP) == bz * C0 + cz * CP;
    assert bz * C0 + cz * CP == T2 * zn;
  }

  /** On the grids of a valid configuration the trigonometric and hyperbolic
      averaging rules map x => v to v whenever they yield a number, and fail
      only on a zero divisor. */
  lemma {:induction false} TranscendentalConstants(c: Config, el: Elementary, t: ApproximationType, j: int, v: real)
    requires c.Valid()
    requires t.AveragingTrigonometric? || t.AveragingHyperbolic?
    requires -2 <= j <= c.gridPoints - 1
    ensures FunctionalValue(t, el, c.gridPoints, j, Constant(v), PrimaryGrid(c), AuxiliaryGrid(c)).Success? ==>
      FunctionalValue(t, el, c.gridPoints, j, Constant(v), PrimaryGrid(c), AuxiliaryGrid(c)).value == v
    ensures FunctionalValue(t, el, c.gridPoints, j, Constant(v), PrimaryGrid(c), AuxiliaryGrid(c)).Failure? ==>
      FunctionalValue(t, el, c.gridPoints, j, Constant(v), PrimaryGrid(c), AuxiliaryGrid(c)).error == NonFinite
  {
    var grid, agrid := PrimaryGrid(c), AuxiliaryGrid(c);
    PrimaryGridShape(c);
    AuxiliaryGridShape(c);
    assert HasKeys(grid, -2, c.gridPoints + 2) && HasKeys(agrid, -2, c.gridPoints - 1);
    TranscendentalAveragingReproduces(t.AveragingTrigonometric?, el, c.gridPoints, j, v, grid, agrid);
  }

  /** A three-point average with weights summing to 1 maps a constant to itself. */
  lemma {:induction false} WeightedConstant(a: real, b: real, c: real, v: real)
    requires a + b + c == 1.0
    ensures a * v + b * v + c * v == v
  {
    assert a * v + b * v + c * v == (a + b + c) * v;
  }

  /** The trigonometric and hyperbolic averaging rules reproduce constants
      whenever they yield a number. With the keys they read present they
      fail only on a zero divisor. */
  lemma {:induction false} TranscendentalAveragingReproduces(trig: bool, el: Elementary, n: int, j: int, v: real,
                                                             grid: map<int, real>, agrid: map<int, real>)
    requires j in agrid
    requires j != -2 && j != n - 1 ==> HasKeys(grid, j + 1, j + 2) && HasKeys(agrid, j - 1, j + 1)
    ensures TranscendentalAveraging(trig, el, n, j, Constant(v), grid, agrid).Success? ==>
      TranscendentalAveraging(trig, el, n, j, Constant(v), grid, agrid).value == v
    ensures TranscendentalAveraging(trig, el, n, j, Constant(v), grid, agrid).Failure? ==>
      TranscendentalAveraging(trig, el, n, j, Constant(v), grid, agrid).error == NonFinite
  {
    if j != -2 && j != n - 1 {
      var w := AveragingWeightsAt(trig, el, j, grid, agrid);
      WeightsAtSumToOne(trig, el, j, grid, agrid);
      if w.Success? {
        WeightedConstant(w.value.0, w.value.1, w.value.2, v);
        assert ThreePoint(w.value.0, w.value.1, w.value.2, Constant(v), agrid, j).Success?;
        assert ThreePoint(w.value.0, w.value.1, w.value.2, Constant(v), agrid, j).value
            == w.value.0 * v + w.value.1 * v + w.value.2 * v;
      }
    }
  }

  /** The weights of an interior functional sum to 1 and solve the
      interpolation conditions on (sin, cos) or (sinh, cosh); with the keys
      they read present they fail only on a zero divisor. */
  lemma {:induction false} WeightsAtSumToOne(trig: bool, el: Elementary, j: int, grid: map<int, real>, agrid: map<int, real>)
    requires HasKeys(grid, j + 1, j + 2) && HasKeys(agrid, j - 1, j + 1)
    ensures AveragingWeightsAt(trig, el, j, grid, agrid).Success? ==>
      var w := AveragingWeightsAt(trig, el, j, grid, agrid).value;
      w.0 + w.1 + w.2 == 1.0
    ensures AveragingWeightsAt(trig, el, j, grid, agrid).Failure? ==>
      AveragingWeightsAt(trig, el, j, grid, agrid).error == NonFinite
  {
    var s, co := if trig then el.sin else el.sinh, if trig then el.cos else el.cosh;
    var targets := if trig then TrigTargets(el, grid[j + 1], grid[j + 2]) else HypTargets(el, grid[j + 1], grid[j + 2]);
    if targets.Success? {
      AveragingWeightsSolve(s, co, targets.value.0, targets.value.1, agrid[j - 1], agrid[j], agrid[j + 1]);
    }
  }

  /** The boundary functionals: every averaging rule takes f at the end
      points -2 and N-1 of the auxiliary grid, every projection rule takes f
      at grid[0] for j = -2 and at grid[N] for j = N-1. */
  lemma {:induction false} BoundaryFallbacks(t: ApproximationType, el: Elementary, n: int, f: real -> Result<real>,
                                             grid: map<int, real>, agrid: map<int, real>)
    requires n >= 1
    requires -2 in agrid && n - 1 in agrid && 0 in grid && n in grid
    ensures t.Averaging? || t.AveragingTrigonometric? || t.AveragingHyperbolic? ==>
      FunctionalValue(t, el, n, -2, f, grid, agrid) == f(agrid[-2]) &&
      FunctionalValue(t, el, n, n - 1, f, grid, agrid) == f(agrid[n - 1])
    ensures t.Proectional? || t.ProectionalTrigonometric? || t.ProectionalHyperbolic? ==>
      FunctionalValue(t, el, n, -2, f, grid, agrid) == f(grid[0]) &&
      FunctionalValue(t, el, n, n - 1, f, grid, agrid) == f(grid[n])
  {
  }

  /** The rules the functional switch does not name throw NotSupported, among
      them the two DeBoor trigonometric types that the spline switch accepts. */
  lemma {:induction false} UnsupportedRules(t: ApproximationType, el: Elementary, n: int, j: int, f: real -> Result<real>,
                                            grid: map<int, real>, agrid: map<int, real>)
    ensures t.DeBoorFix1Trigonometric? || t.DeBoorFix2Trigonometric? || t.Sablonniere? ==>
      FunctionalValue(t, el, n, j, f, grid, agrid) == Failure(NotSupported)
    ensures t.DeBoorFix1Trigonometric? || t.DeBoorFix2Trigonometric? ==>
      SplineConstructor.KindOf(t, el).Success?
  {
  }

  /** The interior functionals of the trigonometric and hyperbolic projection
      rules use a symmetric five-point stencil K1, K2, K3, K2, K1. */
  lemma {:induction false} ProjectionStencilSymmetric(t: ApproximationType, el: Elementary, n: int, j: int, f: real -> Result<real>,
                                                      grid: map<int, real>, agrid: map<int, real>)
    requires t.ProectionalTrigonometric? || t.ProectionalHyperbolic?
    requires -1 < j < n - 2
    ensures ProjectionWeights(t, el, grid, false).Failure? ==>
      FunctionalValue(t, el, n, j, f, grid, agrid).Failure?
    ensures ProjectionWeights(t, el, grid, false).Success? ==>
      var k := ProjectionWeights(t, el, grid, false).value;
      FunctionalValue(t, el, n, j, f, grid, agrid) == InteriorStencil(k.0, k.1, k.2, k.1, k.0, f, grid, j)
  {
  }

  /** The central differences of a function that never throws never throw. */
  lemma {:induction false} DerivativeOfTotal(f: real -> Result<real>, h: real, x: real)
    requires h != 0.0
    requires forall y :: f(y).Success?
    ensures Derivative(f, h)(x).Success?
    ensures Derivative(Derivative(f, h), h)(x).Success?
  {
    var d := Derivative(f, h);
    assert d(x + h).Success? && d(x - h).Success?;
  }

  /** On the grids of a valid configuration, for every functional j in
      -2..N-1 and every function that never throws, no dictionary lookup
      fails: the algebraic rules always yield a number, the trigonometric and
      hyperbolic ones fail only on a zero divisor, the others throw
      NotSupported. */
  lemma {:induction false} LookupsStayInGrids(c: Config, el: Elementary, t: ApproximationType, j: int, g: real -> real)
    requires c.Valid()
    requires -2 <= j <= c.gridPoints - 1
    ensures SplineConstructor.IsAlgebraic(t) ==>
      FunctionalValue(t, el, c.gridPoints, j, Lift(g), PrimaryGrid(c), AuxiliaryGrid(c)).Success?
    ensures FunctionalValue(t, el, c.gridPoints, j, Lift(g), PrimaryGrid(c), AuxiliaryGrid(c)).Failure? ==>
      FunctionalValue(t, el, c.gridPoints, j, Lift(g), PrimaryGrid(c), AuxiliaryGrid(c)).error
        == (if t.DeBoorFix1Trigonometric? || t.DeBoorFix2Trigonometric? || t.Sablonniere? then NotSupported else NonFinite)
  {
    var grid, agrid, n := PrimaryGrid(c), AuxiliaryGrid(c), c.gridPoints;
    PrimaryGridShape(c);
    AuxiliaryGridShape(c);
    assert HasKeys(grid, -2, n + 2) && HasKeys(agrid, -2, n - 1);
    if SplineConstructor.IsAlgebraic(t) {
      AlgebraicLookups(t, el, n, j, Lift(g), grid, agrid);
    } else if t.AveragingTrigonometric? || t.AveragingHyperbolic? {
      AveragingLookups(t.AveragingTrigonometric?, el, n, j, g, grid, agrid);
    } else if t.ProectionalTrigonometric? || t.ProectionalHyperbolic? {
      PrimaryGridIncreasing(c);
      assert StrictlyIncreasing(grid, 0, 3);
      ProjectionLookups(t, el, n, j, g, grid);
    }
  }

  /** The algebraic rules read grid[j..j+3] and additionalGrid[j-1..j+1]
      (the ends only at the ends); with those keys present and a function
      that never throws they always yield a number. */
  lemma {:induction false} AlgebraicLookups(t: ApproximationType, el: Elementary, n: int, j: int, f: real -> Result<real>,
                                            grid: map<int, real>, agrid: map<int, real>)
    requires SplineConstructor.IsAlgebraic(t)
    requires -2 <= j <= n - 1
    requires HasKeys(grid, -2, n + 2) && HasKeys(agrid, -2, n - 1)
    requires forall x :: f(x).Success?
    ensures FunctionalValue(t, el, n, j, f, grid, agrid).Success?
  {
    if t.DeBoorFix0? || t.DeBoorFix1? || t.DeBoorFix2? {
      var k := if t.DeBoorFix0? then j else if t.DeBoorFix1? then j + 1 else j + 2;
      DerivativeOfTotal(f, Step, grid[k]);
    }
  }

  /** The transcendental averaging rules read grid[j+1], grid[j+2] and
      additionalGrid[j-1..j+1]; with those present they fail only on a zero
      divisor. */
  lemma {:induction false} AveragingLookups(trig: bool, el: Elementary, n: int, j: int, g: real -> real,
                                            grid: map<int, real>, agrid: map<int, real>)
    requires -2 <= j <= n - 1
    requires HasKeys(grid, -2, n + 2) && HasKeys(agrid, -2, n - 1)
    ensures TranscendentalAveraging(trig, el, n, j, Lift(g), grid, agrid).Failure? ==>
      TranscendentalAveraging(trig, el, n, j, Lift(g), grid, agrid).error == NonFinite
  {
  }

  /** The transcendental projection rules read grid[0..3] for their weights,
      and grid[0..1], grid[N-1..N] or grid[j..j+3] for their stencils; with
      those present they fail only on a zero divisor. */
  lemma {:induction false} ProjectionLookups(t: ApproximationType, el: Elementary, n: int, j: int, g: real -> real,
                                             grid: map<int, real>)
    requires t.ProectionalTrigonometric? || t.ProectionalHyperbolic?
    requires -2 <= j <= n - 1
    requires HasKeys(grid, -2, n + 2) && StrictlyIncreasing(grid, 0, 3)
    ensures TranscendentalProjection(t, el, n, j, Lift(g), grid).Failure? ==>
      TranscendentalProjection(t, el, n, j, Lift(g), grid).error == NonFinite
  {
    ProjectionWeightsLookups(t, el, grid, true);
    ProjectionWeightsLookups(t, el, grid, false);
  }

  /** The weights of the projection rules evaluate spline 0 on grid[0..3]:
      no lookup fails. */
  lemma {:induction false} ProjectionWeightsLookups(t: ApproximationType, el: Elementary, grid: map<int, real>, edge: bool)
    requires t.ProectionalTrigonometric? || t.ProectionalHyperbolic?
    requires StrictlyIncreasing(grid, 0, 3)
    ensures ProjectionWeights(t, el, grid, edge).Failure? ==> ProjectionWeights(t, el, grid, edge).error == NonFinite
  {
    var kind := SplineConstructor.KindOf(t, el).value;
    forall p | true
      ensures SplineConstructor.SplineValueAtPoint(t, el, 0, grid, p).Failure? ==>
        SplineConstructor.SplineValueAtPoint(t, el, 0, grid, p).error == NonFinite
    {
      SplineConstructor.KeysPresent(kind, grid, 0, p);
    }
  }

  /** a x + b y, the value of a linear combination. */
  function Mix(a: real, x: real, b: real, y: real): real {
    a * x + b * y
  }

  /** At y, none of f, g, h throws and h is a f + b g. */
  ghost predicate CombinesAt(h: real -> Result<real>, a: real, f: real -> Result<real>, b: real, g: real -> Result<real>, y: real) {
    f(y).Success? && g(y).Success? && h(y) == Success(Mix(a, f(y).value, b, g(y).value))
  }

  /** h is a f + b g everywhere, and none of them throws. */
  ghost predicate Combines(h: real -> Result<real>, a: real, f: real -> Result<real>, b: real, g: real -> Result<real>) {
    forall y :: CombinesAt(h, a, f, b, g, y)
  }

  /** A weighted sum of three values of a f + b g is a times the weighted sum
      of f plus b times that of g. */
  lemma {:induction false} Weighted3Linear(w1: real, w2: real, w3: real, a: real, b: real,
                                           f1: real, f2: real, f3: real, g1: real, g2: real, g3: real,
                                           h1: real, h2: real, h3: real)
    requires h1 == Mix(a, f1, b, g1) && h2 == Mix(a, f2, b, g2) && h3 == Mix(a, f3, b, g3)
    ensures Weighted3(w1, w2, w3, h1, h2, h3) == Mix(a, Weighted3(w1, w2, w3, f1, f2, f3), b, Weighted3(w1, w2, w3, g1, g2, g3))
  {
  }

  /** The same for five values. */
  lemma {:induction false} Weighted5Linear(w0: real, w1: real, w2: real, w3: real, w4: real, a: real, b: real,
                                           f0: real, f1: real, f2: real, f3: real, f4: real,
                                           g0: real, g1: real, g2: real, g3: real, g4: real,
                                           h0: real, h1: real, h2: real, h3: real, h4: real)
    requires h0 == Mix(a, f0, b, g0) && h1 == Mix(a, f1, b, g1) && h2 == Mix(a, f2, b, g2)
    requires h3 == Mix(a, f3, b, g3) && h4 == Mix(a, f4, b, g4)
    ensures Weighted5(w0, w1, w2, w3, w4, h0, h1, h2, h3, h4)
         == Mix(a, Weighted5(w0, w1, w2, w3, w4, f0, f1, f2, f3, f4), b, Weighted5(w0, w1, w2, w3, w4, g0, g1, g2, g3, g4))
  {
    Weighted3Linear(w0, w1, w2, a, b, f0, f1, f2, g0, g1, g2, h0, h1, h2);
    Weighted3Linear(1.0, w3, w4, a, b, Weighted3(w0, w1, w2, f0, f1, f2), f3, f4, Weighted3(w0, w1, w2, g0, g1, g2), g3, g4,
                    Weighted3(w0, w1, w2, h0, h1, h2), h3, h4);
  }

  /** The central difference is linear: if h = a f + b g pointwise, so is its
      central difference. */
  lemma {:induction false} DerivativeLinear(f: real -> Result<real>, g: real -> Result<real>, h: real -> Result<real>,
                                            a: real, b: real, step: real, x: real)
    requires step != 0.0
    requires CombinesAt(h, a, f, b, g, x + step) && CombinesAt(h, a, f, b, g, x - step)
    ensures CombinesAt(Derivative(h, step), a, Derivative(f, step), b, Derivative(g, step), x)
  {
    var fp, fm := f(x + step).value, f(x - step).value;
    var gp, gm := g(x + step).value, g(x - step).value;
    DifferenceLinear(a, b, fp, fm, gp, gm, 2.0 * step);
  }

  /** Applied twice, the central difference stays linear: at x the values,
      the first and the second differences of h are those of f and g combined. */
  lemma {:induction false} SecondDerivativeLinear(f: real -> Result<real>, g: real -> Result<real>, h: real -> Result<real>,
                                                  a: real, b: real, step: real, x: real)
    requires step != 0.0
    requires Combines(h, a, f, b, g)
    ensures CombinesAt(h, a, f, b, g, x)
    ensures CombinesAt(Derivative(h, step), a, Derivative(f, step), b, Derivative(g, step), x)
    ensures CombinesAt(Derivative(Derivative(h, step), step), a, Derivative(Derivative(f, step), step), b,
                       Derivative(Derivative(g, step), step), x)
  {
    assert CombinesAt(h, a, f, b, g, x) && CombinesAt(h, a, f, b, g, x + step) && CombinesAt(h, a, f, b, g, x - step);
    assert CombinesAt(h, a, f, b, g, x + step + step) && CombinesAt(h, a, f, b, g, x + step - step);
    assert CombinesAt(h, a, f, b, g, x - step + step) && CombinesAt(h, a, f, b, g, x - step - step);
    DerivativeLinear(f, g, h, a, b, step, x);
    DerivativeLinear(f, g, h, a, b, step, x + step);
    DerivativeLinear(f, g, h, a, b, step, x - step);
    DerivativeLinear(Derivative(f, step), Derivative(g, step), Derivative(h, step), a, b, step, x);
  }

  lemma {:induction false} DifferenceLinear(a: real, b: real, fp: real, fm: real, gp: real, gm: real, d: real)
    requires d != 0.0
    ensures (Mix(a, fp, b, gp) - Mix(a, fm, b, gm)) / d == Mix(a, (fp - fm) / d, b, (gp - gm) / d)
  {
    var u, v := (fp - fm) / d, (gp - gm) / d;
    assert fp - fm == u * d && gp - gm == v * d;
    assert Mix(a, fp, b, gp) - Mix(a, fm, b, gm) == (a * u + b * v) * d;
  }

  /** The three-point average is linear in f. */
  lemma {:induction false} ThreePointLinear(w1: real, w2: real, w3: real, h: real -> Result<real>,
                                            a: real, f: real -> Result<real>, b: real, g: real -> Result<real>,
                                            agrid: map<int, real>, j: int)
    requires HasKeys(agrid, j - 1, j + 1)
    requires Combines(h, a, f, b, g)
    ensures ThreePoint(w1, w2, w3, f, agrid, j).Success? && ThreePoint(w1, w2, w3, g, agrid, j).Success?
    ensures ThreePoint(w1, w2, w3, h, agrid, j).Success?
    ensures ThreePoint(w1, w2, w3, h, agrid, j).value ==
      Mix(a, ThreePoint(w1, w2, w3, f, agrid, j).value, b, ThreePoint(w1, w2, w3, g, agrid, j).value)
  {
    var xl, xm, xr := agrid[j - 1], agrid[j], agrid[j + 1];
    assert CombinesAt(h, a, f, b, g, xl) && CombinesAt(h, a, f, b, g, xm) && CombinesAt(h, a, f, b, g, xr);
    Weighted3Linear(w1, w2, w3, a, b, f(xl).value, f(xm).value, f(xr).value, g(xl).value, g(xm).value, g(xr).value,
                    h(xl).value, h(xm).value, h(xr).value);
  }

  /** The edge stencil of the projection rules is linear in f. */
  lemma {:induction false} EdgeStencilLinear(w1: real, w2: real, w3: real, h: real -> Result<real>,
                                             a: real, f: real -> Result<real>, b: real, g: real -> Result<real>,
                                             grid: map<int, real>, lo: int)
    requires HasKeys(grid, lo, lo + 1)
    requires Combines(h, a, f, b, g)
    ensures EdgeStencil(w1, w2, w3, f, grid, lo).Success? && EdgeStencil(w1, w2, w3, g, grid, lo).Success?
    ensures EdgeStencil(w1, w2, w3, h, grid, lo).Success?
    ensures EdgeStencil(w1, w2, w3, h, grid, lo).value ==
      Mix(a, EdgeStencil(w1, w2, w3, f, grid, lo).value, b, EdgeStencil(w1, w2, w3, g, grid, lo).value)
  {
    var p, q := grid[lo], grid[lo + 1];
    var m := 0.5 * (p + q);
    assert CombinesAt(h, a, f, b, g, p) && CombinesAt(h, a, f, b, g, m) && CombinesAt(h, a, f, b, g, q);
    Weighted3Linear(w1, w2, w3, a, b, f(p).value, f(m).value, f(q).value, g(p).value, g(m).value, g(q).value,
                    h(p).value, h(m).value, h(q).value);
  }

  /** The five-point stencil of the projection rules is linear in f. */
  lemma {:induction false} InteriorStencilLinear(w0: real, w1: real, w2: real, w3: real, w4: real, h: real -> Result<real>,
                                                 a: real, f: real -> Result<real>, b: real, g: real -> Result<real>,
                                                 grid: map<int, real>, j: int)
    requires HasKeys(grid, j, j + 3)
    requires Combines(h, a, f, b, g)
    ensures InteriorStencil(w0, w1, w2, w3, w4, f, grid, j).Success?
    ensures InteriorStencil(w0, w1, w2, w3, w4, g, grid, j).Success?
    ensures InteriorStencil(w0, w1, w2, w3, w4, h, grid, j).Success?
    ensures InteriorStencil(w0, w1, w2, w3, w4, h, grid, j).value ==
      Mix(a, InteriorStencil(w0, w1, w2, w3, w4, f, grid, j).value,
          b, InteriorStencil(w0, w1, w2, w3, w4, g, grid, j).value)
  {
    var g0, g1, g2, g3 := grid[j], grid[j + 1], grid[j + 2], grid[j + 3];
    var x1, x2, x3 := 0.5 * (g0 + g1), 0.5 * (g1 + g2), 0.5 * (g2 + g3);
    assert CombinesAt(h, a, f, b, g, g0) && CombinesAt(h, a, f, b, g, x1) && CombinesAt(h, a, f, b, g, x2);
    assert CombinesAt(h, a, f, b, g, x3) && CombinesAt(h, a, f, b, g, g3);
    Weighted5Linear(w0, w1, w2, w3, w4, a, b, f(g0).value, f(x1).value, f(x2).value, f(x3).value, f(g3).value,
                    g(g0).value, g(x1).value, g(x2).value, g(x3).value, g(g3).value,
                    h(g0).value, h(x1).value, h(x2).value, h(x3).value, h(g3).value);
  }

  /** Affine is linear in (v, d): if the value and the difference of h are
      a f + b g, so is the corrected value. */
  lemma {:induction false} AffineLinear(p: real, a: real, b: real, fv: real, fd: real, gv: real, gd: real, hv: real, hd: real)
    requires hv == Mix(a, fv, b, gv) && hd == Mix(a, fd, b, gd)
    ensures Affine(hv, p, hd) == Mix(a, Affine(fv, p, fd), b, Affine(gv, p, gd))
  {
  }

  /** Functional j of rule t maps a f + b g to a times its value on f plus
      b times its value on g, all three defined. */
  ghost predicate LinearAt(t: ApproximationType, el: Elementary, n: int, j: int,
                           h: real -> Result<real>, a: real, f: real -> Result<real>, b: real, g: real -> Result<real>,
                           grid: map<int, real>, agrid: map<int, real>)
  {
    FunctionalValue(t, el, n, j, f, grid, agrid).Success? &&
    FunctionalValue(t, el, n, j, g, grid, agrid).Success? &&
    FunctionalValue(t, el, n, j, h, grid, agrid).Success? &&
    FunctionalValue(t, el, n, j, h, grid, agrid).value ==
      Mix(a, FunctionalValue(t, el, n, j, f, grid, agrid).value, b, FunctionalValue(t, el, n, j, g, grid, agrid).value)
  }

  /** ShoenbergMarsden and Averaging are linear in f. */
  lemma {:induction false} AveragingLinear(t: ApproximationType, el: Elementary, n: int, j: int,
                                           h: real -> Result<real>, a: real, f: real -> Result<real>, b: real, g: real -> Result<real>,
                                           grid: map<int, real>, agrid: map<int, real>)
    requires t.ShoenbergMarsden? || t.Averaging?
    requires -2 <= j <= n - 1
    requires HasKeys(agrid, -2, n - 1)
    requires Combines(h, a, f, b, g)
    ensures LinearAt(t, el, n, j, h, a, f, b, g, grid, agrid)
  {
    assert CombinesAt(h, a, f, b, g, agrid[j]);
    if t.Averaging? && !(j == -2 || j == n - 1) {
      ThreePointLinear(-1.0 / 8.0, 5.0 / 4.0, -1.0 / 8.0, h, a, f, b, g, agrid, j);
    }
  }

  /** DeBoorFix0 is linear in f: so are the first and second central
      differences it adds. */
  lemma {:induction false} DeBoorFix0Linear(el: Elementary, n: int, j: int,
                                            h: real -> Result<real>, a: real, f: real -> Result<real>, b: real, g: real -> Result<real>,
                                            grid: map<int, real>, agrid: map<int, real>)
    requires HasKeys(grid, j, j + 2)
    requires Combines(h, a, f, b, g)
    ensures LinearAt(DeBoorFix0, el, n, j, h, a, f, b, g, grid, agrid)
  {
    SecondDerivativeLinear(f, g, h, a, b, Step, grid[j]);
    DeBoorFix0LinearAt(el, n, j, h, a, f, b, g, grid, agrid);
  }

  /** DeBoorFix0Linear from the three combinations it reads at grid[j]. */
  lemma {:induction false} DeBoorFix0LinearAt(el: Elementary, n: int, j: int,
                                              h: real -> Result<real>, a: real, f: real -> Result<real>, b: real, g: real -> Result<real>,
                                              grid: map<int, real>, agrid: map<int, real>)
    requires HasKeys(grid, j, j + 2)
    requires CombinesAt(h, a, f, b, g, grid[j])
    requires CombinesAt(Derivative(h, Step), a, Derivative(f, Step), b, Derivative(g, Step), grid[j])
    requires CombinesAt(Derivative(Derivative(h, Step), Step), a, Derivative(Derivative(f, Step), Step), b,
                        Derivative(Derivative(g, Step), Step), grid[j])
    ensures LinearAt(DeBoorFix0, el, n, j, h, a, f, b, g, grid, agrid)
  {
    var x := grid[j];
    var w := DeBoorFix0Multipliers(x, grid[j + 1], grid[j + 2]);
    var p, q := w.0, w.1;
    var fv, fd, fe := f(x).value, Derivative(f, Step)(x).value, Derivative(Derivative(f, Step), Step)(x).value;
    var gv, gd, ge := g(x).value, Derivative(g, Step)(x).value, Derivative(Derivative(g, Step), Step)(x).value;
    var hv, hd, he := h(x).value, Derivative(h, Step)(x).value, Derivative(Derivative(h, Step), Step)(x).value;
    AffineLinear(p, a, b, fv, fd, gv, gd, hv, hd);
    AffineLinear(q, a, b, Affine(fv, p, fd), fe, Affine(gv, p, gd), ge, Affine(hv, p, hd), he);
    assert FunctionalValue(DeBoorFix0, el, n, j, f, grid, agrid) == Success(Affine(Affine(fv, p, fd), q, fe));
    assert FunctionalValue(DeBoorFix0, el, n, j, g, grid, agrid) == Success(Affine(Affine(gv, p, gd), q, ge));
    assert FunctionalValue(DeBoorFix0, el, n, j, h, grid, agrid) == Success(Affine(Affine(hv, p, hd), q, he));
  }

  /** DeBoorFix1 is linear in f: so is the central difference it adds. */
  lemma {:induction false} DeBoorFix1Linear(el: Elementary, n: int, j: int,
                                            h: real -> Result<real>, a: real, f: real -> Result<real>, b: real, g: real -> Result<real>,
                                            grid: map<int, real>, agrid: map<int, real>)
    requires HasKeys(grid, j + 1, j + 2)
    requires Combines(h, a, f, b, g)
    ensures LinearAt(DeBoorFix1, el, n, j, h, a, f, b, g, grid, agrid)
  {
    SecondDerivativeLinear(f, g, h, a, b, Step, grid[j + 1]);
    DeBoorFix1LinearAt(el, n, j, h, a, f, b, g, grid, agrid);
  }

  /** DeBoorFix1Linear from the two combinations it reads at grid[j + 1]. */
  lemma {:induction false} DeBoorFix1LinearAt(el: Elementary, n: int, j: int,
                                              h: real -> Result<real>, a: real, f: real -> Result<real>, b: real, g: real -> Result<real>,
                                              grid: map<int, real>, agrid: map<int, real>)
    requires HasKeys(grid, j + 1, j + 2)
    requires CombinesAt(h, a, f, b, g, grid[j + 1])
    requires CombinesAt(Derivative(h, Step), a, Derivative(f, Step), b, Derivative(g, Step), grid[j + 1])
    ensures LinearAt(DeBoorFix1, el, n, j, h, a, f, b, g, grid, agrid)
  {
    var x := grid[j + 1];
    var p := 0.5 * (grid[j + 2] - x);
    AffineLinear(p, a, b, f(x).value, Derivative(f, Step)(x).value,
                 g(x).value, Derivative(g, Step)(x).value, h(x).value, Derivative(h, Step)(x).value);
    assert FunctionalValue(DeBoorFix1, el, n, j, f, grid, agrid) == Success(Affine(f(x).value, p, Derivative(f, Step)(x).value));
    assert FunctionalValue(DeBoorFix1, el, n, j, g, grid, agrid) == Success(Affine(g(x).value, p, Derivative(g, Step)(x).value));
    assert FunctionalValue(DeBoorFix1, el, n, j, h, grid, agrid) == Success(Affine(h(x).value, p, Derivative(h, Step)(x).value));
  }

  /** DeBoorFix2 is linear in f: so is the central difference it subtracts. */
  lemma {:induction false} DeBoorFix2Linear(el: Elementary, n: int, j: int,
                                            h: real -> Result<real>, a: real, f: real -> Result<real>, b: real, g: real -> Result<real>,
                                            grid: map<int, real>, agrid: map<int, real>)
    requires HasKeys(grid, j + 1, j + 2)
    requires Combines(h, a, f, b, g)
    ensures LinearAt(DeBoorFix2, el, n, j, h, a, f, b, g, grid, agrid)
  {
    SecondDerivativeLinear(f, g, h, a, b, Step, grid[j + 2]);
    DeBoorFix2LinearAt(el, n, j, h, a, f, b, g, grid, agrid);
  }

  /** DeBoorFix2Linear from the two combinations it reads at grid[j + 2]. */
  lemma {:induction false} DeBoorFix2LinearAt(el: Elementary, n: int, j: int,
                                              h: real -> Result<real>, a: real, f: real -> Result<real>, b: real, g: real -> Result<real>,
                                              grid: map<int, real>, agrid: map<int, real>)
    requires HasKeys(grid, j + 1, j + 2)
    requires CombinesAt(h, a, f, b, g, grid[j + 2])
    requires CombinesAt(Derivative(h, Step), a, Derivative(f, Step), b, Derivative(g, Step), grid[j + 2])
    ensures LinearAt(DeBoorFix2, el, n, j, h, a, f, b, g, grid, agrid)
  {
    var x := grid[j + 2];
    var p := -0.5 * (x - grid[j + 1]);
    AffineLinear(p, a, b, f(x).value, Derivative(f, Step)(x).value,
                 g(x).value, Derivative(g, Step)(x).value, h(x).value, Derivative(h, Step)(x).value);
    assert FunctionalValue(DeBoorFix2, el, n, j, f, grid, agrid) == Success(Affine(f(x).value, p, Derivative(f, Step)(x).value));
    assert FunctionalValue(DeBoorFix2, el, n, j, g, grid, agrid) == Success(Affine(g(x).value, p, Derivative(g, Step)(x).value));
    assert FunctionalValue(DeBoorFix2, el, n, j, h, grid, agrid) == Success(Affine(h(x).value, p, Derivative(h, Step)(x).value));
  }

  /** Proectional is linear in f. */
  lemma {:induction false} ProectionalLinear(el: Elementary, n: int, j: int,
                                             h: real -> Result<real>, a: real, f: real -> Result<real>, b: real, g: real -> Result<real>,
                                             grid: map<int, real>, agrid: map<int, real>)
    requires -2 <= j <= n - 1
    requires HasKeys(grid, -2, n + 2)
    requires Combines(h, a, f, b, g)
    ensures LinearAt(Proectional, el, n, j, h, a, f, b, g, grid, agrid)
  {
    if j == -2 {
      assert CombinesAt(h, a, f, b, g, grid[0]);
    } else if j == n - 1 {
      assert CombinesAt(h, a, f, b, g, grid[n]);
    } else if j == -1 {
      EdgeStencilLinear(-1.0 / 2.0, 2.0, -1.0 / 2.0, h, a, f, b, g, grid, 0);
    } else if j == n - 2 {
      EdgeStencilLinear(-1.0 / 2.0, 2.0, -1.0 / 2.0, h, a, f, b, g, grid, n - 1);
    } else {
      InteriorStencilLinear(1.0 / 14.0, -2.0 / 7.0, 10.0 / 7.0, -2.0 / 7.0, 1.0 / 14.0, h, a, f, b, g, grid, j);
    }
  }

  /** Every algebraic rule is linear in f: on grids with the keys -2..N+2 and
      -2..N-1, functional j of a f + b g is a times functional j of f plus b
      times functional j of g, for functions that never throw. */
  lemma {:induction false} AlgebraicRulesLinear(t: ApproximationType, el: Elementary, n: int, j: int,
                                                h: real -> Result<real>, a: real, f: real -> Result<real>, b: real, g: real -> Result<real>,
                                                grid: map<int, real>, agrid: map<int, real>)
    requires SplineConstructor.IsAlgebraic(t)
    requires -2 <= j <= n - 1
    requires HasKeys(grid, -2, n + 2) && HasKeys(agrid, -2, n - 1)
    requires Combines(h, a, f, b, g)
    ensures FunctionalValue(t, el, n, j, f, grid, agrid).Success?
    ensures FunctionalValue(t, el, n, j, g, grid, agrid).Success?
    ensures FunctionalValue(t, el, n, j, h, grid, agrid).Success?
    ensures FunctionalValue(t, el, n, j, h, grid, agrid).value ==
      Mix(a, FunctionalValue(t, el, n, j, f, grid, agrid).value, b, FunctionalValue(t, el, n, j, g, grid, agrid).value)
  {
    if t.ShoenbergMarsden? || t.Averaging? {
      AveragingLinear(t, el, n, j, h, a, f, b, g, grid, agrid);
    } else if t.DeBoorFix0? {
      DeBoorFix0Linear(el, n, j, h, a, f, b, g, grid, agrid);
    } else if t.DeBoorFix1? {
      DeBoorFix1Linear(el, n, j, h, a, f, b, g, grid, agrid);
    } else if t.DeBoorFix2? {
      DeBoorFix2Linear(el, n, j, h, a, f, b, g, grid, agrid);
    } else {
      ProectionalLinear(el, n, j, h, a, f, b, g, grid, agrid);
    }
  }

  /** The trigonometric and hyperbolic averaging rules are linear in f
      whenever their weights are defined; the weights do not depend on f, so
      otherwise all three applications fail with the same exception. */
  lemma {:induction false} TranscendentalAveragingLinear(trig: bool, el: Elementary, n: int, j: int,
                                                         h: real -> Result<real>, a: real, f: real -> Result<real>, b: real, g: real -> Result<real>,
                                                         grid: map<int, real>, agrid: map<int, real>)
    requires -2 <= j <= n - 1
    requires HasKeys(agrid, -2, n - 1)
    requires Combines(h, a, f, b, g)
    ensures var rf, rg, rh := TranscendentalAveraging(trig, el, n, j, f, grid, agrid),
                              TranscendentalAveraging(trig, el, n, j, g, grid, agrid),
                              TranscendentalAveraging(trig, el, n, j, h, grid, agrid);
      (rf.Success? && rg.Success? && rh.Success? && rh.value == Mix(a, rf.value, b, rg.value)) ||
      (rf.Failure? && rg == rf && rh == rf)
  {
    if j == -2 || j == n - 1 {
      assert CombinesAt(h, a, f, b, g, agrid[j]);
    } else {
      var w := AveragingWeightsAt(trig, el, j, grid, agrid);
      if w.Success? {
        ThreePointLinear(w.value.0, w.value.1, w.value.2, h, a, f, b, g, agrid, j);
      }
    }
  }

  /** The trigonometric and hyperbolic projection rules are linear in f
      whenever their weights are defined; otherwise all three applications
      fail with the same exception. */
  lemma {:induction false} TranscendentalProjectionLinear(t: ApproximationType, el: Elementary, n: int, j: int,
                                                          h: real -> Result<real>, a: real, f: real -> Result<real>, b: real, g: real -> Result<real>,
                                                          grid: map<int, real>)
    requires -2 <= j <= n - 1
    requires HasKeys(grid, -2, n + 2)
    requires Combines(h, a, f, b, g)
    ensures var rf, rg, rh := TranscendentalProjection(t, el, n, j, f, grid),
                              TranscendentalProjection(t, el, n, j, g, grid),
                              TranscendentalProjection(t, el, n, j, h, grid);
      (rf.Success? && rg.Success? && rh.Success? && rh.value == Mix(a, rf.value, b, rg.value)) ||
      (rf.Failure? && rg == rf && rh == rf)
  {
    if j == -2 {
      assert CombinesAt(h, a, f, b, g, grid[0]);
    } else if j == n - 1 {
      assert CombinesAt(h, a, f, b, g, grid[n]);
    } else if j == -1 || j == n - 2 {
      var k := ProjectionWeights(t, el, grid, true);
      if k.Success? {
        EdgeStencilLinear(k.value.0, k.value.1, k.value.2, h, a, f, b, g, grid, if j == -1 then 0 else n - 1);
      }
    } else {
      var k := ProjectionWeights(t, el, grid, false);
      if k.Success? {
        InteriorStencilLinear(k.value.0, k.value.1, k.value.2, k.value.1, k.value.0, h, a, f, b, g, grid, j);
      }
    }
  }

  /** The trigonometric and hyperbolic rules are linear in f: on grids with
      the keys -2..N+2 and -2..N-1, for functions that never throw, either
      functional j of a f + b g is a times functional j of f plus b times
      functional j of g, or the weights are not defined and all three fail
      alike. */
  lemma {:induction false} TranscendentalRulesLinear(t: ApproximationType, el: Elementary, n: int, j: int,
                                                     h: real -> Result<real>, a: real, f: real -> Result<real>, b: real, g: real -> Result<real>,
                                                     grid: map<int, real>, agrid: map<int, real>)
    requires t.AveragingTrigonometric? || t.AveragingHyperbolic? || t.ProectionalTrigonometric? || t.ProectionalHyperbolic?
    requires -2 <= j <= n - 1
    requires HasKeys(grid, -2, n + 2) && HasKeys(agrid, -2, n - 1)
    requires Combines(h, a, f, b, g)
    ensures LinearAt(t, el, n, j, h, a, f, b, g, grid, agrid) ||
      (FunctionalValue(t, el, n, j, f, grid, agrid).Failure? &&
       FunctionalValue(t, el, n, j, g, grid, agrid) == FunctionalValue(t, el, n, j, f, grid, agrid) &&
       FunctionalValue(t, el, n, j, h, grid, agrid) == FunctionalValue(t, el, n, j, f, grid, agrid))
  {
    if t.AveragingTrigonometric? || t.AveragingHyperbolic? {
      TranscendentalAveragingLinear(t.AveragingTrigonometric?, el, n, j, h, a, f, b, g, grid, agrid);
    } else {
      TranscendentalProjectionLinear(t, el, n, j, h, a, f, b, g, grid);
    }
  }
}
