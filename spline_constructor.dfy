/** Minimal splines (SplineConstructor.cs): the basis function number j of the
    configured family, evaluated at a point of a grid with keys j..j+3. */
module SplineConstructor {
  import opened Common
  import opened Grids
  import opened Configuration

  /** The formulas of a family: the quadratic B-spline, or the same three
      cells with every difference d replaced through a pair of elementary
      functions (sin, cos) or (sinh, cosh) evaluated at d / 2. */
  datatype Kind = Polynomial | Transcendental(s: real -> real, c: real -> real)

  predicate IsAlgebraic(t: ApproximationType) {
    t.ShoenbergMarsden? || t.Averaging? || t.DeBoorFix0? || t.DeBoorFix1? || t.DeBoorFix2? || t.Proectional?
  }

  predicate IsTrigonometric(t: ApproximationType) {
    t.AveragingTrigonometric? || t.ProectionalTrigonometric? || t.DeBoorFix1Trigonometric? || t.DeBoorFix2Trigonometric?
  }

  predicate IsHyperbolic(t: ApproximationType) {
    t.AveragingHyperbolic? || t.ProectionalHyperbolic?
  }

  /** The family the spline switch of SplineValueAtPoint selects for t. */
  function KindOf(t: ApproximationType, el: Elementary): (r: Result<Kind>)
    ensures IsAlgebraic(t) ==> r == Success(Polynomial)
    ensures IsTrigonometric(t) ==> r == Success(Transcendental(el.sin, el.cos))
    ensures IsHyperbolic(t) ==> r == Success(Transcendental(el.sinh, el.cosh))
    ensures r.Failure? <==> !(IsAlgebraic(t) || IsTrigonometric(t) || IsHyperbolic(t))
    ensures r.Failure? ==> r.error == NotSupported
  {
    match t
    case ShoenbergMarsden | Averaging | DeBoorFix0 | DeBoorFix1 | DeBoorFix2 | Proectional =>
      Success(Polynomial)
    case AveragingTrigonometric | ProectionalTrigonometric | DeBoorFix1Trigonometric | DeBoorFix2Trigonometric =>
      Success(Transcendental(el.sin, el.cos))
    case AveragingHyperbolic | ProectionalHyperbolic =>
      Success(Transcendental(el.sinh, el.cosh))
    case Sablonniere =>
      Failure(NotSupported)
  }

  /** SplineValueAtPoint: dispatch on the configured type. */
  function SplineValueAtPoint(t: ApproximationType, el: Elementary, j: int, grid: map<int, real>, point: real): Result<real>
  {
    var kind :- KindOf(t, el);
    SplineAtPoint(kind, grid, j, point)
  }

  /** BSplineAtPoint. */
  function BSplineAtPoint(grid: map<int, real>, j: int, point: real): Result<real>
  {
    SplineAtPoint(Polynomial, grid, j, point)
  }

  /** TrigSplineAtPoint. */
  function TrigSplineAtPoint(el: Elementary, grid: map<int, real>, j: int, point: real): Result<real>
  {
    SplineAtPoint(Transcendental(el.sin, el.cos), grid, j, point)
  }

  /** HypSplineAtPoint. */
  function HypSplineAtPoint(el: Elementary, grid: map<int, real>, j: int, point: real): Result<real>
  {
    SplineAtPoint(Transcendental(el.sinh, el.cosh), grid, j, point)
  }

  /** `point >= grid[lo] && point < grid[lo + 1]`, with the short-circuit
      lookups of C#: grid[lo + 1] is read only when the first test holds. */
  function InCell(grid: map<int, real>, lo: int, point: real): (r: Result<bool>)
    ensures r.Success? <==> lo in grid && (point >= grid[lo] ==> lo + 1 in grid)
    ensures r.Success? ==> (r.value <==> lo + 1 in grid && grid[lo] <= point < grid[lo + 1])
    ensures r.Failure? ==> r.error == KeyNotFound(if lo in grid then lo + 1 else lo)
  {
    var a :- Get(grid, lo);
    if point >= a then
      var b :- Get(grid, lo + 1);
      Success(point < b)
    else
      Success(false)
  }

  /** The cell of the support of spline j that the if/else-if chain selects:
      1, 2 or 3 for [grid[j], grid[j+1]), [grid[j+1], grid[j+2]),
      [grid[j+2], grid[j+3]), 0 for the final else. */
  function Cell(grid: map<int, real>, j: int, point: real): (r: Result<int>)
    ensures HasKeys(grid, j, j + 3) ==> r.Success?
    ensures r.Success? ==> 0 <= r.value <= 3
    ensures r.Success? ==> HasKeys(grid, j, j + (if r.value == 0 then 2 else r.value))
    ensures r.Success? && r.value != 0 ==>
      grid[j + r.value - 1] <= point < grid[j + r.value]
    ensures r.Success? ==> forall k :: j <= k < j + (if r.value == 0 then 3 else r.value - 1) && k in grid && k + 1 in grid ==>
      !(grid[k] <= point < grid[k + 1])
    ensures r.Failure? ==> r.error.KeyNotFound? && j <= r.error.key <= j + 3
  {
    var first :- InCell(grid, j, point);
    if first then Success(1) else
    var second :- InCell(grid, j + 1, point);
    if second then Success(2) else
    var third :- InCell(grid, j + 2, point);
    if third then Success(3) else Success(0)
  }

  /** The evaluation shared by the three families: the same cell tests, then
      the piece formula of the family on the grid values it reads. */
  function SplineAtPoint(kind: Kind, grid: map<int, real>, j: int, point: real): Result<real>
  {
    var cell :- Cell(grid, j, point);
    if cell == 1 then
      var g2 :- Get(grid, j + 2);
      FirstPiece(kind, grid[j], grid[j + 1], g2, point)
    else if cell == 2 then
      var g3 :- Get(grid, j + 3);
      SecondPiece(kind, grid[j], grid[j + 1], grid[j + 2], g3, point)
    else if cell == 3 then
      ThirdPiece(kind, grid[j + 1], grid[j + 2], grid[j + 3], point)
    else
      Success(0.0)
  }

  /** The piece on [g0, g1). */
  function FirstPiece(kind: Kind, g0: real, g1: real, g2: real, x: real): Result<real>
  {
    match kind
    case Polynomial =>
      Div((x - g0) * (x - g0), (g0 - g1) * (g0 - g2))
    case Transcendental(s, c) =>
      Div(c(0.5 * (g2 - g1)) * s(0.5 * (x - g0)) * s(0.5 * (x - g0)),
          s(0.5 * (g1 - g0)) * s(0.5 * (g2 - g0)))
  }

  /** The piece on [g1, g2). */
  function SecondPiece(kind: Kind, g0: real, g1: real, g2: real, g3: real, x: real): Result<real>
  {
    match kind
    case Polynomial =>
      var coeff :- Div(1.0, g1 - g0);
      var first :- Div((x - g0) * (x - g0), g2 - g0);
      var second :- Div((x - g1) * (x - g1) * (g3 - g0), (g2 - g1) * (g3 - g1));
      Success(coeff * (first - second))
    case Transcendental(s, c) =>
      var coeff :- Div(c(0.5 * (g2 - g1)), s(0.5 * (g1 - g0)));
      var first :- Div(s(0.5 * (x - g0)) * s(0.5 * (x - g0)), s(0.5 * (g2 - g0)));
      var second :- Div(s(0.5 * (x - g1)) * s(0.5 * (x - g1)) * s(0.5 * (g3 - g0)),
                        s(0.5 * (g3 - g1)) * s(0.5 * (g2 - g1)));
      Success(coeff * (first - second))
  }

  /** The piece on [g2, g3). */
  function ThirdPiece(kind: Kind, g1: real, g2: real, g3: real, x: real): Result<real>
  {
    match kind
    case Polynomial =>
      Div((x - g3) * (x - g3), (g3 - g1) * (g3 - g2))
    case Transcendental(s, c) =>
      Div(c(0.5 * (g2 - g1)) * s(0.5 * (g3 - x)) * s(0.5 * (g3 - x)),
          s(0.5 * (g3 - g1)) * s(0.5 * (g3 - g2)))
  }

  /** Dispatch: the algebraic types evaluate the quadratic B-spline, the
      trigonometric types the (sin, cos) family, the hyperbolic types the
      (sinh, cosh) family; every other type throws NotSupported. */
  lemma Dispatch(t: ApproximationType, el: Elementary, j: int, grid: map<int, real>, point: real)
    ensures IsAlgebraic(t) ==> SplineValueAtPoint(t, el, j, grid, point) == BSplineAtPoint(grid, j, point)
    ensures IsTrigonometric(t) ==> SplineValueAtPoint(t, el, j, grid, point) == TrigSplineAtPoint(el, grid, j, point)
    ensures IsHyperbolic(t) ==> SplineValueAtPoint(t, el, j, grid, point) == HypSplineAtPoint(el, grid, j, point)
    ensures !(IsAlgebraic(t) || IsTrigonometric(t) || IsHyperbolic(t)) ==>
      SplineValueAtPoint(t, el, j, grid, point) == Failure(NotSupported)
  {
  }

  /** Outside [grid[j], grid[j + 3]) every family is 0: on an increasing grid
      none of the three cell tests holds. */
  lemma {:induction false} OutsideSupport(kind: Kind, grid: map<int, real>, j: int, point: real)
    requires StrictlyIncreasing(grid, j, j + 3)
    requires point < grid[j] || grid[j + 3] <= point
    ensures SplineAtPoint(kind, grid, j, point) == Success(0.0)
  {
    assert grid[j] < grid[j + 1] < grid[j + 2] < grid[j + 3];
    assert Cell(grid, j, point) == Success(0);
  }

  /** The value of spline j reads the keys j..j+3 of the grid and no others:
      two grids that agree there give the same value or the same failure. */
  lemma {:induction false} ReadsOnlySupport(kind: Kind, grid: map<int, real>, other: map<int, real>, j: int, point: real)
    requires forall k :: j <= k <= j + 3 ==> (k in grid <==> k in other)
    requires forall k :: j <= k <= j + 3 && k in grid ==> grid[k] == other[k]
    ensures SplineAtPoint(kind, grid, j, point) == SplineAtPoint(kind, other, j, point)
  {
    assert InCell(grid, j, point) == InCell(other, j, point);
    assert InCell(grid, j + 1, point) == InCell(other, j + 1, point);
    assert InCell(grid, j + 2, point) == InCell(other, j + 2, point);
    assert Cell(grid, j, point) == Cell(other, j, point);
    assert Get(grid, j + 2) == Get(other, j + 2);
    assert Get(grid, j + 3) == Get(other, j + 3);
  }

  /** With the keys j..j+3 present no lookup throws: the only failure left
      is a division by zero. */
  lemma {:induction false} KeysPresent(kind: Kind, grid: map<int, real>, j: int, point: real)
    requires HasKeys(grid, j, j + 3)
    ensures SplineAtPoint(kind, grid, j, point).Failure? ==> SplineAtPoint(kind, grid, j, point).error == NonFinite
  {
  }

  /** On a strictly increasing grid no denominator of the B-spline is zero,
      so BSplineAtPoint always yields a number. */
  lemma {:induction false} BSplineDefined(grid: map<int, real>, j: int, point: real)
    requires StrictlyIncreasing(grid, j, j + 3)
    ensures SplineAtPoint(Polynomial, grid, j, point).Success?
  {
    assert grid[j] < grid[j + 1] < grid[j + 2] < grid[j + 3];
    PiecesDefined(grid[j], grid[j + 1], grid[j + 2], grid[j + 3], point);
  }

  /** For every j in -2..N-1 the four keys j..j+3 are keys of the primary
      grid: no lookup throws, and the B-spline always yields a number. */
  lemma {:induction false} OnPrimaryGrid(c: Config, kind: Kind, j: int, point: real)
    requires c.Valid()
    requires -2 <= j <= c.gridPoints - 1
    ensures SplineAtPoint(kind, PrimaryGrid(c), j, point).Failure? ==>
      SplineAtPoint(kind, PrimaryGrid(c), j, point).error == NonFinite
    ensures SplineAtPoint(Polynomial, PrimaryGrid(c), j, point).Success?
  {
    var g := PrimaryGrid(c);
    PrimaryGridIncreasing(c);
    assert StrictlyIncreasing(g, j, j + 3);
    KeysPresent(kind, g, j, point);
    BSplineDefined(g, j, point);
  }

  /** The pieces of the B-spline with increasing knots g0 < g1 < g2 < g3
      never divide by zero. */
  lemma {:induction false} PiecesDefined(g0: real, g1: real, g2: real, g3: real, x: real)
    requires g0 < g1 < g2 < g3
    ensures FirstPiece(Polynomial, g0, g1, g2, x).Success?
    ensures SecondPiece(Polynomial, g0, g1, g2, g3, x).Success?
    ensures ThirdPiece(Polynomial, g1, g2, g3, x).Success?
  {
    FirstInSteps(g0, g1, g2, x, g1 - g0, g2 - g1, x - g0);
    SecondInSteps(g0, g1, g2, g3, x, g1 - g0, g2 - g1, g3 - g2, x - g1);
    ThirdInSteps(g1, g2, g3, x, g3 - g2, g2 - g1, g3 - x);
  }

  /** The B-spline vanishes at its first knot and, on the cells of its
      support, takes at the inner knots the common value of the two pieces
      that meet there. */
  lemma {:induction false} BSplineAtKnots(grid: map<int, real>, j: int)
    requires StrictlyIncreasing(grid, j, j + 3)
    ensures SplineAtPoint(Polynomial, grid, j, grid[j]) == Success(0.0)
    ensures SplineAtPoint(Polynomial, grid, j, grid[j + 1]) == Success((grid[j + 1] - grid[j]) / (grid[j + 2] - grid[j]))
    ensures SplineAtPoint(Polynomial, grid, j, grid[j + 2]) == Success((grid[j + 3] - grid[j + 2]) / (grid[j + 3] - grid[j + 1]))
  {
    var g0, g1, g2, g3 := grid[j], grid[j + 1], grid[j + 2], grid[j + 3];
    assert g0 < g1 < g2 < g3;
    PiecesAgreeAtKnots(g0, g1, g2, g3);
    OuterPiecesVanish(g0, g1, g2, g3);
    assert Cell(grid, j, g0) == Success(1);
    assert Cell(grid, j, g1) == Success(2);
    assert Cell(grid, j, g2) == Success(3);
  }

  /** The pieces join continuously: the first and the second piece both give
      (g1 - g0) / (g2 - g0) at g1, the second and the third both give
      (g3 - g2) / (g3 - g1) at g2. */
  lemma {:induction false} PiecesAgreeAtKnots(g0: real, g1: real, g2: real, g3: real)
    requires g0 < g1 < g2 < g3
    ensures FirstPiece(Polynomial, g0, g1, g2, g1).Success? && SecondPiece(Polynomial, g0, g1, g2, g3, g1).Success?
    ensures FirstPiece(Polynomial, g0, g1, g2, g1).value == SecondPiece(Polynomial, g0, g1, g2, g3, g1).value
         == (g1 - g0) / (g2 - g0)
    ensures SecondPiece(Polynomial, g0, g1, g2, g3, g2).Success? && ThirdPiece(Polynomial, g1, g2, g3, g2).Success?
    ensures SecondPiece(Polynomial, g0, g1, g2, g3, g2).value == ThirdPiece(Polynomial, g1, g2, g3, g2).value
         == (g3 - g2) / (g3 - g1)
  {
    FirstAtInnerKnot(g0, g1, g2, g1 - g0, g2 - g1);
    SecondAtFirstKnot(g0, g1, g2, g3, g1 - g0, g2 - g1, g3 - g2);
    SecondAtSecondKnot(g0, g1, g2, g3, g1 - g0, g2 - g1, g3 - g2);
    ThirdAtInnerKnot(g1, g2, g3, g3 - g2, g2 - g1);
  }

  /** The first piece is 0 at g0 and the third piece is 0 at g3, where the
      spline meets the zero outside its support. */
  lemma {:induction false} OuterPiecesVanish(g0: real, g1: real, g2: real, g3: real)
    requires g0 < g1 < g2 < g3
    ensures FirstPiece(Polynomial, g0, g1, g2, g0).Success? && FirstPiece(Polynomial, g0, g1, g2, g0).value == 0.0
    ensures ThirdPiece(Polynomial, g1, g2, g3, g3).Success? && ThirdPiece(Polynomial, g1, g2, g3, g3).value == 0.0
  {
    FirstInSteps(g0, g1, g2, g0, g1 - g0, g2 - g1, 0.0);
    ThirdInSteps(g1, g2, g3, g3, g3 - g2, g2 - g1, 0.0);
  }

  /** On the first and the third cell, and outside the support, the B-spline
      is non-negative: a square divided by a positive product, or 0. */
  lemma {:induction false} BSplineOuterNonNegative(grid: map<int, real>, j: int, point: real)
    requires StrictlyIncreasing(grid, j, j + 3)
    requires point < grid[j + 1] || grid[j + 2] <= point
    ensures SplineAtPoint(Polynomial, grid, j, point).Success?
    ensures SplineAtPoint(Polynomial, grid, j, point).value >= 0.0
  {
    var g0, g1, g2, g3 := grid[j], grid[j + 1], grid[j + 2], grid[j + 3];
    assert g0 < g1 < g2 < g3;
    FirstInSteps(g0, g1, g2, point, g1 - g0, g2 - g1, point - g0);
    ThirdInSteps(g1, g2, g3, point, g3 - g2, g2 - g1, g3 - point);
  }

  /* The piece formulas rewritten in the steps between the knots. Each lemma
     takes the knots and the steps together, tied by linear equations, so the
     products of the formulas are compared on plain variables. */

  /** The first piece with knots g0, g0 + a, g0 + a + h at x = g0 + u is
      u^2 / (a (a + h)): defined and non-negative. */
  lemma {:induction false} FirstInSteps(g0: real, g1: real, g2: real, x: real, a: real, h: real, u: real)
    requires a > 0.0 && h > 0.0
    requires g1 == g0 + a && g2 == g1 + h && x == g0 + u
    ensures FirstPiece(Polynomial, g0, g1, g2, x) == Div(u * u, a * (a + h))
    ensures FirstPiece(Polynomial, g0, g1, g2, x).Success?
    ensures FirstPiece(Polynomial, g0, g1, g2, x).value >= 0.0
  {
    assert (x - g0) * (x - g0) == u * u;
    assert (g0 - g1) * (g0 - g2) == a * (a + h);
    assert a * (a + h) > 0.0;
  }

  /** The third piece with knots g3 - a - h, g3 - a, g3 at x = g3 - u is
      u^2 / ((a + h) a): defined and non-negative. */
  lemma {:induction false} ThirdInSteps(g1: real, g2: real, g3: real, x: real, a: real, h: real, u: real)
    requires a > 0.0 && h > 0.0
    requires g2 == g1 + h && g3 == g2 + a && x == g3 - u
    ensures ThirdPiece(Polynomial, g1, g2, g3, x) == Div(u * u, (a + h) * a)
    ensures ThirdPiece(Polynomial, g1, g2, g3, x).Success?
    ensures ThirdPiece(Polynomial, g1, g2, g3, x).value >= 0.0
  {
    assert (x - g3) * (x - g3) == u * u;
    assert (g3 - g1) * (g3 - g2) == (a + h) * a;
    assert (a + h) * a > 0.0;
  }

  /** The second piece with knots g0, g0 + a, g0 + a + h, g0 + a + h + c at
      x = g0 + a + u: (1 / a) ((u + a)^2 / (a + h) - u^2 (a + h + c) / (h (h + c))). */
  lemma {:induction false} SecondInSteps(g0: real, g1: real, g2: real, g3: real, x: real, a: real, h: real, c: real, u: real)
    requires a > 0.0 && h > 0.0 && c > 0.0
    requires g1 == g0 + a && g2 == g1 + h && g3 == g2 + c && x == g1 + u
    ensures SecondPiece(Polynomial, g0, g1, g2, g3, x).Success?
    ensures SecondPiece(Polynomial, g0, g1, g2, g3, x).value
         == Div(1.0, a).value * (Div((u + a) * (u + a), a + h).value - Div(u * u * (a + h + c), h * (h + c)).value)
  {
    assert (x - g0) * (x - g0) == (u + a) * (u + a);
    assert (x - g1) * (x - g1) * (g3 - g0) == u * u * (a + h + c);
    assert (g2 - g1) * (g3 - g1) == h * (h + c);
    assert h * (h + c) > 0.0;
    assert Div(1.0, g1 - g0) == Div(1.0, a);
    assert Div((x - g0) * (x - g0), g2 - g0) == Div((u + a) * (u + a), a + h);
    assert Div((x - g1) * (x - g1) * (g3 - g0), (g2 - g1) * (g3 - g1)) == Div(u * u * (a + h + c), h * (h + c));
  }

  /** The first piece at its inner knot g0 + a is a / (a + h). */
  lemma {:induction false} FirstAtInnerKnot(g0: real, g1: real, g2: real, a: real, h: real)
    requires a > 0.0 && h > 0.0
    requires g1 == g0 + a && g2 == g1 + h
    ensures FirstPiece(Polynomial, g0, g1, g2, g1).Success?
    ensures FirstPiece(Polynomial, g0, g1, g2, g1).value == a / (a + h)
  {
    FirstInSteps(g0, g1, g2, g1, a, h, a);
    var v := Div(a * a, a * (a + h)).value;
    assert v * (a * (a + h)) == a * a;
    assert (v * (a + h)) * a == a * a;
    assert v * (a + h) == a;
  }

  /** The third piece at its inner knot g3 - a is a / (a + h). */
  lemma {:induction false} ThirdAtInnerKnot(g1: real, g2: real, g3: real, a: real, h: real)
    requires a > 0.0 && h > 0.0
    requires g2 == g1 + h && g3 == g2 + a
    ensures ThirdPiece(Polynomial, g1, g2, g3, g2).Success?
    ensures ThirdPiece(Polynomial, g1, g2, g3, g2).value == a / (a + h)
  {
    ThirdInSteps(g1, g2, g3, g2, a, h, a);
    var v := Div(a * a, (a + h) * a).value;
    assert v * ((a + h) * a) == a * a;
    assert (v * (a + h)) * a == a * a;
    assert v * (a + h) == a;
  }

  /** The second piece at its left end g1 = g0 + a is a / (a + h). */
  lemma {:induction false} SecondAtFirstKnot(g0: real, g1: real, g2: real, g3: real, a: real, h: real, c: real)
    requires a > 0.0 && h > 0.0 && c > 0.0
    requires g1 == g0 + a && g2 == g1 + h && g3 == g2 + c
    ensures SecondPiece(Polynomial, g0, g1, g2, g3, g1).Success?
    ensures SecondPiece(Polynomial, g0, g1, g2, g3, g1).value == a / (a + h)
  {
    SecondInSteps(g0, g1, g2, g3, g1, a, h, c, 0.0);
    var coeff := Div(1.0, a).value;
    var first := Div((0.0 + a) * (0.0 + a), a + h).value;
    var second := Div(0.0 * 0.0 * (a + h + c), h * (h + c)).value;
    assert second == 0.0;
    assert coeff * a == 1.0;
    assert first * (a + h) == a * a;
    assert coeff * first * (a + h) == a;
  }

  /** The second piece at its right end g2 = g1 + h is c / (h + c). */
  lemma {:induction false} SecondAtSecondKnot(g0: real, g1: real, g2: real, g3: real, a: real, h: real, c: real)
    requires a > 0.0 && h > 0.0 && c > 0.0
    requires g1 == g0 + a && g2 == g1 + h && g3 == g2 + c
    ensures SecondPiece(Polynomial, g0, g1, g2, g3, g2).Success?
    ensures SecondPiece(Polynomial, g0, g1, g2, g3, g2).value == c / (h + c)
  {
    SecondInSteps(g0, g1, g2, g3, g2, a, h, c, h);
    assert h * (h + c) > 0.0;
    SecondKnotValue(a, h, c, Div(1.0, a).value, Div((h + a) * (h + a), a + h).value,
                    Div(h * h * (a + h + c), h * (h + c)).value);
  }

  /** The arithmetic of SecondAtSecondKnot: with coeff = 1 / a,
      first = (h + a)^2 / (a + h) and second = h^2 (a + h + c) / (h (h + c)),
      coeff (first - second) = c / (h + c). */
  lemma {:induction false} SecondKnotValue(a: real, h: real, c: real, coeff: real, first: real, second: real)
    requires a > 0.0 && h > 0.0 && c > 0.0
    requires coeff * a == 1.0
    requires first * (a + h) == (h + a) * (h + a)
    requires second * (h * (h + c)) == h * h * (a + h + c)
    ensures coeff * (first - second) == c / (h + c)
  {
    CancelFactor(first, a + h, a + h);
    assert (second * (h + c)) * h == (h * (a + h + c)) * h;
    CancelFactor(second * (h + c), h * (a + h + c), h);
    assert (first - second) * (h + c) == a * c;
    assert coeff * (first - second) * (h + c) == c;
  }

  /** A non-zero factor cancels. */
  lemma {:induction false} CancelFactor(x: real, y: real, d: real)
    requires d != 0.0
    requires x * d == y * d
    ensures x == y
  {
    assert (x - y) * d == 0.0;
  }
}
