# FredholmSolver core in Dafny

This project models the exact-arithmetic skeleton of FredholmSolver, a C#
solver for the second-kind Fredholm integral equation
u(s) = f(s) + ∫ K(s,t) u(t) dt on [Left, Right]. The solver works by
collocation with minimal splines. The model covers these parts:

- **Grids** (`grids.dfy`, and the `InitializeGrid` / `InitializeAdditionalGrid`
  methods in `engine.dfy`). The primary grid has the keys -2..N+2: N+1 uniform
  nodes on [Left, Right], plus two fictitious nodes Eps apart on each side. The
  auxiliary grid has the keys -2..N-1: cell midpoints, with both ends pinned to
  Left and Right.
- **Minimal splines** (`spline_constructor.dfy`). The quadratic B-spline and its
  trigonometric and hyperbolic analogues share one three-cell evaluation. Each
  family has its own piece formulas. A dispatch on `ApproximationType` selects
  the family.
- **Projection functionals** (`functional_constructor.dfy`). This module models
  every case of `FunctionalValue`: pointwise sampling, three-point averaging,
  the de Boor rules with central differences, the exact-projection stencils,
  and their trigonometric and hyperbolic variants. The variants derive their
  weights by Cramer's rule.
- **System assembly and evaluation** (`engine.dfy`). The `ApproximationEngine`
  class owns the two grid dictionaries. Its methods build I, M, I - M and mu in
  nested loops, solve for the coefficients, and evaluate the three
  approximations.
- **Linear solver** (`math_utils.dfy`). Gaussian elimination without pivoting
  runs in place on an `array2<real>` and an `array<real>`. The wrapper shifts
  the keys -2..N-1 to the array indices 0..N+1 and back.

C# `double` is Dafny `real`. A `Dictionary<int, double>` is a `map<int, real>`.
Every lookup goes through `Common.Get`, which returns
`Failure(KeyNotFound(k))` for a missing key. A division by zero, which gives
an infinity or NaN in IEEE arithmetic, returns `Failure(NonFinite)`. Both
`default:` branches return `Failure(NotSupported)`. `Math.Sin`, `Math.Cos`,
`Math.Sinh` and `Math.Cosh` are the uninterpreted arrows of
`Configuration.Elementary`. The quadrature routine is the uninterpreted
`Configuration.Quadrature`. The static `Configuration` class becomes the
`Configuration.Config` parameter. Its validity predicate states what the code
takes for granted: GridPoints ≥ 1, Left < Right and Eps > 0.

`ApproximationType` lists the 12 cases named in the two switches, plus
`Sablonniere`, the value the shipped configuration selects
(FredholmSolver/Configuration.cs:26). Neither switch names `Sablonniere`, so
every spline and functional evaluation throws `NotSupported` under the shipped
configuration. The algebraic three-point averaging rule is the case named
`Averaging`.

The spline switch accepts `DeBoorFix1Trigonometric` and
`DeBoorFix2Trigonometric`, but the functional switch throws for them. The model
keeps this mismatch, and `FunctionalConstructor.UnsupportedRules` states it.

An unsupported rule is rejected at the first call that dispatches on it, not
when the engine is constructed. The C# code divides by a zero pivot and goes on
with non-finite numbers; the model reports `NonFinite`.

## Model

| member | source | states |
|---|---|---|
| `Grids.UniformPoint` | FredholmSolver/ApproximationEngine.cs:187-189 | computes node i of the uniform part, Left + (1.0·i/N)·(Right - Left) |
| `Grids.PrimaryGrid` | FredholmSolver/ApproximationEngine.cs:181-196 | computes, as a value, the dictionary InitializeGrid builds: the uniform nodes under 0..N, then grid[-1] = grid[0] - Eps, grid[-2] = grid[0] - 2Eps, grid[N+1] = grid[N] + Eps, grid[N+2] = grid[N] + 2Eps; `InitializeGrid` is proved to build exactly this dictionary |
| `Grids.AuxiliaryPoint` | FredholmSolver/ApproximationEngine.cs:205-211 | computes auxiliary entry i: grid[0] for i = -2, grid[N] for i = N-1, otherwise 0.5·(grid[i+1] + grid[i+2]) |
| `Grids.AuxiliaryGrid` | FredholmSolver/ApproximationEngine.cs:201-212 | computes, as a value, the dictionary InitializeAdditionalGrid builds over the keys -2..N-1; `InitializeAdditionalGrid` is proved to build exactly this dictionary |
| `Grids.PrimaryGridShape` | FredholmSolver/ApproximationEngine.cs:181-196 | the primary grid has exactly the keys -2..N+2, with grid[0] = Left, grid[N] = Right, and the fictitious nodes at Left - 2Eps, Left - Eps, Right + Eps and Right + 2Eps |
| `Grids.UniformStep` | FredholmSolver/ApproximationEngine.cs:187-189 | consecutive uniform nodes Left + (i/N)(Right - Left) increase strictly when Left < Right |
| `Grids.PrimaryGridIncreasing` | FredholmSolver/ApproximationEngine.cs:185-195 | with Left < Right, Eps > 0 and N ≥ 1, the primary grid is strictly increasing over all of -2..N+2 |
| `Grids.ChainIncreasing` | FredholmSolver/ApproximationEngine.cs:185-195 | a dictionary that increases from each key to the next is strictly increasing over the whole key range |
| `Grids.AuxiliaryGridShape` | FredholmSolver/ApproximationEngine.cs:201-212 | the auxiliary grid has exactly the keys -2..N-1; entry i for -1 ≤ i ≤ N-2 is the midpoint of grid[i+1] and grid[i+2]; entry -2 is Left and entry N-1 is Right |
| `Grids.AuxiliaryStep` | FredholmSolver/ApproximationEngine.cs:205-211 | neighbouring auxiliary entries increase strictly, including at the two pinned ends |
| `Grids.AuxiliaryWithin` | FredholmSolver/ApproximationEngine.cs:205-211 | every auxiliary entry lies in [Left, Right] |
| `Grids.AuxiliaryGridIncreasing` | FredholmSolver/ApproximationEngine.cs:205-211 | the auxiliary grid is strictly increasing over -2..N-1 and lies within [Left, Right] |
| `Engine.ApproximationEngine.constructor` | FredholmSolver/ApproximationEngine.cs:21-25 | after construction, `grid` and `additionalGrid` are the two grids of the configuration |
| `Engine.ApproximationEngine.InitializeGrid` | FredholmSolver/ApproximationEngine.cs:181-196 | the loop over 0..N and the four fictitious assignments leave `grid` equal to the primary grid and change nothing else |
| `Engine.ApproximationEngine.InitializeAdditionalGrid` | FredholmSolver/ApproximationEngine.cs:201-212 | the midpoint loop over -1..N-2 and the two pinned ends leave `additionalGrid` equal to the auxiliary grid; `grid` is unchanged |
| `Engine.ApproximationEngine.IMatrix` | FredholmSolver/ApproximationEngine.cs:109-121 | the key set is exactly [-2,N-1]², and the value is 1 on the diagonal and 0 elsewhere |
| `Engine.ApproximationEngine.MMatrix` | FredholmSolver/ApproximationEngine.cs:126-138 | on success there is one entry per pair in [-2,N-1]², and entry (j,i) is functional j applied to Omega_i~; the result fails exactly when some entry throws, and then with the exception of the first such entry in loop order |
| `Engine.ApproximationEngine.IMinusMMatrix` | FredholmSolver/ApproximationEngine.cs:88-104 | the key set is the same, and each entry is I[key] - M[key]; an exception of M propagates |
| `Engine.ApproximationEngine.MuVector` | FredholmSolver/ApproximationEngine.cs:143-152 | on success the keys are exactly -2..N-1, and entry i is functional i applied to F; otherwise it fails with the first exception in loop order |
| `Engine.ApproximationEngine.FindCoeffs` | FredholmSolver/ApproximationEngine.cs:76-83 | it succeeds exactly when M and mu are defined and no pivot is zero; the coefficients, keyed -2..N-1, then solve (I - M) c = mu; otherwise it fails with the first exception of M, then of mu, then `NonFinite` |
| `Engine.ApproximationEngine.CollocationEquations` | FredholmSolver/ApproximationEngine.cs:88-100 | x solves (I - M) x = mu exactly when x_j = mu_j + Σ_i M[j,i] x_i for every j (both directions) |
| `Engine.ApproximationEngine.ApproxFunction` | FredholmSolver/ApproximationEngine.cs:60-70 | the result is the sum over i in -2..N-1 of FunctionalValue(i, func) · B_i(point). An exception thrown by func propagates as the Failure of the sum. For an algebraic rule on a constructed engine and a func that never throws, the result is always a number |
| `Engine.ApproximationEngine.ApproxInPoint` | FredholmSolver/ApproximationEngine.cs:30-42 | the result is the sum of c_i · B_i(point) over the coefficient keys -2..N-1, where c solves (I - M) c = mu; when the system is not solvable, it is the failure of FindCoeffs |
| `Engine.ApproximationEngine.ApproxSloanInPoint` | FredholmSolver/ApproximationEngine.cs:47-58 | the result is F(point) + Σ c_i · Omega_i~(point) with the same solving coefficients; when the system is not solvable, it is the failure of FindCoeffs |
| `Engine.UnderIntegral` | FredholmSolver/ApproximationEngine.cs:174-175 | computes the integrand x ↦ K(t, x)·B_i(x) of Omega_i~, where B_i is spline i of the configured family on the primary grid; an exception of the spline (NotSupported, a missing key) propagates |
| `Engine.OmegaWave` | FredholmSolver/ApproximationEngine.cs:160-172 | computes Omega_i~ as t ↦ the quadrature of UnderIntegral(i, t) over [Left, Right] |
| `Engine.Series` | FredholmSolver/ApproximationEngine.cs:62-68 | computes the sum of w(i)·b(i) for i = -2..k-1 in ascending order: w(i) is evaluated before b(i), and the first exception ends the sum with that exception; `Accumulate` is proved to compute it |
| `Engine.ApproximationEngine.MElement` | FredholmSolver/ApproximationEngine.cs:157-158 | computes entry (j, i) of M: FunctionalValue(j) of the configured rule applied to Omega_i~ on the current `grid` and `additionalGrid` |
| `Engine.ApproximationEngine.MuElement` | FredholmSolver/ApproximationEngine.cs:148 | computes entry i of mu: FunctionalValue(i) of the configured rule applied to F on the current grids |
| `Engine.Accumulate` | FredholmSolver/ApproximationEngine.cs:62-68 | the `value +=` loop over i = -2..n-1 computes the left-to-right series of weight · spline and stops at the first exception |
| `Engine.SeriesStep` | FredholmSolver/ApproximationEngine.cs:63-66 | one more loop step adds weight(k) · spline(k) to the partial sum |
| `Engine.SeriesStops` | FredholmSolver/ApproximationEngine.cs:63-66 | a throwing weight, or else a throwing spline, ends the sum with its exception |
| `Engine.SeriesFailureStays` | FredholmSolver/ApproximationEngine.cs:62-68 | a failed partial sum fails the whole sum with the same exception |
| `Engine.SeriesZeroTerms` | FredholmSolver/ApproximationEngine.cs:62-68 | terms whose spline value is 0 leave the sum unchanged |
| `Engine.SeriesOutside` | FredholmSolver/ApproximationEngine.cs:60-70 | outside [grid[-2], grid[N+2]) every supported family makes the approximation 0 |
| `Engine.SeriesDefined` | FredholmSolver/ApproximationEngine.cs:60-70 | for an algebraic rule the sum fails only if a weight fails |
| `Engine.ApproximationDefined` | FredholmSolver/ApproximationEngine.cs:60-70 | for an algebraic rule on the configured grids, ApproxFunction of a function that never fails is always a number |
| `Engine.BSplineZeroAtNode` | FredholmSolver/SplineConstructor.cs:40-71 | on an increasing grid, every B-spline except B_{m-2} and B_{m-1} is 0 at node grid[m] |
| `Engine.BSplinesSumToOneAtNode` | FredholmSolver/SplineConstructor.cs:43-66 | B_{m-2}(grid[m]) + B_{m-1}(grid[m]) = 1 (partition of unity at the nodes) |
| `Engine.BasisAtNode` | FredholmSolver/SplineConstructor.cs:18-71 | for an algebraic rule the basis at node grid[m], 0 ≤ m ≤ N, is 0 except at m-2 and m-1, whose values add up to 1 |
| `Engine.NodeSeries` | FredholmSolver/ApproximationEngine.cs:62-68 | a series with all weights v and basis values that are 0 except two summing to 1 equals v |
| `Engine.WeightsOfConstant` | FredholmSolver/ApproximationEngine.cs:65 | every algebraic functional maps the constant v to v for every basis index |
| `Engine.ConstantsReproducedAtNodes` | FredholmSolver/ApproximationEngine.cs:60-70 | for the algebraic rules, ApproxFunction of a constant v gives v at every node of [Left, Right] |
| `Engine.DotIdentityMinus` | FredholmSolver/ApproximationEngine.cs:94-100 | a row of I - M against x is x_p minus the row of M against x |
| `Engine.DotUnitFrom` | FredholmSolver/ApproximationEngine.cs:116 | an identity row picks out entry p of x |
| `SplineConstructor.SplineValueAtPoint` | FredholmSolver/SplineConstructor.cs:12-38 | computes spline j at point: the family KindOf selects, evaluated by SplineAtPoint; an unsupported type throws NotSupported before any lookup |
| `SplineConstructor.BSplineAtPoint` | FredholmSolver/SplineConstructor.cs:40-71 | computes the quadratic B-spline: SplineAtPoint with the polynomial pieces |
| `SplineConstructor.TrigSplineAtPoint` | FredholmSolver/SplineConstructor.cs:73-118 | computes the trigonometric spline: SplineAtPoint with every difference d read as sin(d/2), and the factor cos((g2-g1)/2) |
| `SplineConstructor.HypSplineAtPoint` | FredholmSolver/SplineConstructor.cs:120-164 | computes the hyperbolic spline: the same with sinh and cosh |
| `SplineConstructor.SplineAtPoint` | FredholmSolver/SplineConstructor.cs:43-70 | computes the if/else-if chain shared by the three families: the cell tests of Cell (grid[j], then grid[j+1] only when point ≥ grid[j], and so on), then the piece of that cell; the first piece reads grid[j+2] and the second grid[j+3] before dividing; 0 in the final else |
| `SplineConstructor.FirstPiece` | FredholmSolver/SplineConstructor.cs:45-48 | computes (x - g0)²/((g0 - g1)(g0 - g2)), or its sin/sinh analogue, with NonFinite for a zero denominator |
| `SplineConstructor.SecondPiece` | FredholmSolver/SplineConstructor.cs:52-58 | computes coeff·(first - second) with the three divisions of the source in their order; the first zero denominator gives NonFinite |
| `SplineConstructor.ThirdPiece` | FredholmSolver/SplineConstructor.cs:62-65 | computes (x - g3)²/((g3 - g1)(g3 - g2)), or its sin/sinh analogue, with NonFinite for a zero denominator |
| `SplineConstructor.KindOf` | FredholmSolver/SplineConstructor.cs:18-37 | the algebraic types select the B-spline, the trigonometric types (sin, cos), and the hyperbolic types (sinh, cosh); every other type, and only those, gives `NotSupported` |
| `SplineConstructor.Dispatch` | FredholmSolver/SplineConstructor.cs:18-37 | SplineValueAtPoint is BSplineAtPoint, TrigSplineAtPoint or HypSplineAtPoint according to the family, and throws `NotSupported` otherwise |
| `SplineConstructor.InCell` | FredholmSolver/SplineConstructor.cs:43 | the cell test `point >= grid[lo] && point < grid[lo+1]` with short-circuit lookups: it throws exactly when a key it reads is missing |
| `SplineConstructor.Cell` | FredholmSolver/SplineConstructor.cs:43-70 | the if/else-if chain shared by all three families selects the first cell of grid[j..j+3] that contains the point, or 0 for none; it reads only the keys j..j+3 |
| `SplineConstructor.OutsideSupport` | FredholmSolver/SplineConstructor.cs:67-70 | on an increasing grid every family is 0 when point < grid[j] or point ≥ grid[j+3] |
| `SplineConstructor.ReadsOnlySupport` | FredholmSolver/SplineConstructor.cs:40-71 | two grids that agree on the keys j..j+3 give the same value or the same failure |
| `SplineConstructor.KeysPresent` | FredholmSolver/SplineConstructor.cs:40-164 | with the keys j..j+3 present, no lookup throws; the only possible failure is division by zero |
| `SplineConstructor.BSplineDefined` | FredholmSolver/SplineConstructor.cs:40-71 | on a strictly increasing grid the B-spline never divides by zero |
| `SplineConstructor.OnPrimaryGrid` | FredholmSolver/SplineConstructor.cs:40-71 | for every j in -2..N-1, each lookup is a key of the primary grid, and the B-spline is always a number |
| `SplineConstructor.PiecesDefined` | FredholmSolver/SplineConstructor.cs:43-66 | with g0 < g1 < g2 < g3 none of the three B-spline pieces divides by zero |
| `SplineConstructor.BSplineAtKnots` | FredholmSolver/SplineConstructor.cs:43-66 | B_j(grid[j]) = 0, B_j(grid[j+1]) = (g1-g0)/(g2-g0) and B_j(grid[j+2]) = (g3-g2)/(g3-g1) |
| `SplineConstructor.PiecesAgreeAtKnots` | FredholmSolver/SplineConstructor.cs:43-66 | the first and second pieces both give (g1-g0)/(g2-g0) at g1, and the second and third pieces both give (g3-g2)/(g3-g1) at g2 |
| `SplineConstructor.OuterPiecesVanish` | FredholmSolver/SplineConstructor.cs:43-66 | the first piece is 0 at g0 and the third is 0 at g3, so the spline meets 0 continuously at both ends |
| `SplineConstructor.BSplineOuterNonNegative` | FredholmSolver/SplineConstructor.cs:43-66 | on the first and third cells, and outside the support, the B-spline is a number ≥ 0 |
| `SplineConstructor.FirstInSteps` | FredholmSolver/SplineConstructor.cs:45-48 | the first piece is u²/(a(a+h)) in terms of the knot steps: defined and non-negative |
| `SplineConstructor.ThirdInSteps` | FredholmSolver/SplineConstructor.cs:62-65 | the third piece is u²/((a+h)a) in terms of the knot steps: defined and non-negative |
| `SplineConstructor.SecondInSteps` | FredholmSolver/SplineConstructor.cs:52-58 | the middle piece in terms of the knot steps is defined and equals (1/a)((u+a)²/(a+h) - u²(a+h+c)/(h(h+c))) |
| `SplineConstructor.FirstAtInnerKnot` | FredholmSolver/SplineConstructor.cs:45-48 | the first piece at g1 is a/(a+h) |
| `SplineConstructor.ThirdAtInnerKnot` | FredholmSolver/SplineConstructor.cs:62-65 | the third piece at g2 is a/(a+h) |
| `SplineConstructor.SecondAtFirstKnot` | FredholmSolver/SplineConstructor.cs:52-58 | the middle piece at g1 is a/(a+h) |
| `SplineConstructor.SecondAtSecondKnot` | FredholmSolver/SplineConstructor.cs:52-58 | the middle piece at g2 is c/(h+c) |
| `SplineConstructor.SecondKnotValue` | FredholmSolver/SplineConstructor.cs:52-58 | coeff · (first - second) at g2 simplifies to c/(h+c) |
| `FunctionalConstructor.FunctionalValue` | FredholmSolver/FunctionalConstructor.cs:14-164 | computes functional j of the configured rule applied to f, case by case; in each case the grid lookups and the calls of f come in the order C# evaluates them (for the transcendental averaging rules, the statements that compute S1, S2 and zn before the return), and the first exception wins; DeBoorFix1Trigonometric, DeBoorFix2Trigonometric and Sablonniere reach the default branch |
| `FunctionalConstructor.Derivative` | FredholmSolver/FunctionalConstructor.cs:23-27 | computes the central difference x ↦ (func(x + h) - func(x - h))/(2h); func(x + h) is called first, and an exception of either call propagates |
| `FunctionalConstructor.ThreePoint` | FredholmSolver/FunctionalConstructor.cs:41 | computes a·f(additionalGrid[j-1]) + b·f(additionalGrid[j]) + c·f(additionalGrid[j+1]), each lookup followed by its call of f |
| `FunctionalConstructor.EdgeStencil` | FredholmSolver/FunctionalConstructor.cs:60-66 | computes w1·f(grid[lo]) + w2·f((grid[lo] + grid[lo+1])/2) + w3·f(grid[lo+1]), in that order |
| `FunctionalConstructor.InteriorStencil` | FredholmSolver/FunctionalConstructor.cs:69-73 | computes the five-point stencil on f(grid[j]), the three cell midpoints and f(grid[j+3]), in that order |
| `FunctionalConstructor.DeBoorFix0Multipliers` | FredholmSolver/FunctionalConstructor.cs:44-45 | computes the two multipliers of DeBoorFix0, (grid[j+1] + grid[j+2])/2 - grid[j] and (grid[j+1] + grid[j])/2·(grid[j+2] - grid[j]) |
| `FunctionalConstructor.TrigTargets` | FredholmSolver/FunctionalConstructor.cs:81-82 | computes S1 and S2 of the trigonometric averaging rule; a zero sin(g2 - g1) gives NonFinite |
| `FunctionalConstructor.HypTargets` | FredholmSolver/FunctionalConstructor.cs:104-105 | computes S1 and S2 of the hyperbolic averaging rule; a zero sinh(g2 - g1) gives NonFinite |
| `FunctionalConstructor.AveragingWeights` | FredholmSolver/FunctionalConstructor.cs:84-95 | computes zn, ch_b and ch_c, then b = ch_b/zn, c = ch_c/zn and a = 1 - b - c; a zero zn gives NonFinite |
| `FunctionalConstructor.AveragingWeightsAt` | FredholmSolver/FunctionalConstructor.cs:81-118 | computes the weights of interior functional j. The trigonometric rule reads grid[j+1] before grid[j+2] (line 81). The hyperbolic rule reads grid[j+2] before grid[j+1] (line 104). Both then read additionalGrid[j+1], additionalGrid[j-1] and additionalGrid[j] (lines 84 and 107), so the first missing key is the one C# reports. Then come the targets and the Cramer solve |
| `FunctionalConstructor.TranscendentalAveraging` | FredholmSolver/FunctionalConstructor.cs:75-119 | computes the AveragingTrigonometric and AveragingHyperbolic cases. At j = -2 and j = N-1 it gives f(additionalGrid[j]). Otherwise it takes the three-point average with the weights of AveragingWeightsAt, whose grid lookups follow each rule's own order: grid[j+1] first for the trigonometric rule, grid[j+2] first for the hyperbolic one |
| `FunctionalConstructor.SplineSamples` | FredholmSolver/FunctionalConstructor.cs:129-134 | computes A..E, the values of spline 0 of the configured family at grid[1], at the midpoint of [grid[0], grid[1]], at the midpoint of [grid[1], grid[2]], at grid[2] and at the midpoint of [grid[2], grid[3]], in that order |
| `FunctionalConstructor.WeightsFromSamples` | FredholmSolver/FunctionalConstructor.cs:136-152 | computes K1, K2, K3 from A..E: the edge formulas of lines 136-139 or the interior formulas of lines 149-152; a zero determinant gives NonFinite |
| `FunctionalConstructor.ProjectionWeights` | FredholmSolver/FunctionalConstructor.cs:129-152 | computes the samples, then the edge or interior weights from them |
| `FunctionalConstructor.TranscendentalProjection` | FredholmSolver/FunctionalConstructor.cs:121-159 | computes the ProectionalTrigonometric and ProectionalHyperbolic cases: f(grid[0]) at j = -2, f(grid[N]) at j = N-1, the stencil K1, K2, K3 at j = -1 and j = N-2, and K1, K2, K3, K2, K1 inside |
| `FunctionalConstructor.DerivativeOfConstant` | FredholmSolver/FunctionalConstructor.cs:23-27 | the first and second central differences of a constant are 0 |
| `FunctionalConstructor.DerivativeOfTotal` | FredholmSolver/FunctionalConstructor.cs:23-27 | the central differences of a function that never fails never fail |
| `FunctionalConstructor.ConstantsReproduced` | FredholmSolver/FunctionalConstructor.cs:31-73 | for every j in -2..N-1 on the configured grids, ShoenbergMarsden, Averaging, DeBoorFix0/1/2 and Proectional map the constant v to v |
| `FunctionalConstructor.DeBoorReproduces` | FredholmSolver/FunctionalConstructor.cs:43-51 | each de Boor rule maps a constant v to v, because its central-difference corrections vanish |
| `FunctionalConstructor.ProectionalReproduces` | FredholmSolver/FunctionalConstructor.cs:53-73 | Proectional maps v to v, because the stencils -1/2, 2, -1/2 and 1/14, -2/7, 10/7, -2/7, 1/14 each sum to 1 |
| `FunctionalConstructor.AveragingWeightsSolve` | FredholmSolver/FunctionalConstructor.cs:84-95 | the weights exist exactly when zn ≠ 0 and otherwise fail with `NonFinite`; when they exist, a + b + c = 1 and they reproduce the targets S1 and S2 on (sin, cos) or (sinh, cosh) |
| `FunctionalConstructor.WeightsInDifferences` | FredholmSolver/FunctionalConstructor.cs:84-94 | the same Cramer solve, written in the differences from the left node |
| `FunctionalConstructor.CramerSolves` | FredholmSolver/FunctionalConstructor.cs:84-94 | b = ch_b/zn and c = ch_c/zn solve the 2x2 system whose determinant is zn |
| `FunctionalConstructor.WeightsAtSumToOne` | FredholmSolver/FunctionalConstructor.cs:81-95 | the interior weights of the trigonometric and hyperbolic averaging rules sum to 1, and with their keys present they fail only on a zero divisor |
| `FunctionalConstructor.TranscendentalAveragingReproduces` | FredholmSolver/FunctionalConstructor.cs:75-119 | the trigonometric and hyperbolic averaging rules map v to v whenever they give a number, and otherwise fail only on a zero divisor |
| `FunctionalConstructor.TranscendentalConstants` | FredholmSolver/FunctionalConstructor.cs:75-119 | the same on the configured grids, for every j in -2..N-1 |
| `FunctionalConstructor.BoundaryFallbacks` | FredholmSolver/FunctionalConstructor.cs:34-127 | every averaging rule returns f(additionalGrid[j]) at j = -2 and j = N-1; every projection rule returns f(grid[0]) at j = -2 and f(grid[N]) at j = N-1 |
| `FunctionalConstructor.UnsupportedRules` | FredholmSolver/FunctionalConstructor.cs:161-162 | DeBoorFix1Trigonometric, DeBoorFix2Trigonometric and Sablonniere throw `NotSupported`, although the spline switch accepts the two DeBoor trigonometric types |
| `FunctionalConstructor.ProjectionStencilSymmetric` | FredholmSolver/FunctionalConstructor.cs:149-159 | the interior trigonometric and hyperbolic projection stencil has the weights K1, K2, K3, K2, K1, and it fails when the weights do |
| `FunctionalConstructor.LookupsStayInGrids` | FredholmSolver/FunctionalConstructor.cs:31-162 | for every j in -2..N-1 and every rule, no grid or auxiliary-grid lookup fails: the algebraic rules always give a number, the transcendental ones fail only with `NonFinite`, and the rest throw `NotSupported` |
| `FunctionalConstructor.AlgebraicLookups` | FredholmSolver/FunctionalConstructor.cs:31-73 | the algebraic rules read only keys inside -2..N+2 and -2..N-1, so with those keys present and a function that never fails they always give a number |
| `FunctionalConstructor.AveragingLookups` | FredholmSolver/FunctionalConstructor.cs:75-119 | the transcendental averaging rules read only keys inside the grids, and fail only on a zero divisor |
| `FunctionalConstructor.ProjectionLookups` | FredholmSolver/FunctionalConstructor.cs:121-159 | the transcendental projection rules read only keys inside the grids, and fail only on a zero divisor |
| `FunctionalConstructor.ProjectionWeightsLookups` | FredholmSolver/FunctionalConstructor.cs:129-134 | the samples A..E of spline 0 read only grid[0..3], so the weights fail only on a zero divisor |
| `FunctionalConstructor.DerivativeLinear` | FredholmSolver/FunctionalConstructor.cs:23-24 | the central difference of a·f + b·g is a·f' + b·g' |
| `FunctionalConstructor.SecondDerivativeLinear` | FredholmSolver/FunctionalConstructor.cs:26-27 | the value, the first and the second central differences of a·f + b·g combine those of f and g |
| `FunctionalConstructor.ThreePointLinear` | FredholmSolver/FunctionalConstructor.cs:41 | the three-point average is linear in f |
| `FunctionalConstructor.EdgeStencilLinear` | FredholmSolver/FunctionalConstructor.cs:60-66 | the edge stencil of the projection rules is linear in f |
| `FunctionalConstructor.InteriorStencilLinear` | FredholmSolver/FunctionalConstructor.cs:69-73 | the five-point stencil is linear in f |
| `FunctionalConstructor.AveragingLinear` | FredholmSolver/FunctionalConstructor.cs:31-41 | ShoenbergMarsden and Averaging are linear in f |
| `FunctionalConstructor.DeBoorFix0Linear` | FredholmSolver/FunctionalConstructor.cs:43-45 | DeBoorFix0 is linear in f |
| `FunctionalConstructor.DeBoorFix0LinearAt` | FredholmSolver/FunctionalConstructor.cs:43-45 | DeBoorFix0 is linear once the value and both differences at grid[j] combine |
| `FunctionalConstructor.DeBoorFix1Linear` | FredholmSolver/FunctionalConstructor.cs:47-48 | DeBoorFix1 is linear in f |
| `FunctionalConstructor.DeBoorFix1LinearAt` | FredholmSolver/FunctionalConstructor.cs:47-48 | DeBoorFix1 is linear once the value and the difference at grid[j+1] combine |
| `FunctionalConstructor.DeBoorFix2Linear` | FredholmSolver/FunctionalConstructor.cs:50-51 | DeBoorFix2 is linear in f |
| `FunctionalConstructor.DeBoorFix2LinearAt` | FredholmSolver/FunctionalConstructor.cs:50-51 | DeBoorFix2 is linear once the value and the difference at grid[j+2] combine |
| `FunctionalConstructor.ProectionalLinear` | FredholmSolver/FunctionalConstructor.cs:53-73 | Proectional is linear in f in all five branches |
| `FunctionalConstructor.AlgebraicRulesLinear` | FredholmSolver/FunctionalConstructor.cs:29-73 | every algebraic functional j in -2..N-1 maps a·f + b·g to a·Φ_j(f) + b·Φ_j(g), and all three applications are defined |
| `FunctionalConstructor.TranscendentalAveragingLinear` | FredholmSolver/FunctionalConstructor.cs:75-119 | the transcendental averaging rules are linear in f, or all three applications fail alike because the weights do not depend on f |
| `FunctionalConstructor.TranscendentalProjectionLinear` | FredholmSolver/FunctionalConstructor.cs:121-159 | the transcendental projection rules are linear in f, or all three applications fail alike |
| `FunctionalConstructor.TranscendentalRulesLinear` | FredholmSolver/FunctionalConstructor.cs:75-159 | every trigonometric and hyperbolic functional is linear in f, or all three applications fail alike |
| `MathUtils.Step` | FredholmSolver/MathUtils.cs:68-78 | elimination step k changes only matrix[i,j] with i,j > k and vector[i] with i > k; rows 0..k and column k stay as they were |
| `MathUtils.StepEntry` | FredholmSolver/MathUtils.cs:74 | a changed entry is matrix[i,j] - matrix[k,j]·(matrix[i,k]/matrix[k,k]) |
| `MathUtils.StepRhsEntry` | FredholmSolver/MathUtils.cs:76 | a changed right-hand side is vector[i] - vector[k]·matrix[i,k]/matrix[k,k], using the unwritten multiplier |
| `MathUtils.Forward` | FredholmSolver/MathUtils.cs:68-78 | the first k steps keep the system square and of the same size |
| `MathUtils.Reduced` | FredholmSolver/MathUtils.cs:83-86 | the eliminated row reads the sub-diagonal multipliers as 0, as back-substitution does by never reading them |
| `MathUtils.DotSplitLast` | FredholmSolver/MathUtils.cs:83-86 | a row sum splits off its last term |
| `MathUtils.DotFrame` | FredholmSolver/MathUtils.cs:83-86 | a row sum reads only its own columns |
| `MathUtils.DotLinear` | FredholmSolver/MathUtils.cs:74-76 | a row sum is linear in the row |
| `MathUtils.DotZeroPrefix` | FredholmSolver/MathUtils.cs:83-86 | leading zeros of a row do not contribute |
| `MathUtils.StepRowEntries` | FredholmSolver/MathUtils.cs:72-76 | row i before step k is row i after it plus the multiplier times the pivot row |
| `MathUtils.StepRhs` | FredholmSolver/MathUtils.cs:76 | the right-hand side update subtracts the multiplier times the pivot right-hand side |
| `MathUtils.StepRow` | FredholmSolver/MathUtils.cs:72-76 | equation i of the system before step k follows from equation i after it and equation k |
| `MathUtils.StepKeepsSolutions` | FredholmSolver/MathUtils.cs:70-77 | one elimination step loses no solution |
| `MathUtils.ForwardKeepsSolutions` | FredholmSolver/MathUtils.cs:68-78 | a solution of the eliminated system solves the original A x = b |
| `MathUtils.UpperSolvedReduced` | FredholmSolver/MathUtils.cs:80-89 | a back-substituted x solves the eliminated system, multipliers read as 0 |
| `MathUtils.SettledRow` | FredholmSolver/MathUtils.cs:68-78 | rows 0..k do not change after step k |
| `MathUtils.PivotsPrefix` | FredholmSolver/MathUtils.cs:68-78 | non-zero pivots up to k imply non-zero pivots up to any earlier step |
| `MathUtils.DiagonalPivots` | FredholmSolver/MathUtils.cs:68-88 | after the n-1 steps, all pivots are non-zero exactly when the diagonal of the eliminated matrix is |
| `MathUtils.Entries` | FredholmSolver/MathUtils.cs:64 | the 2-D array read row by row |
| `MathUtils.EliminateRow` | FredholmSolver/MathUtils.cs:72-75 | the j loop turns row i into row i of Step in columns after k and leaves every other cell alone |
| `MathUtils.EliminateRhs` | FredholmSolver/MathUtils.cs:76 | the right-hand side of row i becomes that of Step, and no other entry changes |
| `MathUtils.EliminateColumn` | FredholmSolver/MathUtils.cs:70-77 | the i loop of step k leaves the arrays holding Step applied to their old contents |
| `MathUtils.RowSum` | FredholmSolver/MathUtils.cs:82-86 | the sum loop computes Σ_{j>k} matrix[k,j]·x[j] |
| `MathUtils.Accumulate` | FredholmSolver/MathUtils.cs:85 | one more term of the left-to-right row sum |
| `MathUtils.UpperSolvedExtend` | FredholmSolver/MathUtils.cs:80-89 | setting x[k] this way keeps the equations below k satisfied |
| `MathUtils.BackSubstitute` | FredholmSolver/MathUtils.cs:80-89 | it succeeds exactly when the diagonal is non-zero; x then satisfies matrix[k,k]·x[k] + Σ_{j>k} matrix[k,j]·x[j] = vector[k] for every k; otherwise it fails with `NonFinite` |
| `MathUtils.ForwardAdvance` | FredholmSolver/MathUtils.cs:68-78 | elimination goes past step k exactly when pivot k is non-zero, by one more Step |
| `MathUtils.ZeroPivotFails` | FredholmSolver/MathUtils.cs:74-88 | a zero pivot at step k makes the whole elimination undefined |
| `MathUtils.EliminationSolves` | FredholmSolver/MathUtils.cs:64-92 | a solution of the upper-triangular system solves the original A x = b |
| `MathUtils.ForwardEliminate` | FredholmSolver/MathUtils.cs:68-78 | the elimination loop, in place on both arrays, finishes exactly when the pivots of steps 0..n-2 are non-zero, and the arrays then hold Forward(A, b, n-1); it stops at the first zero pivot |
| `MathUtils.ZeroPivotStops` | FredholmSolver/MathUtils.cs:70-74 | a zero pivot at a step k < n-1 leaves the elimination of steps 0..n-2 undefined |
| `MathUtils.SolveInPlace` | FredholmSolver/MathUtils.cs:64-92 | it succeeds exactly when every pivot is non-zero; the fresh result x then solves the original system A x = b, and the two arrays end holding the eliminated upper-triangular system Forward(A, b, n-1); otherwise it fails with `NonFinite` |
| `MathUtils.SameSquare` | FredholmSolver/MathUtils.cs:23-31 | dense matrices with equal entries are equal |
| `MathUtils.Dense` | FredholmSolver/MathUtils.cs:23-31 | the zero-filled array with key (r,c) placed at cell (r+2,c+2) |
| `MathUtils.DenseVector` | FredholmSolver/MathUtils.cs:24-35 | the zero-filled array with key i placed at cell i+2 |
| `MathUtils.InArrayOrder` | FredholmSolver/MathUtils.cs:41-44 | the coefficients in array order: cell i holds key i-2 |
| `MathUtils.ScatterMatrix` | FredholmSolver/MathUtils.cs:28-31 | every matrix key (r,c) is written to cell (r+2,c+2), and cells with no key stay 0; a key outside the array throws `IndexOutOfRange` |
| `MathUtils.ScatterVector` | FredholmSolver/MathUtils.cs:32-35 | every vector key i is written to cell i+2, and other cells stay 0; a key outside the array throws `IndexOutOfRange` |
| `MathUtils.ShiftBack` | FredholmSolver/MathUtils.cs:41-44 | the result has keys exactly -2..n-3, and coeffs[i-2] = solution[i] (shift round trip) |
| `MathUtils.SolveSystem` | FredholmSolver/MathUtils.cs:21-47 | it succeeds exactly when the keys fit the arrays and no pivot is zero; the keys are then exactly -2..N-1, and the shifted result solves the shifted system; otherwise it fails with `IndexOutOfRange` or `NonFinite` |
| `Common.Get` | FredholmSolver/SplineConstructor.cs:43 | a dictionary lookup returns the stored value, or throws `KeyNotFound` for exactly the missing key |
| `Common.Div` | FredholmSolver/SplineConstructor.cs:48 | a division is a number exactly when the divisor is non-zero, and then the quotient times the divisor gives the dividend back |

## Left out

- FredholmSolver/Program.cs, the experiment driver that sweeps sample points, prints the table and tracks the maximum error, is not part of this model: it is I/O around the engine.
- FredholmSolver/Configuration.cs is not modelled as code. Its values are the parameters of `Configuration.Config`. `Alpha` is declared there but no formula reads it, so the model has no such field. The exact solution `U` serves only for error reports, so it is left out too.
- `MathUtils.Integrate` is a wrapper around a foreign quadrature library. It is the uninterpreted `Quadrature` parameter. So `Engine.OmegaWave` and `ApproxSloanInPoint` have only the structure stated above, not a value.
- `Math.Sin`, `Math.Cos`, `Math.Sinh` and `Math.Cosh` are uninterpreted. No closed-form trigonometric or hyperbolic identity is used, so the model states only the support, the dispatch, the stencil shapes and a + b + c = 1 for those families.
- Floating-point rounding, approximation-error bounds and convergence orders are not modelled. Arithmetic is exact over `real`, and the regression tolerance of the end-to-end scenario is a numerical-analysis claim.
- The step h = 1e-5 of the central difference is the exact real 0.00001.
- The field `splineProductsIntegralsCache` is unused in the source and has no counterpart. The recomputation of the coefficients on every evaluation call only affects performance, and the model keeps it.
- `MathUtils.SolveInPlace`: a zero pivot ends the computation with `NonFinite`. The source goes on dividing and returns infinities or NaNs, and the model does not say which.
- `SplineConstructor.SplineAtPoint`: a zero denominator gives `NonFinite` at once. In the source it only produces a non-finite double.
- `FunctionalConstructor.AveragingWeightsAt`: a zero `zn` or a zero `sin`/`sinh` divisor gives `NonFinite` before f is applied. In the source, a later call of f that throws would surface first.
- `FunctionalConstructor.ProjectionWeights`: a zero determinant gives `NonFinite` before f is applied, again ahead of any exception f would throw later.
- `MathUtils.ScatterMatrix` and `MathUtils.ScatterVector` visit the dictionary keys in an unspecified order, while .NET uses insertion order. The written arrays are the same either way.
- The kernel K and the source F are total functions. The C# lambdas of the shipped configuration never throw.
