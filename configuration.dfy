/** The fixed parameter bag of one run (Configuration.cs) and the
    collaborators the core cannot see: elementary transcendental functions
    and the quadrature routine. */
module Configuration {
  import opened Common

  /** The projection methods named in the two switches of the solver, and
      Sablonniere, the value the shipped configuration selects, which neither
      switch names. */
  datatype ApproximationType =
    | ShoenbergMarsden
    | Averaging
    | DeBoorFix0
    | DeBoorFix1
    | DeBoorFix2
    | Proectional
    | AveragingTrigonometric
    | ProectionalTrigonometric
    | DeBoorFix1Trigonometric
    | DeBoorFix2Trigonometric
    | AveragingHyperbolic
    | ProectionalHyperbolic
    | Sablonniere

  /** Math.Sin, Math.Cos, Math.Sinh and Math.Cosh, left uninterpreted. */
  datatype Elementary = Elementary(
    sin: real -> real,
    cos: real -> real,
    sinh: real -> real,
    cosh: real -> real)

  /** MathUtils.Integrate(func, left, right): a foreign quadrature routine.
      The integrand may throw, so it is Result-valued, and so is the integral. */
  type Quadrature = (real -> Result<real>, real, real) -> Result<real>

  /** GridPoints, Left, Right, Eps, K, F and ApproxType of Configuration.cs. */
  datatype Config = Config(
    gridPoints: int,
    left: real,
    right: real,
    eps: real,
    kernel: (real, real) -> real,
    source: real -> real,
    approxType: ApproximationType)
  {
    /** What the solver takes for granted about its configuration. */
    predicate Valid() {
      gridPoints >= 1 && left < right && eps > 0.0
    }
  }
}
