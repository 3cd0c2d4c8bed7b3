/** Values shared by every component: the exceptions the solver can raise,
    a failure-compatible result type, dictionary lookup and division. */
module Common {

  /** The ways a computation of the solver ends without a number.
      KeyNotFound: a Dictionary<int, double> lookup of a missing key.
      NotSupported: an ApproximationType that a switch does not name.
      IndexOutOfRange: a write outside a fixed-size array.
      NonFinite: a division by zero; the double arithmetic of the C# code
      carries on with an infinity or NaN, which is not a real number. */
  datatype Error =
    | KeyNotFound(key: int)
    | NotSupported
    | IndexOutOfRange
    | NonFinite

  datatype Result<+T> = Success(value: T) | Failure(error: Error) {
    predicate IsFailure() { Failure? }

    function PropagateFailure<U>(): Result<U>
      requires Failure?
    {
      Failure(error)
    }

    function Extract(): T
      requires Success?
    {
      value
    }
  }

  /** `grid[k]` on a Dictionary<int, double>. */
  function Get(m: map<int, real>, k: int): (r: Result<real>)
    ensures r.Success? <==> k in m
    ensures r.Success? ==> r.value == m[k]
    ensures r.Failure? ==> r.error == KeyNotFound(k)
  {
    if k in m then Success(m[k]) else Failure(KeyNotFound(k))
  }

  /** Division of doubles: a zero divisor yields a non-finite double. */
  function Div(a: real, b: real): (r: Result<real>)
    ensures r.Success? <==> b != 0.0
    ensures r.Success? ==> r.value * b == a
    ensures r.Failure? ==> r.error == NonFinite
  {
    if b == 0.0 then Failure(NonFinite) else Success(a / b)
  }

  /** A function of doubles that never throws, seen as one that may. */
  function Lift(g: real -> real): (f: real -> Result<real>)
    ensures forall x :: f(x) == Success(g(x))
  {
    x => Success(g(x))
  }

  /** The constant function x => c. */
  function Constant(c: real): (f: real -> Result<real>)
    ensures forall x :: f(x) == Success(c)
  {
    x => Success(c)
  }
}
