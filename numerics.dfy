/** Vocabulary shared by both smoothing kernels and the package entry points:
    real numbers stand for IEEE doubles, the transcendental functions the
    kernels call are passed in as values, NaN is a constructor of its own and
    Python exceptions become error values. */
module Numerics {

  /** The elementary functions the kernels call (`sin`, `log10`, `pow`).
      Nothing is known about them beyond what `Lawful` states. */
  datatype Elementary = Elementary(sin: real -> real, log10: real -> real, pow: (real, real) -> real)

  /** `sin(x)`, `log10(x)` and `pow(x, y)` as the kernels call them. */
  function Sin(m: Elementary, x: real): real { m.sin(x) }

  function Log10(m: Elementary, x: real): real { m.log10(x) }

  function Pow(m: Elementary, x: real, y: real): real { m.pow(x, y) }

  /** The two facts of real analysis the kernels rely on: a power of ten is
      positive, and log10 vanishes only at 1. */
  ghost predicate Lawful(m: Elementary)
  {
    (forall y :: Pow(m, 10.0, y) > 0.0) &&
    (forall r :: 0.0 < r && Log10(m, r) == 0.0 ==> r == 1.0)
  }

  /** One entry of a smoothed spectrum: a number, or the NaN sentinel that
      marks a centre frequency at which no weight was accumulated. */
  datatype Sample = Value(v: real) | Missing

  /** The Python exceptions the modelled code can raise. */
  datatype Error = ZeroDivisionError | ValueError | IndexError | NotImplementedError

  datatype Result<T> = Ok(value: T) | Err(error: Error)

  datatype Option<T> = None | Some(value: T)

  function Abs(x: real): real
  {
    if x < 0.0 then -x else x
  }
}
