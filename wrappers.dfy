/** Result types shared by the routines.

    The library works on IEEE doubles; the model works on exact reals, where a
    division by zero has no value.  Every division by a quantity the routine
    computes (an LU divisor, an elimination pivot, a power-method component,
    a secant slope, a regression denominator) therefore ends in `None` or
    `ZeroDivisor` where the library would go on with an infinity or a NaN. */
module Wrappers {

  datatype Option<+T> = None | Some(value: T)

  /** Outcome of an iteration the model bounds by a fuel count: the library's
      loops are unbounded, the model stops after `fuel` rounds. */
  datatype Outcome<+T> =
    | Converged(value: T)    // the routine's own stopping test held
    | OutOfFuel(last: T)     // `fuel` rounds ran without the test holding
    | ZeroDivisor            // a division by zero was met
}
