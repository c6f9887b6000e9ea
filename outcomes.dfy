/** Value wrappers shared by the modules: an optional value and the outcome of
    a computation that the Rust code can abort with a panic. */
module Outcomes {

  datatype Option<T> = None | Some(value: T)

  /** Why a Rust computation panics. */
  datatype Panic =
    | UsizeUnderflow   // a `usize` subtraction below zero
    | ModuloByZero     // `%` with a zero divisor
    | EvenDimension    // FilterMatrix::new on an even N

  datatype Result<T> = Ok(value: T) | Err(panic: Panic)
}
