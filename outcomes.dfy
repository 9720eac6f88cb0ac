/** The error conditions the matrix engine reports, and the wrappers that carry them. */
module Outcomes {

  /** One constructor per kind of exception the engine throws. */
  datatype Error =
    | OutOfBounds          // IndexOutOfBoundsException: a row or column index is invalid
    | DimensionMismatch    // IllegalArgumentException: operand shapes do not fit
    | NotSquare            // the operation needs a square matrix
    | InvalidSize          // newInstance with a size below 1
    | SingularPivot        // LUP: the selected pivot has magnitude at most 1e-9
    | DivisionByZero       // plain LU: a pivot is exactly zero
    | Unsupported          // a mutation attempted on a triangular view

  datatype Result<+T> = Ok(value: T) | Err(error: Error)

  /** The outcome of an operation that returns nothing (Java `void`). */
  datatype Outcome = Pass | Fail(error: Error)

  datatype Option<+T> = None | Some(value: T)
}
