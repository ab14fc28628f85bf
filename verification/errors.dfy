/** Failure signals shared by the curve models. A fatal `CHECK` of the library
    that a caller can reach with well-typed input is modelled as one of these
    errors rather than as a precondition. */
module CurveErrors {

  datatype CurveError =
    | SizeMismatch        // paired arrays of different lengths
    | TimeOutOfBounds     // query outside the stored time range
    | NotFound            // query against an empty store
    | DimensionMismatch   // fixed-size output storage has the wrong size
    | Unimplemented       // the library aborts with "Not implemented"

  datatype Result<+T> = Ok(value: T) | Err(error: CurveError)

  /** The outcome of an operation that returns nothing but may fail. */
  datatype Status = Done | Failed(error: CurveError)
}
