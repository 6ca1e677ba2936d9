// The error conditions the simulator raises (as `QClibError` exceptions in
// the original) and the result wrappers its fallible operations return.
module QcErrors {

  datatype Error =
    | NotSquare            // an operator or basis matrix is not square
    | QubitCountMismatch   // 2^(number of target qubits) differs from the operator's dimension
    | SizeMismatch         // operators combined in sequence have different sizes
    | EmptyOperatorList    // sequential combination of no operators (the first one is read)
    | NotOrthonormal       // a measurement basis whose rows are not orthonormal
    | BasisSize            // a measurement basis whose dimension is not 2^(number of measured qubits)
    | TotalProbability     // the outcome probabilities do not add up to 1 within tolerance

  datatype Result<+T> = Ok(value: T) | Err(error: Error)

  /** Python's `None` or a value. */
  datatype Option<+T> = None | Some(value: T)

  /** The outcome of an operation that returns nothing when it succeeds. */
  datatype Status = Done | Failed(error: Error)
}
