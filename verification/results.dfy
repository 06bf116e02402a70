/** Failure-compatible result types shared by every module of the model.
    Each `assert` the Python code makes, and each exception the libraries it
    calls can raise, becomes one `Error` value. */
module Results {

  /** The three constraint matrices of an R1CS, used to name a ragged one. */
  datatype MatrixName = MatrixL | MatrixR | MatrixO

  datatype Error =
    | LengthMismatch             // an `assert len(x) == len(y)` in the vector helpers
    | DivisionByZero             // Python `% 0`, or field division by zero
    | MissingKey(key: string)    // KeyError on the parsed R1CS dictionary
    | RowCountMismatch           // L, R, O do not have the same number of rows
    | RaggedColumns(matrix: MatrixName)  // a matrix whose rows differ in length
    | EmptyMatrices              // no row, or an empty first row, in L
    | EmptyWitness
    | EmptyPublicWitness
    | NotAFieldElement           // the field refuses an integer outside [0, p)
    | NotInvertible              // `pow(x, -1, p)` on a non-invertible x
    | IndexOutOfRange            // indexing past the end of a list
    | NegativeScalar             // point multiplication by a negative scalar never returns
    | QapRelationFails           // the prover's `assert u*v == w + h*t`
    | PairingCheckFails          // the verifier's `assert pairing(B, A) == pairing(G2, C)`

  datatype Option<+T> = None | Some(value: T)

  datatype Result<+T> = Ok(value: T) | Err(error: Error) {
    predicate IsFailure() {
      Err?
    }

    function PropagateFailure<U>(): Result<U>
      requires Err?
    {
      Err(error)
    }

    function Extract(): T
      requires Ok?
    {
      value
    }
  }
}
