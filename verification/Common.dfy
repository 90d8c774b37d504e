/** The exceptions of the mathematics code as values. */
module Common {

  datatype Error =
    | RangeError        // a matrix with no rows or no columns
    | DomainError       // shapes that do not fit
    | OutOfRange        // an entry outside the matrix
    | InvalidArgument   // data vectors of different sizes
    | NotFinite         // a division by zero: the result is no longer a real number

  datatype Result<+T> = Ok(value: T) | Err(error: Error)
}
