/** Failure-carrying datatypes shared by the OCR post-processing model. */
module Results {

  /** An optional value: `None` where the application finds nothing. */
  datatype Option<+T> = None | Some(value: T)

  /** Either a value or the error the application would raise instead. */
  datatype Result<+T, +E> = Success(value: T) | Failure(error: E)

  /** The exceptions the post-processing steps raise.
      - BadConfidence: the confidence field of a kept record does not parse as a float
      - IndexOutOfRange: a correction names a position past the end of the predictions
      - ZeroDivision: an accuracy whose denominator is zero */
  datatype Error =
    | BadConfidence(text: string)
    | IndexOutOfRange(index: nat)
    | ZeroDivision
}
