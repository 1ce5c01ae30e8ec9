/** Failure-carrying values shared by every stage of the codec. */
module Results {

  /** A value that may be absent. */
  datatype Option<+T> = None | Some(value: T)

  /** The ways the codec can stop without a result. Each one is an
      exception the source lets escape to its caller. */
  datatype Error =
    /** Popping the root from an empty heap (empty input text). */
    | EmptyHeap
    /** A symbol of the text has no entry in the code table. */
    | MissingCode(sym: char)
    /** The padding header cannot be read because the bit string is empty. */
    | EmptyHeader

  /** The outcome of a stage that can fail. */
  datatype Result<+T> = Success(value: T) | Failure(error: Error)
}
