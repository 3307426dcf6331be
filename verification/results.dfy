/** Failure values of the codec. The source raises (or loops) where the
    model returns one of these. */
module Results {

  datatype Option<T> = None | Some(value: T)

  /** Why encoding or decoding could not go on. */
  datatype Fault =
    | MissingCode(ch: char)  // a letter of the text has no code in the table
    | NoMatchingCode         // bits remain, but no code of the table begins them
                             // (also when they end partway through a code)
    | EndOfStream            // no bits remain when another letter is expected

  datatype Result<T> = Success(value: T) | Failure(error: Fault)
}
