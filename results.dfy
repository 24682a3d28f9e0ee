/** Failure-carrying values shared by the reader and the archive parser.
    Every exception the library throws becomes an `Error` value. */
module Results {

  datatype Option<+T> = None | Some(value: T)

  /** The exceptions of the reader and of the archive code, one constructor each. */
  datatype Error =
    | EndOfStream                        // a read ran past the end of the stream (also a short ReadBytes)
    | NegativeCount                      // ReadBytes or an array allocation with a negative count
    | NegativeSeek                       // a seek before the start of the stream
    | EmptyStack                         // Peek or Pop on the empty offset stack
    | InvalidFixedLength                 // FixedLength string read with the default length -1
    | UnknownStringFormat                // a string format the switch has no case for
    | EocdNotFound                       // no end-of-central-directory signature
    | InvalidEntrySignature(signature: int)
    | DecompressFailed(fileName: string)

  datatype Result<+T> = Ok(value: T) | Err(error: Error)

  /** Outcome of an operation that returns nothing in the source. */
  datatype Outcome = Pass | Fail(error: Error)
}
