/** Option and Result values, and the error kinds the decoders report. */
module Wrappers {

  /** A value that may be absent: the model of a Go pointer that may be nil. */
  datatype Option<+T> = None | Some(value: T)

  /**
   * Why a decode failed. The Go code returns formatted error values; the
   * model keeps only which check rejected the input.
   */
  datatype Error =
    | TooShort          // fewer bytes than the fixed prefix the decoder checks up front
    | ShortRead         // binary.Read ran out of bytes while filling a fixed-size struct
    | BadSignature      // magic bytes do not match
    | ReservedNonzero   // a reserved field is not zero
    | UnknownRevision   // header revision outside 1..4
    | TruncatedPayload  // declared payload runs past the end of the buffer

  /** The (value, error) pair a Go function returns, as a sum. */
  datatype Result<+T> = Ok(value: T) | Err(error: Error)
}
