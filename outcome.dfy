/** The failures the patcher can run into, and the result type that carries them. */
module Outcome {

  /** What raises in the script: struct.unpack_from on a short buffer, the
      floor division in pad_size by a zero page size, struct.pack of an
      integer that does not fit 'I', and gzip on a malformed stream. */
  datatype Error =
    | HeaderTooShort
    | DivisionByZero
    | ImageTooShort
    | IntegerOutOfRange
    | DecompressFailure

  datatype Result<T> = Ok(value: T) | Err(error: Error)

  datatype Option<T> = None | Some(value: T)
}
