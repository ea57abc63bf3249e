/** Failure-compatible result and option types, and the errors the data-preparation
    layer can raise. Each error names the JavaScript exception it stands for. */
module Results {

  /** The exceptions thrown along the encoding path. */
  datatype Error =
    | SizeOutOfRange                                   // Buffer.alloc with a negative size
    | ValueOutOfRange                                  // writeUInt32BE with a value wider than 32 bits
    | OffsetOutOfRange                                 // readUInt32BE past the end of the buffer
    | PaddingError                                     // the padded block is not 64 bytes
    | FieldTooLong(key: string, maxLength: nat)        // serializeObject: value longer than its width
    | FinalLengthMismatch(actual: int, expected: int)  // serializeObject: total length check
    | LengthNotDivisibleBy4                            // strToU32Array: expectedLength % 4 != 0
    | InputTooLong(limit: int)                         // strToU32Array: input longer than expectedLength

  datatype Option<+T> = None | Some(value: T)

  datatype Result<+T> = Success(value: T) | Failure(error: Error) {

    predicate IsFailure() {
      Failure?
    }

    function PropagateFailure<U>(): Result<U>
      requires Failure?
    {
      Failure(error)
    }

    function Extract(): T
      requires Success?
    {
      value
    }
  }
}
