/** Shared value types: bytes, optional values, and the JavaScript exceptions the
    modelled library can throw, carried as an explicit error result. */
module Wrappers {

  /** One octet, as stored in a Uint8Array. */
  type byte = x: int | 0 <= x < 256

  datatype Option<+T> = None | Some(value: T)

  /** The exceptions the library code can raise, by kind. */
  datatype JsError =
    | SyntaxError            // BigInt('0x…') on a string that is not hexadecimal
    | RangeError             // BigInt remainder by 0n
    | InvalidCharacterError  // atob on a string that is not Base64
    | VerificationFailed     // generateFHEProof: 'FHE decryption verification failed'

  /** The outcome of a call that either returns or throws; `:-` propagates the throw. */
  datatype Result<+T> = Ok(value: T) | Err(error: JsError) {
    predicate IsFailure() {
      Err?
    }

    function PropagateFailure<U>(): Result<U>
      requires Err?
    {
      Err(error)
    }

    function Extract(): T
      requires Ok?
    {
      value
    }
  }
}
