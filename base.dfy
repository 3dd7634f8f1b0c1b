/** Shared vocabulary of the scanner model: bytes, optional values, results and error kinds. */
module Base {

  /** An unsigned 8-bit value, as Go's `byte`. */
  newtype byte = b: int | 0 <= b < 256

  datatype Option<+T> = None | Some(value: T)

  /** A Go `(value, error)` pair: exactly one of the two is meaningful. */
  datatype Result<+T> = Ok(value: T) | Err(error: Error)

  /** The errors the core can return or abort with. */
  datatype Error =
    | EmptyPath                 // an entry point was given "" as its path
    | OpenFailed(path: string)  // os.Open failed: nothing can be opened at the path
    | NotRegular(path: string)  // entropy or a digest asked of a non-regular file
    | TooLarge(size: nat)       // file size above the 2 GiB ceiling
    | BadHex                    // hex.DecodeString rejected its input
    | MagicTooLong              // the decoded ELF magic is longer than the bytes read
    | ThresholdTooHigh          // the -entropy flag is above 8.0
    | ThresholdTooLow           // the -entropy flag is below 0.0
}
