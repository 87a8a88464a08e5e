/** Value types shared by every part of the block store. */
module Types {

  /** One byte of block payload. */
  newtype byte = b: int | 0 <= b < 256

  /** Block payloads, container files and stored contents are byte strings. */
  type Bytes = seq<byte>

  /** What the hasher returns for a block (a hex digest string for sha256). */
  type Digest = string

  /** The exceptions the core raises or lets through. */
  datatype Error =
    | KeyError                            // a dict lookup or deletion of a missing key
    | StorageBackendError(reason: string) // blob.exceptions.StorageBackendError and its message
    | FileNotFound(name: string)          // the container file that open() or os.replace() found missing

  datatype Option<T> = None | Some(value: T)

  /** A value, or the exception raised instead of returning it. */
  datatype Result<T> = Ok(value: T) | Err(error: Error)

  /** Completion of an operation that returns nothing, or the exception it raised. */
  datatype Outcome = Pass | Fail(error: Error)
}
