/** Types shared by the storage, buffer and record managers: the byte, the
    return codes of the storage engine and the small wrappers the model uses
    in place of out-parameters and NULL pointers. */
module Types {

  /** One unsigned byte of a page or of a record. */
  newtype byte = x: int | 0 <= x < 256

  /** The return codes the modelled operations produce. */
  datatype RC =
    | Ok
    | FileNotFound
    | ReadNonExistingPage
    | PageNotFound
    | SeekFail
    | WriteFailed

  /** A value or the return code that replaced it. */
  datatype Result<T> = Success(value: T) | Failure(rc: RC)

  /** A possibly absent value; `None` plays the part of a NULL pointer. */
  datatype Option<T> = None | Some(value: T)
}
