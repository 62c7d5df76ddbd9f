/** Error values and the failure-carrying wrappers used by the store model.
    Go reports failure through a trailing `error` result that is nil on
    success; here that result is an `Outcome`, and operations that also
    produce a value on success return a `Result`. */
module Errors {

  datatype Option<+T> = None | Some(value: T)

  /** The file-system call that failed. */
  datatype IoOp = ReadOp | WriteOp | RenameOp

  /** The error taxonomy of the store. `NotFound` is the package's sentinel
      `ErrNotFound`; the other three stand for the errors returned by the
      JSON codec and by the operating system. */
  datatype Error =
    | NotFound
    | EncodeError
    | DecodeError
    | IoError(op: IoOp)

  /** The store's `error` result: nil (`Pass`) or an error. */
  datatype Outcome = Pass | Fail(error: Error)

  datatype Result<+R> = Ok(value: R) | Err(error: Error)
}
