/** The error values that cross the boundary of the configuration module. */
module Errors {

  /** A filesystem operation performed while persisting a preference. */
  datatype FsOp = CreateDir | CreateFile | Write

  /** `std::io::Error`, reduced to what the module distinguishes: a missing
      file on read, or the failure of one of the write-path operations. */
  datatype IoError = NotFound | Failed(op: FsOp)

  /** `inquire::InquireError`. `OperationCanceled` doubles as the
      "user answered no" signal of the plain flow. */
  datatype InquireError =
    | NotTty
    | InvalidConfiguration(message: string)
    | Io(cause: IoError)
    | OperationCanceled
    | OperationInterrupted
    | Custom(message: string)
}
