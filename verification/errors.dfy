/** The crate's error type (src/error.rs), restricted to the variants the
    modelled code raises. */
module Errors {
  import opened FileSystem

  datatype Error =
    | IoError(kind: IoKind)
    | TrackerError(kind: IoKind)
    | CustomError(message: string)
}
