/** The failure taxonomy of the converter and the result type every stage returns. */
module Errors {

  /** The message a failing ImageMagick call hands back. */
  datatype MagickError = MagickError(message: string)

  /** One variant per kind of failure: reading or writing a file, decoding the
      library's diagnostic text, a failing library call, and the converter's own
      validation of the crop settings. */
  datatype Error =
    | FromStdIo(message: string)
    | FromStdStrUtf8(message: string)
    | FromMagick(cause: MagickError)
    | InvalidArgument(message: string)

  /** A stage either succeeds with a value (unit for the four stages) or fails with one error. */
  datatype Result<+T> = Ok(value: T) | Err(error: Error)

  /** An optional setting, as the crop coordinates and size are. */
  datatype Option<+T> = None | Some(value: T)
}
