/** Error codes and results shared by all components. */
module Errors {
  datatype Error =
    | Generic
    | CorruptionDetected
    | DstSizeTooSmall
    | MaxSymbolValueTooLarge
    | MaxSymbolValueTooSmall
    | SrcSizeWrong
    | TableLogTooLarge

  datatype Result<+T> = Ok(value: T) | Err(error: Error)
}
