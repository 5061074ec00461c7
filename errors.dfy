/** Error kinds and the result/option wrappers shared by the table modules. */
module Errors {

  /** The errors the table core distinguishes. The two span errors carry the raw value
      that caused them (the empty string when the span pass raises them). */
  datatype Error =
    | InvalidCellSpanError(value: string)
    | OverlapSpanError(value: string)
      /** An error raised by a collaborator that is not modelled (context extraction,
          URL parsing): it aborts the whole extraction call. */
    | ForeignError(message: string)
  {
    /** The two errors that the span step of the extractor tolerates per table. */
    predicate IsSpanError() {
      InvalidCellSpanError? || OverlapSpanError?
    }
  }

  datatype Result<+T> = Ok(value: T) | Err(error: Error)

  datatype Option<+T> = None | Some(value: T) {
    function GetOr(default: T): T {
      match this
      case Some(v) => v
      case None => default
    }
  }
}
