/** Optional values, and results that carry either a value or the error the source throws. */
module Outcomes {

  datatype Option<+T> = None | Some(value: T)

  /** The kinds of error the modelled code raises or lets propagate. */
  datatype Kind =
    | InvalidDataUrl      // no comma in a data URL
    | NoMimeType          // the header has no non-empty text between ':' and ';'
    | InvalidCharacter    // atob rejected its input
    | Blocked             // the service reported a block reason
    | StoppedUnexpectedly // the service stopped for a reason other than STOP
    | NoImage             // the service answered without an image
    | NoText              // the service answered without usable OBJ text
    | TypeError           // a property read or call on a value that does not support it
    | SyntaxError         // JSON.parse rejected its input

  datatype Failure = Failure(kind: Kind, message: string)

  datatype Result<+T> = Ok(value: T) | Err(failure: Failure)
}
