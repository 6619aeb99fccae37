/** Results and the exceptions of the backend, as values.
    Every Java exception the core throws is one `Error` constructor; its message is kept
    because several of them end up in the audit memos. */
module Common {

  datatype Option<+T> = None | Some(value: T)

  /** The kinds of exception the core raises or lets through. */
  datatype Error =
    | BadRequest(msg: string)          // ResponseStatusException(BAD_REQUEST)
    | NotFound(msg: string)            // ResponseStatusException(NOT_FOUND)
    | Conflict(msg: string)            // ResponseStatusException(CONFLICT)
    | Forbidden(msg: string)           // ResponseStatusException(FORBIDDEN)
    | IllegalArgument(msg: string)     // java.lang.IllegalArgumentException (also URLDecoder)
    | IllegalState(msg: string)        // java.lang.IllegalStateException (Collectors.toMap)
    | IndexOutOfBounds(msg: string)    // ArrayIndexOutOfBoundsException
    | Security(msg: string)            // java.lang.SecurityException
    | FileRead(msg: string)            // FileStorageService.FileReadException
    | Runtime(msg: string)             // a plain RuntimeException
  {
    /** True for the ResponseStatusException family (caught as such by the review orchestrator). */
    predicate IsResponseStatus() {
      BadRequest? || NotFound? || Conflict? || Forbidden?
    }
  }

  datatype Result<+T> = Ok(value: T) | Err(error: Error) {
    predicate IsFailure() { Err? }
    function PropagateFailure<U>(): Result<U> requires Err? { Err(error) }
    function Extract(): T requires Ok? { value }
  }

  /** Java's `"..." + x` for a possibly-null String. */
  function JavaStr(s: Option<string>): string {
    match s
    case None => "null"
    case Some(v) => v
  }
}
