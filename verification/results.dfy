/** Failure-compatible wrappers shared by every module of the model, and the
    exceptions JSROOT raises (or the non-terminations it runs into) as values. */
module Results {

  datatype Option<+T> = None | Some(value: T) {
    predicate IsFailure() {
      None?
    }

    function PropagateFailure<U>(): Option<U>
      requires None?
    {
      None
    }

    function Extract(): T
      requires Some?
    {
      value
    }

    function GetOr(default: T): T {
      match this
      case Some(v) => v
      case None => default
    }
  }

  /** What a JavaScript call ends with when it does not return normally. */
  datatype Error =
    | SyntaxError                     // JSON.parse rejected the text
    | UnexpectedMember(key: string)   // `$arr` member where a value member was expected
    | TypeError(what: string)         // property read on undefined or null
    | RangeError(what: string)        // invalid buffer length or byte offset
    | NoBinaryBuffer                  // base64 payload for an array without an ArrayBuffer
    | Base64Error                     // atob rejected the payload
    | URIError                        // decodeURI met a malformed escape
    | NonTerminating                  // a loop of the source that never ends
    | NotModelled(what: string)       // a JavaScript coercion the model does not follow

  datatype Result<+T> = Ok(value: T) | Err(error: Error) {
    predicate IsFailure() {
      Err?
    }

    function PropagateFailure<U>(): Result<U>
      requires Err?
    {
      Err(error)
    }

    function Extract(): T
      requires Ok?
    {
      value
    }
  }
}
