/** Small value types shared by the modules of the feed handler. */
module Wrappers {

  /** A value that may be absent (a JavaScript `null` or `undefined`). */
  datatype Option<+T> = None | Some(value: T)

  /** The JavaScript exceptions the handler can raise and not catch. */
  datatype JsError =
    | ReferenceError(identifier: string)  // reading an undeclared variable
    | TypeError                           // reading a property of null or undefined

  /** How a JavaScript evaluation ends: with a value, or by throwing. */
  datatype Completion<+T> = Normal(value: T) | Throw(error: JsError)
}
