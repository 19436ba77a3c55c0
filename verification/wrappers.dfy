/** Small value wrappers shared by the log store and the auth gate. */
module Wrappers {

  /** A value that may be absent: a JavaScript `undefined`/`null` or a missing row. */
  datatype Option<+T> = None | Some(value: T)

  /** The result of awaiting a collaborator that may throw (a rejected promise or a
      synchronous exception). Every middleware or handler that receives a `Call`
      catches `Throws` and answers 500. */
  datatype Call<+T> = Throws | Returns(value: T)
}
