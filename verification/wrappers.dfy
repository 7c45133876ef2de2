/** An optional value (the `undefined` a JavaScript lookup may return) and a
    value-or-error result (a returned value or a thrown application error). */
module Wrappers {

  datatype Option<+T> = None | Some(value: T)

  datatype Result<+R, +E> = Success(value: R) | Failure(error: E)
}
