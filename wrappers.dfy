/** Optional values and the two shapes of an endpoint's JSON reply. */
module Wrappers {

  datatype Option<+T> = None | Some(value: T)

  /** What an endpoint answers: `sendResponse(true, message, data)` carries a value,
      `sendResponse(false, message)` carries only the message. */
  datatype Reply<+T> = Success(message: string, value: T) | Failure(message: string)

  function Min(a: int, b: int): int
  {
    if a <= b then a else b
  }
}
