/** Optional values and the one outcome every route handler reports. */
module Wrappers {

  /** `None` stands for JavaScript's `undefined` (an absent key, a missing parameter). */
  datatype Option<+T> = None | Some(value: T)

  /** The error kinds of the API: 400, 404, 409 and 500 responses. */
  datatype Error = InvalidArgument | NotFound | Conflict | Internal

  /** Exactly one of these is the answer to a request. */
  datatype Outcome<+T> = Ok(value: T) | Fail(error: Error)
}
