/** Option and Result wrappers, and every way a run of the reaction counter can fail. */
module Failures {

  datatype Option<+T> = None | Some(value: T)

  /** The failures the counter can run into; each one ends the run. */
  datatype Error =
    /** A narrow token without ':' (indexing the second half of its split fails). */
    | MalformedNarrowToken(token: string)
    /** A message names a stream id that the stream directory does not hold. */
    | UnknownStream(streamId: int)
    /** The server's user lookup fails for this user id. */
    | UnknownUser(userId: int)
    /** A page that is not the oldest carries no message to re-anchor on. */
    | EmptyPageBeforeOldest
    /** The scripted server has no answer left for another request. */
    | ServerScriptExhausted

  datatype Result<+T> = Ok(value: T) | Err(error: Error)
}
