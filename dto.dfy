/**
 * The two request/response records the core exchanges: the mock score
 * returned by the mock API, and the body of a liveness-update request.
 */
module Dto {
  import opened Wrappers

  /** The mock API's response: an event id and a score such as "3:2". */
  datatype MockApiResponse = MockApiResponse(eventId: string, currentScore: string)

  /**
   * The body of a liveness-update request. The id may be missing (null);
   * the flag is a primitive boolean, so it is always present.
   */
  datatype EventStatusUpdate = EventStatusUpdate(eventId: Option<string>, isLive: bool)

}
