/** The parts of an HTTP request that the serializers look at. */
module Requests {

  /** The authenticated user, as an opaque identifier (`request.user`). */
  type UserId = nat

  /**
   * `httpMethod` is `request.method` as sent by the client (any case);
   * `queryParams` is `request.query_params`, one value per key.
   */
  datatype Request = Request(httpMethod: string, user: UserId, queryParams: map<string, string>)
}
