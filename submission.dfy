/** What a page's POST request can come back with, and how a failed one is
    turned into the single message the page shows. Both pages use the same
    rule, each with its own fallback text. */
module Submission {
  import opened Wrappers

  /** A local object URL for a returned PDF (`URL.createObjectURL`). */
  type Url = string

  /** `error.response.data`, with its optional `error` member. */
  datatype Data = Data(error: Option<string>)

  /** `error.response`, with its optional `data`. */
  datatype ErrorResponse = ErrorResponse(data: Option<Data>)

  /** The outcome of the awaited POST: the object URL made from the returned
      body, or a rejection that may or may not carry a response. */
  datatype Outcome = Delivered(fileURL: Url) | Failed(response: Option<ErrorResponse>)

  /** The message that `error.response && error.response.data &&
      error.response.data.error` lets through: present at every step and a
      truthy (non-empty) string. */
  function ServerError(response: Option<ErrorResponse>): (m: Option<string>)
    ensures m.Some? ==> m.value != ""
    ensures m.Some? <==> response.Some? && response.value.data.Some?
                         && response.value.data.value.error.Some?
                         && response.value.data.value.error.value != ""
    ensures m.Some? ==> response.value.data.value.error == m
  {
    match response
    case None => None
    case Some(r) =>
      match r.data
      case None => None
      case Some(d) =>
        match d.error
        case None => None
        case Some(e) => if e == "" then None else Some(e)
  }

  /** The message the page stores after a failed request: the server's own text
      when it sent one, else the page's fixed fallback. */
  function FailureMessage(response: Option<ErrorResponse>, fallback: string): (msg: string)
    ensures ServerError(response).Some? ==> msg == ServerError(response).value
    ensures ServerError(response).None? ==> msg == fallback
    ensures fallback != "" ==> msg != ""
  {
    if ServerError(response).Some? then ServerError(response).value else fallback
  }
}
