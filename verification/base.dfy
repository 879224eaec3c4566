/** Shared vocabulary of the event-management backend: optional values,
    identifiers, request-body truthiness and HTTP responses. */
module Base {

  /** A value that may be absent (`undefined`/`null` in the request or the store). */
  datatype Option<+T> = None | Some(value: T)

  /** Document identifiers, kept in their string form. Users and events share one
      identifier type: the ObjectId-versus-string distinction is abstracted away. */
  type Id = string

  predicate IsHexDigit(c: char) {
    ('0' <= c <= '9') || ('a' <= c <= 'f') || ('A' <= c <= 'F')
  }

  /** The identifier shape the document store accepts: 24 hexadecimal digits.
      Used both for the explicit validity checks and for the cast that every
      `findById` performs before querying. */
  predicate ValidObjectId(s: string) {
    |s| == 24 && forall i | 0 <= i < |s| :: IsHexDigit(s[i])
  }

  /** JavaScript truthiness of an optional request-body string: present and not "". */
  predicate Truthy(s: Option<string>) {
    s.Some? && s.value != ""
  }

  /** `s || fallback` on a request-body string. */
  function OrElse(s: Option<string>, fallback: string): string {
    if Truthy(s) then s.value else fallback
  }

  /** A JSON response body: either `{ message }` or a data payload. */
  datatype Body<T> = Message(text: string) | Json(value: T)

  datatype Response<T> = Response(status: int, body: Body<T>)

  /** A handler seen as a state transition: the response it sends and the store after it. */
  datatype Transition<T, S> = Transition(response: Response<T>, state: S)

  /** A message-only response `res.status(status).json({ message: text })`. */
  function Msg<T>(status: int, text: string): Response<T> {
    Response(status, Message(text))
  }
}
