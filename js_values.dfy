/** Values as the request handlers see them: request fields that may be
    missing, JavaScript truthiness and `||`, identifiers, and the outcomes a
    handler answers with (one constructor per HTTP status the handlers use). */
module JsValues {

  datatype Option<+T> = None | Some(value: T)

  /** Document identifiers (`_id`), compared by their string form. */
  type UserId = string
  type BlogId = string

  /** Milliseconds since the Unix epoch, as a JavaScript `Date` holds it. */
  type Date = int

  /** JavaScript truthiness of a string field that may be missing:
      `undefined`, `null` and `""` are falsy, every other string is truthy. */
  predicate Truthy(v: Option<string>) {
    v.Some? && v.value != ""
  }

  /** `a || b` on string fields that may be missing. */
  function Or(a: Option<string>, b: Option<string>): Option<string> {
    if Truthy(a) then a else b
  }

  /** `a || b` where the fallback `b` is a string that is always there. */
  function Coalesce(a: Option<string>, b: string): string {
    if Truthy(a) then a.value else b
  }

  /** The error statuses the handlers answer with. */
  datatype Failure =
    | BadRequest     // 400
    | Unauthorized   // 401
    | Forbidden      // 403
    | NotFound       // 404
    | ServerError    // 500: a thrown error caught by the handler

  datatype Response<+T> = Ok(value: T) | Created(value: T) | Fail(failure: Failure)
}
