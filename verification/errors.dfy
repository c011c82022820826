/**
 * The error side of `crate::Result`: every failure this core reports carries
 * the HTTP status the caller should answer with and the reason it arose.
 */
module Errors {
  import opened AuthorizationHeader

  /** Why a request's credentials were refused. */
  datatype Reason =
    | UnexpectedScheme(found: Scheme)   // "Expected basic auth scheme found `{}`"
    | BadBase64                         // the base64 decoder's own error
    | BadUtf8                           // `String::from_utf8`'s own error
    | MissingPassword                   // "Expected basic auth to contain a password"
    | MissingUsername                   // "Expected basic auth to contain a username"

  /** `crate::Error`: a status code together with the reason. */
  datatype Error = Error(status: int, reason: Reason)

  /** `crate::Result<T>`; failure-compatible so that `:-` plays the part of Rust's `?`. */
  datatype Result<+T> = Ok(value: T) | Err(error: Error) {

    predicate IsFailure() {
      Err?
    }

    function PropagateFailure<U>(): (r: Result<U>)
      requires Err?
      ensures r.Err? && r.error == error
    {
      Err(error)
    }

    function Extract(): T
      requires Ok?
    {
      value
    }
  }

  /** The status every client-input error of this core carries: 400 Bad Request. */
  const BadRequest: int := 400
}
