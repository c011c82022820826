/**
 * The boundary of the generic `Authorization` header that BasicAuth builds on:
 * a scheme tag plus a credentials string, rendered on the wire as
 * `<scheme> <credentials>` (section 2 of RFC 7617, section 2.1 of RFC 7235).
 * How the scheme tag is parsed and how headers are looked up are not part of
 * this model; only the shapes that cross the boundary are.
 */
module AuthorizationHeader {
  import Text

  /**
   * The scheme tag of an Authorization value; only `Basic` matters here.
   * `Other` stands for every other member of the crate's closed
   * `AuthenticationScheme` enumeration, so its name is never `Basic`
   * (see `WellFormed`).
   */
  datatype Scheme = Basic | Other(name: string)

  /**
   * A scheme the crate's enumeration can produce: its name is a non-empty
   * token without spaces, and `Basic` is never spelled as `Other`.
   */
  predicate WellFormed(s: Scheme) {
    s.Other? ==> s.name != "Basic" && |s.name| > 0 && ' ' !in s.name
  }

  /** `Authorization { scheme, credentials }`. */
  datatype Authorization = Authorization(scheme: Scheme, credentials: string)

  /** The header name every authorization value is stored under. */
  const AUTHORIZATION: string := "Authorization"

  /** How a scheme is displayed on the wire. */
  function SchemeName(s: Scheme): string {
    match s
    case Basic => "Basic"
    case Other(name) => name
  }

  /** `Authorization::header_value`: the scheme, one space, the credentials. */
  function HeaderValue(auth: Authorization): (v: string)
    ensures |v| == |SchemeName(auth.scheme)| + 1 + |auth.credentials|
    ensures v[..|SchemeName(auth.scheme)|] == SchemeName(auth.scheme)
    ensures v[|SchemeName(auth.scheme)|] == ' '
    ensures v[|SchemeName(auth.scheme)| + 1..] == auth.credentials
  {
    SchemeName(auth.scheme) + " " + auth.credentials
  }

  /**
   * Reading a rendered value back: cutting it at its first space gives the
   * scheme name and the credentials, whatever the credentials hold.
   */
  lemma HeaderValueSplit(auth: Authorization)
    requires WellFormed(auth.scheme)
    ensures Text.SplitN(HeaderValue(auth), 2, ' ') == [SchemeName(auth.scheme), auth.credentials]
  {
    Text.SplitTwoAfter(SchemeName(auth.scheme), auth.credentials, ' ');
  }
}
