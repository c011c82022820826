/**
 * HTTP Basic authentication (section 2 of RFC 7617): a username and a
 * password travel in the `Authorization` header as
 * `Basic base64(username ":" password)`.
 *
 * Encoding joins the two with a colon, base64-encodes the UTF-8 bytes and tags
 * the result with the `Basic` scheme. Decoding runs the checks in a fixed
 * order: the scheme first, then base64, then UTF-8, then the colon, and each
 * failure is a 400 Bad Request. The text is cut at its FIRST colon, so a
 * username can never hold a colon while a password may hold any number.
 */
module BasicAuth {
  import opened Prelude
  import opened Errors
  import opened AuthorizationHeader
  import Base64
  import Utf8
  import Text

  /** `BasicAuth { username, password }`. */
  datatype BasicAuth = BasicAuth(username: string, password: string)

  /** The separator between username and password. */
  const Colon: char := ':'

  // ---------------------------------------------------------------------------
  // Construction and accessors

  /** `BasicAuth::new`: stores both strings as given, without checking or escaping them. */
  function New(username: string, password: string): (auth: BasicAuth)
    ensures Username(auth) == username && Password(auth) == password
  {
    BasicAuth(username, password)
  }

  /** `BasicAuth::username`. */
  function Username(auth: BasicAuth): string {
    auth.username
  }

  /** `BasicAuth::password`. */
  function Password(auth: BasicAuth): string {
    auth.password
  }

  // ---------------------------------------------------------------------------
  // Encoding: the `Header` implementation

  /** The plaintext `username:password` that gets base64-encoded. */
  function UserPass(auth: BasicAuth): string {
    auth.username + [Colon] + auth.password
  }

  /** The base64 credentials `header_value` places after the scheme. */
  function Credentials(auth: BasicAuth): string {
    Base64.EncodeString(Utf8.Encode(UserPass(auth)))
  }

  /** `Header::header_name`. */
  function HeaderName(auth: BasicAuth): string {
    AUTHORIZATION
  }

  /** `Header::header_value`: the `Basic` scheme followed by the encoded credentials. */
  function HeaderValue(auth: BasicAuth): string {
    AuthorizationHeader.HeaderValue(Authorization(Basic, Credentials(auth)))
  }

  // ---------------------------------------------------------------------------
  // Decoding

  /**
   * `BasicAuth::from_credentials`: base64-decode, check the bytes are UTF-8,
   * then cut at the first colon. Every refusal is a 400, and a result always
   * has a colon-free username.
   */
  function FromCredentials(credentials: seq<byte>): (r: Result<BasicAuth>)
    ensures r.Err? ==> r.error.status == BadRequest
    ensures r.Ok? ==> Colon !in r.value.username
  {
    match Base64.Decode(credentials)
    case None => Err(Error(BadRequest, BadBase64))
    case Some(bytes) =>
      match Utf8.Decode(bytes)
      case None => Err(Error(BadRequest, BadUtf8))
      case Some(text) =>
        var parts := Text.SplitN(text, 2, Colon);
        match (Nth(parts, 0), Nth(parts, 1))
        case (Some(username), Some(password)) => Ok(BasicAuth(username, password))
        case (Some(_), None) => Err(Error(BadRequest, MissingPassword))
        case (None, _) => Err(Error(BadRequest, MissingUsername))
  }

  /**
   * `BasicAuth::from_headers`, given what the Authorization header parser made
   * of the header collection: nothing, a parse error, or a scheme with its
   * credentials. Absence is not an error; a parse error passes through
   * unchanged; a scheme other than `Basic` is refused before any decoding.
   */
  function FromHeaders(lookup: Result<Option<Authorization>>): (r: Result<Option<BasicAuth>>)
    ensures r == Ok(None) <==> lookup == Ok(None)
    ensures r.Err? ==> (lookup.Err? && r.error == lookup.error) || r.error.status == BadRequest
  {
    var found :- lookup;
    match found
    case None => Ok(None)
    case Some(auth) =>
      if !auth.scheme.Basic? then Err(Error(BadRequest, UnexpectedScheme(auth.scheme)))
      else
        match FromCredentials(Utf8.Encode(auth.credentials))
        case Ok(basic) => Ok(Some(basic))
        case Err(e) => Err(e)
  }

  // ---------------------------------------------------------------------------
  // The header this side writes

  /** The credentials are ASCII, so their bytes are exactly the base64 text. */
  lemma CredentialBytes(auth: BasicAuth)
    ensures Utf8.Encode(Credentials(auth)) == Base64.Encode(Utf8.Encode(UserPass(auth)))
  {
    EncodedStringBytes(Utf8.Encode(UserPass(auth)));
  }

  /** A base64 string, being ASCII, has as its UTF-8 bytes exactly the encoder's output. */
  lemma EncodedStringBytes(data: seq<byte>)
    ensures Utf8.Encode(Base64.EncodeString(data)) == Base64.Encode(data)
  {
    Base64.EncodeAlphabet(data);
    Utf8.EncodeAscii(Base64.EncodeString(data));
  }

  /** The credentials use only the base64 alphabet and padding. */
  lemma CredentialsAlphabet(auth: BasicAuth)
    ensures forall i :: 0 <= i < |Credentials(auth)| ==> Base64.IsEncodedByte(Credentials(auth)[i] as int)
  {
    Base64.EncodeAlphabet(Utf8.Encode(UserPass(auth)));
  }

  /**
   * The header is always `Authorization`, its value is `Basic `, one space and
   * the credentials; the credentials use only the base64 alphabet and padding
   * (so no space or line break) and decode to the UTF-8 bytes of
   * `username:password`.
   */
  lemma HeaderShape(auth: BasicAuth)
    ensures HeaderName(auth) == AUTHORIZATION
    ensures HeaderValue(auth) == "Basic " + Credentials(auth)
    ensures forall i :: 0 <= i < |Credentials(auth)| ==> Base64.IsEncodedByte(Credentials(auth)[i] as int)
    ensures Base64.Decode(Utf8.Encode(Credentials(auth))) == Some(Utf8.Encode(auth.username + ":" + auth.password))
  {
    CredentialsAlphabet(auth);
    assert Utf8.Encode(Credentials(auth)) == Base64.Encode(Utf8.Encode(UserPass(auth))) by {
      CredentialBytes(auth);
    }
    assert Base64.Decode(Base64.Encode(Utf8.Encode(UserPass(auth)))) == Some(Utf8.Encode(UserPass(auth))) by {
      Base64.DecodeEncode(Utf8.Encode(UserPass(auth)));
    }
    assert UserPass(auth) == auth.username + ":" + auth.password;
  }

  // ---------------------------------------------------------------------------
  // What from_credentials accepts

  /** In `u:p` with a colon-free `u`, the first colon is the one just after `u`. */
  lemma FirstColonAfterUsername(u: string, p: string)
    requires Colon !in u
    ensures Text.SplitN(u + [Colon] + p, 2, Colon) == [u, p]
  {
    Text.SplitTwoAfter(u, p, Colon);
  }

  /** The text `from_credentials` cut: it is `username:password` with a colon-free username. */
  lemma AcceptedText(credentials: seq<byte>)
    requires FromCredentials(credentials).Ok?
    ensures var auth := FromCredentials(credentials).value;
            && Base64.Decode(credentials).Some?
            && Utf8.Decode(Base64.Decode(credentials).value) == Some(UserPass(auth))
  {
    var bytes := Base64.Decode(credentials).value;
    var text := Utf8.Decode(bytes).value;
    var parts := Text.SplitN(text, 2, Colon);
    assert |parts| == 2;
    JoinTwo(parts);
  }

  lemma JoinTwo(parts: seq<string>)
    requires |parts| == 2
    ensures Text.Join(parts, Colon) == parts[0] + [Colon] + parts[1]
  {
    assert parts[1..] == [parts[1]];
  }

  /**
   * `from_credentials` accepts exactly the canonical encodings of a
   * `username:password` whose username has no colon, and gives back that pair.
   */
  lemma FromCredentialsAccepts(credentials: seq<byte>, auth: BasicAuth)
    ensures FromCredentials(credentials) == Ok(auth)
            <==> Colon !in auth.username && credentials == Base64.Encode(Utf8.Encode(UserPass(auth)))
  {
    if FromCredentials(credentials) == Ok(auth) {
      AcceptedText(credentials);
      var bytes := Base64.Decode(credentials).value;
      Utf8.EncodeDecode(bytes);
      Base64.EncodeDecode(credentials);
    }
    if Colon !in auth.username && credentials == Base64.Encode(Utf8.Encode(UserPass(auth))) {
      Base64.DecodeEncode(Utf8.Encode(UserPass(auth)));
      Utf8.DecodeEncode(UserPass(auth));
      FirstColonAfterUsername(auth.username, auth.password);
    }
  }

  /**
   * Decoded text with a colon is cut at its first colon: the username is what
   * precedes it and the password is all the rest, further colons included.
   */
  lemma SplitAtFirstColon(credentials: seq<byte>, text: string)
    requires Base64.Decode(credentials).Some?
    requires Utf8.Decode(Base64.Decode(credentials).value) == Some(text)
    requires Colon in text
    ensures exists i :: 0 <= i < |text| && text[i] == Colon && Colon !in text[..i]
                        && FromCredentials(credentials) == Ok(BasicAuth(text[..i], text[i + 1..]))
  {
    Text.SplitTwo(text, Colon);
  }

  /**
   * The refusals of `from_credentials` and the order they are checked in:
   * base64 first, then UTF-8, then the colon. A missing username is never
   * reported, because `splitn` always yields a first piece.
   */
  lemma FromCredentialsRefusals(credentials: seq<byte>)
    ensures FromCredentials(credentials) == Err(Error(BadRequest, BadBase64))
            <==> Base64.Decode(credentials).None?
    ensures FromCredentials(credentials) == Err(Error(BadRequest, BadUtf8))
            <==> Base64.Decode(credentials).Some? && Utf8.Decode(Base64.Decode(credentials).value).None?
    ensures FromCredentials(credentials) == Err(Error(BadRequest, MissingPassword))
            <==> && Base64.Decode(credentials).Some?
                 && Utf8.Decode(Base64.Decode(credentials).value).Some?
                 && Colon !in Utf8.Decode(Base64.Decode(credentials).value).value
    ensures FromCredentials(credentials).Err? ==>
              FromCredentials(credentials).error.reason in {BadBase64, BadUtf8, MissingPassword}
  {
    match Base64.Decode(credentials)
    case None =>
    case Some(bytes) =>
      match Utf8.Decode(bytes)
      case None =>
      case Some(text) =>
        Text.SplitNNonEmpty(text, 2, Colon);
        if Colon in text {
          Text.SplitTwo(text, Colon);
        }
  }

  /** Any text without a colon, encoded as this side would, is refused for its missing password. */
  lemma NoColonRefused(text: string)
    requires Colon !in text
    ensures FromCredentials(Base64.Encode(Utf8.Encode(text))) == Err(Error(BadRequest, MissingPassword))
  {
    Base64.DecodeEncode(Utf8.Encode(text));
    Utf8.DecodeEncode(text);
    FromCredentialsRefusals(Base64.Encode(Utf8.Encode(text)));
  }

  // ---------------------------------------------------------------------------
  // What from_headers accepts

  /** A parse error from the Authorization header parser is passed on unchanged, status included. */
  lemma ParseErrorPropagates(e: Error)
    ensures FromHeaders(Err(e)) == Err(e)
    ensures FromHeaders(Err(e)).error.status == e.status
  {
  }

  /** A scheme other than `Basic` is refused whatever the credentials, so they are never decoded. */
  lemma SchemeCheckedFirst(scheme: Scheme, credentials: string)
    requires !scheme.Basic?
    ensures FromHeaders(Ok(Some(Authorization(scheme, credentials))))
            == Err(Error(BadRequest, UnexpectedScheme(scheme)))
  {
  }

  /**
   * A `Basic` header is decided by `from_credentials` alone: the header is
   * refused exactly when its credentials are, with the very same error, and
   * accepted with the very same pair otherwise.
   */
  lemma BasicHeaderRefusal(credentials: string)
    ensures var r := FromHeaders(Ok(Some(Authorization(Basic, credentials))));
            var c := FromCredentials(Utf8.Encode(credentials));
            && (r.Err? <==> c.Err?)
            && (r.Err? ==> r.error == c.error)
            && (r.Ok? ==> r.value == Some(c.value))
  {
  }

  /**
   * `from_headers` yields credentials exactly when the header is the one
   * `header_value` writes for them and the username has no colon.
   */
  lemma FromHeadersAccepts(lookup: Result<Option<Authorization>>, auth: BasicAuth)
    ensures FromHeaders(lookup) == Ok(Some(auth))
            <==> lookup == Ok(Some(Authorization(Basic, Credentials(auth)))) && Colon !in auth.username
  {
    CredentialBytes(auth);
    if FromHeaders(lookup) == Ok(Some(auth)) {
      var found := lookup.value.value;
      FromCredentialsAccepts(Utf8.Encode(found.credentials), auth);
      Utf8.EncodeInjective(found.credentials, Credentials(auth));
    }
    if lookup == Ok(Some(Authorization(Basic, Credentials(auth)))) && Colon !in auth.username {
      FromCredentialsAccepts(Utf8.Encode(Credentials(auth)), auth);
    }
  }

  /** Round trip: the header written for a colon-free username reads back as the same pair. */
  lemma RoundTrip(username: string, password: string)
    requires Colon !in username
    ensures var auth := New(username, password);
            FromHeaders(Ok(Some(Authorization(Basic, Credentials(auth))))) == Ok(Some(auth))
  {
    FromHeadersAccepts(Ok(Some(Authorization(Basic, Credentials(New(username, password))))), New(username, password));
  }

  /**
   * A username holding a colon does not survive the trip: the reader cuts at
   * its first colon and moves the rest into the password.
   */
  lemma ColonInUsernameSplits(username: string, password: string)
    requires Colon in username
    ensures var i := Text.Find(username, Colon).value;
            var auth := New(username, password);
            && FromHeaders(Ok(Some(Authorization(Basic, Credentials(auth)))))
               == Ok(Some(New(username[..i], username[i + 1..] + [Colon] + password)))
            && FromHeaders(Ok(Some(Authorization(Basic, Credentials(auth))))) != Ok(Some(auth))
  {
    var i := Text.Find(username, Colon).value;
    var auth := New(username, password);
    var moved := New(username[..i], username[i + 1..] + [Colon] + password);
    MovedColon(username, password, i);
    assert Credentials(moved) == Credentials(auth);
    FromHeadersAccepts(Ok(Some(Authorization(Basic, Credentials(auth)))), moved);
    FromHeadersAccepts(Ok(Some(Authorization(Basic, Credentials(auth)))), auth);
  }

  /** Moving the part of the username after a colon into the password leaves `username:password` unchanged. */
  lemma MovedColon(username: string, password: string, i: nat)
    requires i < |username| && username[i] == Colon
    ensures UserPass(New(username[..i], username[i + 1..] + [Colon] + password)) == UserPass(New(username, password))
  {
    assert username == username[..i] + [Colon] + username[i + 1..];
  }
}
