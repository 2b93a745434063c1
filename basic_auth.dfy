/**
 * `BasicAuth`, the HTTP Basic scheme (section 2 of RFC 7617) built on `Auth`:
 * each stage returns an optional value, and a `None` at any stage makes every
 * later stage return `None`.
 */
module BasicAuth {
  import opened Wrappers
  import opened Bytes
  import opened Strings
  import opened Users
  import Utf8
  import Base64
  import Auth

  /** A dynamically typed Python argument, as the stages inspect it: `None`, a `str`, or anything else. */
  datatype Arg = Null | Str(text: string) | NotStr

  /** A stage's optional `str` result passed on as the next stage's argument. */
  function ArgOf(o: Option<string>): (a: Arg)
    ensures a.Str? <==> o.Some?
    ensures o.Some? ==> a.text == o.value
  {
    match o
    case None => Null
    case Some(s) => Str(s)
  }

  /** The scheme token and the single space that follows it; matched case-sensitively. */
  const Prefix: string := "Basic "

  /** `extract_base64_authorization_header`: the text after `Basic `, for a header that starts with it. */
  function ExtractBase64AuthorizationHeader(header: Arg): (r: Option<string>)
    ensures r.Some? <==> header.Str? && StartsWith(header.text, Prefix)
    ensures r.Some? ==> header.text == Prefix + r.value
  {
    if header.Str? && header.text != "" && StartsWith(header.text, Prefix) then
      Some(header.text[|Prefix|..])
    else None
  }

  /** Prefixing `Basic ` and extracting again gives back exactly what was prefixed. */
  lemma ExtractAfterPrefix(payload: string)
    ensures ExtractBase64AuthorizationHeader(Str(Prefix + payload)) == Some(payload)
  {
  }

  lemma ExtractExamples()
    ensures ExtractBase64AuthorizationHeader(Str("Basic eHl6")) == Some("eHl6")
    ensures ExtractBase64AuthorizationHeader(Str("Bearer xyz")) == None
    ensures ExtractBase64AuthorizationHeader(Str("basic eHl6")) == None
    ensures ExtractBase64AuthorizationHeader(Str("Basic")) == None
  {
    ExtractAfterPrefix("eHl6");
    assert "Basic " + "eHl6" == "Basic eHl6";
    assert "Bearer xyz"[..6][1] == 'e';
    assert "basic eHl6"[..6][0] == 'b';
  }

  /**
   * `decode_base64_authorization_header`: base64-decode the text and read the
   * octets as UTF-8; None for `None`, for a non-`str`, and for either decoding
   * failing.
   */
  function DecodeBase64AuthorizationHeader(encoded: Arg): (r: Option<string>)
    ensures !encoded.Str? ==> r.None?
    ensures encoded.Str? ==>
      (r.Some? <==> Base64.Decode(encoded.text).Some? && Utf8.Decode(Base64.Decode(encoded.text).value).Some?)
    ensures r.Some? ==> Base64.Decode(encoded.text) == Some(Utf8.Encode(r.value))
  {
    if encoded.Null? then None
    else if encoded.NotStr? then None
    else
      match Base64.Decode(encoded.text)
      case None => None
      case Some(octets) =>
        match Utf8.Decode(octets)
        case None => None
        case Some(s) => Some(s)
  }

  /** Round trip: the stage decodes the base64 of the UTF-8 form of any string `s` to `s` exactly. */
  lemma DecodeRoundTrip(s: string)
    ensures DecodeBase64AuthorizationHeader(Str(Base64.Encode(Utf8.Encode(s)))) == Some(s)
  {
    Base64.DecodeEncode(Utf8.Encode(s));
    Utf8.DecodeEncode(s);
  }

  /** The stage yields `s` exactly when the text base64-decodes to the UTF-8 form of `s`. */
  lemma DecodeStageExact(text: string, s: string)
    ensures DecodeBase64AuthorizationHeader(Str(text)) == Some(s) <==> Base64.Decode(text) == Some(Utf8.Encode(s))
  {
    if Base64.Decode(text) == Some(Utf8.Encode(s)) {
      Utf8.DecodeEncode(s);
    }
  }

  /**
   * `extract_user_credentials`: split on the first `:` into the email and the
   * password, which keeps any later `:`; a pair of `None` when there is no text
   * or no `:` in it.
   */
  function ExtractUserCredentials(decoded: Arg): (r: (Option<string>, Option<string>))
    ensures r.0.Some? <==> r.1.Some?
    ensures r.0.Some? <==> decoded.Str? && ':' in decoded.text
    ensures r.0.Some? ==> ':' !in r.0.value && r.0.value + ":" + r.1.value == decoded.text
  {
    if decoded.Null? then (None, None)
    else if decoded.NotStr? then (None, None)
    else
      match IndexOf(decoded.text, ':')
      case None => (None, None)
      case Some(i) =>
        var text := decoded.text;
        assert text == text[..i] + ":" + text[i + 1..];
        (Some(text[..i]), Some(text[i + 1..]))
  }

  /** The split is determined: the only colon-free email `e` with `e + ":" + p` equal to the text is the one returned. */
  lemma CredentialsSplitUnique(email: string, pwd: string)
    requires ':' !in email
    ensures ExtractUserCredentials(Str(email + ":" + pwd)) == (Some(email), Some(pwd))
  {
    var text := email + ":" + pwd;
    var r := ExtractUserCredentials(Str(text));
    var i := IndexOf(text, ':').value;
    assert text[..|email|] == email && text[|email|] == ':';
    assert forall k :: 0 <= k < |email| ==> text[k] != ':';
    assert forall k :: 0 <= k < i ==> text[..i][k] == text[k];
    assert i == |email|;
    var e := r.0.value;
    assert e == text[..|e|] == email;
    assert r.1.value == text[|e| + 1..] == pwd;
  }

  lemma CredentialsExamples()
    ensures ExtractUserCredentials(Str("a:b:c")) == (Some("a"), Some("b:c"))
    ensures ExtractUserCredentials(Str("no-colon")) == (None, None)
  {
    CredentialsSplitUnique("a", "b:c");
    assert "a" + ":" + "b:c" == "a:b:c";
    assert ':' !in "no-colon";
  }

  /**
   * `user_object_from_credentials`: look the email up and accept the first
   * candidate alone, if the password verifies against it.  `search` stands
   * for `User.search({'email': ...})`, with None for the exception it may
   * raise, and `isValidPassword` for `User.is_valid_password`.
   */
  function UserObjectFromCredentials(userEmail: Arg, userPwd: Arg,
                                     search: string -> Option<seq<User>>,
                                     isValidPassword: (User, string) -> bool): (r: Option<User>)
    ensures r.Some? <==>
      userEmail.Str? && userPwd.Str? && search(userEmail.text).Some? && |search(userEmail.text).value| > 0
      && isValidPassword(search(userEmail.text).value[0], userPwd.text)
    ensures r.Some? ==> r.value == search(userEmail.text).value[0]
  {
    if userEmail.Null? || userEmail.NotStr? then None
    else if userPwd.Null? || userPwd.NotStr? then None
    else
      match search(userEmail.text)
      case None => None
      case Some(users) =>
        if |users| == 0 then None
        else if isValidPassword(users[0], userPwd.text) then Some(users[0])
        else None
  }

  /** Only the first candidate is consulted: two searches that agree on it give the same answer. */
  lemma OnlyFirstCandidate(email: string, pwd: string,
                           search1: string -> Option<seq<User>>, search2: string -> Option<seq<User>>,
                           isValidPassword: (User, string) -> bool)
    requires search1(email).Some? && search2(email).Some?
    requires |search1(email).value| > 0 && |search2(email).value| > 0
    requires search1(email).value[0] == search2(email).value[0]
    ensures UserObjectFromCredentials(Str(email), Str(pwd), search1, isValidPassword)
         == UserObjectFromCredentials(Str(email), Str(pwd), search2, isValidPassword)
  {
  }

  /** A later candidate that would verify is never tried once the first one fails. */
  lemma LaterCandidateIgnored(email: string, pwd: string, first: User, second: User,
                              isValidPassword: (User, string) -> bool)
    requires !isValidPassword(first, pwd) && isValidPassword(second, pwd)
    ensures UserObjectFromCredentials(Str(email), Str(pwd), _ => Some([first, second]), isValidPassword) == None
  {
  }

  /**
   * The request carries `Authorization: Basic <payload>` whose payload
   * base64-decodes to the UTF-8 form of `email:pwd`, `email` holding no `:`.
   */
  predicate CarriesCredentials(request: Option<Auth.Request>, email: string, pwd: string) {
    request.Some? && "Authorization" in request.value.headers
    && var header := request.value.headers["Authorization"];
    StartsWith(header, Prefix) && ':' !in email
    && Base64.Decode(header[|Prefix|..]) == Some(Utf8.Encode(email + ":" + pwd))
  }

  /**
   * `BasicAuth.current_user`: the five stages composed.  A user is resolved
   * only from credentials the request carries, the user being the first
   * candidate the search returns for the email and the password verifying
   * against it.
   */
  function CurrentUser(request: Option<Auth.Request>,
                       search: string -> Option<seq<User>>,
                       isValidPassword: (User, string) -> bool): (r: Option<User>)
    ensures Auth.AuthorizationHeader(request).None? ==> r.None?
    ensures r.Some? ==>
      (exists email, pwd :: CarriesCredentials(request, email, pwd)
         && search(email).Some? && |search(email).value| > 0
         && search(email).value[0] == r.value && isValidPassword(r.value, pwd))
  {
    var authHeader := Auth.AuthorizationHeader(request);
    var b64Header := ExtractBase64AuthorizationHeader(ArgOf(authHeader));
    var decodedHeader := DecodeBase64AuthorizationHeader(ArgOf(b64Header));
    var userCreds := ExtractUserCredentials(ArgOf(decodedHeader));
    var user := UserObjectFromCredentials(ArgOf(userCreds.0), ArgOf(userCreds.1), search, isValidPassword);
    if user.Some? then
      assert CarriesCredentials(request, userCreds.0.value, userCreds.1.value);
      user
    else user
  }

  /** Completeness: a request that carries credentials resolves by the first-candidate rule on them. */
  lemma CurrentUserComplete(request: Option<Auth.Request>, email: string, pwd: string,
                            search: string -> Option<seq<User>>,
                            isValidPassword: (User, string) -> bool)
    requires CarriesCredentials(request, email, pwd)
    ensures CurrentUser(request, search, isValidPassword)
         == UserObjectFromCredentials(Str(email), Str(pwd), search, isValidPassword)
  {
    var header := request.value.headers["Authorization"];
    var payload := header[|Prefix|..];
    assert header == Prefix + payload;
    ExtractAfterPrefix(payload);
    DecodeStageExact(payload, email + ":" + pwd);
    CredentialsSplitUnique(email, pwd);
  }

  /**
   * End to end: a request whose header is `Basic ` followed by the base64 of
   * `email:pwd` resolves to the first user found under `email` when `pwd`
   * verifies against that user, and to nothing otherwise.
   */
  lemma EndToEnd(email: string, pwd: string, user: User, others: seq<User>,
                 search: string -> Option<seq<User>>,
                 isValidPassword: (User, string) -> bool)
    requires ':' !in email
    requires search(email) == Some([user] + others)
    ensures var request := Auth.Request(map["Authorization" := Prefix + Base64.Encode(Utf8.Encode(email + ":" + pwd))]);
      CurrentUser(Some(request), search, isValidPassword) == if isValidPassword(user, pwd) then Some(user) else None
  {
    var payload := Base64.Encode(Utf8.Encode(email + ":" + pwd));
    var request := Auth.Request(map["Authorization" := Prefix + payload]);
    Base64.DecodeEncode(Utf8.Encode(email + ":" + pwd));
    assert (Prefix + payload)[..|Prefix|] == Prefix && (Prefix + payload)[|Prefix|..] == payload;
    CurrentUserComplete(Some(request), email, pwd, search, isValidPassword);
  }

  /** An empty search result resolves to nothing, whatever the request carries. */
  lemma NoCandidateNoUser(request: Option<Auth.Request>, isValidPassword: (User, string) -> bool)
    ensures CurrentUser(request, _ => Some([]), isValidPassword) == None
  {
  }

  /** A `Basic` payload that base64 cannot decode (such as `!!!not-base64!!!`) resolves to nothing. */
  lemma MalformedPayloadNoUser(payload: string, search: string -> Option<seq<User>>,
                               isValidPassword: (User, string) -> bool)
    requires Base64.Decode(payload) == None
    ensures CurrentUser(Some(Auth.Request(map["Authorization" := Prefix + payload])), search, isValidPassword) == None
  {
  }
}
