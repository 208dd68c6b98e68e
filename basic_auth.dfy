/**
 * The Basic authenticator: from an Authorization header to a user, through the
 * scheme prefix, Base64, UTF-8 and the `user-pass` split of section 2 of RFC 7617.
 * Every stage answers None instead of raising.
 */
module BasicCredentials {
  import opened Wrappers
  import opened Requests
  import AuthGate
  import Base64
  import Utf8

  /** A Python argument as these methods test it: `None`, a `str`, or any other object. */
  datatype Arg = Absent | Text(s: string) | NotText

  /** A stored user, as far as Basic authentication reads it. */
  datatype User = User(id: string, email: Option<string>)

  /** The scheme prefix, matched case-sensitively and including its space. */
  const Scheme: string := "Basic "

  /** `extract_base64_authorization_header`: the text after an exact `Basic ` prefix. */
  function ExtractBase64AuthorizationHeader(header: Arg): (r: Option<string>)
    ensures r.Some? <==> header.Text? && Scheme <= header.s
    ensures r.Some? ==> Scheme + r.value == header.s
  {
    if header.Text? && Scheme <= header.s then Some(header.s[|Scheme|..]) else None
  }

  /** `decode_base64_authorization_header`: Base64 then UTF-8; None wherever either fails. */
  function DecodeBase64AuthorizationHeader(b64: Arg): (r: Option<string>)
    ensures r.Some? ==> b64.Text? && Base64.Decode(b64.s).Some?
                        && Utf8.Encode(r.value) == Base64.Decode(b64.s).value
    ensures b64.Text? && Base64.Decode(b64.s).Some? && Utf8.Decode(Base64.Decode(b64.s).value).Some? ==> r.Some?
  {
    if !b64.Text? then None
    else match Base64.Decode(b64.s)
      case None => None
      case Some(bytes) =>
        Utf8.Decode(bytes)
  }

  /** Round trip: the Base64 encoding of the UTF-8 bytes of any text decodes to that text. */
  lemma DecodeHeaderRoundTrip(text: string)
    ensures DecodeBase64AuthorizationHeader(Text(Base64.Encode(Utf8.Encode(text)))) == Some(text)
  {
    Base64.DecodeEncode(Utf8.Encode(text));
    Utf8.DecodeEncode(text);
  }

  /** The position of the first colon, if any. */
  function FirstColon(s: string): (r: Option<nat>)
    ensures r.None? <==> ':' !in s
    ensures r.Some? ==> r.value < |s| && s[r.value] == ':' && ':' !in s[..r.value]
  {
    if s == [] then None
    else if s[0] == ':' then Some(0)
    else
      var r := FirstColon(s[1..]);
      if r.None? then None
      else
        assert s[..r.value + 1] == [s[0]] + s[1..][..r.value];
        Some(r.value + 1)
  }

  /**
   * `extract_user_credentials`: the text split at its first colon into email and
   * password, or a pair of None when the argument is no text or has no colon.
   */
  function ExtractUserCredentials(decoded: Arg): (r: (Option<string>, Option<string>))
    ensures r.0.Some? <==> r.1.Some?
    ensures r.0.Some? <==> decoded.Text? && ':' in decoded.s
    ensures r.0.Some? ==> ':' !in r.0.value && r.0.value + ":" + r.1.value == decoded.s
  {
    if !decoded.Text? then (None, None)
    else match FirstColon(decoded.s)
      case None => (None, None)
      case Some(i) =>
        assert decoded.s[..i] + ":" + decoded.s[i + 1..] == decoded.s;
        (Some(decoded.s[..i]), Some(decoded.s[i + 1..]))
  }

  /** Splitting is the inverse of joining an email without a colon to any password. */
  lemma {:induction false} CredentialsSplitJoin(email: string, password: string)
    requires ':' !in email
    ensures ExtractUserCredentials(Text(email + ":" + password)) == (Some(email), Some(password))
  {
    var s := email + ":" + password;
    assert s[|email|] == ':';
    var r := ExtractUserCredentials(Text(s));
    var e := r.0.value;
    // both splits put the first colon of s right after the email part
    assert e + ":" + r.1.value == s;
    assert forall i :: 0 <= i < |email| ==> s[i] == email[i] && s[i] != ':';
    assert s[|e|] == ':';
    assert forall i :: 0 <= i < |e| ==> e[i] == s[i] && e[i] != ':';
    assert |e| == |email|;
    assert e == s[..|e|] == email;
    assert r.1.value == s[|email| + 1..] == password;
  }

  /** `"a:b:c"` splits at the first colon only. */
  lemma SplitsAtFirstColonOnly()
    ensures ExtractUserCredentials(Text("a:b:c")) == (Some("a"), Some("b:c"))
  {
    assert "a" + ":" + "b:c" == "a:b:c";
    CredentialsSplitJoin("a", "b:c");
  }

  /** The index of the first user whose email is `email`: the first element `User.search` returns. */
  function FirstWithEmail(users: seq<User>, email: string): (r: Option<nat>)
    ensures r.Some? ==> r.value < |users| && users[r.value].email == Some(email)
    ensures r.Some? ==> forall j :: 0 <= j < r.value ==> users[j].email != Some(email)
    ensures r.None? ==> forall j :: 0 <= j < |users| ==> users[j].email != Some(email)
  {
    FirstWhere(users, (u: User) => u.email == Some(email))
  }

  /**
   * `user_object_from_credentials`: the first user with that email if the password
   * is valid for it. `store` is None when the user search raises; `isValidPassword`
   * stands for the user model's own password check.
   */
  function UserObjectFromCredentials(email: Arg, password: Arg, store: Option<seq<User>>,
                                     isValidPassword: (User, string) -> bool): (r: Option<User>)
    ensures r.Some? <==> email.Text? && password.Text? && store.Some?
                         && FirstWithEmail(store.value, email.s).Some?
                         && isValidPassword(store.value[FirstWithEmail(store.value, email.s).value], password.s)
    ensures r.Some? ==> r.value == store.value[FirstWithEmail(store.value, email.s).value]
                        && r.value.email == Some(email.s)
  {
    if !email.Text? || !password.Text? then None
    else if store.None? then None
    else match FirstWithEmail(store.value, email.s)
      case None => None
      case Some(i) =>
        var user := store.value[i];
        if !isValidPassword(user, password.s) then None else Some(user)
  }

  /**
   * `current_user`: the chain from the request to a user, stopping at the first
   * stage that gives None. It only succeeds when every stage did, and then its
   * answer is the credential check on the decoded pair.
   */
  function CurrentUser(request: Option<Request>, store: Option<seq<User>>,
                       isValidPassword: (User, string) -> bool): (r: Option<User>)
    ensures r.Some? ==>
      var header := AuthGate.AuthorizationHeader(request);
      header.Some? &&
      var b64 := ExtractBase64AuthorizationHeader(Text(header.value));
      b64.Some? &&
      var decoded := DecodeBase64AuthorizationHeader(Text(b64.value));
      decoded.Some? &&
      var pair := ExtractUserCredentials(Text(decoded.value));
      pair.0.Some? && pair.1.Some? &&
      r == UserObjectFromCredentials(Text(pair.0.value), Text(pair.1.value), store, isValidPassword)
  {
    var header := AuthGate.AuthorizationHeader(request);
    if header.None? then None
    else
      var b64 := ExtractBase64AuthorizationHeader(Text(header.value));
      if b64.None? then None
      else
        var decoded := DecodeBase64AuthorizationHeader(Text(b64.value));
        if decoded.None? then None
        else
          var pair := ExtractUserCredentials(Text(decoded.value));
          if pair.0.None? || pair.1.None? then None
          else UserObjectFromCredentials(Text(pair.0.value), Text(pair.1.value), store, isValidPassword)
  }

  /** The header a client sends for an email and password. */
  function BasicHeader(email: string, password: string): string {
    Scheme + Base64.Encode(Utf8.Encode(email + ":" + password))
  }

  /**
   * End to end: a request whose Authorization header carries an email (without a
   * colon) and a password authenticates exactly as the credential check on that pair.
   */
  lemma CurrentUserOfBasicHeader(request: Request, email: string, password: string,
                                 store: Option<seq<User>>, isValidPassword: (User, string) -> bool)
    requires ':' !in email
    requires HeaderGet(request.headers, "Authorization") == Some(BasicHeader(email, password))
    ensures CurrentUser(Some(request), store, isValidPassword)
            == UserObjectFromCredentials(Text(email), Text(password), store, isValidPassword)
  {
    var text := email + ":" + password;
    var header := BasicHeader(email, password);
    var encoded := Base64.Encode(Utf8.Encode(text));
    assert ExtractBase64AuthorizationHeader(Text(header)) == Some(encoded) by {
      assert (Scheme + encoded)[|Scheme|..] == encoded;
    }
    DecodeHeaderRoundTrip(text);
    CredentialsSplitJoin(email, password);
    CurrentUserStages(request, header, encoded, text, email, password, store, isValidPassword);
  }

  /** When every stage of the chain succeeds, `current_user` is the credential check on the decoded pair. */
  lemma CurrentUserStages(request: Request, header: string, encoded: string, text: string,
                          email: string, password: string,
                          store: Option<seq<User>>, isValidPassword: (User, string) -> bool)
    requires AuthGate.AuthorizationHeader(Some(request)) == Some(header)
    requires ExtractBase64AuthorizationHeader(Text(header)) == Some(encoded)
    requires DecodeBase64AuthorizationHeader(Text(encoded)) == Some(text)
    requires ExtractUserCredentials(Text(text)) == (Some(email), Some(password))
    ensures CurrentUser(Some(request), store, isValidPassword)
            == UserObjectFromCredentials(Text(email), Text(password), store, isValidPassword)
  {
  }

  /** A header with another scheme, or the scheme in other case, authenticates nobody. */
  lemma SchemeIsCaseSensitive()
    ensures ExtractBase64AuthorizationHeader(Text("basic QQ==")) == None
    ensures ExtractBase64AuthorizationHeader(Text("Basic QQ==")) == Some("QQ==")
  {
    assert "basic QQ=="[0] != Scheme[0];
  }
}
