/**
  The authorization flow of src/gauth2.rs: `GoogleOAuth2::new`,
  `open_browser_to_begin` (the authorization request of section 4.1.1 of
  RFC 6749 with the PKCE parameters of section 4.3 of RFC 7636),
  `exchange_code_to_tokens` (the token request of section 4.1.3 of RFC 6749
  and section 4.5 of RFC 7636) and `begin`, which sequences them around a
  loopback redirect (section 7.3 of RFC 8252). Everything the flow draws
  from the outside world comes in as an `Environment`.
*/
module OAuthFlow {
  import opened Wrappers
  import opened Strings
  import opened PercentCoding
  import opened QueryString
  import opened Base64Url
  import opened PortSelection
  import opened Callback

  type u32 = x: int | 0 <= x < 0x1_0000_0000

  /** The two endpoints the flow takes from Google's well-known configuration. */
  datatype Endpoints = Endpoints(authorizationEndpoint: string, tokenEndpoint: string)

  /** The token response (section 5.1 of RFC 6749). */
  datatype TokenData = TokenData(
    accessToken: string,
    expiresIn: u32,
    idToken: Option<string>,
    refreshToken: string,
    scope: string,
    tokenType: string)

  /** The token data a fresh client holds. */
  const EmptyTokenData := TokenData("", 0, None, "", "", "")

  /** The scopes requested. */
  const Scopes := "openid" + " " + "profile" + " " + "email"

  /** `urlencode(Scopes)`, as `ScopesEncoded` proves; kept as a constant so that the flow does not re-encode it. */
  const EncodedScopes := "openid" + "%20" + "profile" + "%20" + "email"

  /** `format!("{}", port)`: decimal digits without leading zeros. */
  function DecimalString(n: nat): (s: string)
    ensures |s| >= 1 && forall i :: 0 <= i < |s| ==> '0' <= s[i] <= '9'
    ensures s[0] == '0' ==> n == 0
  {
    if n < 10 then [('0' as int + n) as char]
    else DecimalString(n / 10) + [('0' as int + n % 10) as char]
  }

  /** The number a string of decimal digits denotes. */
  function DecimalValue(s: string): nat
    requires forall i :: 0 <= i < |s| ==> '0' <= s[i] <= '9'
  {
    if s == [] then 0 else 10 * DecimalValue(s[..|s| - 1]) + (s[|s| - 1] as int - '0' as int)
  }

  /** The digits written for a port read back as that port. */
  lemma {:induction false} DecimalRoundTrip(n: nat)
    ensures DecimalValue(DecimalString(n)) == n
  {
    if n >= 10 {
      DecimalRoundTrip(n / 10);
      var s := DecimalString(n);
      assert s[..|s| - 1] == DecimalString(n / 10);
    }
  }

  /** `format!("http://localhost:{}", port)` */
  function RedirectUri(port: nat): string {
    "http://localhost:" + DecimalString(port)
  }

  /** The redirect URI names the port: what follows `http://localhost:` is the port in decimal. */
  lemma RedirectUriNamesPort(port: nat)
    ensures StartsWith(RedirectUri(port), "http://localhost:")
    ensures var digits := RedirectUri(port)[|"http://localhost:"|..];
      && (forall i :: 0 <= i < |digits| ==> '0' <= digits[i] <= '9')
      && DecimalValue(digits) == port
  {
    DecimalRoundTrip(port);
    assert RedirectUri(port)[|"http://localhost:"|..] == DecimalString(port);
  }

  /** The query fields of the authorization URL as written: urlencoded where the format string urlencodes. */
  function AuthorizationFields(clientId: string, redirectUri: string, state: string, codeChallenge: string): seq<(string, string)> {
    [ ("response_type", "code"),
      ("scope", EncodedScopes),
      ("redirect_uri", Encoded(redirectUri)),
      ("client_id", clientId),
      ("state", Encoded(state)),
      ("code_challenge", codeChallenge),
      ("code_challenge_method", "S256") ]
  }

  /** The parameters the authorization URL carries. */
  function AuthorizationParams(clientId: string, redirectUri: string, state: string, codeChallenge: string): seq<(string, string)> {
    [ ("response_type", "code"),
      ("scope", Scopes),
      ("redirect_uri", redirectUri),
      ("client_id", clientId),
      ("state", state),
      ("code_challenge", codeChallenge),
      ("code_challenge_method", "S256") ]
  }

  /**
    The `format!` of `open_browser_to_begin`: the endpoint, `?`, and the
    fields in their fixed order joined by `&`.
  */
  function AuthorizationUrl(authorizationEndpoint: string, clientId: string, redirectUri: string, state: string, codeChallenge: string): string {
    authorizationEndpoint + "?" + Join(PairTexts(AuthorizationFields(clientId, redirectUri, state, codeChallenge)), '&')
  }

  /** A field written verbatim writes its own value when the value holds no `%`. */
  lemma VerbatimWrites(k: string, v: string)
    requires '&' !in k && '=' !in k && '&' !in v && '=' !in v && '%' !in v
    ensures Writes((k, v), (k, v))
  {
    DecodedPlain(v);
  }

  /** A urlencoded field writes its value. */
  lemma EncodedWrites(k: string, v: string)
    requires '&' !in k && '=' !in k && IsLatin1(v)
    ensures Writes((k, Encoded(v)), (k, v))
  {
    EncodedIsSafe(v);
    RoundTrip(v);
  }

  /** Each written field of the authorization URL decodes to its parameter. */
  lemma AuthorizationFieldsWrite(clientId: string, redirectUri: string, state: string, codeChallenge: string)
    requires '&' !in clientId && '=' !in clientId && '%' !in clientId
    requires '&' !in codeChallenge && '=' !in codeChallenge && '%' !in codeChallenge
    requires IsLatin1(redirectUri) && IsLatin1(state)
    ensures var raws := AuthorizationFields(clientId, redirectUri, state, codeChallenge);
      var kvs := AuthorizationParams(clientId, redirectUri, state, codeChallenge);
      forall i :: 0 <= i < 7 ==> Writes(raws[i], kvs[i])
  {
    var raws := AuthorizationFields(clientId, redirectUri, state, codeChallenge);
    var kvs := AuthorizationParams(clientId, redirectUri, state, codeChallenge);
    FixedFieldsWrite();
    ParameterKeysPlain();
    EncodedWrites("redirect_uri", redirectUri);
    VerbatimWrites("client_id", clientId);
    EncodedWrites("state", state);
    VerbatimWrites("code_challenge", codeChallenge);
    forall i | 0 <= i < 7
      ensures Writes(raws[i], kvs[i])
    {
      if i == 0 {
        assert raws[0] == kvs[0] == ("response_type", "code");
      } else if i == 1 {
        assert raws[1] == ("scope", EncodedScopes) && kvs[1] == ("scope", Scopes);
      } else if i == 2 {
        assert raws[2] == ("redirect_uri", Encoded(redirectUri)) && kvs[2] == ("redirect_uri", redirectUri);
      } else if i == 3 {
        assert raws[3] == kvs[3] == ("client_id", clientId);
      } else if i == 4 {
        assert raws[4] == ("state", Encoded(state)) && kvs[4] == ("state", state);
      } else if i == 5 {
        assert raws[5] == kvs[5] == ("code_challenge", codeChallenge);
      } else {
        assert raws[6] == kvs[6] == ("code_challenge_method", "S256");
      }
    }
  }

  /** The three fixed fields read back as their parameters. */
  lemma FixedFieldsWrite()
    ensures Writes(("response_type", "code"), ("response_type", "code"))
    ensures Writes(("scope", EncodedScopes), ("scope", Scopes))
    ensures Writes(("code_challenge_method", "S256"), ("code_challenge_method", "S256"))
  {
    ResponseTypeWrites();
    ScopeWrites();
    VerbatimWrites("code_challenge_method", "S256");
  }

  /** The fixed `response_type=code` field reads back as itself. */
  lemma ResponseTypeWrites()
    ensures Writes(("response_type", "code"), ("response_type", "code"))
  {
    VerbatimWrites("response_type", "code");
  }

  lemma ScopeWrites()
    ensures Writes(("scope", EncodedScopes), ("scope", Scopes))
  {
    ScopesLatin1();
    EncodedWrites("scope", Scopes);
    ScopesEncoded();
  }

  lemma ScopesLatin1()
    ensures IsLatin1(Scopes)
  {
  }

  /** The names of the four variable fields hold neither `&` nor `=`. */
  lemma ParameterKeysPlain()
    ensures '&' !in "redirect_uri" && '=' !in "redirect_uri"
    ensures '&' !in "client_id" && '=' !in "client_id"
    ensures '&' !in "state" && '=' !in "state"
    ensures '&' !in "code_challenge" && '=' !in "code_challenge"
  {
  }

  lemma AuthorizationParamsMap(clientId: string, redirectUri: string, state: string, codeChallenge: string)
    ensures MapOf(AuthorizationParams(clientId, redirectUri, state, codeChallenge)) == map[
      "response_type" := "code", "scope" := Scopes, "redirect_uri" := redirectUri, "client_id" := clientId,
      "state" := state, "code_challenge" := codeChallenge, "code_challenge_method" := "S256"]
  {
    var kvs := AuthorizationParams(clientId, redirectUri, state, codeChallenge);
    assert kvs[..1][..0] == [];
    assert MapOf(kvs[..1]) == map["response_type" := "code"];
    assert kvs[..2][..1] == kvs[..1];
    assert MapOf(kvs[..2]) == map["response_type" := "code", "scope" := Scopes];
    assert kvs[..3][..2] == kvs[..2];
    assert MapOf(kvs[..3]) == map["response_type" := "code", "scope" := Scopes, "redirect_uri" := redirectUri];
    assert kvs[..4][..3] == kvs[..3];
    assert MapOf(kvs[..4]) == map["response_type" := "code", "scope" := Scopes, "redirect_uri" := redirectUri,
      "client_id" := clientId];
    assert kvs[..5][..4] == kvs[..4];
    assert MapOf(kvs[..5]) == map["response_type" := "code", "scope" := Scopes, "redirect_uri" := redirectUri,
      "client_id" := clientId, "state" := state];
    assert kvs[..6][..5] == kvs[..5];
    assert MapOf(kvs[..6]) == map["response_type" := "code", "scope" := Scopes, "redirect_uri" := redirectUri,
      "client_id" := clientId, "state" := state, "code_challenge" := codeChallenge];
    assert kvs[..7][..6] == kvs[..6];
    assert kvs[..7] == kvs;
  }

  /**
    An authorization server that reads the URL with this query parser
    recovers exactly the seven parameters, decoded: the redirect URI, the
    state and the challenge the flow generated among them.
  */
  lemma AuthorizationUrlParses(authorizationEndpoint: string, clientId: string, redirectUri: string, state: string, codeChallenge: string)
    requires '?' !in authorizationEndpoint
    requires '&' !in clientId && '=' !in clientId && '%' !in clientId
    requires '&' !in codeChallenge && '=' !in codeChallenge && '%' !in codeChallenge
    requires IsLatin1(redirectUri) && IsLatin1(state)
    ensures QueryOf(AuthorizationUrl(authorizationEndpoint, clientId, redirectUri, state, codeChallenge)) == Some(map[
      "response_type" := "code", "scope" := Scopes, "redirect_uri" := redirectUri, "client_id" := clientId,
      "state" := state, "code_challenge" := codeChallenge, "code_challenge_method" := "S256"])
  {
    AuthorizationFieldsWrite(clientId, redirectUri, state, codeChallenge);
    RawQueryParses(authorizationEndpoint, AuthorizationFields(clientId, redirectUri, state, codeChallenge),
      AuthorizationParams(clientId, redirectUri, state, codeChallenge));
    AuthorizationParamsMap(clientId, redirectUri, state, codeChallenge);
  }

  lemma EncodedSpace()
    ensures Encoded(" ") == "%20"
  {
    assert " "[..0] == [];
    assert EscapeOf(' ') == "%20";
  }

  /** A space between two texts is encoded as `%20`. */
  lemma EncodedSpaced(a: string, b: string)
    ensures Encoded(a + " " + b) == Encoded(a) + "%20" + Encoded(b)
  {
    EncodedAppend(a + " ", b);
    EncodedAppend(a, " ");
    EncodedSpace();
  }

  /** Three alphanumeric words separated by spaces encode to the words separated by `%20`. */
  lemma SpacedWordsEncoded(a: string, b: string, c: string)
    requires forall i :: 0 <= i < |a| ==> IsAsciiAlphanumeric(a[i])
    requires forall i :: 0 <= i < |b| ==> IsAsciiAlphanumeric(b[i])
    requires forall i :: 0 <= i < |c| ==> IsAsciiAlphanumeric(c[i])
    ensures Encoded(a + " " + b + " " + c) == a + "%20" + b + "%20" + c
  {
    EncodedSpaced(a + " " + b, c);
    EncodedSpaced(a, b);
    EncodedAlphanumeric(a);
    EncodedAlphanumeric(b);
    EncodedAlphanumeric(c);
  }

  /**
    The seven `name=value` texts of the authorization URL, in order: the
    scope is `openid%20profile%20email`, redirect_uri and state are
    percent-encoded, client_id and code_challenge are inserted verbatim.
  */
  lemma AuthorizationFieldTexts(clientId: string, redirectUri: string, state: string, codeChallenge: string)
    ensures var t := PairTexts(AuthorizationFields(clientId, redirectUri, state, codeChallenge));
      && |t| == 7
      && t[0] == "response_type=code"
      && t[1] == "scope=openid%20profile%20email"
      && t[2] == "redirect_uri=" + Encoded(redirectUri)
      && t[3] == "client_id=" + clientId
      && t[4] == "state=" + Encoded(state)
      && t[5] == "code_challenge=" + codeChallenge
      && t[6] == "code_challenge_method=S256"
  {
    var f := AuthorizationFields(clientId, redirectUri, state, codeChallenge);
    var t := PairTexts(f);
    PairTextsAt(f);
    FixedFieldTexts();
    assert t[0] == f[0].0 + "=" + f[0].1;
    assert t[1] == f[1].0 + "=" + f[1].1;
    assert t[2] == f[2].0 + "=" + f[2].1;
    assert t[3] == f[3].0 + "=" + f[3].1;
    assert t[4] == f[4].0 + "=" + f[4].1;
    assert t[5] == f[5].0 + "=" + f[5].1;
    assert t[6] == f[6].0 + "=" + f[6].1;
  }

  /** The written form of the three fixed fields. */
  lemma FixedFieldTexts()
    ensures "response_type" + "=" + "code" == "response_type=code"
    ensures "scope" + "=" + EncodedScopes == "scope=openid%20profile%20email"
    ensures "code_challenge_method" + "=" + "S256" == "code_challenge_method=S256"
  {
    assert "response_type" + "=" + "code" == "response_type=code";
    assert "scope" + "=" + EncodedScopes == "scope=openid%20profile%20email";
  }

  /** The fixed scope list as it appears in the authorization URL. */
  lemma ScopesEncoded()
    ensures Encoded(Scopes) == EncodedScopes
  {
    SpacedWordsEncoded("openid", "profile", "email");
  }

  /** The eight fields `exchange_code_to_tokens` posts to the token endpoint. */
  function TokenRequest(code: string, clientId: string, state: string, clientSecret: string, redirectUri: string, codeVerifier: string): map<string, string> {
    map[
      "code" := code,
      "client_id" := clientId,
      "state" := state,
      "scope" := "",
      "client_secret" := clientSecret,
      "redirect_uri" := redirectUri,
      "grant_type" := "authorization_code",
      "code_verifier" := codeVerifier]
  }
  /** The token request has exactly the eight fields, each holding its own value. */
  lemma TokenRequestFields(code: string, clientId: string, state: string, clientSecret: string, redirectUri: string, codeVerifier: string)
    ensures var m := TokenRequest(code, clientId, state, clientSecret, redirectUri, codeVerifier);
      && m.Keys == {"code", "client_id", "state", "scope", "client_secret", "redirect_uri", "grant_type", "code_verifier"}
      && m["code"] == code && m["client_id"] == clientId && m["state"] == state && m["scope"] == ""
      && m["client_secret"] == clientSecret && m["redirect_uri"] == redirectUri
      && m["grant_type"] == "authorization_code" && m["code_verifier"] == codeVerifier
  {
  }


  /**
    What the flow meets outside the program: which ports can be bound, the
    32 random bytes drawn for the state and for the verifier, the SHA-256
    function, whether the browser opens, whether the callback listener can
    be set up, the poll events it sees, and what the token endpoint answers
    a POST with (`None` for a transport or JSON failure).
  */
  datatype Environment = Environment(
    canBind: int -> bool,
    stateBytes: Bytes32,
    verifierBytes: Bytes32,
    sha256: string -> Digest,
    browserOpens: bool,
    listening: bool,
    events: seq<Event>,
    post: (string, map<string, string>) -> Option<TokenData>)

  datatype FlowError =
    | PortSearchFailed(message: string)
    | BrowserFailed
    | CallbackFailed(cause: RecvError)
    | TokenRequestFailed
    | StateMismatch

  /** The outcome of one run, with the URL handed to the browser and the fields posted, when those steps were reached. */
  datatype FlowRun = FlowRun(outcome: Result<TokenData, FlowError>, browserUrl: Option<string>, posted: Option<map<string, string>>)

  /**
    The steps of `begin`, in order. With `checkState` false this is the code
    as written: the state of the callback is forwarded without comparison.
    With `checkState` true a callback state that differs from the
    generated one stops the flow before the token request.
  */
  function Run(endpoints: Endpoints, clientId: string, clientSecret: string, env: Environment, checkState: bool): FlowRun {
    match FirstBindable(env.canBind, FirstPort)
    case Err(e) => FlowRun(Err(PortSearchFailed(e)), None, None)
    case Ok(port) =>
      var redirectUri := RedirectUri(port);
      var state := GenerateRandomString(env.stateBytes);
      var codeVerifier := GenerateRandomString(env.verifierBytes);
      var codeChallenge := GenerateCodeChallenge(env.sha256, codeVerifier);
      var url := AuthorizationUrl(endpoints.authorizationEndpoint, clientId, redirectUri, state, codeChallenge);
      if !env.browserOpens then FlowRun(Err(BrowserFailed), Some(url), None)
      else match Received(env.listening, env.events)
        case Err(e) => FlowRun(Err(CallbackFailed(e)), Some(url), None)
        case Ok((code, returnedState)) =>
          if checkState && returnedState != state then FlowRun(Err(StateMismatch), Some(url), None)
          else
            var params := TokenRequest(code, clientId, returnedState, clientSecret, redirectUri, codeVerifier);
            match env.post(endpoints.tokenEndpoint, params)
            case None => FlowRun(Err(TokenRequestFailed), Some(url), Some(params))
            case Some(tokens) => FlowRun(Ok(tokens), Some(url), Some(params))
  }

  /** `begin` as written. */
  function Flow(endpoints: Endpoints, clientId: string, clientSecret: string, env: Environment): FlowRun {
    Run(endpoints, clientId, clientSecret, env, false)
  }

  /** `begin` with the state comparison of section 10.12 of RFC 6749. */
  function CheckedFlow(endpoints: Endpoints, clientId: string, clientSecret: string, env: Environment): FlowRun {
    Run(endpoints, clientId, clientSecret, env, true)
  }

  /** URL-safe text holds no `%`, `&` or `=`, and is Latin-1. */
  lemma UrlSafeIsPlain(s: string)
    requires forall i :: 0 <= i < |s| ==> IsUrlSafe(s[i])
    ensures '%' !in s && '&' !in s && '=' !in s && IsLatin1(s)
  {
  }

  /**
    A run posts exactly when a port was found, the browser opened, the
    callback succeeded and, with the comparison, returned the generated
    state; it then posts the token request built from the callback's code
    and state, the redirect URI of the port and the verifier.
  */
  lemma RunPosted(endpoints: Endpoints, clientId: string, clientSecret: string, env: Environment, checkState: bool)
    ensures var run := Run(endpoints, clientId, clientSecret, env, checkState);
      var port := FirstBindable(env.canBind, FirstPort);
      var received := Received(env.listening, env.events);
      && (run.posted.Some? <==>
            port.Ok? && env.browserOpens && received.Ok? && (checkState ==> received.value.1 == GenerateRandomString(env.stateBytes)))
      && (run.posted.Some? ==>
            run.posted.value == TokenRequest(received.value.0, clientId, received.value.1, clientSecret,
              RedirectUri(port.value), GenerateRandomString(env.verifierBytes)))
  {
    var port := FirstBindable(env.canBind, FirstPort);
    var received := Received(env.listening, env.events);
    if port.Ok? && env.browserOpens && received.Ok? && (checkState ==> received.value.1 == GenerateRandomString(env.stateBytes)) {
      RunPostsRequest(endpoints, clientId, clientSecret, env, checkState);
    } else {
      RunStopsEarly(endpoints, clientId, clientSecret, env, checkState);
    }
  }

  /** A run whose port search, browser and callback all succeed, with an accepted state, posts the token request. */
  lemma RunPostsRequest(endpoints: Endpoints, clientId: string, clientSecret: string, env: Environment, checkState: bool)
    requires FirstBindable(env.canBind, FirstPort).Ok? && env.browserOpens
    requires Received(env.listening, env.events).Ok?
    requires checkState ==> Received(env.listening, env.events).value.1 == GenerateRandomString(env.stateBytes)
    ensures var received := Received(env.listening, env.events).value;
      Run(endpoints, clientId, clientSecret, env, checkState).posted ==
        Some(TokenRequest(received.0, clientId, received.1, clientSecret,
          RedirectUri(FirstBindable(env.canBind, FirstPort).value), GenerateRandomString(env.verifierBytes)))
  {
  }

  /** A run in which a step before the token request fails posts nothing. */
  lemma RunStopsEarly(endpoints: Endpoints, clientId: string, clientSecret: string, env: Environment, checkState: bool)
    requires var received := Received(env.listening, env.events);
      !(FirstBindable(env.canBind, FirstPort).Ok? && env.browserOpens && received.Ok?
        && (checkState ==> received.value.1 == GenerateRandomString(env.stateBytes)))
    ensures Run(endpoints, clientId, clientSecret, env, checkState).posted.None?
  {
  }

  /** A run that finds a port hands the browser the URL built from that port, the generated state and the challenge of the verifier. */
  lemma RunBrowserUrl(endpoints: Endpoints, clientId: string, clientSecret: string, env: Environment, checkState: bool)
    requires FirstBindable(env.canBind, FirstPort).Ok?
    ensures Run(endpoints, clientId, clientSecret, env, checkState).browserUrl ==
      Some(AuthorizationUrl(endpoints.authorizationEndpoint, clientId, RedirectUri(FirstBindable(env.canBind, FirstPort).value),
        GenerateRandomString(env.stateBytes), GenerateCodeChallenge(env.sha256, GenerateRandomString(env.verifierBytes))))
  {
  }

  /** What a run that reaches the token request has sent: the browser URL and the posted fields, in terms of the environment. */
  lemma PostedRun(endpoints: Endpoints, clientId: string, clientSecret: string, env: Environment, checkState: bool)
    requires Run(endpoints, clientId, clientSecret, env, checkState).posted.Some?
    ensures FirstBindable(env.canBind, FirstPort).Ok?
    ensures var run := Run(endpoints, clientId, clientSecret, env, checkState);
      var redirectUri := RedirectUri(FirstBindable(env.canBind, FirstPort).value);
      var codeVerifier := GenerateRandomString(env.verifierBytes);
      && run.browserUrl == Some(AuthorizationUrl(endpoints.authorizationEndpoint, clientId, redirectUri,
           GenerateRandomString(env.stateBytes), GenerateCodeChallenge(env.sha256, codeVerifier)))
      && run.posted.value["redirect_uri"] == redirectUri
      && run.posted.value["client_id"] == clientId
      && run.posted.value["code_verifier"] == codeVerifier
  {
    RunPosted(endpoints, clientId, clientSecret, env, checkState);
    RunBrowserUrl(endpoints, clientId, clientSecret, env, checkState);
    var received := Received(env.listening, env.events).value;
    TokenRequestFields(received.0, clientId, received.1, clientSecret,
      RedirectUri(FirstBindable(env.canBind, FirstPort).value), GenerateRandomString(env.verifierBytes));
  }


  /**
    PKCE binding: whenever a token request is posted, the authorization URL
    the browser was sent to carries, once parsed, the challenge derived from
    the posted verifier and the posted redirect URI and client id; the
    redirect URI names the least bindable port, and the verifier is 43
    URL-safe characters.
  */
  lemma PkceBinding(endpoints: Endpoints, clientId: string, clientSecret: string, env: Environment, checkState: bool)
    requires '?' !in endpoints.authorizationEndpoint
    requires '&' !in clientId && '=' !in clientId && '%' !in clientId
    requires Run(endpoints, clientId, clientSecret, env, checkState).posted.Some?
    ensures var run := Run(endpoints, clientId, clientSecret, env, checkState);
      var posted := run.posted.value;
      && FirstBindable(env.canBind, FirstPort).Ok?
      && posted["redirect_uri"] == RedirectUri(FirstBindable(env.canBind, FirstPort).value)
      && |posted["code_verifier"]| == 43
      && run.browserUrl.Some?
      && QueryOf(run.browserUrl.value) == Some(map[
        "response_type" := "code", "scope" := Scopes,
        "redirect_uri" := posted["redirect_uri"], "client_id" := posted["client_id"],
        "state" := GenerateRandomString(env.stateBytes),
        "code_challenge" := GenerateCodeChallenge(env.sha256, posted["code_verifier"]),
        "code_challenge_method" := "S256"])
  {
    PostedRun(endpoints, clientId, clientSecret, env, checkState);
    RandomString32(env.verifierBytes);
    var port := FirstBindable(env.canBind, FirstPort).value;
    GeneratedUrlParses(endpoints.authorizationEndpoint, clientId, port, env);
  }

  /** The authorization URL built from the drawn state and verifier parses back to its fields. */
  lemma GeneratedUrlParses(authorizationEndpoint: string, clientId: string, port: nat, env: Environment)
    requires '?' !in authorizationEndpoint
    requires '&' !in clientId && '=' !in clientId && '%' !in clientId
    ensures var state := GenerateRandomString(env.stateBytes);
      var codeChallenge := GenerateCodeChallenge(env.sha256, GenerateRandomString(env.verifierBytes));
      QueryOf(AuthorizationUrl(authorizationEndpoint, clientId, RedirectUri(port), state, codeChallenge)) == Some(map[
        "response_type" := "code", "scope" := Scopes, "redirect_uri" := RedirectUri(port), "client_id" := clientId,
        "state" := state, "code_challenge" := codeChallenge, "code_challenge_method" := "S256"])
  {
    var state := GenerateRandomString(env.stateBytes);
    var codeChallenge := GenerateCodeChallenge(env.sha256, GenerateRandomString(env.verifierBytes));
    DrawnValuesPlain(env);
    RedirectUriLatin1(port);
    AuthorizationUrlParses(authorizationEndpoint, clientId, RedirectUri(port), state, codeChallenge);
  }

  /** The drawn state and the challenge are plain text: no `%`, `&` or `=`, all Latin-1. */
  lemma DrawnValuesPlain(env: Environment)
    ensures var state := GenerateRandomString(env.stateBytes);
      '%' !in state && '&' !in state && '=' !in state && IsLatin1(state)
    ensures var codeChallenge := GenerateCodeChallenge(env.sha256, GenerateRandomString(env.verifierBytes));
      '%' !in codeChallenge && '&' !in codeChallenge && '=' !in codeChallenge && IsLatin1(codeChallenge)
  {
    RandomStringShape(env.stateBytes);
    UrlSafeIsPlain(GenerateRandomString(env.stateBytes));
    ChallengeShape(env.sha256, GenerateRandomString(env.verifierBytes));
    UrlSafeIsPlain(GenerateCodeChallenge(env.sha256, GenerateRandomString(env.verifierBytes)));
  }

  /** A redirect URI is Latin-1 text. */
  lemma RedirectUriLatin1(port: nat)
    ensures IsLatin1(RedirectUri(port))
  {
  }

  /**
    As written, `begin` posts whatever state the callback returned: any state
    other than the generated one, such as one issued to another session, is
    still forwarded to the token endpoint, and the flow succeeds if the
    endpoint answers.
  */
  lemma ForeignStateForwarded(endpoints: Endpoints, clientId: string, clientSecret: string, env: Environment, code: string, returnedState: string)
    requires FirstBindable(env.canBind, FirstPort).Ok? && env.browserOpens
    requires Received(env.listening, env.events) == Ok((code, returnedState))
    requires returnedState != GenerateRandomString(env.stateBytes)
    ensures var run := Flow(endpoints, clientId, clientSecret, env);
      && run.posted.Some?
      && run.posted.value["state"] == returnedState != GenerateRandomString(env.stateBytes)
      && (env.post(endpoints.tokenEndpoint, run.posted.value).Some? ==> run.outcome.Ok?)
  {
    var redirectUri := RedirectUri(FirstBindable(env.canBind, FirstPort).value);
    var codeVerifier := GenerateRandomString(env.verifierBytes);
    RunPostsRequest(endpoints, clientId, clientSecret, env, false);
    TokenRequestFields(code, clientId, returnedState, clientSecret, redirectUri, codeVerifier);
  }

  /** With the comparison, a token request is posted only with the generated state. */
  lemma CheckedFlowPostsOwnState(endpoints: Endpoints, clientId: string, clientSecret: string, env: Environment)
    requires CheckedFlow(endpoints, clientId, clientSecret, env).posted.Some?
    ensures CheckedFlow(endpoints, clientId, clientSecret, env).posted.value["state"] == GenerateRandomString(env.stateBytes)
  {
    RunPosted(endpoints, clientId, clientSecret, env, true);
    var received := Received(env.listening, env.events).value;
    TokenRequestFields(received.0, clientId, received.1, clientSecret,
      RedirectUri(FirstBindable(env.canBind, FirstPort).value), GenerateRandomString(env.verifierBytes));
  }


  /** With the comparison, success implies the callback returned the generated state. */
  lemma CheckedFlowSuccessMeansOwnState(endpoints: Endpoints, clientId: string, clientSecret: string, env: Environment)
    requires CheckedFlow(endpoints, clientId, clientSecret, env).outcome.Ok?
    ensures Received(env.listening, env.events).Ok?
    ensures Received(env.listening, env.events).value.1 == GenerateRandomString(env.stateBytes)
  {
  }

  /** With the comparison, any state other than the generated one ends the flow before any token request. */
  lemma CheckedFlowRefusesForeignState(endpoints: Endpoints, clientId: string, clientSecret: string, env: Environment, code: string, returnedState: string)
    requires FirstBindable(env.canBind, FirstPort).Ok? && env.browserOpens
    requires Received(env.listening, env.events) == Ok((code, returnedState))
    requires returnedState != GenerateRandomString(env.stateBytes)
    ensures CheckedFlow(endpoints, clientId, clientSecret, env).outcome == Err(StateMismatch)
    ensures CheckedFlow(endpoints, clientId, clientSecret, env).posted.None?
  {
  }

  /** For a callback that returns the generated state, the comparison changes nothing. */
  lemma CheckedFlowAgrees(endpoints: Endpoints, clientId: string, clientSecret: string, env: Environment)
    requires Received(env.listening, env.events).Ok? ==> Received(env.listening, env.events).value.1 == GenerateRandomString(env.stateBytes)
    ensures CheckedFlow(endpoints, clientId, clientSecret, env) == Flow(endpoints, clientId, clientSecret, env)
  {
  }

  /** `GoogleOAuth2`: the discovered endpoints, the client credentials, and the tokens of the last successful `begin`. */
  class GoogleOAuth2 {
    const wellknownEndpoints: Endpoints
    const clientId: string
    const clientSecret: string
    var tokenData: TokenData

    constructor (endpoints: Endpoints, clientId: string, clientSecret: string)
      ensures wellknownEndpoints == endpoints && this.clientId == clientId && this.clientSecret == clientSecret
      ensures tokenData == EmptyTokenData
    {
      wellknownEndpoints := endpoints;
      this.clientId := clientId;
      this.clientSecret := clientSecret;
      tokenData := EmptyTokenData;
    }

    /**
      `GoogleOAuth2::new`: fails when the well-known configuration cannot be
      fetched or parsed (`discovery` is `None`), else a client with empty
      token data.
    */
    static method New(discovery: Option<Endpoints>, clientId: string, clientSecret: string) returns (r: Result<GoogleOAuth2, string>)
      ensures discovery.None? <==> r.Err?
      ensures r.Ok? ==>
        && fresh(r.value)
        && r.value.wellknownEndpoints == discovery.value
        && r.value.clientId == clientId && r.value.clientSecret == clientSecret
        && r.value.tokenData == EmptyTokenData
    {
      if discovery.None? {
        return Err("well-known configuration unavailable");
      }
      var instance := new GoogleOAuth2(discovery.value, clientId, clientSecret);
      return Ok(instance);
    }

    /** `open_browser_to_begin`: builds the URL, urlencoding the scopes, the redirect URI and the state, and opens it. */
    method OpenBrowserToBegin(browserOpens: bool, redirectUri: string, state: string, codeChallenge: string)
      returns (r: Result<(), FlowError>, url: string)
      ensures url == AuthorizationUrl(wellknownEndpoints.authorizationEndpoint, clientId, redirectUri, state, codeChallenge)
      ensures r.Ok? <==> browserOpens
      ensures r.Err? ==> r.error == BrowserFailed
    {
      var scopes := UrlEncode(Scopes);
      ScopesEncoded();
      var encodedRedirectUri := UrlEncode(redirectUri);
      var encodedState := UrlEncode(state);
      url := wellknownEndpoints.authorizationEndpoint + "?" + Join(PairTexts([
        ("response_type", "code"),
        ("scope", scopes),
        ("redirect_uri", encodedRedirectUri),
        ("client_id", clientId),
        ("state", encodedState),
        ("code_challenge", codeChallenge),
        ("code_challenge_method", "S256")]), '&');
      r := if browserOpens then Ok(()) else Err(BrowserFailed);
    }

    /** `exchange_code_to_tokens`: fills the parameter map by successive inserts and posts it. */
    method ExchangeCodeToTokens(post: (string, map<string, string>) -> Option<TokenData>, state: string, code: string, codeVerifier: string, redirectUri: string)
      returns (r: Result<TokenData, FlowError>, params: map<string, string>)
      ensures params.Keys == {"code", "client_id", "state", "scope", "client_secret", "redirect_uri", "grant_type", "code_verifier"}
      ensures params == TokenRequest(code, clientId, state, clientSecret, redirectUri, codeVerifier)
      ensures r == match post(wellknownEndpoints.tokenEndpoint, params)
        case None => Err(TokenRequestFailed)
        case Some(tokens) => Ok(tokens)
    {
      params := map[];
      params := params["code" := code];
      params := params["client_id" := clientId];
      params := params["state" := state];
      params := params["scope" := ""];
      params := params["client_secret" := clientSecret];
      params := params["redirect_uri" := redirectUri];
      params := params["grant_type" := "authorization_code"];
      params := params["code_verifier" := codeVerifier];
      var answer := post(wellknownEndpoints.tokenEndpoint, params);
      r := if answer.None? then Err(TokenRequestFailed) else Ok(answer.value);
    }

    /** The body of `begin`, with or without the state comparison. */
    method Authorize(env: Environment, checkState: bool) returns (r: Result<(), FlowError>, browserUrl: Option<string>, posted: Option<map<string, string>>)
      requires AsciiEvents(env.events)
      modifies this
      ensures var run := Run(wellknownEndpoints, clientId, clientSecret, env, checkState);
        && r == (if run.outcome.Ok? then Ok(()) else Err(run.outcome.error))
        && browserUrl == run.browserUrl && posted == run.posted
        && tokenData == (if run.outcome.Ok? then run.outcome.value else old(tokenData))
    {
      browserUrl, posted := None, None;
      var found := SelectRandomTcpPort(env.canBind);
      if found.Err? {
        return Err(PortSearchFailed(found.error)), browserUrl, posted;
      }
      var port := found.value;
      var redirectUri := RedirectUri(port);
      var state := GenerateRandomString(env.stateBytes);
      var codeVerifier := GenerateRandomString(env.verifierBytes);
      var codeChallenge := GenerateCodeChallenge(env.sha256, codeVerifier);
      var launched, url := OpenBrowserToBegin(env.browserOpens, redirectUri, state, codeChallenge);
      browserUrl := Some(url);
      if launched.Err? {
        return Err(launched.error), browserUrl, posted;
      }
      var received, _ := RecvResponse(env.listening, env.events);
      if received.Err? {
        return Err(CallbackFailed(received.error)), browserUrl, posted;
      }
      var (code, returnedState) := received.value;
      if checkState && returnedState != state {
        return Err(StateMismatch), browserUrl, posted;
      }
      var tokens, params := ExchangeCodeToTokens(env.post, returnedState, code, codeVerifier, redirectUri);
      posted := Some(params);
      if tokens.Err? {
        return Err(tokens.error), browserUrl, posted;
      }
      tokenData := tokens.value;
      r := Ok(());
    }

    /** `begin`, as written: the callback's state goes to the token endpoint unchecked. */
    method Begin(env: Environment) returns (r: Result<(), FlowError>, browserUrl: Option<string>, posted: Option<map<string, string>>)
      requires AsciiEvents(env.events)
      modifies this
      ensures var run := Flow(wellknownEndpoints, clientId, clientSecret, env);
        && r == (if run.outcome.Ok? then Ok(()) else Err(run.outcome.error))
        && browserUrl == run.browserUrl && posted == run.posted
        && tokenData == (if run.outcome.Ok? then run.outcome.value else old(tokenData))
    {
      r, browserUrl, posted := Authorize(env, false);
    }

    /** `begin` with the state comparison: a callback state other than the generated one ends the flow. */
    method BeginCheckingState(env: Environment) returns (r: Result<(), FlowError>, browserUrl: Option<string>, posted: Option<map<string, string>>)
      requires AsciiEvents(env.events)
      modifies this
      ensures var run := CheckedFlow(wellknownEndpoints, clientId, clientSecret, env);
        && r == (if run.outcome.Ok? then Ok(()) else Err(run.outcome.error))
        && browserUrl == run.browserUrl && posted == run.posted
        && tokenData == (if run.outcome.Ok? then run.outcome.value else old(tokenData))
    {
      r, browserUrl, posted := Authorize(env, true);
    }
  }
}
