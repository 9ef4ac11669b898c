/**
 * The login page: turning a backend login response into an outcome and a
 * stored `authUser`, loading the remote app config, interpreting the Google
 * OAuth return carried in the URL fragment, and building the authorization
 * request that sends the browser to Google.
 */
module Login {
  import opened Wrappers
  import Text
  import UriComponent
  import FormUrlencoded
  import JsonText
  import Storage

  const AuthUserKey: string := "authUser"
  const DefaultRole: string := "students"
  const NoUserDataMessage: string := "Login failed: no user data."
  const GenericFailureMessage: string := "Login failed."
  const MissingClientIdMessage: string := "Missing Google Client ID."
  const DefaultRedirectUri: string := "https://localhost:7031/auth/google/callback"
  const AuthorizationEndpoint: string := "https://accounts.google.com/o/oauth2/v2/auth"
  const GoogleScope: string := "openid email profile"
  /** encodeURIComponent(GoogleScope), written out; ScopeIsEncoded proves the two agree. */
  const EncodedScope: string := "openid%20email%20profile"
  const GoogleDisplayName: string := "Google User"
  const LoginPath: string := "/login"
  const HomePath: string := "/"
  const RedirectDelayMs: nat := 1200
  const WelcomePrefix: string := "\U{1F389} Ch\U{E0}o m\U{1EEB}ng, "

  // ---------------- password login ----------------

  /** response.data.data of a successful login; a missing field is undefined. */
  datatype BackendUser = BackendUser(fullname: Option<string>, email: Option<string>, role: Option<string>)

  /** response.data: its message and its (truthy) user data. */
  datatype LoginBody = LoginBody(message: Option<string>, data: Option<BackendUser>)

  /** How userApi.login settled: a response (response.data, absent when falsy) or a thrown error (its err.response.data.message). */
  datatype LoginResponse =
    | Responded(body: Option<LoginBody>)
    | Threw(backendMessage: Option<string>)

  /** The {success, message, user} object loginApi returns. */
  datatype LoginOutcome =
    | LoginSuccess(backendMessage: Option<string>, user: BackendUser)
    | LoginFailure(message: string)

  /** loginApi: success exactly when the backend sent user data. */
  function LoginApi(response: LoginResponse): (o: LoginOutcome)
    ensures o.LoginSuccess? <==> response.Responded? && response.body.Some? && response.body.value.data.Some?
    ensures o.LoginSuccess? ==> o.backendMessage == response.body.value.message && o.user == response.body.value.data.value
    ensures response.Responded? && o.LoginFailure? ==> o.message == NoUserDataMessage
    ensures response.Threw? && Storage.Truthy(response.backendMessage) ==> o == LoginFailure(response.backendMessage.value)
    ensures response.Threw? && !Storage.Truthy(response.backendMessage) ==> o == LoginFailure(GenericFailureMessage)
  {
    match response
    case Responded(body) =>
      if body.Some? && body.value.data.Some? then LoginSuccess(body.value.message, body.value.data.value)
      else LoginFailure(NoUserDataMessage)
    case Threw(m) =>
      LoginFailure(if Storage.Truthy(m) then m.value else GenericFailureMessage)
  }

  /** The record handleSubmit stores: the backend's fields, role "students" when the backend's is falsy. */
  function StoredUser(u: BackendUser): (a: JsonText.AuthUser)
    ensures a.fullname == u.fullname && a.email == u.email
    ensures a.role != ""
    ensures Storage.Truthy(u.role) ==> a.role == u.role.value
    ensures !Storage.Truthy(u.role) ==> a.role == DefaultRole
  {
    JsonText.AuthUser(u.fullname, u.email, if Storage.Truthy(u.role) then u.role.value else DefaultRole)
  }

  /** The welcome notice; a template literal writes an undefined name as "undefined". */
  function WelcomeNotice(fullname: Option<string>): (n: string)
    ensures var name := if fullname.Some? then fullname.value else "undefined";
      && |n| == |WelcomePrefix| + |name| + 1
      && n[..|WelcomePrefix|] == WelcomePrefix
      && n[|WelcomePrefix|..|n| - 1] == name
      && n[|n| - 1] == '!'
  {
    WelcomePrefix + (match fullname case Some(n) => n case None => "undefined") + "!"
  }

  /** Reading back what a successful submit stored gives the backend's name and email and the defaulted role. */
  lemma SubmitStoresBackendUser(u: BackendUser)
    ensures JsonText.Deserialize(JsonText.Serialize(StoredUser(u))) ==
            Some(JsonText.AuthUser(u.fullname, u.email, if Storage.Truthy(u.role) then u.role.value else DefaultRole))
  {
    JsonText.SerializeRoundTrip(StoredUser(u));
  }

  // ---------------- app config and the authorization request ----------------

  /** The fields of /app-config.json the page reads. */
  datatype AppConfig = AppConfig(googleClientId: Option<string>, googleRedirectUri: Option<string>)

  /** Build-time REACT_APP_GOOGLE_CLIENT_ID and REACT_APP_GOOGLE_REDIRECT_URI. */
  datatype Env = Env(googleClientId: Option<string>, googleRedirectUri: Option<string>)

  /** What res.json() gives: a falsy value, an object, or a body that does not parse (it throws). */
  datatype ConfigBody = FalsyJson | ObjectJson(config: AppConfig) | Unparsable

  /** What fetch('/app-config.json') settles with. */
  datatype ConfigFetch = NetworkError | HttpResponse(ok: bool, body: ConfigBody)

  /** The config loadConfig would set (json || {}), or None where it returns or throws first. */
  function FetchedConfig(fetch: ConfigFetch): (r: Option<AppConfig>)
    ensures r.Some? <==> fetch.HttpResponse? && fetch.ok && !fetch.body.Unparsable?
    ensures r.Some? && fetch.body.FalsyJson? ==> r.value == AppConfig(None, None)
    ensures r.Some? && fetch.body.ObjectJson? ==> r.value == fetch.body.config
  {
    match fetch
    case NetworkError => None
    case HttpResponse(ok, body) =>
      if !ok then None
      else
        match body
        case Unparsable => None
        case FalsyJson => Some(AppConfig(None, None))
        case ObjectJson(c) => Some(c)
  }

  /** a || b || fallback over strings that may be undefined. */
  function FirstTruthy(first: Option<string>, second: Option<string>, fallback: string): (r: string)
    ensures Storage.Truthy(first) ==> r == first.value
    ensures !Storage.Truthy(first) && Storage.Truthy(second) ==> r == second.value
    ensures !Storage.Truthy(first) && !Storage.Truthy(second) ==> r == fallback
  {
    if Storage.Truthy(first) then first.value
    else if Storage.Truthy(second) then second.value
    else fallback
  }

  function ConfigClientId(config: Option<AppConfig>): Option<string>
  {
    match config case None => None case Some(c) => c.googleClientId
  }

  function ConfigRedirectUri(config: Option<AppConfig>): Option<string>
  {
    match config case None => None case Some(c) => c.googleRedirectUri
  }

  /** The client id: the environment's, else the remote config's, else empty. */
  function ResolveClientId(env: Env, config: Option<AppConfig>): (r: string)
    ensures r == "" <==> !Storage.Truthy(env.googleClientId) && !Storage.Truthy(ConfigClientId(config))
    ensures Storage.Truthy(env.googleClientId) ==> r == env.googleClientId.value
    ensures !Storage.Truthy(env.googleClientId) && Storage.Truthy(ConfigClientId(config)) ==> r == ConfigClientId(config).value
  {
    FirstTruthy(env.googleClientId, ConfigClientId(config), "")
  }

  /** The redirect URI: the environment's, else the remote config's, else the built-in default. */
  function ResolveRedirectUri(env: Env, config: Option<AppConfig>): (r: string)
    ensures r != ""
    ensures Storage.Truthy(env.googleRedirectUri) ==> r == env.googleRedirectUri.value
    ensures !Storage.Truthy(env.googleRedirectUri) && Storage.Truthy(ConfigRedirectUri(config)) ==> r == ConfigRedirectUri(config).value
    ensures !Storage.Truthy(env.googleRedirectUri) && !Storage.Truthy(ConfigRedirectUri(config)) ==> r == DefaultRedirectUri
  {
    FirstTruthy(env.googleRedirectUri, ConfigRedirectUri(config), DefaultRedirectUri)
  }

  /** One query parameter as the page writes it: name, '=', an already-encoded value. */
  function Param(name: string, encodedValue: string): string
  {
    name + "=" + encodedValue
  }

  /**
   * The request the page means to make: the parameters of section 4.1.1 of
   * RFC 6749 (client_id, redirect_uri, response_type, scope, state) and
   * Google's access_type, include_granted_scopes and prompt, with their
   * values before encoding, in the order the page writes them.
   */
  function AuthorizationPairs(clientId: string, redirectUri: string, state: string): seq<FormUrlencoded.Pair>
  {
    [ FormUrlencoded.Pair("client_id", clientId),
      FormUrlencoded.Pair("redirect_uri", redirectUri),
      FormUrlencoded.Pair("response_type", "code"),
      FormUrlencoded.Pair("scope", GoogleScope),
      FormUrlencoded.Pair("access_type", "offline"),
      FormUrlencoded.Pair("include_granted_scopes", "true"),
      FormUrlencoded.Pair("prompt", "consent"),
      FormUrlencoded.Pair("state", state) ]
  }

  /**
   * The eight parameters of the authorization request, in the order the page
   * writes them: one per intended pair, each starting with that pair's name
   * and '='. ParametersDecode shows what the values read back as.
   */
  function AuthorizationParameters(clientId: string, redirectUri: string, state: string): (ps: seq<string>)
    ensures var pairs := AuthorizationPairs(clientId, redirectUri, state);
      && |ps| == |pairs|
      && forall i :: 0 <= i < |ps| ==> |pairs[i].name| < |ps[i]| && ps[i][..|pairs[i].name| + 1] == pairs[i].name + "="
  {
    [ Param("client_id", UriComponent.EncodeURIComponent(clientId)),
      Param("redirect_uri", UriComponent.EncodeURIComponent(redirectUri)),
      Param("response_type", "code"),
      Param("scope", EncodedScope),
      Param("access_type", "offline"),
      Param("include_granted_scopes", "true"),
      Param("prompt", "consent"),
      Param("state", UriComponent.EncodeURIComponent(state)) ]
  }

  lemma EndpointHasNoQuery()
    ensures '?' !in AuthorizationEndpoint
  {
  }

  /** The endpoint, then the URL's first '?', then the '&'-join of the parameters. */
  function AuthorizationUrl(clientId: string, redirectUri: string, state: string): (url: string)
    ensures Text.IndexOf(url, '?') == Some(|AuthorizationEndpoint|)
    ensures url[..|AuthorizationEndpoint|] == AuthorizationEndpoint
    ensures url[|AuthorizationEndpoint| + 1..] == Text.Join(AuthorizationParameters(clientId, redirectUri, state), '&')
  {
    var query := Text.Join(AuthorizationParameters(clientId, redirectUri, state), '&');
    EndpointHasNoQuery();
    QueryAfterPrefix(AuthorizationEndpoint, query);
    AuthorizationEndpoint + "?" + query
  }

  /** handleGoogleLogin's decision: refuse an empty client id, otherwise the authorization URL. */
  function GoogleRedirect(env: Env, config: Option<AppConfig>, state: string): (r: Result<string, string>)
    ensures r.Err? <==> ResolveClientId(env, config) == ""
    ensures r.Err? ==> r.error == MissingClientIdMessage
    ensures r.Ok? ==> r.value == AuthorizationUrl(ResolveClientId(env, config), ResolveRedirectUri(env, config), state)
  {
    var clientId := ResolveClientId(env, config);
    var redirectUri := ResolveRedirectUri(env, config);
    if clientId == "" then Err(MissingClientIdMessage)
    else Ok(AuthorizationUrl(clientId, redirectUri, state))
  }

  /** Three words of unescaped characters, separated by spaces, encode with each space as %20. */
  lemma EncodeSpacedWords(a: string, b: string, c: string)
    requires forall ch :: ch in a ==> UriComponent.IsUnescaped(ch)
    requires forall ch :: ch in b ==> UriComponent.IsUnescaped(ch)
    requires forall ch :: ch in c ==> UriComponent.IsUnescaped(ch)
    ensures UriComponent.EncodeURIComponent(a + " " + b + " " + c) == a + "%20" + b + "%20" + c
  {
    UriComponent.EncodeUnescapedText(a);
    UriComponent.EncodeUnescapedText(b);
    UriComponent.EncodeUnescapedText(c);
    assert UriComponent.EncodeURIComponent(" ") == "%20" by {
      assert UriComponent.EncodeChar(' ') == UriComponent.PercentBytes([0x20]);
    }
    UriComponent.EncodeAppend(a + " " + b + " ", c);
    UriComponent.EncodeAppend(a + " " + b, " ");
    UriComponent.EncodeAppend(a + " ", b);
    UriComponent.EncodeAppend(a, " ");
  }

  lemma ScopeWords()
    ensures GoogleScope == "openid" + " " + "email" + " " + "profile"
    ensures EncodedScope == "openid" + "%20" + "email" + "%20" + "profile"
  {
  }

  lemma ScopeIsEncoded()
    ensures UriComponent.EncodeURIComponent(GoogleScope) == EncodedScope
  {
    ScopeWords();
    assert forall ch :: ch in "openid" ==> UriComponent.IsUnescaped(ch);
    assert forall ch :: ch in "email" ==> UriComponent.IsUnescaped(ch);
    assert forall ch :: ch in "profile" ==> UriComponent.IsUnescaped(ch);
    EncodeSpacedWords("openid", "email", "profile");
  }

  lemma LiteralParam(name: string, value: string)
    requires '=' !in name && '%' !in name && '+' !in name
    requires '%' !in value && '+' !in value
    ensures FormUrlencoded.DecodePair(Param(name, value)) == FormUrlencoded.Pair(name, value)
  {
    FormUrlencoded.DecodeNameValue(name, value);
    FormUrlencoded.DecodePlainComponent(name);
    FormUrlencoded.DecodePlainComponent(value);
  }

  lemma EncodedParam(name: string, value: string)
    requires '=' !in name && '%' !in name && '+' !in name
    ensures FormUrlencoded.DecodePair(Param(name, UriComponent.EncodeURIComponent(value))) == FormUrlencoded.Pair(name, value)
  {
    FormUrlencoded.DecodeNameValue(name, UriComponent.EncodeURIComponent(value));
    FormUrlencoded.DecodePlainComponent(name);
    FormUrlencoded.DecodeEncodedComponent(value);
    FormUrlencoded.EncodedHasNoPlus(value);
  }

  /** Three space-separated words of unescaped characters, sent encoded, read back as they were. */
  lemma SpacedWordsParam(name: string, a: string, b: string, c: string)
    requires '=' !in name && '%' !in name && '+' !in name
    requires forall ch :: ch in a ==> UriComponent.IsUnescaped(ch)
    requires forall ch :: ch in b ==> UriComponent.IsUnescaped(ch)
    requires forall ch :: ch in c ==> UriComponent.IsUnescaped(ch)
    ensures FormUrlencoded.DecodePair(Param(name, a + "%20" + b + "%20" + c)) == FormUrlencoded.Pair(name, a + " " + b + " " + c)
  {
    EncodeSpacedWords(a, b, c);
    EncodedParam(name, a + " " + b + " " + c);
  }

  /** The three parameters with an encoded value read back with the value as it was before encoding. */
  lemma ClientIdParameter(clientId: string)
    ensures FormUrlencoded.DecodePair(Param("client_id", UriComponent.EncodeURIComponent(clientId))) == FormUrlencoded.Pair("client_id", clientId)
  {
    EncodedParam("client_id", clientId);
  }

  lemma RedirectUriParameter(redirectUri: string)
    ensures FormUrlencoded.DecodePair(Param("redirect_uri", UriComponent.EncodeURIComponent(redirectUri))) == FormUrlencoded.Pair("redirect_uri", redirectUri)
  {
    EncodedParam("redirect_uri", redirectUri);
  }

  lemma StateParameter(state: string)
    ensures FormUrlencoded.DecodePair(Param("state", UriComponent.EncodeURIComponent(state))) == FormUrlencoded.Pair("state", state)
  {
    EncodedParam("state", state);
  }

  /** Each of the five parameters with a fixed value reads back as the intended pair. */
  lemma ResponseTypeParameter()
    ensures FormUrlencoded.DecodePair(Param("response_type", "code")) == FormUrlencoded.Pair("response_type", "code")
  {
    LiteralParam("response_type", "code");
  }

  lemma ScopeParameter()
    ensures FormUrlencoded.DecodePair(Param("scope", EncodedScope)) == FormUrlencoded.Pair("scope", GoogleScope)
  {
    ScopeWords();
    assert forall ch :: ch in "openid" ==> UriComponent.IsUnescaped(ch);
    assert forall ch :: ch in "email" ==> UriComponent.IsUnescaped(ch);
    assert forall ch :: ch in "profile" ==> UriComponent.IsUnescaped(ch);
    SpacedWordsParam("scope", "openid", "email", "profile");
  }

  lemma AccessTypeParameter()
    ensures FormUrlencoded.DecodePair(Param("access_type", "offline")) == FormUrlencoded.Pair("access_type", "offline")
  {
    LiteralParam("access_type", "offline");
  }

  lemma IncludeGrantedScopesParameter()
    ensures FormUrlencoded.DecodePair(Param("include_granted_scopes", "true")) == FormUrlencoded.Pair("include_granted_scopes", "true")
  {
    LiteralParam("include_granted_scopes", "true");
  }

  lemma PromptParameter()
    ensures FormUrlencoded.DecodePair(Param("prompt", "consent")) == FormUrlencoded.Pair("prompt", "consent")
  {
    LiteralParam("prompt", "consent");
  }

  /** A parameter whose name and value have no '&' is a non-empty part without '&'. */
  lemma ParamIsPart(name: string, value: string)
    requires '&' !in name && '&' !in value
    ensures Param(name, value) != "" && '&' !in Param(name, value)
  {
    assert Param(name, value)[|name|] == '=';
  }

  /** encodeURIComponent never produces '&', so an encoded value keeps a parameter a single part. */
  lemma EncodedParamIsPart(name: string, value: string)
    requires '&' !in name
    ensures Param(name, UriComponent.EncodeURIComponent(value)) != ""
    ensures '&' !in Param(name, UriComponent.EncodeURIComponent(value))
  {
    FormUrlencoded.EncodedHasNoPlus(value);
    ParamIsPart(name, UriComponent.EncodeURIComponent(value));
  }

  /** The five parameters with a fixed value are non-empty parts without '&'. */
  lemma FixedParametersAreParts()
    ensures Param("response_type", "code") != "" && '&' !in Param("response_type", "code")
    ensures Param("scope", EncodedScope) != "" && '&' !in Param("scope", EncodedScope)
    ensures Param("access_type", "offline") != "" && '&' !in Param("access_type", "offline")
    ensures Param("include_granted_scopes", "true") != "" && '&' !in Param("include_granted_scopes", "true")
    ensures Param("prompt", "consent") != "" && '&' !in Param("prompt", "consent")
  {
    ParamIsPart("response_type", "code");
    ParamIsPart("scope", EncodedScope);
    ParamIsPart("access_type", "offline");
    ParamIsPart("include_granted_scopes", "true");
    ParamIsPart("prompt", "consent");
  }

  /** Every parameter is non-empty and free of '&', so joining them with '&' keeps them apart. */
  lemma ParametersAreSeparate(clientId: string, redirectUri: string, state: string)
    ensures var ps := AuthorizationParameters(clientId, redirectUri, state);
      forall i :: 0 <= i < |ps| ==> ps[i] != "" && '&' !in ps[i]
  {
    var ps := AuthorizationParameters(clientId, redirectUri, state);
    FixedParametersAreParts();
    EncodedParamIsPart("client_id", clientId);
    EncodedParamIsPart("redirect_uri", redirectUri);
    EncodedParamIsPart("state", state);
    assert ps == [ Param("client_id", UriComponent.EncodeURIComponent(clientId)),
                   Param("redirect_uri", UriComponent.EncodeURIComponent(redirectUri)),
                   Param("response_type", "code"),
                   Param("scope", EncodedScope),
                   Param("access_type", "offline"),
                   Param("include_granted_scopes", "true"),
                   Param("prompt", "consent"),
                   Param("state", UriComponent.EncodeURIComponent(state)) ];
  }

  /** In a prefix without '?', followed by '?' and a query, the first '?' ends the prefix. */
  lemma QueryAfterPrefix(prefix: string, query: string)
    requires '?' !in prefix
    ensures var url := prefix + "?" + query;
      && url[..|prefix|] == prefix
      && Text.IndexOf(url, '?') == Some(|prefix|)
      && url[|prefix| + 1..] == query
  {
    assert prefix + "?" + query == prefix + ("?" + query);
    Text.IndexOfAfterPrefix(prefix, '?', query);
  }

  /** Each written parameter decodes to the intended pair at the same position. */
  lemma ParametersDecode(clientId: string, redirectUri: string, state: string)
    ensures var ps := AuthorizationParameters(clientId, redirectUri, state);
      var pairs := AuthorizationPairs(clientId, redirectUri, state);
      && |ps| == |pairs|
      && forall i :: 0 <= i < |ps| ==> FormUrlencoded.DecodePair(ps[i]) == pairs[i]
  {
    var ps := AuthorizationParameters(clientId, redirectUri, state);
    var pairs := AuthorizationPairs(clientId, redirectUri, state);
    forall i | 0 <= i < |ps| ensures FormUrlencoded.DecodePair(ps[i]) == pairs[i] {
      if i == 0 {
        assert ps[i] == Param("client_id", UriComponent.EncodeURIComponent(clientId));
        assert pairs[i] == FormUrlencoded.Pair("client_id", clientId);
        ClientIdParameter(clientId);
      } else if i == 1 {
        assert ps[i] == Param("redirect_uri", UriComponent.EncodeURIComponent(redirectUri));
        assert pairs[i] == FormUrlencoded.Pair("redirect_uri", redirectUri);
        RedirectUriParameter(redirectUri);
      } else if i == 7 {
        assert ps[i] == Param("state", UriComponent.EncodeURIComponent(state));
        assert pairs[i] == FormUrlencoded.Pair("state", state);
        StateParameter(state);
      } else if i == 2 {
        assert ps[i] == Param("response_type", "code");
        assert pairs[i] == FormUrlencoded.Pair("response_type", "code");
        ResponseTypeParameter();
      } else if i == 3 {
        assert ps[i] == Param("scope", EncodedScope);
        assert pairs[i] == FormUrlencoded.Pair("scope", GoogleScope);
        ScopeParameter();
      } else if i == 4 {
        assert ps[i] == Param("access_type", "offline");
        assert pairs[i] == FormUrlencoded.Pair("access_type", "offline");
        AccessTypeParameter();
      } else if i == 5 {
        assert ps[i] == Param("include_granted_scopes", "true");
        assert pairs[i] == FormUrlencoded.Pair("include_granted_scopes", "true");
        IncludeGrantedScopesParameter();
      } else {
        assert ps[i] == Param("prompt", "consent");
        assert pairs[i] == FormUrlencoded.Pair("prompt", "consent");
        PromptParameter();
      }
    }
  }

  /**
   * The authorization request is the endpoint, a '?' and a query that parses
   * (application/x-www-form-urlencoded) into exactly the intended pairs, in
   * order: the client id, redirect URI and state come back unchanged.
   */
  lemma AuthorizationRequestParameters(clientId: string, redirectUri: string, state: string)
    ensures var url := AuthorizationUrl(clientId, redirectUri, state);
      && url[..|AuthorizationEndpoint|] == AuthorizationEndpoint
      && Text.IndexOf(url, '?') == Some(|AuthorizationEndpoint|)
      && FormUrlencoded.Parse(url[|AuthorizationEndpoint| + 1..]) == AuthorizationPairs(clientId, redirectUri, state)
  {
    var ps := AuthorizationParameters(clientId, redirectUri, state);
    ParametersAreSeparate(clientId, redirectUri, state);
    ParametersDecode(clientId, redirectUri, state);
    FormUrlencoded.ParseParts(ps, AuthorizationPairs(clientId, redirectUri, state));
  }

  // ---------------- the OAuth return in the URL fragment ----------------

  /** What the fragment callback effect makes of the current fragment. */
  datatype Callback =
    | NotACallback
    | GoogleSuccess
    | GoogleFailure(message: string)
    | MessageNotDecodable

  /** The parameters after the first '?' of the fragment, as URLSearchParams reads them. */
  function FragmentParams(hash: string): (r: Option<seq<FormUrlencoded.Pair>>)
    ensures r.None? <==> '?' !in hash
    ensures r.Some? ==> exists i :: Text.FirstAt(hash, '?', i) && r.value == FormUrlencoded.SearchParams(hash[i + 1..])
  {
    match Text.IndexOf(hash, '?')
    case None => None
    case Some(idx) =>
      var params := FormUrlencoded.SearchParams(hash[idx + 1..]);
      ParamsAfterFirst(hash, idx, params);
      Some(params)
  }

  /** The first '?' is the index FragmentParams' postcondition asks for. */
  lemma ParamsAfterFirst(hash: string, idx: nat, params: seq<FormUrlencoded.Pair>)
    requires Text.FirstAt(hash, '?', idx) && params == FormUrlencoded.SearchParams(hash[idx + 1..])
    ensures exists i :: Text.FirstAt(hash, '?', i) && params == FormUrlencoded.SearchParams(hash[i + 1..])
  {
  }

  /** The branch on oauth, status and message once the parameters are known. */
  function Classify(params: seq<FormUrlencoded.Pair>, t: string -> string): (r: Callback)
    ensures r.NotACallback? <==> FormUrlencoded.Get(params, "oauth") != Some("google")
    ensures r.GoogleSuccess? <==>
      FormUrlencoded.Get(params, "oauth") == Some("google") && FormUrlencoded.Get(params, "status") == Some("success")
    ensures r.GoogleFailure? && !Storage.Truthy(FormUrlencoded.Get(params, "message")) ==> r.message == t("login_google_failed")
    ensures r.GoogleFailure? && Storage.Truthy(FormUrlencoded.Get(params, "message")) ==>
      UriComponent.DecodeURIComponent(FormUrlencoded.Get(params, "message").value) == Some(r.message)
    ensures r.MessageNotDecodable? ==>
      Storage.Truthy(FormUrlencoded.Get(params, "message")) &&
      UriComponent.DecodeURIComponent(FormUrlencoded.Get(params, "message").value).None?
  {
    if FormUrlencoded.Get(params, "oauth") != Some("google") then NotACallback
    else if FormUrlencoded.Get(params, "status") == Some("success") then GoogleSuccess
    else
      var msg := FormUrlencoded.Get(params, "message");
      if !Storage.Truthy(msg) then GoogleFailure(t("login_google_failed"))
      else
        match UriComponent.DecodeURIComponent(msg.value)
        case None => MessageNotDecodable
        case Some(m) => GoogleFailure(m)
  }

  /** The callback effect's reading of window.location.hash. */
  function InterpretFragment(hash: string, t: string -> string): (r: Callback)
    ensures '?' !in hash ==> r == NotACallback
    ensures '?' in hash ==> r == Classify(FragmentParams(hash).value, t)
  {
    match FragmentParams(hash)
    case None => NotACallback
    case Some(params) => Classify(params, t)
  }

  /** A fragment as a provider would write it: a route, '?', and encodeURIComponent'd name=value pairs. */
  function CallbackFragment(route: string, params: seq<FormUrlencoded.Pair>): string
  {
    route + "?" + Text.Join(EncodedPairs(params), '&')
  }

  /**
   * The `name=value` text of each pair as encodeURIComponent writes it, one per pair in order.
   * The ensures spells out each element so that the lemmas indexing them need not unfold the comprehension.
   */
  function EncodedPairs(params: seq<FormUrlencoded.Pair>): (r: seq<string>)
    ensures |r| == |params|
    ensures forall i :: 0 <= i < |r| ==>
      r[i] == Param(UriComponent.EncodeURIComponent(params[i].name), UriComponent.EncodeURIComponent(params[i].value))
  {
    seq(|params|, i requires 0 <= i < |params| =>
      Param(UriComponent.EncodeURIComponent(params[i].name), UriComponent.EncodeURIComponent(params[i].value)))
  }

  lemma EncodedPairReadsBack(p: FormUrlencoded.Pair)
    ensures var s := Param(UriComponent.EncodeURIComponent(p.name), UriComponent.EncodeURIComponent(p.value));
      s != "" && '&' !in s && s[0] != '?' && FormUrlencoded.DecodePair(s) == p
  {
    var n := UriComponent.EncodeURIComponent(p.name);
    var v := UriComponent.EncodeURIComponent(p.value);
    FormUrlencoded.EncodedHasNoPlus(p.name);
    FormUrlencoded.EncodedHasNoPlus(p.value);
    UriComponent.EncodedAlphabet(p.name);
    var s := Param(n, v);
    assert s == n + "=" + v;
    assert s[|n|] == '=';
    assert s[0] != '?' by {
      if |n| > 0 {
        assert s[0] == n[0];
        assert n[0] in n;
      }
    }
    FormUrlencoded.DecodeNameValue(n, v);
    FormUrlencoded.DecodeEncodedComponent(p.name);
    FormUrlencoded.DecodeEncodedComponent(p.value);
  }

  /** The '&'-join of encoded pairs does not start with '?' and parses back into the pairs. */
  lemma EncodedPairsParse(params: seq<FormUrlencoded.Pair>)
    ensures var query := Text.Join(EncodedPairs(params), '&');
      && (|query| > 0 ==> query[0] != '?')
      && FormUrlencoded.Parse(query) == params
  {
    var parts := EncodedPairs(params);
    var query := Text.Join(parts, '&');
    if params == [] {
      assert query == "";
      assert FormUrlencoded.Parse("") == [];
    } else {
      forall i | 0 <= i < |parts| ensures parts[i] != "" && '&' !in parts[i] && FormUrlencoded.DecodePair(parts[i]) == params[i] {
        EncodedPairReadsBack(params[i]);
      }
      assert query[0] == parts[0][0];
      FormUrlencoded.ParseParts(parts, params);
    }
  }

  /** The interpreter reads back every parameter list written into a fragment whose route has no '?'. */
  lemma FragmentParamsReadBack(route: string, params: seq<FormUrlencoded.Pair>)
    requires '?' !in route
    ensures FragmentParams(CallbackFragment(route, params)) == Some(params)
  {
    var query := Text.Join(EncodedPairs(params), '&');
    QueryAfterPrefix(route, query);
    EncodedPairsParse(params);
  }

  /** A Google failure report carried in the fragment: oauth=google, a status other than "success". */
  predicate ReportsGoogleFailure(params: seq<FormUrlencoded.Pair>)
  {
    FormUrlencoded.Get(params, "oauth") == Some("google") && FormUrlencoded.Get(params, "status") != Some("success")
  }

  /** A failure whose message holds no '%' after the first decoding surfaces as written. */
  lemma FailureMessageDecoded(route: string, params: seq<FormUrlencoded.Pair>, message: string, t: string -> string)
    requires '?' !in route && ReportsGoogleFailure(params)
    requires FormUrlencoded.Get(params, "message") == Some(message) && message != "" && '%' !in message
    ensures InterpretFragment(CallbackFragment(route, params), t) == GoogleFailure(message)
  {
    FragmentParamsReadBack(route, params);
    UriComponent.DecodeWithoutPercent(message);
  }

  /** The message is decoded twice: one that arrives percent-encoded twice surfaces as written, whatever it holds. */
  lemma FailureMessageDecodedTwice(route: string, params: seq<FormUrlencoded.Pair>, message: string, t: string -> string)
    requires '?' !in route && ReportsGoogleFailure(params) && message != ""
    requires FormUrlencoded.Get(params, "message") == Some(UriComponent.EncodeURIComponent(message))
    ensures InterpretFragment(CallbackFragment(route, params), t) == GoogleFailure(message)
  {
    FragmentParamsReadBack(route, params);
    UriComponent.DecodeEncode(message);
    UriComponent.EncodeCharNoUnescapedPercent(message[0]);
    assert UriComponent.EncodeURIComponent(message) != "" by {
      assert UriComponent.EncodeURIComponent(message) ==
             UriComponent.EncodeChar(message[0]) + UriComponent.EncodeURIComponent(message[1..]);
    }
  }

  /** A message that still holds a stray '%' after the first decoding, wherever it stands, makes the effect throw. */
  lemma FailureMessageWithStrayPercent(route: string, params: seq<FormUrlencoded.Pair>, before: string, after: string, t: string -> string)
    requires '?' !in route && ReportsGoogleFailure(params)
    requires |after| < 2 || !UriComponent.IsHexDigit(after[0]) || !UriComponent.IsHexDigit(after[1])
    requires FormUrlencoded.Get(params, "message") == Some(before + "%" + after)
    ensures InterpretFragment(CallbackFragment(route, params), t) == MessageNotDecodable
  {
    FragmentParamsReadBack(route, params);
    UriComponent.StrayPercentThrows(before, after);
  }

  /** A Google success report stores the placeholder user, whatever else the fragment carries. */
  lemma SuccessReported(route: string, params: seq<FormUrlencoded.Pair>, t: string -> string)
    requires '?' !in route
    requires FormUrlencoded.Get(params, "oauth") == Some("google") && FormUrlencoded.Get(params, "status") == Some("success")
    ensures InterpretFragment(CallbackFragment(route, params), t) == GoogleSuccess
  {
    FragmentParamsReadBack(route, params);
  }

  /** Without oauth=google the fragment is left alone, whatever else it carries. */
  lemma OtherFragmentsIgnored(route: string, params: seq<FormUrlencoded.Pair>, t: string -> string)
    requires '?' !in route
    requires FormUrlencoded.Get(params, "oauth") != Some("google")
    ensures InterpretFragment(CallbackFragment(route, params), t) == NotACallback
  {
    FragmentParamsReadBack(route, params);
  }

  /** After the replace-navigation the fragment is "#/login", which is no callback. */
  lemma LoginRouteIsNotACallback(t: string -> string)
    ensures InterpretFragment("#" + LoginPath, t) == NotACallback
  {
  }

  // ---------------- the page ----------------

  /** Navigation the page asks for: a replace on the hash router, a delayed navigate, or a window.location.href assignment. */
  datatype Navigation = Replace(path: string) | Delayed(delayMs: nat, path: string) | Assign(url: string)

  /** The placeholder record the Google success branch stores. */
  const GoogleUser: JsonText.AuthUser := JsonText.AuthUser(Some(GoogleDisplayName), None, DefaultRole)
  /** JSON.stringify of GoogleUser, written out; GoogleUserSerialized proves the two agree. */
  const GoogleUserText: string := "{\"fullname\":\"Google User\",\"role\":\"students\"}"

  /**
   * A record with a name, no email and a role, all plain text, is written with the two strings as they are.
   * This lemma and the three after it split the literal apart so that the proof of GoogleUserSerialized stays cheap.
   */
  lemma SerializeNamedUser(name: string, role: string)
    requires forall c :: c in name ==> c >= ' ' && c != '"' && c != '\\'
    requires forall c :: c in role ==> c >= ' ' && c != '"' && c != '\\'
    ensures JsonText.Serialize(JsonText.AuthUser(Some(name), None, role)) ==
      "{" + ((("\"fullname\":" + (("\"" + name) + "\"")) + ",") + ("" + (("\"role\":" + (("\"" + role) + "\"")) + "}")))
  {
    JsonText.EscapePlain(name);
    JsonText.EscapePlain(role);
    var u := JsonText.AuthUser(Some(name), None, role);
    assert JsonText.Member("fullname", u.fullname) == "\"fullname\":" + (("\"" + name) + "\"") + ",";
    assert JsonText.Member("email", u.email) == "";
    assert JsonText.RoleText(role) == "\"role\":" + (("\"" + role) + "\"") + "}";
  }

  /** The name member of GoogleUserText, piece by piece; keeps the literal proof cheap. */
  lemma GoogleUserNamePart()
    ensures "\"fullname\":\"Google User\"," == (("\"fullname\":" + (("\"" + "Google User") + "\"")) + ",")
  {
  }

  /** The role member of GoogleUserText, piece by piece; keeps the literal proof cheap. */
  lemma GoogleUserRolePart()
    ensures "\"role\":\"students\"}" == ("" + (("\"role\":" + (("\"" + "students") + "\"")) + "}"))
  {
  }

  /** GoogleUserText in the shape SerializeNamedUser produces; keeps the literal proof cheap. */
  lemma GoogleUserParts()
    ensures GoogleUser == JsonText.AuthUser(Some("Google User"), None, "students")
    ensures GoogleUserText ==
      "{" + ((("\"fullname\":" + (("\"" + "Google User") + "\"")) + ",") + ("" + (("\"role\":" + (("\"" + "students") + "\"")) + "}")))
  {
    GoogleUserNamePart();
    GoogleUserRolePart();
    assert GoogleUserText == "{" + ("\"fullname\":\"Google User\"," + "\"role\":\"students\"}");
  }

  /** The text stored for a Google login is the serialisation of the placeholder record, and reads back as it. */
  lemma GoogleUserSerialized()
    ensures JsonText.Serialize(GoogleUser) == GoogleUserText
    ensures JsonText.Deserialize(GoogleUserText) == Some(GoogleUser)
  {
    GoogleUserParts();
    assert forall c :: c in "Google User" ==> c >= ' ' && c != '"' && c != '\\';
    assert forall c :: c in "students" ==> c >= ' ' && c != '"' && c != '\\';
    SerializeNamedUser("Google User", "students");
    JsonText.SerializeRoundTrip(GoogleUser);
  }

  class LoginPage {
    const store: Storage.LocalStorage
    const env: Env
    /** The i18n lookup t(key). */
    const t: string -> string
    var error: string
    var notice: string
    var loading: bool
    var appConfig: Option<AppConfig>
    /** window.location.hash; the hash router keeps the route here. */
    var hash: string
    /** An exception escaped an effect. */
    var crashed: bool
    var navigations: seq<Navigation>

    constructor (store: Storage.LocalStorage, env: Env, t: string -> string, hash: string)
      ensures this.store == store && this.env == env && this.t == t && this.hash == hash
      ensures error == "" && notice == "" && !loading && appConfig == None && !crashed && navigations == []
    {
      this.store := store;
      this.env := env;
      this.t := t;
      this.hash := hash;
      error := "";
      notice := "";
      loading := false;
      appConfig := None;
      crashed := false;
      navigations := [];
    }

    /** handleSubmit up to the await: both messages cleared and the submit button disabled. */
    method BeginSubmit()
      modifies this
      ensures error == "" && notice == "" && loading
      ensures hash == old(hash) && appConfig == old(appConfig) && crashed == old(crashed) && navigations == old(navigations)
    {
      error := "";
      notice := "";
      loading := true;
    }

    /** handleSubmit after the await, once userApi.login has settled with the given response. */
    method SettleSubmit(response: LoginResponse)
      modifies this, store
      ensures !loading && hash == old(hash) && appConfig == old(appConfig) && crashed == old(crashed)
      ensures var result := LoginApi(response);
        && (result.LoginSuccess? ==>
              var user := StoredUser(result.user);
              && store.items == old(store.items)[AuthUserKey := JsonText.Serialize(user)]
              && error == old(error) && notice == WelcomeNotice(user.fullname)
              && navigations == old(navigations) + [Delayed(RedirectDelayMs, HomePath)])
        && (result.LoginFailure? ==>
              && store.items == old(store.items)
              && error == result.message && notice == old(notice)
              && navigations == old(navigations))
    {
      var result := LoginApi(response);
      loading := false;
      if result.LoginSuccess? {
        var user := StoredUser(result.user);
        store.SetItem(AuthUserKey, JsonText.Serialize(user));
        notice := WelcomeNotice(user.fullname);
        navigations := navigations + [Delayed(RedirectDelayMs, HomePath)];
      } else {
        error := result.message;
      }
    }

    /** The whole of handleSubmit when nothing else runs during the await. */
    method HandleSubmit(response: LoginResponse)
      modifies this, store
      ensures !loading && hash == old(hash) && appConfig == old(appConfig) && crashed == old(crashed)
      ensures var result := LoginApi(response);
        && (result.LoginSuccess? ==>
              var user := StoredUser(result.user);
              && store.items == old(store.items)[AuthUserKey := JsonText.Serialize(user)]
              && error == "" && notice == WelcomeNotice(user.fullname)
              && navigations == old(navigations) + [Delayed(RedirectDelayMs, HomePath)])
        && (result.LoginFailure? ==>
              && store.items == old(store.items)
              && error == result.message && notice == ""
              && navigations == old(navigations))
    {
      BeginSubmit();
      SettleSubmit(response);
    }

    /** loadConfig, with the fetch's settlement and whether the page was unmounted before the body was read. */
    method LoadConfig(fetch: ConfigFetch, cancelled: bool)
      modifies this
      ensures appConfig == if FetchedConfig(fetch).Some? && !cancelled then FetchedConfig(fetch) else old(appConfig)
      ensures error == old(error) && notice == old(notice) && loading == old(loading)
      ensures hash == old(hash) && crashed == old(crashed) && navigations == old(navigations)
    {
      if fetch.NetworkError? || !fetch.ok {
        return;
      }
      match fetch.body
      case Unparsable =>
      case FalsyJson =>
        if !cancelled { appConfig := Some(AppConfig(None, None)); }
      case ObjectJson(c) =>
        if !cancelled { appConfig := Some(c); }
    }

    /** What the fragment callback effect does once it knows what the fragment reports. */
    method ApplyCallback(c: Callback)
      modifies this, store
      ensures loading == old(loading) && appConfig == old(appConfig)
      ensures c.NotACallback? ==>
        && store.items == old(store.items) && error == old(error) && notice == old(notice)
        && hash == old(hash) && crashed == old(crashed) && navigations == old(navigations)
      ensures c.GoogleSuccess? ==>
        && store.items == old(store.items)[AuthUserKey := GoogleUserText]
        && notice == t("login_google_success") && error == old(error) && crashed == old(crashed)
        && hash == "#" + LoginPath && navigations == old(navigations) + [Replace(LoginPath)]
      ensures c.GoogleFailure? ==>
        && store.items == old(store.items)
        && error == c.message && notice == old(notice) && crashed == old(crashed)
        && hash == "#" + LoginPath && navigations == old(navigations) + [Replace(LoginPath)]
      ensures c.MessageNotDecodable? ==>
        && crashed && store.items == old(store.items) && error == old(error) && notice == old(notice)
        && hash == old(hash) && navigations == old(navigations)
    {
      match c {
        case NotACallback =>
          return;
        case MessageNotDecodable =>
          crashed := true;
          return;
        case GoogleSuccess =>
          store.SetItem(AuthUserKey, GoogleUserText);
          notice := t("login_google_success");
        case GoogleFailure(m) =>
          error := m;
      }
      hash := "#" + LoginPath;
      navigations := navigations + [Replace(LoginPath)];
    }

    /** The fragment callback effect, run once on mount. */
    method ParseOAuthCallback()
      modifies this, store
      ensures loading == old(loading) && appConfig == old(appConfig)
      ensures var c := InterpretFragment(old(hash), t);
        && (c.NotACallback? ==>
              && store.items == old(store.items) && error == old(error) && notice == old(notice)
              && hash == old(hash) && crashed == old(crashed) && navigations == old(navigations))
        && (c.GoogleSuccess? ==>
              && store.items == old(store.items)[AuthUserKey := GoogleUserText]
              && notice == t("login_google_success") && error == old(error) && crashed == old(crashed)
              && hash == "#" + LoginPath && navigations == old(navigations) + [Replace(LoginPath)])
        && (c.GoogleFailure? ==>
              && store.items == old(store.items)
              && error == c.message && notice == old(notice) && crashed == old(crashed)
              && hash == "#" + LoginPath && navigations == old(navigations) + [Replace(LoginPath)])
        && (c.MessageNotDecodable? ==>
              && crashed && store.items == old(store.items) && error == old(error) && notice == old(notice)
              && hash == old(hash) && navigations == old(navigations))
        && (!c.MessageNotDecodable? ==> InterpretFragment(hash, t).NotACallback?)
    {
      var callback := InterpretFragment(hash, t);
      ApplyCallback(callback);
      if !callback.MessageNotDecodable? && !callback.NotACallback? {
        LoginRouteIsNotACallback(t);
      }
    }

    /** handleGoogleLogin, with the random state string as input. */
    method HandleGoogleLogin(state: string)
      modifies this
      ensures GoogleRedirect(env, appConfig, state).Err? ==>
        error == MissingClientIdMessage && navigations == old(navigations)
      ensures GoogleRedirect(env, appConfig, state).Ok? ==>
        error == old(error) && navigations == old(navigations) + [Assign(GoogleRedirect(env, appConfig, state).value)]
      ensures notice == old(notice) && loading == old(loading) && appConfig == old(appConfig)
      ensures hash == old(hash) && crashed == old(crashed)
    {
      var clientId := ResolveClientId(env, appConfig);
      var redirectUri := ResolveRedirectUri(env, appConfig);
      if clientId == "" {
        error := MissingClientIdMessage;
        return;
      }
      navigations := navigations + [Assign(AuthorizationUrl(clientId, redirectUri, state))];
    }
  }
}
