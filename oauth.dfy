/** The OAuth 2.0 authorization-code client used for login (RFC 6749,
    sections 4.1.1, 4.1.3 and 6, with endpoints taken from an OpenID Connect
    Discovery 1.0 document). HTTP responses, cookies and random bytes are
    inputs of the model; the WordPress calls that produce them are not
    modelled. */
module OAuthClient {
  import opened Wrappers

  type byte = x: int | 0 <= x < 256

  // ---------------------------------------------------------------------
  // Random keys
  // ---------------------------------------------------------------------

  predicate IsLowerHex(c: char) {
    '0' <= c <= '9' || 'a' <= c <= 'f'
  }

  function HexDigit(n: int): (c: char)
    requires 0 <= n < 16
    ensures IsLowerHex(c)
  {
    if n < 10 then ('0' as int + n) as char else ('a' as int + n - 10) as char
  }

  /** `bin2hex`: two lower-case hex digits per byte, high nibble first. */
  function Bin2Hex(bytes: seq<byte>): (r: string)
    ensures |r| == 2 * |bytes|
    ensures forall k :: 0 <= k < |r| ==> IsLowerHex(r[k])
  {
    if bytes == [] then ""
    else [HexDigit(bytes[0] / 16), HexDigit(bytes[0] % 16)] + Bin2Hex(bytes[1..])
  }

  function HexValue(c: char): (r: Option<int>)
    ensures r.Some? <==> IsLowerHex(c)
    ensures r.Some? ==> 0 <= r.value < 16
  {
    if '0' <= c <= '9' then Some(c as int - '0' as int)
    else if 'a' <= c <= 'f' then Some(c as int - 'a' as int + 10)
    else None
  }

  /** The inverse of `Bin2Hex` on lower-case input (`hex2bin`). */
  function Hex2Bin(s: string): Option<seq<byte>> {
    if s == [] then Some([])
    else if |s| == 1 then None
    else
      match (HexValue(s[0]), HexValue(s[1]), Hex2Bin(s[2..]))
      case (Some(hi), Some(lo), Some(rest)) => Some([hi * 16 + lo] + rest)
      case _ => None
  }

  /** Hex encoding loses nothing: decoding it gives back the bytes. */
  lemma {:induction false} HexRoundTrip(bytes: seq<byte>)
    ensures Hex2Bin(Bin2Hex(bytes)) == Some(bytes)
  {
    if bytes != [] {
      var b := bytes[0];
      var s := Bin2Hex(bytes);
      assert s[2..] == Bin2Hex(bytes[1..]);
      HexRoundTrip(bytes[1..]);
      assert HexValue(HexDigit(b / 16)) == Some(b / 16);
      assert HexValue(HexDigit(b % 16)) == Some(b % 16);
      assert [b] + bytes[1..] == bytes;
    }
  }

  /** `generate_random_key`: `bin2hex(random_bytes(128 / 8))`, where
      `random` stands for the 16 bytes `random_bytes` returns. */
  function GenerateRandomKey(random: seq<byte>): (key: string)
    requires |random| == 16
    ensures |key| == 32
    ensures forall k :: 0 <= k < |key| ==> IsLowerHex(key[k])
  {
    Bin2Hex(random)
  }

  // ---------------------------------------------------------------------
  // sanitize_key
  // ---------------------------------------------------------------------

  predicate KeyChar(c: char) {
    'a' <= c <= 'z' || '0' <= c <= '9' || c == '_' || c == '-'
  }

  function ToLowerAscii(c: char): char {
    if 'A' <= c <= 'Z' then (c as int + 32) as char else c
  }

  /** WordPress's `sanitize_key`: lower-case ASCII letters, then drop every
      character other than a-z, 0-9, '_' and '-'. */
  function SanitizeKey(raw: string): (r: string)
    ensures |r| <= |raw|
    ensures forall k :: 0 <= k < |r| ==> KeyChar(r[k])
    ensures (forall k :: 0 <= k < |raw| ==> KeyChar(raw[k])) ==> r == raw
  {
    if raw == [] then ""
    else
      var c := ToLowerAscii(raw[0]);
      (if KeyChar(c) then [c] else []) + SanitizeKey(raw[1..])
  }

  /** A generated key comes back unchanged through the cookie: sanitizing
      it is the identity. */
  lemma GeneratedKeySurvivesSanitizing(random: seq<byte>)
    requires |random| == 16
    ensures SanitizeKey(GenerateRandomKey(random)) == GenerateRandomKey(random)
  {
    var key := GenerateRandomKey(random);
    assert forall k :: 0 <= k < |key| ==> KeyChar(key[k]);
  }

  // ---------------------------------------------------------------------
  // Decoded documents, responses, errors
  // ---------------------------------------------------------------------

  /** What `json_decode($body, true)` yields: `null` for a body that is not
      valid JSON, or an associative array. */
  datatype Json = Null | Array(entries: map<string, string>)

  /** PHP truthiness: `null` and the empty array are false. */
  predicate Truthy(j: Json) {
    j.Array? && |j.entries| > 0
  }

  /** The status code (absent when the request failed outright) and the
      decoded body of an HTTP response. */
  datatype Response = Response(status: Option<int>, body: Json)

  datatype Fetch = DiscoveryDocument | Token | UserInfo

  /** The exceptions the client throws. `ReturnTypeError` is PHP's TypeError
      for a method declared to return `array` that returns something else. */
  datatype Error =
    | UnexpectedStatus(fetch: Fetch, status: Option<int>)
    | DiscoveryParseError
    | MissingEndpoint
    | TokenRequired
    | ReturnTypeError

  const ENDPOINT_KEYS: set<string> := {"authorization_endpoint", "token_endpoint", "userinfo_endpoint"}

  /** `count(self::ENDPOINT_KEYS)`: the three distinct keys, a step of
      `GetEndpoints`' proof. */
  lemma EndpointKeyCount()
    ensures |ENDPOINT_KEYS| == 3
  {
    assert ENDPOINT_KEYS == {"authorization_endpoint"} + {"token_endpoint"} + {"userinfo_endpoint"};
  }

  lemma {:induction false} SubsetOfSameSize(a: set<string>, b: set<string>)
    requires a <= b && |a| == |b|
    ensures a == b
  {
    if a != b {
      var x :| x in b && x !in a;
      assert a <= b - {x};
      assert |b - {x}| == |b| - 1;
      SubsetSize(a, b - {x});
    }
  }

  lemma {:induction false} SubsetSize(a: set<string>, b: set<string>)
    requires a <= b
    ensures |a| <= |b|
    decreases |b|
  {
    if a != {} {
      var x :| x in a;
      SubsetSize(a - {x}, b - {x});
    }
  }

  // ---------------------------------------------------------------------
  // Request parameters
  // ---------------------------------------------------------------------

  /** The query of the authorization request. */
  function AuthorizationQuery(clientId: string, redirectUri: string, state: string, nonce: string): (q: map<string, string>)
    ensures q.Keys == {"client_id", "response_type", "scope", "redirect_uri", "state", "nonce", "access_type", "prompt"}
    ensures q["client_id"] == clientId && q["redirect_uri"] == redirectUri
    ensures q["state"] == state && q["nonce"] == nonce
    ensures q["response_type"] == "code" && q["scope"] == "openid email profile"
    ensures q["access_type"] == "offline" && q["prompt"] == "consent"
  {
    map["client_id" := clientId, "response_type" := "code", "scope" := "openid email profile",
        "redirect_uri" := redirectUri, "state" := state, "nonce" := nonce,
        "access_type" := "offline", "prompt" := "consent"]
  }

  /** The POST body exchanging an authorization code for a token. */
  function AuthorizationCodeBody(code: string, clientId: string, clientSecret: string, redirectUri: string)
    : (body: map<string, string>)
    ensures body.Keys == {"code", "client_id", "client_secret", "redirect_uri", "grant_type"}
    ensures body["code"] == code && body["redirect_uri"] == redirectUri
    ensures body["client_id"] == clientId && body["client_secret"] == clientSecret
    ensures body["grant_type"] == "authorization_code"
  {
    map["code" := code, "client_id" := clientId, "client_secret" := clientSecret,
        "redirect_uri" := redirectUri, "grant_type" := "authorization_code"]
  }

  /** The POST body exchanging a refresh token for a new token. */
  function RefreshBody(refreshToken: string, clientId: string, clientSecret: string): (body: map<string, string>)
    ensures body.Keys == {"refresh_token", "client_id", "client_secret", "grant_type"}
    ensures body["refresh_token"] == refreshToken
    ensures body["client_id"] == clientId && body["client_secret"] == clientSecret
    ensures body["grant_type"] == "refresh_token"
  {
    map["refresh_token" := refreshToken, "client_id" := clientId, "client_secret" := clientSecret,
        "grant_type" := "refresh_token"]
  }

  /** `scope` lists `word` as one of its space-separated values. */
  predicate HasScope(scope: string, word: string) {
    exists i | 0 <= i <= |scope| :: ScopeAt(scope, word, i)
  }

  /** `word` stands in `scope` at index `i`, delimited by spaces or the ends. */
  predicate ScopeAt(scope: string, word: string, i: int) {
    0 <= i && i + |word| <= |scope| && scope[i..i + |word|] == word
    && (i == 0 || scope[i - 1] == ' ') && (i + |word| == |scope| || scope[i + |word|] == ' ')
  }

  /** An authorization request as RFC 6749 section 4.1.1 describes it,
      carrying a `state` value (section 10.12) and, for OpenID Connect, the
      `openid` scope. */
  predicate IsAuthorizationRequest(q: map<string, string>, clientId: string, state: string) {
    && "response_type" in q && q["response_type"] == "code"
    && "client_id" in q && q["client_id"] == clientId
    && "state" in q && q["state"] == state
    && "scope" in q && HasScope(q["scope"], "openid")
  }

  /** An access token request as RFC 6749 section 4.1.3 describes it, with
      the client credentials in the body (section 2.3.1). */
  predicate IsCodeTokenRequest(body: map<string, string>, code: string, redirectUri: string, clientId: string) {
    && "grant_type" in body && body["grant_type"] == "authorization_code"
    && "code" in body && body["code"] == code
    && "redirect_uri" in body && body["redirect_uri"] == redirectUri
    && "client_id" in body && body["client_id"] == clientId
    && "client_secret" in body
    && "refresh_token" !in body
  }

  /** A refresh request as RFC 6749 section 6 describes it. */
  predicate IsRefreshRequest(body: map<string, string>, refreshToken: string, clientId: string) {
    && "grant_type" in body && body["grant_type"] == "refresh_token"
    && "refresh_token" in body && body["refresh_token"] == refreshToken
    && "client_id" in body && body["client_id"] == clientId
    && "client_secret" in body
    && "code" !in body
  }

  /** The three parameter maps are well-formed requests of the standard. */
  lemma RequestsFollowRfc6749(clientId: string, clientSecret: string, redirectUri: string,
                              state: string, nonce: string, code: string, refreshToken: string)
    ensures IsAuthorizationRequest(AuthorizationQuery(clientId, redirectUri, state, nonce), clientId, state)
    ensures IsCodeTokenRequest(AuthorizationCodeBody(code, clientId, clientSecret, redirectUri), code, redirectUri, clientId)
    ensures IsRefreshRequest(RefreshBody(refreshToken, clientId, clientSecret), refreshToken, clientId)
  {
    var scope := AuthorizationQuery(clientId, redirectUri, state, nonce)["scope"];
    assert scope[0..6] == "openid" && scope[6] == ' ';
    assert ScopeAt(scope, "openid", 0);
  }

  /** The requests this client sends. */
  datatype TokenRequest = TokenRequest(url: string, body: map<string, string>)
  datatype UserInfoRequest = UserInfoRequest(url: string, authorization: string)
  /** The authorization URL before `add_query_arg` assembles it. */
  datatype AuthorizationRequest = AuthorizationRequest(endpoint: string, query: map<string, string>)

  /** `$auth_token['access_token']`, which PHP reads as null (an empty
      string once concatenated) when missing. */
  function AccessToken(token: Json): (r: string)
    ensures !Truthy(token) ==> r == ""
    ensures token.Array? && "access_token" in token.entries ==> r == token.entries["access_token"]
    ensures token.Array? && "access_token" !in token.entries ==> r == ""
  {
    if token.Array? && "access_token" in token.entries then token.entries["access_token"] else ""
  }

  // ---------------------------------------------------------------------
  // The client
  // ---------------------------------------------------------------------

  class OAuth {
    /** Read from the plugin options by the constructor. */
    const discoveryDocUrl: string
    const clientId: string
    const clientSecret: string
    /** `site_url('?ftek_plugin_openid')`. */
    const redirectUri: string
    /** The `ftek_plugin_oauth_state` cookie the current request came with. */
    const stateCookie: Option<string>

    /** Declared as the cache of discovered endpoints, but never assigned. */
    var endpoints: map<string, string>
    /** The decoded token response; `Null` until a token has been fetched. */
    var authToken: Json
    /** The values passed to `Cookies::set('ftek_plugin_oauth_state', …)`. */
    var cookiesSet: seq<string>

    ghost predicate Valid()
      reads this
    {
      endpoints == map[]
    }

    constructor (discoveryDocUrl: string, clientId: string, clientSecret: string, redirectUri: string,
                 stateCookie: Option<string>)
      ensures Valid()
      ensures this.discoveryDocUrl == discoveryDocUrl && this.clientId == clientId
      ensures this.clientSecret == clientSecret && this.redirectUri == redirectUri
      ensures this.stateCookie == stateCookie
      ensures authToken == Null && cookiesSet == []
    {
      this.discoveryDocUrl := discoveryDocUrl;
      this.clientId := clientId;
      this.clientSecret := clientSecret;
      this.redirectUri := redirectUri;
      this.stateCookie := stateCookie;
      endpoints := map[];
      authToken := Null;
      cookiesSet := [];
    }

    /** `get_endpoints`, given the response to the discovery-document
        request. Because `endpoints` is never assigned, every call fetches
        the document again; were it ever non-empty, the unassigned local
        would be returned and the `array` return type would throw. */
    function GetEndpoints(discovery: Response): (r: Result<map<string, string>, Error>)
      reads this
      ensures endpoints != map[] ==> r == Failure(ReturnTypeError)
      ensures endpoints == map[] && discovery.status != Some(200)
              ==> r == Failure(UnexpectedStatus(DiscoveryDocument, discovery.status))
      ensures endpoints == map[] && discovery.status == Some(200) && !Truthy(discovery.body)
              ==> r == Failure(DiscoveryParseError)
      ensures endpoints == map[] && discovery.status == Some(200) && Truthy(discovery.body)
              ==> (r.Success? <==> ENDPOINT_KEYS <= discovery.body.entries.Keys)
                  && (r.Failure? ==> r.error == MissingEndpoint)
      ensures r.Success? ==> discovery.body.Array? && r.value.Keys == ENDPOINT_KEYS
                             && forall k :: k in r.value ==> k in discovery.body.entries && r.value[k] == discovery.body.entries[k]
    {
      if endpoints != map[] then Failure(ReturnTypeError)
      else if discovery.status != Some(200) then Failure(UnexpectedStatus(DiscoveryDocument, discovery.status))
      else if !Truthy(discovery.body) then Failure(DiscoveryParseError)
      else
        var document := discovery.body.entries;
        var found := map k | k in document && k in ENDPOINT_KEYS :: document[k];
        EndpointKeyCount();
        assert ENDPOINT_KEYS <= document.Keys ==> found.Keys == ENDPOINT_KEYS;
        if |found| != 3 then
          Failure(MissingEndpoint)
        else
          SubsetOfSameSize(found.Keys, ENDPOINT_KEYS);
          Success(found)
    }

    /** The value `get_state` returns: the sanitized cookie when the request
        has one, else a fresh key. */
    function StateValue(random: seq<byte>): (state: string)
      requires |random| == 16
      ensures stateCookie.None? ==> |state| == 32
      ensures forall k :: 0 <= k < |state| ==> KeyChar(state[k])
    {
      if stateCookie.Some? then SanitizeKey(stateCookie.value) else GenerateRandomKey(random)
    }

    /** What `get_state` passes to `Cookies::set`: the fresh key, only when
        the request has no state cookie. */
    function StateCookieWrites(random: seq<byte>): (r: seq<string>)
      requires |random| == 16
      ensures r == [] <==> stateCookie.Some?
      ensures r != [] ==> r == [StateValue(random)] && |r[0]| == 32
    {
      if stateCookie.Some? then [] else [GenerateRandomKey(random)]
    }

    /** `get_state`; `random` is what `random_bytes` would return. */
    method GetState(random: seq<byte>) returns (state: string)
      requires |random| == 16
      modifies this`cookiesSet
      ensures state == StateValue(random)
      ensures cookiesSet == old(cookiesSet) + StateCookieWrites(random)
    {
      if stateCookie.Some? {
        state := SanitizeKey(stateCookie.value);
      } else {
        state := GenerateRandomKey(random);
        cookiesSet := cookiesSet + [state];
      }
    }

    /** `validate_state`: compares with `get_state`, which itself issues a
        new cookie when the request has none. */
    method ValidateState(candidate: string, random: seq<byte>) returns (ok: bool)
      requires |random| == 16
      modifies this`cookiesSet
      ensures ok <==> candidate == StateValue(random)
      ensures cookiesSet == old(cookiesSet) + StateCookieWrites(random)
    {
      var state := GetState(random);
      ok := candidate == state;
    }

    /** `get_authorization_url`. The query, and with it the state and its
        cookie, is built before the endpoints are fetched, so the cookie is
        set even when discovery then throws. */
    method GetAuthorizationUrl(stateRandom: seq<byte>, nonceRandom: seq<byte>, discovery: Response)
      returns (r: Result<AuthorizationRequest, Error>)
      requires |stateRandom| == 16 && |nonceRandom| == 16
      modifies this`cookiesSet
      ensures cookiesSet == old(cookiesSet) + StateCookieWrites(stateRandom)
      ensures r.Failure? <==> GetEndpoints(discovery).Failure?
      ensures r.Failure? ==> r.error == GetEndpoints(discovery).error
      ensures r.Success? ==> r.value == AuthorizationRequest(
                GetEndpoints(discovery).value["authorization_endpoint"],
                AuthorizationQuery(clientId, redirectUri, StateValue(stateRandom), GenerateRandomKey(nonceRandom)))
    {
      var state := GetState(stateRandom);
      var query := AuthorizationQuery(clientId, redirectUri, state, GenerateRandomKey(nonceRandom));
      var found := GetEndpoints(discovery);
      if found.Failure? {
        return Failure(found.error);
      }
      r := Success(AuthorizationRequest(found.value["authorization_endpoint"], query));
    }

    /** The outcome of `update_auth_token(body)`, from the token before the
        call to the token after it. */
    ghost predicate TokenUpdate(before: Json, after: Json, body: map<string, string>, discovery: Response,
                                response: Response, sent: Option<TokenRequest>, r: Result<map<string, string>, Error>)
      reads this
    {
      var found := GetEndpoints(discovery);
      && (found.Failure? ==> sent == None && r == Failure(found.error) && after == before)
      && (found.Success? ==> sent == Some(TokenRequest(found.value["token_endpoint"], body)))
      && ((found.Success? && response.status != Some(200))
            ==> r == Failure(UnexpectedStatus(Token, response.status)) && after == before)
      && ((found.Success? && response.status == Some(200))
            ==> after == response.body
                && r == (if response.body.Array? then Success(response.body.entries) else Failure(ReturnTypeError)))
    }

    /** `update_auth_token`: posts `body` to the discovered token endpoint;
        on status 200 stores the decoded body as the token and returns it.
        A body that does not decode is stored as `null` before the return
        type check throws. */
    method UpdateAuthToken(body: map<string, string>, discovery: Response, response: Response)
      returns (sent: Option<TokenRequest>, r: Result<map<string, string>, Error>)
      modifies this`authToken
      ensures TokenUpdate(old(authToken), authToken, body, discovery, response, sent, r)
    {
      var found := GetEndpoints(discovery);
      if found.Failure? {
        return None, Failure(found.error);
      }
      sent := Some(TokenRequest(found.value["token_endpoint"], body));
      if response.status != Some(200) {
        return sent, Failure(UnexpectedStatus(Token, response.status));
      }
      authToken := response.body;
      if authToken.Array? {
        r := Success(authToken.entries);
      } else {
        r := Failure(ReturnTypeError);
      }
    }

    /** `fetch_auth_token($code)`. */
    method FetchAuthToken(code: string, discovery: Response, response: Response)
      returns (sent: Option<TokenRequest>, r: Result<map<string, string>, Error>)
      modifies this`authToken
      ensures TokenUpdate(old(authToken), authToken, AuthorizationCodeBody(code, clientId, clientSecret, redirectUri),
                          discovery, response, sent, r)
    {
      sent, r := UpdateAuthToken(AuthorizationCodeBody(code, clientId, clientSecret, redirectUri), discovery, response);
    }

    /** `refresh_auth_token($refresh_token)`. */
    method RefreshAuthToken(refreshToken: string, discovery: Response, response: Response)
      returns (sent: Option<TokenRequest>, r: Result<map<string, string>, Error>)
      modifies this`authToken
      ensures TokenUpdate(old(authToken), authToken, RefreshBody(refreshToken, clientId, clientSecret),
                          discovery, response, sent, r)
    {
      sent, r := UpdateAuthToken(RefreshBody(refreshToken, clientId, clientSecret), discovery, response);
    }

    /** `fetch_user_info`. Its guard also tests a local `$refresh_token`
        that is never defined (so always null), which leaves "no token
        yet" as the only reason to throw. */
    method FetchUserInfo(discovery: Response, response: Response)
      returns (sent: Option<UserInfoRequest>, r: Result<map<string, string>, Error>)
      ensures !Truthy(authToken) ==> sent == None && r == Failure(TokenRequired)
      ensures Truthy(authToken) && GetEndpoints(discovery).Failure?
              ==> sent == None && r == Failure(GetEndpoints(discovery).error)
      ensures Truthy(authToken) && GetEndpoints(discovery).Success?
              ==> sent == Some(UserInfoRequest(GetEndpoints(discovery).value["userinfo_endpoint"],
                                               "Bearer " + AccessToken(authToken)))
                  && (response.status != Some(200) ==> r == Failure(UnexpectedStatus(UserInfo, response.status)))
                  && (response.status == Some(200) && response.body.Array? ==> r == Success(response.body.entries))
                  && (response.status == Some(200) && response.body.Null? ==> r == Failure(ReturnTypeError))
    {
      var refreshToken: Option<string> := None;  // the undefined `$refresh_token`
      if !Truthy(authToken) && refreshToken.None? {
        return None, Failure(TokenRequired);
      }
      var found := GetEndpoints(discovery);
      if found.Failure? {
        return None, Failure(found.error);
      }
      sent := Some(UserInfoRequest(found.value["userinfo_endpoint"], "Bearer " + AccessToken(authToken)));
      if response.status != Some(200) {
        return sent, Failure(UnexpectedStatus(UserInfo, response.status));
      }
      if response.body.Array? {
        r := Success(response.body.entries);
      } else {
        r := Failure(ReturnTypeError);
      }
    }

    /** `get_refresh_token`: throws before a (non-empty) token is stored,
        else the token's `refresh_token`, or null when it has none. */
    function GetRefreshToken(): (r: Result<Option<string>, Error>)
      reads this
      ensures r.Failure? <==> !Truthy(authToken)
      ensures r.Failure? ==> r.error == TokenRequired
      ensures r.Success? ==> (r.value.Some? <==> "refresh_token" in authToken.entries)
      ensures r.Success? && r.value.Some? ==> r.value.value == authToken.entries["refresh_token"]
    {
      if !Truthy(authToken) then Failure(TokenRequired)
      else if "refresh_token" in authToken.entries then Success(Some(authToken.entries["refresh_token"]))
      else Success(None)
    }
  }

  /** The login round trip: the authorization request issues a state and
      its cookie; the callback request, carrying that cookie, accepts the
      state that came back in the query. */
  method StateRoundTrip(discoveryDocUrl: string, clientId: string, clientSecret: string, redirectUri: string,
                        stateRandom: seq<byte>, nonceRandom: seq<byte>, callbackRandom: seq<byte>, discovery: Response)
    returns (request: Result<AuthorizationRequest, Error>, accepted: bool)
    requires |stateRandom| == 16 && |nonceRandom| == 16 && |callbackRandom| == 16
    ensures request.Success? ==> accepted
  {
    var login := new OAuth(discoveryDocUrl, clientId, clientSecret, redirectUri, None);
    request := login.GetAuthorizationUrl(stateRandom, nonceRandom, discovery);
    var issued := login.cookiesSet[|login.cookiesSet| - 1];
    var callback := new OAuth(discoveryDocUrl, clientId, clientSecret, redirectUri, Some(issued));
    if request.Success? {
      GeneratedKeySurvivesSanitizing(stateRandom);
      accepted := callback.ValidateState(request.value.query["state"], callbackRandom);
    } else {
      accepted := false;
    }
  }

  /** With a state cookie, every state check of the request compares with
      the same value and nothing is written; without one, each check
      issues a fresh key. */
  lemma CookieDecidesState(client: OAuth, random: seq<byte>, random': seq<byte>)
    requires |random| == 16 && |random'| == 16
    requires client.stateCookie.Some?
    ensures client.StateValue(random) == client.StateValue(random')
    ensures client.StateCookieWrites(random) == []
  {
  }

  /** Every client keeps `endpoints` empty, so `get_endpoints` always takes
      the fetching branch: its outcome depends on the discovery response
      alone and is never the unassigned-local TypeError. */
  lemma ValidClientFetchesEveryTime(a: OAuth, b: OAuth, discovery: Response)
    requires a.Valid() && b.Valid()
    ensures a.GetEndpoints(discovery) == b.GetEndpoints(discovery)
    ensures a.GetEndpoints(discovery) != Failure(ReturnTypeError)
  {
  }

  /** A stored token holding a `refresh_token`: `get_refresh_token` does
      not throw, and its result is exactly that refresh token. A corollary
      of `GetRefreshToken`'s contract, stated for the reader. */
  lemma RefreshTokenOfStoredToken(client: OAuth, token: map<string, string>, refreshToken: string)
    requires client.authToken == Array(token) && "refresh_token" in token && token["refresh_token"] == refreshToken
    ensures client.GetRefreshToken() == Success(Some(refreshToken))
  {
  }
}
