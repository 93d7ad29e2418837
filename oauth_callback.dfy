/** `GET /api/auth/callback` of the mini app: the OAuth `state` check against the
    `oauth_state` cookie, the authorization-code exchange form, and the redirect that
    sets the session cookie and clears the state cookie. The token endpoint's reply
    is a given value and `decodeURIComponent` a given partial function. */
module OAuthCallback {
  import opened Wrappers
  import Params
  import Cookies
  import PercentEncoding
  import PercentDecoding
  import Json
  import AppSessionRoute

  const STATE_COOKIE := "oauth_state"
  const INVALID_STATE := "Invalid state or code"
  const CALLBACK_FAILED := "OAuth callback failed"

  /** The session object `{ oauth: true }` as `JSON.stringify` writes it. */
  const SESSION_JSON := "{\"oauth\":true}"
  const SESSION_ATTRIBUTES := "; " + "HttpOnly; Secure; SameSite=Lax; Path=/; Max-Age=3600"
  const CLEAR_STATE_COOKIE := "oauth_state=; Max-Age=0; Path=/; HttpOnly; Secure; SameSite=Lax"

  /** The environment variables the route reads; `None` is unset. */
  datatype OAuthEnv = OAuthEnv(
    tokenUrl: Option<string>, clientId: Option<string>, clientSecret: Option<string>,
    redirectUri: Option<string>, publicUrl: Option<string>)

  /** `v || fallback` on an optional string. */
  function OrElse(v: Option<string>, fallback: string): (r: string)
    ensures v.Some? && v.value != "" ==> r == v.value
    ensures !(v.Some? && v.value != "") ==> r == fallback
  {
    if v.Some? && v.value != "" then v.value else fallback
  }

  /** The token endpoint's reply: a rejected `fetch`, or a status and whether the
      body parses as JSON. */
  datatype TokenReply = NetworkError | TokenReply(status: int, bodyParses: bool)

  /** `exchangeCodeForToken` returns normally. */
  predicate ExchangeSucceeds(t: TokenReply) {
    t.TokenReply? && 200 <= t.status <= 299 && t.bodyParses
  }

  datatype ExchangeRequest = ExchangeRequest(url: string, form: Params.Params, body: string)

  datatype CallbackResponse =
    | CallbackError(status: int, error: string)
    | Redirect(status: int, location: string, setCookies: seq<string>)
    /** An exception outside the `try`: the framework answers with its own error. */
    | Thrown

  /** The five `params.set` calls of `exchangeCodeForToken`. */
  method ExchangeForm(code: string, env: OAuthEnv) returns (form: Params.Params)
    ensures form == ExchangeFormOf(code, env)
  {
    form := [];
    form := Set(form, "grant_type", "authorization_code");
    form := Set(form, "code", code);
    form := Set(form, "client_id", OrElse(env.clientId, ""));
    form := Set(form, "client_secret", OrElse(env.clientSecret, ""));
    form := Set(form, "redirect_uri", OrElse(env.redirectUri, ""));
  }

  /** `params.set(name, value)` for a name not yet set. */
  method Set(p: Params.Params, name: string, value: string) returns (r: Params.Params)
    requires name !in Params.Names(p)
    ensures r == p + [(name, value)]
    ensures Params.Names(r) == Params.Names(p) + [name]
  {
    Params.PutNew(p, name, value);
    r := Params.Put(p, name, value);
  }

  /** The form `exchangeCodeForToken` posts. */
  function ExchangeFormOf(code: string, env: OAuthEnv): Params.Params {
    [("grant_type", "authorization_code"), ("code", code),
     ("client_id", OrElse(env.clientId, "")), ("client_secret", OrElse(env.clientSecret, "")),
     ("redirect_uri", OrElse(env.redirectUri, ""))]
  }

  /** No field of the form is set twice. */
  lemma ExchangeFormUnique(code: string, env: OAuthEnv)
    ensures Params.UniqueNames(ExchangeFormOf(code, env))
  {
    var form := ExchangeFormOf(code, env);
    assert |form[0].0| == 10 && |form[1].0| == 4 && |form[2].0| == 9;
    assert |form[3].0| == 13 && |form[4].0| == 12;
  }

  /** Each form field reads back as the value the code sets. */
  lemma ExchangeFormFields(code: string, env: OAuthEnv)
    ensures var form := ExchangeFormOf(code, env);
      && Params.Lookup(form, "grant_type") == Some("authorization_code")
      && Params.Lookup(form, "code") == Some(code)
      && Params.Lookup(form, "client_id") == Some(OrElse(env.clientId, ""))
      && Params.Lookup(form, "client_secret") == Some(OrElse(env.clientSecret, ""))
      && Params.Lookup(form, "redirect_uri") == Some(OrElse(env.redirectUri, ""))
  {
    var form := ExchangeFormOf(code, env);
    ExchangeFormUnique(code, env);
    Params.LookupAt(form, 0, "grant_type");
    Params.LookupAt(form, 1, "code");
    Params.LookupAt(form, 2, "client_id");
    Params.LookupAt(form, 3, "client_secret");
    Params.LookupAt(form, 4, "redirect_uri");
  }

  /** The `oauth_state` cookie, `''` when it is absent; `None` when decoding it throws. */
  function CookieState(header: Option<string>, decode: string -> Option<string>): (r: Option<string>)
    ensures Cookies.CookieValue(Cookies.HeaderText(header), STATE_COOKIE).None? ==> r == Some("")
  {
    match Cookies.CookieValue(Cookies.HeaderText(header), STATE_COOKIE)
    case None => Some("")
    case Some(raw) => decode(raw)
  }

  /** `!code || !state || !cookieState || state !== cookieState`, negated: the
      request may proceed to the token exchange. */
  predicate StateValid(code: Option<string>, state: Option<string>, cookieState: string) {
    code.Some? && code.value != "" && state.Some? && state.value != ""
    && cookieState != "" && state.value == cookieState
  }

  /** The guard of a response's header list, as the Fetch standard defines it:
      `Response.redirect` creates its response with an "immutable" guard, and a
      response built with a `headers` init has a mutable one. */
  datatype HeadersGuard = Immutable | Mutable

  /** `res.headers.append('Set-Cookie', v)` for each `v` in turn, on top of the values
      already appended; on an immutable header list the first append throws
      `TypeError`, which is `None`. */
  function AppendSetCookies(guard: HeadersGuard, cookies: seq<string>, values: seq<string>): (r: Option<seq<string>>)
    ensures r.None? <==> guard == Immutable && values != []
    ensures r.Some? ==> r.value == cookies + values
    decreases |values|
  {
    if values == [] then Some(cookies)
    else if guard == Immutable then None
    else
      assert cookies + values == (cookies + [values[0]]) + values[1..];
      AppendSetCookies(guard, cookies + [values[0]], values[1..])
  }

  /** The two `Set-Cookie` values the route appends: the session, then the cleared state. */
  const SET_COOKIES := [SessionCookieOf(SESSION_JSON), CLEAR_STATE_COOKIE]

  /** The rest of the `try` block once the exchange succeeded: a 302 to `location`,
      one `append` per cookie value, and the `catch` when an append throws. */
  function RedirectWithCookies(guard: HeadersGuard, location: string, values: seq<string>): (r: CallbackResponse)
    ensures guard == Mutable ==> r == Redirect(302, location, values)
    ensures guard == Immutable && values != [] ==> r == CallbackError(500, CALLBACK_FAILED)
  {
    match AppendSetCookies(guard, [], values)
    case None => CallbackError(500, CALLBACK_FAILED)
    case Some(cookies) => assert [] + values == values; Redirect(302, location, cookies)
  }

  /** The handler, with the guard of the redirect response's headers as a parameter. */
  method Handle(query: Params.Params, header: Option<string>, env: OAuthEnv,
                decode: string -> Option<string>, token: TokenReply, guard: HeadersGuard)
    returns (exchange: Option<ExchangeRequest>, resp: CallbackResponse)
    ensures CookieState(header, decode).None? ==> exchange == None && resp == Thrown
    ensures CookieState(header, decode).Some? ==> (
      var code, state := Params.Lookup(query, "code"), Params.Lookup(query, "state");
      && (exchange.Some? <==> StateValid(code, state, CookieState(header, decode).value))
      && (exchange.None? ==> resp == CallbackError(400, INVALID_STATE))
      && (exchange.Some? ==> exchange.value.url == OrElse(env.tokenUrl, "")
                             && exchange.value.form == ExchangeFormOf(code.value, env)
                             && exchange.value.body == Params.Serialize(exchange.value.form))
      && (exchange.Some? && !ExchangeSucceeds(token) ==> resp == CallbackError(500, CALLBACK_FAILED))
      && (exchange.Some? && ExchangeSucceeds(token) ==> resp == RedirectWithCookies(guard, OrElse(env.publicUrl, "/"), SET_COOKIES)))
  {
    var code := Params.Lookup(query, "code");
    var state := Params.Lookup(query, "state");
    var cookieState := CookieState(header, decode);
    if cookieState.None? {
      return None, Thrown;
    }
    if !StateValid(code, state, cookieState.value) {
      return None, CallbackError(400, INVALID_STATE);
    }
    var form := ExchangeForm(code.value, env);
    exchange := Some(ExchangeRequest(OrElse(env.tokenUrl, ""), form, Params.Serialize(form)));
    if !ExchangeSucceeds(token) {
      return exchange, CallbackError(500, CALLBACK_FAILED);
    }
    resp := RedirectWithCookies(guard, OrElse(env.publicUrl, "/"), SET_COOKIES);
  }

  /** The handler as written: `Response.redirect` gives immutable headers, so the first
      `append` throws inside the `try` and every request that passes the state check
      is answered 500, even when the exchange succeeds. */
  method GetAsWritten(query: Params.Params, header: Option<string>, env: OAuthEnv,
                      decode: string -> Option<string>, token: TokenReply)
    returns (exchange: Option<ExchangeRequest>, resp: CallbackResponse)
    ensures CookieState(header, decode).None? ==> exchange == None && resp == Thrown
    ensures CookieState(header, decode).Some? ==> (
      var code, state := Params.Lookup(query, "code"), Params.Lookup(query, "state");
      && (exchange.Some? <==> StateValid(code, state, CookieState(header, decode).value))
      && (exchange.None? ==> resp == CallbackError(400, INVALID_STATE))
      && (exchange.Some? ==> resp == CallbackError(500, CALLBACK_FAILED)))
    ensures !resp.Redirect?
  {
    exchange, resp := Handle(query, header, env, decode, token, Immutable);
    assert |SET_COOKIES| == 2;
  }

  /** The handler as intended: a redirect whose headers accept the two cookies, so a
      successful exchange sets the session cookie, clears the state cookie and
      redirects to the public URL (`'/'` when unset). The session text whose encoding
      the cookie carries reads back unchanged in the session routes
      (`SessionReachesSessionRoute`). */
  method Get(query: Params.Params, header: Option<string>, env: OAuthEnv,
             decode: string -> Option<string>, token: TokenReply)
    returns (exchange: Option<ExchangeRequest>, resp: CallbackResponse)
    ensures CookieState(header, decode).None? ==> exchange == None && resp == Thrown
    ensures CookieState(header, decode).Some? ==> (
      var code, state := Params.Lookup(query, "code"), Params.Lookup(query, "state");
      && (exchange.Some? <==> StateValid(code, state, CookieState(header, decode).value))
      && (exchange.None? ==> resp == CallbackError(400, INVALID_STATE))
      && (exchange.Some? ==> exchange.value.url == OrElse(env.tokenUrl, "")
                             && exchange.value.form == ExchangeFormOf(code.value, env)
                             && exchange.value.body == Params.Serialize(exchange.value.form))
      && (exchange.Some? && !ExchangeSucceeds(token) ==> resp == CallbackError(500, CALLBACK_FAILED))
      && (exchange.Some? && ExchangeSucceeds(token) ==>
            resp == Redirect(302, OrElse(env.publicUrl, "/"), SET_COOKIES)))
  {
    exchange, resp := Handle(query, header, env, decode, token, Mutable);
  }

  /** A request that shows the difference: its state matches the cookie and the token
      endpoint answers 200 with JSON, so the exchange succeeds. */
  lemma AcceptedRequest()
    ensures var query := [("code", "c"), ("state", "s")];
      var header := Some(STATE_COOKIE + "=s");
      && CookieState(header, s => Some(s)) == Some("s")
      && StateValid(Params.Lookup(query, "code"), Params.Lookup(query, "state"), "s")
      && ExchangeSucceeds(TokenReply(200, true))
  {
    var query := [("code", "c"), ("state", "s")];
    assert Params.Lookup(query, "code") == Some("c");
    assert Params.Lookup(query, "state") == Some("s");
    assert STATE_COOKIE + "=s" == STATE_COOKIE + "=" + "s" + "";
    Cookies.FirstEntry(STATE_COOKIE, "s", "");
  }

  /** Encoding seven pieces one after the other. */
  lemma EncodeSevenPieces(a: string, b: string, c: string, d: string, e: string, f: string, g: string)
    ensures PercentEncoding.EncodeUriComponent(a + b + c + d + e + f + g) ==
      PercentEncoding.EncodeUriComponent(a) + PercentEncoding.EncodeUriComponent(b)
      + PercentEncoding.EncodeUriComponent(c) + PercentEncoding.EncodeUriComponent(d)
      + PercentEncoding.EncodeUriComponent(e) + PercentEncoding.EncodeUriComponent(f)
      + PercentEncoding.EncodeUriComponent(g)
  {
    PercentEncoding.EncodeUriComponentAppend(a, b);
    PercentEncoding.EncodeUriComponentAppend(a + b, c);
    PercentEncoding.EncodeUriComponentAppend(a + b + c, d);
    PercentEncoding.EncodeUriComponentAppend(a + b + c + d, e);
    PercentEncoding.EncodeUriComponentAppend(a + b + c + d + e, f);
    PercentEncoding.EncodeUriComponentAppend(a + b + c + d + e + f, g);
  }

  /** `encodeURIComponent('{"oauth":true}')`: the braces, quotes and colon are escaped,
      the words kept. */
  lemma SessionJsonEncoded()
    ensures PercentEncoding.EncodeUriComponent(SESSION_JSON) ==
      "%7B" + "%22" + "oauth" + "%22" + "%3A" + "true" + "%7D"
  {
    SessionJsonEscapes();
    PercentEncoding.EncodeUriComponentOfUnreserved("oauth");
    PercentEncoding.EncodeUriComponentOfUnreserved("true");
    SessionJsonPieces();
    EncodeSevenPieces("{", "\"", "oauth", "\"", ":", "true", "}");
  }

  /** The four reserved characters of the session text and their escapes. */
  lemma SessionJsonEscapes()
    ensures PercentEncoding.EncodeUriComponent("{") == "%7B"
    ensures PercentEncoding.EncodeUriComponent("\"") == "%22"
    ensures PercentEncoding.EncodeUriComponent(":") == "%3A"
    ensures PercentEncoding.EncodeUriComponent("}") == "%7D"
  {
    PercentEncoding.EncodeReservedAscii('{');
    assert PercentEncoding.HexDigit('{' as int / 16) == '7' && PercentEncoding.HexDigit('{' as int % 16) == 'B';
    PercentEncoding.EncodeReservedAscii('"');
    assert PercentEncoding.HexDigit('"' as int / 16) == '2' && PercentEncoding.HexDigit('"' as int % 16) == '2';
    PercentEncoding.EncodeReservedAscii(':');
    assert PercentEncoding.HexDigit(':' as int / 16) == '3' && PercentEncoding.HexDigit(':' as int % 16) == 'A';
    PercentEncoding.EncodeReservedAscii('}');
    assert PercentEncoding.HexDigit('}' as int / 16) == '7' && PercentEncoding.HexDigit('}' as int % 16) == 'D';
  }

  lemma SessionJsonPieces()
    ensures SESSION_JSON == "{" + "\"" + "oauth" + "\"" + ":" + "true" + "}"
  {
  }

  /** The `Set-Cookie` value for a session text. */
  function SessionCookieOf(json: string): string {
    "session=" + PercentEncoding.EncodeUriComponent(json) + SESSION_ATTRIBUTES
  }

  /** The session routes read back the whole encoded session from the cookie this route
      sets, up to its first attribute. */
  lemma SessionCookieReadsBack(json: string)
    requires json != ""
    ensures Cookies.CookieValue(SessionCookieOf(json), "session") == Some(PercentEncoding.EncodeUriComponent(json))
  {
    var v := PercentEncoding.EncodeUriComponent(json);
    EncodedNonEmpty(json);
    AttributesOpenWithSemicolon();
    assert "session=" == "session" + "=";
    Cookies.FirstEntry("session", v, SESSION_ATTRIBUTES);
  }

  lemma EncodedNonEmpty(json: string)
    requires json != ""
    ensures PercentEncoding.EncodeUriComponent(json) != []
    ensures forall i :: 0 <= i < |PercentEncoding.EncodeUriComponent(json)| ==> PercentEncoding.EncodeUriComponent(json)[i] != ';'
  {
    assert json == [json[0]] + json[1..];
    PercentEncoding.EncodeUriComponentAppend([json[0]], json[1..]);
  }

  lemma AttributesOpenWithSemicolon()
    ensures SESSION_ATTRIBUTES != [] && SESSION_ATTRIBUTES[0] == ';'
  {
  }

  /** The cookie this route sets, sent back to the session route that decodes it with
      `decodeURIComponent`, hands the session text to `JSON.parse` unchanged. */
  lemma SessionReachesSessionRoute(json: string, parse: string -> Option<Json.Json>)
    requires json != ""
    ensures AppSessionRoute.ParsedCookie(Some(SessionCookieOf(json)), AppSessionRoute.SESSION_COOKIE,
                                         PercentDecoding.DecodeUriComponent, parse) == parse(json)
  {
    SessionCookieReadsBack(json);
    PercentDecoding.DecodeEncodeUriComponent(json, false);
  }
}
