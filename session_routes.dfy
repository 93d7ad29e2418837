/** `GET /api/auth/session` of the root app: the `session` cookie, URI-decoded and
    JSON-parsed, shaped into five profile fields. `decodeURIComponent` and `JSON.parse`
    are given as partial functions: `None` is the exception they throw. */
module AppSessionRoute {
  import opened Wrappers
  import opened Json
  import Cookies

  const SESSION_COOKIE := "session"

  datatype SessionBody =
    | NotAuthenticated
    | Authenticated(fid: Option<Json>, address: Option<Json>, displayName: Option<Json>,
                    username: Option<Json>, avatar: Option<Json>)

  /** The parsed cookie value, or `None` when there is no match or decoding or parsing
      throws. */
  function ParsedCookie(header: Option<string>, name: string,
                        decode: string -> Option<string>, parse: string -> Option<Json>): Option<Json> {
    match Cookies.CookieValue(Cookies.HeaderText(header), name)
    case None => None
    case Some(raw) =>
      match decode(raw)
      case None => None
      case Some(text) => parse(text)
  }

  /** The handler. Reading a field of a parsed `null` throws inside the `try`, so it
      answers like a parse failure; any other value gives its own fields, absent ones
      as `undefined`. */
  function Get(header: Option<string>, decode: string -> Option<string>, parse: string -> Option<Json>): (r: SessionBody)
    ensures var v := Cookies.CookieValue(Cookies.HeaderText(header), SESSION_COOKIE);
      v.None? ==> r == NotAuthenticated
    ensures var p := ParsedCookie(header, SESSION_COOKIE, decode, parse);
      r.Authenticated? <==> p.Some? && p.value != JNull
    ensures r.Authenticated? ==> var p := ParsedCookie(header, SESSION_COOKIE, decode, parse);
      && r.fid == Field(p, "fid") && r.address == Field(p, "address")
      && r.displayName == Field(p, "displayName") && r.username == Field(p, "username")
      && r.avatar == Field(p, "avatar")
  {
    var p := ParsedCookie(header, SESSION_COOKIE, decode, parse);
    if IsNullish(p) then NotAuthenticated
    else Authenticated(Field(p, "fid"), Field(p, "address"), Field(p, "displayName"),
                       Field(p, "username"), Field(p, "avatar"))
  }

  /** Without a `Cookie` header nobody is authenticated. */
  lemma NoHeaderNoSession(decode: string -> Option<string>, parse: string -> Option<Json>)
    ensures Get(None, decode, parse) == NotAuthenticated
  {
    assert Cookies.HeaderText(None) == "";
    assert forall q: nat :: !Cookies.MatchesAt("", SESSION_COOKIE, q);
  }

  /** Only the five profile fields reach the response: two parsed objects that agree
      on them, whatever else they hold, give the same answer. */
  lemma OnlyProfileFields(header: Option<string>, decode: string -> Option<string>,
                          parse1: string -> Option<Json>, parse2: string -> Option<Json>)
    requires var p1, p2 := ParsedCookie(header, SESSION_COOKIE, decode, parse1),
                           ParsedCookie(header, SESSION_COOKIE, decode, parse2);
      && p1.Some? && p1.value.JObject? && p2.Some? && p2.value.JObject?
      && forall key :: key in {"fid", "address", "displayName", "username", "avatar"} ==> Field(p1, key) == Field(p2, key)
    ensures Get(header, decode, parse1) == Get(header, decode, parse2)
  {
  }
}

/** `GET /api/auth/session` of the mini app: the same cookie chain, returning the whole
    parsed value. */
module MinikitSessionRoute {
  import opened Wrappers
  import opened Json
  import Cookies
  import AppSessionRoute

  datatype SessionBody =
    | NotAuthenticated
    | Authenticated(session: Json)

  /** The handler: any parsed value, `null` included, is returned unchanged. */
  function Get(header: Option<string>, decode: string -> Option<string>, parse: string -> Option<Json>): (r: SessionBody)
    ensures var p := AppSessionRoute.ParsedCookie(header, AppSessionRoute.SESSION_COOKIE, decode, parse);
      && (r.Authenticated? <==> p.Some?)
      && (r.Authenticated? ==> r.session == p.value)
  {
    match AppSessionRoute.ParsedCookie(header, AppSessionRoute.SESSION_COOKIE, decode, parse)
    case None => NotAuthenticated
    case Some(session) => Authenticated(session)
  }

  /** The two session routes agree on who is authenticated, except for a cookie that
      parses to `null`, which only the mini app accepts. */
  lemma RoutesAgree(header: Option<string>, decode: string -> Option<string>, parse: string -> Option<Json>)
    ensures var p := AppSessionRoute.ParsedCookie(header, AppSessionRoute.SESSION_COOKIE, decode, parse);
      Get(header, decode, parse).Authenticated? ==
        (AppSessionRoute.Get(header, decode, parse).Authenticated? || p == Some(JNull))
  {
  }
}
