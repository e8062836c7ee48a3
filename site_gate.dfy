/** The password gate of the web app: the middleware of web/src/middleware.ts, which decides
    for every request whether it passes, and the login route of
    web/src/app/api/login/route.ts, whose POST sets and whose DELETE removes the `ih-auth`
    cookie the middleware looks for. The cookie store is the state they share. */
module SiteGate {
  import opened Text
  import opened Env

  const CookieName := "ih-auth"
  const CookieValue := "authenticated"
  /** 30 days, in seconds. */
  const MaxAge: int := 60 * 60 * 24 * 30

  const PublicRoutes: seq<string> := ["/", "/login", "/api/login"]

  datatype Cookie = Cookie(value: string, httpOnly: bool, secure: bool, sameSite: string, maxAge: int, path: string)

  /** What the middleware does with a request. */
  datatype Outcome = Next | Unauthorized | RedirectToLogin

  /** Exactly the three public routes, and anything under the `/_next` or `/favicon` prefixes. */
  predicate IsPublic(pathname: string)
  {
    pathname in PublicRoutes || StartsWith(pathname, "/_next") || StartsWith(pathname, "/favicon")
  }

  predicate HasAuthCookie(jar: map<string, Cookie>)
  {
    CookieName in jar && jar[CookieName].value == CookieValue
  }

  /** middleware: public paths and requests carrying the auth cookie pass; any other API path
      gets 401, any other page a redirect to the login page. */
  function Middleware(pathname: string, jar: map<string, Cookie>): (o: Outcome)
    ensures o.Next? <==> IsPublic(pathname) || HasAuthCookie(jar)
    ensures o.Unauthorized? <==> !IsPublic(pathname) && !HasAuthCookie(jar) && StartsWith(pathname, "/api/")
    ensures o.RedirectToLogin? <==> !IsPublic(pathname) && !HasAuthCookie(jar) && !StartsWith(pathname, "/api/")
  {
    if IsPublic(pathname) then Next
    else if !HasAuthCookie(jar) then
      if StartsWith(pathname, "/api/") then Unauthorized else RedirectToLogin
    else Next
  }

  /** The public routes match exactly: "/login/" is not one of them. */
  lemma PublicRoutesAreExact()
    ensures IsPublic("/") && IsPublic("/login") && IsPublic("/api/login")
    ensures !IsPublic("/login/") && !IsPublic("/dashboard")
    ensures IsPublic("/_next/static/app.js") && IsPublic("/favicon.ico")
  {
    assert "/login/" != "/" && "/login/" != "/login" && "/login/" != "/api/login";
    assert "/login/"[1] != "_next"[0] && "/login/"[1] != "favicon"[0];
    assert "/dashboard"[1] != '_' && "/dashboard"[1] != 'f';
    assert "/dashboard" != "/" && |"/dashboard"| != |"/login"| && "/dashboard"[1] != "/api/login"[1];
    assert "/_next/static/app.js"[..6] == "/_next";
    assert "/favicon.ico"[..8] == "/favicon";
  }

  /** The cookie the login route sets; `secure` only in production. */
  function AuthCookie(production: bool): (c: Cookie)
    ensures c.value == CookieValue && c.maxAge == 30 * 24 * 60 * 60
  {
    Cookie(CookieValue, true, production, "lax", MaxAge, "/")
  }

  /** The login route's reply. */
  datatype LoginReply = Success | Error(status: int, message: string)

  /** The browser's cookie store for the site. */
  class CookieStore {
    var jar: map<string, Cookie>

    constructor ()
      ensures jar == map[]
    {
      jar := map[];
    }

    /** POST /api/login. `body` is the parsed JSON body, None when it does not parse (or is
        null); its `password` field is None when absent or not a string. */
    method Login(body: Option<Option<string>>, env: Option<string>, production: bool) returns (r: LoginReply)
      modifies this
      ensures body.None? ==> r == Error(400, "Invalid request") && jar == old(jar)
      ensures body.Some? && body.value == Some(Password(env)) ==>
        r == Success && jar == old(jar)[CookieName := AuthCookie(production)]
      ensures body.Some? && body.value != Some(Password(env)) ==>
        r == Error(401, "Wrong password") && jar == old(jar)
    {
      if body.None? {
        return Error(400, "Invalid request");
      }
      var correct := Password(env);
      if body.value == Some(correct) {
        jar := jar[CookieName := AuthCookie(production)];
        return Success;
      }
      r := Error(401, "Wrong password");
    }

    /** DELETE /api/login. */
    method Logout() returns (r: LoginReply)
      modifies this
      ensures r == Success && jar == old(jar) - {CookieName}
    {
      jar := jar - {CookieName};
      r := Success;
    }
  }

  /** After a successful login every path passes. */
  lemma LoginOpensEverything(jar: map<string, Cookie>, production: bool, pathname: string)
    ensures Middleware(pathname, jar[CookieName := AuthCookie(production)]).Next?
  {
  }

  /** After a logout only the public paths pass: API paths get 401, pages the login redirect. */
  lemma LogoutClosesProtected(jar: map<string, Cookie>, pathname: string)
    requires !IsPublic(pathname)
    ensures var o := Middleware(pathname, jar - {CookieName});
      && !o.Next?
      && (StartsWith(pathname, "/api/") ==> o.Unauthorized?)
  {
  }

  /** The cookie must say exactly "authenticated": any other value is treated like no cookie. */
  lemma CookieValueIsExact(jar: map<string, Cookie>, pathname: string, c: Cookie)
    requires c.value != CookieValue
    ensures Middleware(pathname, jar[CookieName := c]) == Middleware(pathname, jar - {CookieName})
  {
  }
}
