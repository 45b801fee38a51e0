/**
 * The request gate in front of the admin screens: which requests pass through
 * and which are redirected to the login page. The hosted auth service is not
 * modelled; what `getUser` and `getSession` answered (or that one of them
 * threw) is an input, and so are the two environment variables and the
 * request's cookies.
 */
module Middleware {
  import opened Wrappers
  import opened Text

  const LoginPath: string := "/greeting/admin/login"
  const AdminPrefix: string := "/greeting/admin"

  /** The request URL; a redirect clones it and replaces only the path. */
  datatype Url = Url(origin: string, pathname: string, search: string, hash: string)

  datatype Cookie = Cookie(name: string, value: string)

  /** The two Supabase settings read from the environment; unset is `None`. */
  datatype Env = Env(supabaseUrl: Option<string>, publishableKey: Option<string>)

  /** What `getUser` and then `getSession` returned: presence of the data and of an error. */
  datatype AuthProbe = AuthProbe(hasUser: bool, userError: bool, hasSession: bool, sessionError: bool)

  datatype Response = Next | Redirect(to: Url)

  /** A cookie the auth library may have written. */
  predicate IsSupabaseCookie(c: Cookie) {
    Contains(c.name, "supabase") || Contains(c.name, "sb-")
  }

  predicate IsAuthTokenName(c: Cookie) {
    Contains(c.name, "auth-token")
  }

  /** A cookie that the gate may pick as the auth-token cookie. */
  predicate TokenCandidate(c: Cookie) {
    IsSupabaseCookie(c) && IsAuthTokenName(c)
  }

  /** `cookies.filter(isSupabaseCookie)` */
  function SupabaseCookies(cookies: seq<Cookie>): (r: seq<Cookie>)
    ensures |r| <= |cookies|
    ensures forall c :: c in r <==> c in cookies && IsSupabaseCookie(c)
  {
    if cookies == [] then []
    else if IsSupabaseCookie(cookies[0]) then [cookies[0]] + SupabaseCookies(cookies[1..])
    else SupabaseCookies(cookies[1..])
  }

  /** `cookies.find(c => c.name.includes('auth-token'))` */
  function FindAuthToken(cookies: seq<Cookie>): (r: Option<Cookie>)
    ensures r.Some? ==> r.value in cookies && IsAuthTokenName(r.value)
    ensures r.None? <==> forall c :: c in cookies ==> !IsAuthTokenName(c)
  {
    if cookies == [] then None
    else if IsAuthTokenName(cookies[0]) then Some(cookies[0])
    else FindAuthToken(cookies[1..])
  }

  function AuthTokenCookie(cookies: seq<Cookie>): Option<Cookie> {
    FindAuthToken(SupabaseCookies(cookies))
  }

  /** The first index holding a token candidate. */
  predicate FirstCandidateAt(cookies: seq<Cookie>, i: int) {
    0 <= i < |cookies| && TokenCandidate(cookies[i])
    && forall j :: 0 <= j < i ==> !TokenCandidate(cookies[j])
  }

  /** Filtering and then finding, one cookie at a time. */
  lemma AuthTokenCookieStep(cookies: seq<Cookie>)
    requires cookies != []
    ensures AuthTokenCookie(cookies) ==
      if TokenCandidate(cookies[0]) then Some(cookies[0]) else AuthTokenCookie(cookies[1..])
  {
  }

  /**
   * Filtering and then finding picks the first cookie of the whole list that
   * is both a Supabase cookie and named like an auth token, and finds nothing
   * exactly when there is no such cookie.
   */
  lemma {:induction false} AuthTokenIsFirstCandidate(cookies: seq<Cookie>)
    ensures AuthTokenCookie(cookies).None? <==> forall i :: 0 <= i < |cookies| ==> !TokenCandidate(cookies[i])
    ensures AuthTokenCookie(cookies).Some? ==>
      exists i :: FirstCandidateAt(cookies, i) && AuthTokenCookie(cookies).value == cookies[i]
    decreases |cookies|
  {
    if cookies != [] {
      var rest := cookies[1..];
      AuthTokenIsFirstCandidate(rest);
      AuthTokenCookieStep(cookies);
      if TokenCandidate(cookies[0]) {
        assert FirstCandidateAt(cookies, 0);
      } else {
        if AuthTokenCookie(rest).Some? {
          var i :| FirstCandidateAt(rest, i) && AuthTokenCookie(rest).value == rest[i];
          assert FirstCandidateAt(cookies, i + 1);
        }
        if forall i :: 0 <= i < |rest| ==> !TokenCandidate(rest[i]) {
          forall i | 0 <= i < |cookies|
            ensures !TokenCandidate(cookies[i])
          {
            if i > 0 {
              assert cookies[i] == rest[i - 1];
            }
          }
        } else {
          var i :| 0 <= i < |rest| && TokenCandidate(rest[i]);
          assert cookies[i + 1] == rest[i];
        }
      }
    }
  }

  /** `!!authTokenCookie && authTokenCookie.value && authTokenCookie.value.length > 0` */
  predicate HasAuthToken(cookies: seq<Cookie>) {
    var t := AuthTokenCookie(cookies);
    t.Some? && t.value.value != ""
  }

  /** The paths the gate checks: the admin prefix, except the login page itself. */
  predicate Gated(pathname: string)
    ensures Gated(pathname) <==> pathname != LoginPath && AdminPrefix <= pathname
  {
    pathname != LoginPath && StartsWith(pathname, AdminPrefix)
  }

  function ToLogin(request: Url): (r: Response)
    ensures r.Redirect? && r.to.pathname == LoginPath
  {
    Redirect(request.(pathname := LoginPath))
  }

  /**
   * The gate's decision. `probe` is `None` when building the auth client,
   * `getUser` or `getSession` threw.
   */
  function Decide(request: Url, env: Env, cookies: seq<Cookie>, probe: Option<AuthProbe>): (r: Response)
    ensures r.Redirect? ==> Gated(request.pathname) && r.to == request.(pathname := LoginPath)
  {
    if request.pathname == LoginPath then Next
    else if !StartsWith(request.pathname, AdminPrefix) then Next
    else if !Present(env.supabaseUrl) || !Present(env.publishableKey) then ToLogin(request)
    else match probe
      case None => ToLogin(request)
      case Some(a) =>
        var token := HasAuthToken(cookies);
        var authenticated := a.hasUser || a.hasSession || token;
        if (a.sessionError || a.userError) && !token then ToLogin(request)
        else if !authenticated then ToLogin(request)
        else Next
  }

  /** The login page is never gated, whatever the rest of the request. */
  lemma LoginPagePasses(request: Url, env: Env, cookies: seq<Cookie>, probe: Option<AuthProbe>)
    requires request.pathname == LoginPath
    ensures Decide(request, env, cookies, probe) == Next
  {
  }

  /** A path outside the admin prefix passes. */
  lemma OutsideAdminPasses(request: Url, env: Env, cookies: seq<Cookie>, probe: Option<AuthProbe>)
    requires !StartsWith(request.pathname, AdminPrefix)
    ensures Decide(request, env, cookies, probe) == Next
  {
  }

  /** The prefix test is a plain string test, so a sibling path is gated too. */
  lemma SiblingPathIsGated()
    ensures Gated("/greeting/administrator")
    ensures !Gated("/greeting/adm")
  {
    assert "/greeting/administrator"[..|AdminPrefix|] == AdminPrefix;
  }

  /** A gated request without both environment variables is sent to login. */
  lemma MissingEnvRedirects(request: Url, env: Env, cookies: seq<Cookie>, probe: Option<AuthProbe>)
    requires Gated(request.pathname)
    requires !Present(env.supabaseUrl) || !Present(env.publishableKey)
    ensures Decide(request, env, cookies, probe) == ToLogin(request)
  {
  }

  /** A gated request whose auth calls threw is sent to login. */
  lemma ExceptionRedirects(request: Url, env: Env, cookies: seq<Cookie>)
    requires Gated(request.pathname)
    ensures Decide(request, env, cookies, None) == ToLogin(request)
  {
  }

  /**
   * With the environment set, a gated request passes exactly when the auth
   * calls returned and either a non-empty auth-token cookie is present, or a
   * user or session came back with no error from either call.
   */
  lemma AccessIff(request: Url, env: Env, cookies: seq<Cookie>, probe: Option<AuthProbe>)
    requires Gated(request.pathname)
    requires Present(env.supabaseUrl) && Present(env.publishableKey)
    ensures Decide(request, env, cookies, probe) == Next <==>
      probe.Some? &&
      (HasAuthToken(cookies) ||
       ((probe.value.hasUser || probe.value.hasSession) && !probe.value.userError && !probe.value.sessionError))
  {
  }

  /** The cookie fallback: a non-empty auth-token cookie passes even when both calls report errors. */
  lemma TokenAloneGrants(request: Url, env: Env, cookies: seq<Cookie>, a: AuthProbe)
    requires Present(env.supabaseUrl) && Present(env.publishableKey)
    requires HasAuthToken(cookies)
    ensures Decide(request, env, cookies, Some(a)) == Next
  {
  }

  /**
   * The routes the middleware is registered for (`/greeting/admin/:path*`):
   * the admin root and every path below it.
   */
  predicate MatcherCovers(pathname: string) {
    pathname == AdminPrefix || StartsWith(pathname, AdminPrefix + "/")
  }

  /** What a request meets: the gate when the matcher covers its path, otherwise nothing. */
  function Route(request: Url, env: Env, cookies: seq<Cookie>, probe: Option<AuthProbe>): (r: Response)
    ensures r.Redirect? ==> MatcherCovers(request.pathname) && request.pathname != LoginPath
    ensures r.Redirect? ==> r.to == request.(pathname := LoginPath)
  {
    if MatcherCovers(request.pathname) then
      Decide(request, env, cookies, probe)
    else Next
  }

  /**
   * Every path the matcher covers, except the login page, is gated; a sibling
   * such as `/greeting/administrator` is not covered, so it never reaches
   * the prefix test that would gate it.
   */
  lemma {:induction false} MatcherWithinGate(pathname: string)
    ensures MatcherCovers(pathname) && pathname != LoginPath ==> Gated(pathname)
    ensures !MatcherCovers("/greeting/administrator")
  {
    if MatcherCovers(pathname) && pathname != AdminPrefix {
      assert pathname[..|AdminPrefix|] == (AdminPrefix + "/")[..|AdminPrefix|];
    }
    var s := "/greeting/administrator";
    assert s[|AdminPrefix|] != (AdminPrefix + "/")[|AdminPrefix|];
  }
}
