/**
 * The interceptor itself: `CloudflareKiller` with its `savedCookies` cache as
 * a field, each of its methods proved to follow the functions of module Bypass.
 */
module Killer {
  import opened Wrappers
  import opened Text
  import opened CookieParser
  import opened Http
  import opened Bypass

  class CloudflareKiller {
    /** Host -> the cookies with which that host's challenge was passed. */
    var savedCookies: Cache

    /** A fresh interceptor knows no host. */
    constructor()
      ensures savedCookies == map[]
    {
      savedCookies := map[];
    }

    /**
     * `trySolveWithSavedCookies`: `ambient` is what the platform's cookie store
     * holds for the request's URL. Reports whether it carries the marker and,
     * if so, caches its parse for the request's host; nothing else changes.
     */
    method TrySolveWithSavedCookies(request: Request, ambient: Option<string>) returns (solved: bool)
      modifies this
      ensures solved <==> ambient.Some? && Contains(ambient.value, Marker)
      ensures solved ==> savedCookies == old(savedCookies)[request.host := ParseCookieMap(ambient.value)]
      ensures !solved ==> savedCookies == old(savedCookies)
      ensures savedCookies == AfterCheck(old(savedCookies), request.host, ambient)
    {
      match ambient
      case None =>
        solved := false;
      case Some(cookie) =>
        solved := Contains(cookie, Marker);
        if solved {
          savedCookies := savedCookies[request.host := ParseCookieMap(cookie)];
        }
    }

    /**
     * `proceed`: sends the request through the base client with the WebView's
     * user agent (when it reports one) and the cookies `cookies + request.cookies`.
     * What the sent request holds, entry by entry, is stated by `Http.RebuildSpec`.
     */
    method Proceed(request: Request, cookies: CookieMap, userAgent: Option<string>) returns (response: Response)
      ensures response == Fetched(Rebuild(request, cookies, userAgent))
    {
      var agent: map<string, string> := map[];
      if userAgent.Some? {
        agent := map[UserAgentHeader := userAgent.value];
      }
      var headers := request.headers + agent;
      response := Fetched(request.(headers := headers, cookies := cookies + request.cookies));
    }

    /**
     * `bypassCloudflare`: the fast-path check, then, only if it fails, one
     * check per sub-request the WebView navigation reports; afterwards the
     * request is sent with the host's cached cookies, or `None` is returned
     * when the host is still not cached.
     */
    method BypassCloudflare(request: Request, env: Environment) returns (response: Option<Response>, webViewStarted: bool)
      modifies this
      ensures BypassOutcome(old(savedCookies), request, env) == BypassResult(response, savedCookies)
      ensures webViewStarted <==> !Clears(env.ambient)
    {
      var solved := TrySolveWithSavedCookies(request, env.ambient);
      webViewStarted := !solved;
      assert savedCookies == AfterChecks(old(savedCookies), request.host, [env.ambient]) by {
        assert [env.ambient][..0] == [];
      }
      if !solved {
        var i := 0;
        while i < |env.webView|
          invariant 0 <= i <= |env.webView|
          invariant savedCookies == AfterChecks(old(savedCookies), request.host, [env.ambient] + env.webView[..i])
        {
          AfterChecksSnoc(old(savedCookies), request.host, [env.ambient] + env.webView[..i], env.webView[i]);
          assert [env.ambient] + env.webView[..i] + [env.webView[i]] == [env.ambient] + env.webView[..i + 1];
          // The callback's answer goes back to the WebView engine, which decides
          // whether to stop; the sub-requests it reports are already in `env`.
          var _ := TrySolveWithSavedCookies(request, env.webView[i]);
          i := i + 1;
        }
        assert env.webView[..i] == env.webView;
      }
      if request.host in savedCookies {
        var sent := Proceed(request, savedCookies[request.host], env.userAgent);
        response := Some(sent);
      } else {
        response := None;
      }
    }

    /**
     * `intercept`: a cached host goes straight to `proceed`; otherwise the
     * bypass is attempted and, when it fails, the original request is passed
     * down the chain unmodified. The cache stays well-formed.
     */
    method Intercept(request: Request, env: Environment) returns (response: Response, webViewStarted: bool)
      modifies this
      ensures InterceptOutcome(old(savedCookies), request, env) == Outcome(response, savedCookies, webViewStarted)
      ensures CacheWellFormed(old(savedCookies)) ==> CacheWellFormed(savedCookies)
    {
      InterceptFrame(savedCookies, request, env);
      var cookies := if request.host in savedCookies then Some(savedCookies[request.host]) else None;
      if cookies.Some? {
        response := Proceed(request, cookies.value, env.userAgent);
        webViewStarted := false;
      } else {
        var bypassed;
        bypassed, webViewStarted := BypassCloudflare(request, env);
        if bypassed.Some? {
          response := bypassed.value;
        } else {
          response := Forwarded(request);
        }
      }
    }
  }
}
