/**
 * End-to-end runs of one `intercept` call: a host whose challenge is already
 * passed in the platform's cookie store, a host that stays blocked, and a
 * store whose marker cookie has no value.
 */
module BypassExamples {
  import opened Wrappers
  import opened Text
  import opened CookieParser
  import opened CookieExamples
  import opened Http
  import opened Bypass

  /** A cookie string that starts with the marker clears the check. */
  lemma ClearsWhenStarting(rest: string)
    ensures Clears(Some(Marker + rest))
  {
    var cookie := Marker + rest;
    assert cookie[0..|Marker|] == Marker;
    assert OccursAt(cookie, Marker, 0);
    ContainsSpec(cookie, Marker);
  }

  /** The store's cookie for site.example. */
  lemma SiteCookieClears()
    ensures Clears(Some("cf_clearance" + "=" + "abc" + "; " + "other" + "=" + "1"))
  {
    ClearsWhenStarting("=" + "abc" + "; " + "other" + "=" + "1");
    assert Marker + ("=" + "abc" + "; " + "other" + "=" + "1") == "cf_clearance" + "=" + "abc" + "; " + "other" + "=" + "1";
  }

  /**
   * site.example, not yet cached, with the store already holding
   * `cf_clearance=abc; other=1`: the fast path is taken (no WebView), the
   * cache gains {cf_clearance: abc, other: 1} for the host, and the request
   * goes out carrying both cookies.
   */
  lemma SiteExample(request: Request, env: Environment)
    requires request.host == "site.example" && request.cookies == map[]
    requires env.ambient == Some("cf_clearance" + "=" + "abc" + "; " + "other" + "=" + "1")
    ensures var solved := map["cf_clearance" := "abc", "other" := "1"];
      var out := InterceptOutcome(map[], request, env);
      out == Outcome(Fetched(Rebuild(request, solved, env.userAgent)), map["site.example" := solved], false) &&
      out.response.request.cookies == solved
  {
    SiteCookieClears();
    ParseClearance();
    InterceptFastPath(map[], request, env);
    RebuildSpec(request, map["cf_clearance" := "abc", "other" := "1"], env.userAgent);
  }

  /** A cookie shorter than the marker cannot contain it. */
  lemma ShortCookieDoesNotClear(cookie: string)
    requires |cookie| < |Marker|
    ensures !Clears(Some(cookie))
  {
  }

  /**
   * blocked.example, not cached, with an empty store at the fast-path check
   * and no marker at any sub-request of the navigation: the WebView is opened,
   * the bypass fails, the original request is passed on unchanged and nothing
   * is cached.
   */
  lemma BlockedExample(request: Request, env: Environment)
    requires request.host == "blocked.example"
    requires env.ambient == None
    requires forall i :: 0 <= i < |env.webView| ==> !Clears(env.webView[i])
    ensures InterceptOutcome(map[], request, env) == Outcome(Forwarded(request), map[], true)
  {
    assert Checks(env) == [None] + env.webView;
    InterceptNoSolve(map[], request, env);
  }

  /** One such navigation: a sub-request before any cookie is set, then one that sets only `session=1`. */
  lemma BlockedNavigation(request: Request, env: Environment)
    requires request.host == "blocked.example"
    requires env.ambient == None && env.webView == [None, Some("session=1")]
    ensures InterceptOutcome(map[], request, env) == Outcome(Forwarded(request), map[], true)
  {
    ShortCookieDoesNotClear("session=1");
    BlockedExample(request, env);
  }

  /**
   * The marker check is a substring test on the raw string, not a look-up of
   * a parsed cookie: a store holding only `cf_clearance=` counts as solved,
   * yet its parse is empty, so the host is cached with no cookies at all
   * and, as every later call is a cache hit, stays that way.
   */
  lemma BlankMarkerCachesNothing(saved: Cache, request: Request, env: Environment)
    requires request.host !in saved
    requires env.ambient == Some("cf_clearance" + "=")
    ensures InterceptOutcome(saved, request, env) ==
      Outcome(Fetched(Rebuild(request, map[], env.userAgent)), saved[request.host := map[]], false)
  {
    ClearsWhenStarting("=");
    assert Marker + "=" == "cf_clearance" + "=";
    ParseBlankValue("cf_clearance");
    InterceptFastPath(saved, request, env);
  }
}
