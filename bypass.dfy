/**
 * What one call of `CloudflareKiller.intercept` does to the cookie cache and
 * which response it returns, written as functions of the cache before the
 * call and of what the platform's cookie store reports during it; the class
 * in module Killer is proved to follow these functions.
 */
module Bypass {
  import opened Wrappers
  import opened Text
  import opened CookieParser
  import opened Http

  /** `savedCookies`: host -> the cookies parsed from the store when that host was solved. */
  type Cache = map<string, CookieMap>

  /** The cookie whose presence says the challenge has been passed (line 57). */
  const Marker: string := "cf_clearance"

  /**
   * What the interceptor cannot see from its own state during one call: the
   * store's cookie for the URL at the fast-path check, what the store reports
   * at each sub-request of the WebView navigation (one entry per callback, in
   * order), and the user agent the WebView reports to `proceed`.
   */
  datatype Environment = Environment(
    ambient: Option<string>,
    webView: seq<Option<string>>,
    userAgent: Option<string>)

  /** The check of `trySolveWithSavedCookies`: the store has a cookie for the URL and it mentions the marker. */
  predicate Clears(ambient: Option<string>) {
    ambient.Some? && Contains(ambient.value, Marker)
  }

  /** The cache after one `trySolveWithSavedCookies`: on a clearing cookie the host's entry is (re)written. */
  function AfterCheck(saved: Cache, host: string, ambient: Option<string>): (cache: Cache) {
    if Clears(ambient) then saved[host := ParseCookieMap(ambient.value)] else saved
  }

  /** The cache after a series of checks for `host`, in order. */
  function AfterChecks(saved: Cache, host: string, checks: seq<Option<string>>): (cache: Cache) {
    if checks == [] then saved
    else AfterCheck(AfterChecks(saved, host, checks[..|checks| - 1]), host, checks[|checks| - 1])
  }

  /**
   * The checks `bypassCloudflare` makes: the fast-path check, and only when it
   * fails, one check per sub-request of the WebView navigation.
   */
  function Checks(env: Environment): (checks: seq<Option<string>>) {
    if Clears(env.ambient) then [env.ambient] else [env.ambient] + env.webView
  }

  /** Index `i` holds the last check of `checks` that clears. */
  predicate LastClearing(checks: seq<Option<string>>, i: int) {
    0 <= i < |checks| && Clears(checks[i]) && forall j :: i < j < |checks| ==> !Clears(checks[j])
  }

  /** Every cached cookie name and value is well-formed. */
  predicate CacheWellFormed(cache: Cache) {
    forall h, k :: h in cache && k in cache[h] ==> WellFormed(k) && WellFormed(cache[h][k])
  }

  /** What `bypassCloudflare` returns and the cache it leaves behind. */
  datatype BypassResult = BypassResult(response: Option<Response>, cache: Cache)

  /**
   * `bypassCloudflare(request)`: run the checks, then send the request
   * rebuilt with the host's cached cookies, or report failure (`null`) when
   * the host is still not cached.
   */
  function BypassOutcome(saved: Cache, request: Request, env: Environment): (result: BypassResult) {
    var cache := AfterChecks(saved, request.host, Checks(env));
    if request.host in cache then BypassResult(Some(Fetched(Rebuild(request, cache[request.host], env.userAgent))), cache)
    else BypassResult(None, cache)
  }

  /** What one `intercept` call returns, the cache after it, and whether it opened the WebView. */
  datatype Outcome = Outcome(response: Response, cache: Cache, webViewStarted: bool)

  /**
   * `intercept(chain)`: a cached host is sent with its cached cookies; otherwise
   * the bypass is attempted and, when it reports failure, the original request
   * goes on down the chain untouched.
   */
  function InterceptOutcome(saved: Cache, request: Request, env: Environment): (out: Outcome) {
    if request.host in saved then Outcome(Fetched(Rebuild(request, saved[request.host], env.userAgent)), saved, false)
    else
      var bypass := BypassOutcome(saved, request, env);
      var started := !Clears(env.ambient);
      if bypass.response.Some? then Outcome(bypass.response.value, bypass.cache, started)
      else Outcome(Forwarded(request), bypass.cache, started)
  }

  // ---- The checks and the cache ----

  /** The loop step: one more check extends the series by one `AfterCheck`. */
  lemma AfterChecksSnoc(saved: Cache, host: string, checks: seq<Option<string>>, check: Option<string>)
    ensures AfterChecks(saved, host, checks + [check]) == AfterCheck(AfterChecks(saved, host, checks), host, check)
  {
    assert (checks + [check])[..|checks|] == checks;
  }

  /**
   * The checks touch only `host`'s entry; no entry is ever removed; `host` is
   * cached afterwards exactly when it was before or some check cleared.
   */
  lemma {:induction false} AfterChecksFrame(saved: Cache, host: string, checks: seq<Option<string>>)
    ensures forall h :: h != host ==> (h in AfterChecks(saved, host, checks) <==> h in saved)
    ensures forall h :: h != host && h in saved ==> AfterChecks(saved, host, checks)[h] == saved[h]
    ensures host in AfterChecks(saved, host, checks) <==> host in saved || exists i :: 0 <= i < |checks| && Clears(checks[i])
  {
    if checks != [] {
      var init := checks[..|checks| - 1];
      AfterChecksFrame(saved, host, init);
      assert forall i :: 0 <= i < |init| ==> init[i] == checks[i];
      if exists i :: 0 <= i < |checks| && Clears(checks[i]) {
        var i :| 0 <= i < |checks| && Clears(checks[i]);
        if i < |init| {
          assert Clears(init[i]);
        }
      }
    }
  }

  /** With no clearing check the cache is unchanged. */
  lemma {:induction false} AfterChecksNoneClear(saved: Cache, host: string, checks: seq<Option<string>>)
    requires forall i :: 0 <= i < |checks| ==> !Clears(checks[i])
    ensures AfterChecks(saved, host, checks) == saved
  {
    if checks != [] {
      AfterChecksNoneClear(saved, host, checks[..|checks| - 1]);
    }
  }

  /** After the checks, `host` holds the parse of the last clearing check: later solves overwrite earlier ones. */
  lemma {:induction false} AfterChecksLast(saved: Cache, host: string, checks: seq<Option<string>>, i: int)
    requires LastClearing(checks, i)
    ensures host in AfterChecks(saved, host, checks)
    ensures AfterChecks(saved, host, checks)[host] == ParseCookieMap(checks[i].value)
  {
    var init := checks[..|checks| - 1];
    if i < |checks| - 1 {
      assert LastClearing(init, i);
      AfterChecksLast(saved, host, init, i);
    }
  }

  /** A clearing check leaves a last clearing check. */
  lemma {:induction false} LastClearingExists(checks: seq<Option<string>>, i: int)
    requires 0 <= i < |checks| && Clears(checks[i])
    ensures exists j :: LastClearing(checks, j)
    decreases |checks| - i
  {
    if !LastClearing(checks, i) {
      var j :| i < j < |checks| && Clears(checks[j]);
      LastClearingExists(checks, j);
    }
  }

  /** The checks keep the cache well-formed, since every entry they write is a parse. */
  lemma {:induction false} AfterChecksWellFormed(saved: Cache, host: string, checks: seq<Option<string>>)
    requires CacheWellFormed(saved)
    ensures CacheWellFormed(AfterChecks(saved, host, checks))
  {
    if checks != [] {
      var init := checks[..|checks| - 1];
      AfterChecksWellFormed(saved, host, init);
      var last := checks[|checks| - 1];
      if Clears(last) {
        ParseCookieMapWellFormed(last.value);
      }
    }
  }

  // ---- One intercept call ----

  /** A cached host: the request goes out with the cached cookies, no bypass runs and the cache is unchanged. */
  lemma InterceptHit(saved: Cache, request: Request, env: Environment)
    requires request.host in saved
    ensures InterceptOutcome(saved, request, env) ==
      Outcome(Fetched(Rebuild(request, saved[request.host], env.userAgent)), saved, false)
  {
  }

  /** An uncached host that no check clears: the original request goes on unmodified and the cache is unchanged. */
  lemma InterceptNoSolve(saved: Cache, request: Request, env: Environment)
    requires request.host !in saved
    requires forall i :: 0 <= i < |Checks(env)| ==> !Clears(Checks(env)[i])
    ensures InterceptOutcome(saved, request, env) == Outcome(Forwarded(request), saved, !Clears(env.ambient))
  {
    AfterChecksNoneClear(saved, request.host, Checks(env));
  }

  /**
   * An uncached host with a clearing check: the host is cached with the parse
   * of the last clearing cookie and the request goes out rebuilt with it.
   */
  lemma InterceptSolved(saved: Cache, request: Request, env: Environment, i: int)
    requires request.host !in saved && LastClearing(Checks(env), i)
    ensures var cookies := ParseCookieMap(Checks(env)[i].value);
      InterceptOutcome(saved, request, env) ==
        Outcome(Fetched(Rebuild(request, cookies, env.userAgent)), saved[request.host := cookies], !Clears(env.ambient))
  {
    var host := request.host;
    var checks := Checks(env);
    AfterChecksFrame(saved, host, checks);
    AfterChecksLast(saved, host, checks, i);
    var cache := AfterChecks(saved, host, checks);
    assert cache == saved[host := cache[host]];
  }

  /**
   * An uncached host is passed through unmodified exactly when no check of the
   * store clears, and the WebView is opened exactly when the fast path fails.
   */
  lemma InterceptMiss(saved: Cache, request: Request, env: Environment)
    requires request.host !in saved
    ensures InterceptOutcome(saved, request, env).webViewStarted == !Clears(env.ambient)
    ensures InterceptOutcome(saved, request, env).response == Forwarded(request) <==>
      forall i :: 0 <= i < |Checks(env)| ==> !Clears(Checks(env)[i])
  {
    var checks := Checks(env);
    if forall i :: 0 <= i < |checks| ==> !Clears(checks[i]) {
      InterceptNoSolve(saved, request, env);
    } else {
      var i :| 0 <= i < |checks| && Clears(checks[i]);
      LastClearingExists(checks, i);
      var j :| LastClearing(checks, j);
      InterceptSolved(saved, request, env, j);
    }
  }

  /** The fast path: a clearing cookie already in the store is parsed and cached, and no WebView is opened. */
  lemma InterceptFastPath(saved: Cache, request: Request, env: Environment)
    requires request.host !in saved && Clears(env.ambient)
    ensures var cookies := ParseCookieMap(env.ambient.value);
      InterceptOutcome(saved, request, env) ==
        Outcome(Fetched(Rebuild(request, cookies, env.userAgent)), saved[request.host := cookies], false)
  {
    assert LastClearing(Checks(env), 0);
    InterceptSolved(saved, request, env, 0);
  }

  /**
   * Every call leaves other hosts' entries alone, removes nothing, never
   * changes an entry that was already there, and keeps the cache well-formed.
   */
  lemma InterceptFrame(saved: Cache, request: Request, env: Environment)
    ensures var cache := InterceptOutcome(saved, request, env).cache;
      (forall h :: h in saved ==> h in cache && cache[h] == saved[h]) &&
      (forall h :: h != request.host ==> (h in cache <==> h in saved))
    ensures CacheWellFormed(saved) ==> CacheWellFormed(InterceptOutcome(saved, request, env).cache)
  {
    AfterChecksFrame(saved, request.host, Checks(env));
    if CacheWellFormed(saved) {
      AfterChecksWellFormed(saved, request.host, Checks(env));
    }
  }

  // ---- A sequence of intercept calls ----

  /** The cache after a series of `intercept` calls, each with its own request and environment. */
  function Run(saved: Cache, calls: seq<(Request, Environment)>): (cache: Cache)
    decreases |calls|
  {
    if calls == [] then saved
    else Run(InterceptOutcome(saved, calls[0].0, calls[0].1).cache, calls[1..])
  }

  /** Once cached, an entry stays in the cache unchanged for every later call. */
  lemma {:induction false} RunKeeps(saved: Cache, calls: seq<(Request, Environment)>, host: string)
    requires host in saved
    ensures host in Run(saved, calls) && Run(saved, calls)[host] == saved[host]
    decreases |calls|
  {
    if calls != [] {
      InterceptFrame(saved, calls[0].0, calls[0].1);
      RunKeeps(InterceptOutcome(saved, calls[0].0, calls[0].1).cache, calls[1..], host);
    }
  }

  /**
   * After a successful solve, every later request to the same host is a
   * cache hit with the cookies of that solve: the WebView is never opened
   * again for it and its cookies are never refreshed.
   */
  lemma SolvedStaysHit(saved: Cache, calls: seq<(Request, Environment)>, request: Request, env: Environment)
    requires request.host in saved
    ensures InterceptOutcome(Run(saved, calls), request, env) ==
      Outcome(Fetched(Rebuild(request, saved[request.host], env.userAgent)), Run(saved, calls), false)
  {
    RunKeeps(saved, calls, request.host);
  }

  /** A run keeps a well-formed cache well-formed. */
  lemma {:induction false} RunWellFormed(saved: Cache, calls: seq<(Request, Environment)>)
    requires CacheWellFormed(saved)
    ensures CacheWellFormed(Run(saved, calls))
    decreases |calls|
  {
    if calls != [] {
      InterceptFrame(saved, calls[0].0, calls[0].1);
      RunWellFormed(InterceptOutcome(saved, calls[0].0, calls[0].1).cache, calls[1..]);
    }
  }
}
