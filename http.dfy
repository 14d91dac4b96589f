/**
 * The slice of OkHttp that `CloudflareKiller` touches: the outgoing request,
 * the response handed back to the interceptor chain, and the rebuilding of a
 * request in `proceed` (CloudflareKiller.kt, lines 63-75).
 */
module Http {
  import opened Wrappers
  import opened CookieParser

  /**
   * An outgoing request: where it goes, how, its headers and the cookies the
   * caller attached. `headers` stands for `request.headers.toMap()`, one value
   * per name.
   */
  datatype Request = Request(
    url: string,
    host: string,
    verb: string,
    body: string,
    headers: map<string, string>,
    cookies: CookieMap)

  /**
   * What the interceptor returns: the response the next link of the chain
   * produces for `request` as it stands (`chain.proceed`), or the response of
   * the application's base client to a rebuilt request (`proceed`).
   */
  datatype Response = Forwarded(request: Request) | Fetched(request: Request)

  /** The header `proceed` sets to the WebView's user agent. */
  const UserAgentHeader: string := "user-agent"

  /**
   * The request `proceed` sends: the original headers plus a `user-agent`
   * header when the WebView reports one, and the cookie map
   * `cookies + request.cookies`, in which a cookie the caller already
   * attached wins over a cached one of the same name.
   */
  function Rebuild(request: Request, cookies: CookieMap, userAgent: Option<string>): (rebuilt: Request) {
    var agent := if userAgent.Some? then map[UserAgentHeader := userAgent.value] else map[];
    request.(headers := request.headers + agent, cookies := cookies + request.cookies)
  }

  /**
   * The rebuilt request, entry by entry: address, verb and body are kept; every
   * cookie the caller attached is kept with its value; a cached cookie is added
   * exactly when the caller did not attach one of that name; the headers gain
   * `user-agent` (set to the reported agent) and nothing else.
   */
  lemma RebuildSpec(request: Request, cookies: CookieMap, userAgent: Option<string>)
    ensures var r := Rebuild(request, cookies, userAgent);
      r.url == request.url && r.host == request.host && r.verb == request.verb && r.body == request.body
    ensures forall k :: k in Rebuild(request, cookies, userAgent).cookies <==> k in cookies || k in request.cookies
    ensures forall k :: k in request.cookies ==> Rebuild(request, cookies, userAgent).cookies[k] == request.cookies[k]
    ensures forall k :: k in cookies && k !in request.cookies ==> Rebuild(request, cookies, userAgent).cookies[k] == cookies[k]
    ensures userAgent == None ==> Rebuild(request, cookies, userAgent).headers == request.headers
    ensures userAgent.Some? ==> Rebuild(request, cookies, userAgent).headers == request.headers[UserAgentHeader := userAgent.value]
  {
    if userAgent.Some? {
      assert request.headers + map[UserAgentHeader := userAgent.value] == request.headers[UserAgentHeader := userAgent.value];
    }
  }
}
