# CloudflareKiller, modelled in Dafny

`CloudflareKiller` is an OkHttp interceptor from QuickNovel. It gets requests past Cloudflare's
browser challenge. It keeps one cache, `savedCookies`, from host to cookie map.

- A request to a cached host is rebuilt with the cached cookies and sent.
- For any other host it first reads the platform's WebView cookie store. If the stored cookie
  already contains `cf_clearance`, that is the fast path.
- Otherwise it opens a WebView on the URL and reads the store again at every sub-request the
  page makes.
- Each reading that contains the marker is parsed (`parseCookieMap`) and cached for the host.
- If the host is cached afterwards, the request goes out rebuilt with those cookies.
- If not, the original request is passed down the chain unchanged.

## Modules

| file | module | what it holds |
|---|---|---|
| `wrappers.dfy` | `Wrappers` | `Option`, the model of Kotlin's nullable types |
| `text.dfy` | `Text` | Kotlin's `Char.isWhitespace`, `isBlank`, `trim`, `split` on one character and `contains`, with lemmas stating what each computes |
| `cookies.dfy` | `CookieParser` | `parseCookieMap` and its full characterisation |
| `cookie_examples.dfy` | `CookieExamples` | parses of each cookie shape, for arbitrary well-formed words and for concrete strings |
| `http.dfy` | `Http` | the request and response slice of OkHttp, and the request rebuilt by `proceed` |
| `bypass.dfy` | `Bypass` | one `intercept` call as a function of the cache and of what the cookie store reports, plus lemmas about one call and about a series of calls |
| `bypass_examples.dfy` | `BypassExamples` | the end-to-end runs for `site.example` and `blocked.example` |
| `killer.dfy` | `Killer` | class `CloudflareKiller`: the `savedCookies` field and the imperative methods, each proved to follow module `Bypass` |

## Inputs

The interceptor reads the outside world in three places. These become inputs bundled in `Bypass.Environment`:

- `ambient` is what `CookieManager.getCookie(url)` returns at the fast-path check.
- `webView` lists what it returns at each `requestCallBack` of the WebView navigation, in order.
- `userAgent` is what `WebViewResolver.getWebViewUserAgent()` returns.

A response is not modelled by its content. It is identified by the request that produces it:

- `Forwarded(r)` is `chain.proceed(r)`.
- `Fetched(r)` is `app.baseClient.newCall(r).await()`.

## Behaviour the proofs make explicit

- **Cookie precedence.** `proceed` builds `cookies + request.cookies`, so a cookie the caller already
  attached beats the cached cookie of the same name (`Http.RebuildSpec`). Letting the cached cookies win
  instead would also be a reasonable choice. The code does not make it, and the model follows the code.
- **The last check wins.** Within one bypass every clearing reading overwrites the host's entry.
  The cache therefore ends with the parse of the last clearing reading (`Bypass.AfterChecksLast`).
- **Entries are never refreshed.** Once cached, the host is a cache hit on every later call, and its
  entry never changes (`Bypass.RunKeeps`, `Bypass.SolvedStaysHit`).
- **The marker test is a substring test.** It looks at the raw string, not at a parsed cookie:
  - `cf_clearance=` counts as solved even though its parse is empty.
  - The host is then cached with no cookies, which is permanent (`BypassExamples.BlankMarkerCachesNothing`).

## Model

| member | source | states |
|---|---|---|
| `Text.TrimSpec` | app/src/main/java/com/lagradost/quicknovel/network/CloudflareKiller.kt:22 | `trim` removes a blank prefix and a blank suffix and keeps the middle; the result is empty or has non-whitespace ends; it is empty exactly when the input is blank |
| `Text.TrimIdempotent` | app/src/main/java/com/lagradost/quicknovel/network/CloudflareKiller.kt:22 | trimming twice is trimming once |
| `Text.TrimSubset` | app/src/main/java/com/lagradost/quicknovel/network/CloudflareKiller.kt:22 | every character of the trimmed string occurs in the input |
| `Text.TrimmedAlready` | app/src/main/java/com/lagradost/quicknovel/network/CloudflareKiller.kt:22 | a string with non-whitespace ends is left unchanged by `trim` |
| `Text.TrimmedBlankIsEmpty` | app/src/main/java/com/lagradost/quicknovel/network/CloudflareKiller.kt:23 | a trimmed string is blank exactly when it is empty |
| `Text.StartOfContentSpec` | app/src/main/java/com/lagradost/quicknovel/network/CloudflareKiller.kt:22 | the leading cut of `trim` is all whitespace and stops at a non-whitespace character or the end |
| `Text.EndOfContentSpec` | app/src/main/java/com/lagradost/quicknovel/network/CloudflareKiller.kt:22 | the trailing cut of `trim` is all whitespace and stops after a non-whitespace character or at the start |
| `Text.SplitPieces` | app/src/main/java/com/lagradost/quicknovel/network/CloudflareKiller.kt:20-21 | no piece of `split` contains the delimiter, and every piece's characters come from the input |
| `Text.JoinSplit` | app/src/main/java/com/lagradost/quicknovel/network/CloudflareKiller.kt:20-21 | joining the pieces of `split` with the delimiter gives back the input, so nothing is lost or reordered |
| `Text.SplitJoin` | app/src/main/java/com/lagradost/quicknovel/network/CloudflareKiller.kt:20-21 | splitting pieces joined with a delimiter they do not contain gives back those pieces, empty ones included |
| `Text.SplitNoSeparator` | app/src/main/java/com/lagradost/quicknovel/network/CloudflareKiller.kt:21 | a string without the delimiter splits into just itself |
| `Text.SplitPrefix` | app/src/main/java/com/lagradost/quicknovel/network/CloudflareKiller.kt:20 | the text before the first delimiter is the first piece, and the rest is split on its own |
| `Text.ContainsSpec` | app/src/main/java/com/lagradost/quicknovel/network/CloudflareKiller.kt:57 | `contains` holds exactly when the marker occurs at some index |
| `CookieParser.AssociateSpec` | app/src/main/java/com/lagradost/quicknovel/network/CloudflareKiller.kt:20-22 | `associate` has one key per name that occurs, bound to the value of the LAST pair with that name |
| `CookieParser.AssociateLast` | app/src/main/java/com/lagradost/quicknovel/network/CloudflareKiller.kt:20-22 | every key of the association is bound to the value of its last pair |
| `CookieParser.EntryBlankIsEmpty` | app/src/main/java/com/lagradost/quicknovel/network/CloudflareKiller.kt:22-23 | a segment's name and value are blank only when empty, because both are trimmed |
| `CookieParser.EntryFromSegment` | app/src/main/java/com/lagradost/quicknovel/network/CloudflareKiller.kt:21-22 | a segment's name and value are trimmed, hold no `=` and take their characters from the segment |
| `CookieParser.EntryWithoutEquals` | app/src/main/java/com/lagradost/quicknovel/network/CloudflareKiller.kt:21-22 | a segment without `=` gets the trimmed segment as name and `""` as value (`getOrNull(1)` is null) |
| `CookieParser.EntryOfPair` | app/src/main/java/com/lagradost/quicknovel/network/CloudflareKiller.kt:21-22 | `name=value` pairs to the trimmed name and the trimmed value |
| `CookieParser.EntryDropsAfterSecondEquals` | app/src/main/java/com/lagradost/quicknovel/network/CloudflareKiller.kt:21-22 | in `name=value=rest` everything from the second `=` on is lost |
| `CookieParser.ParseCookieMapSound` | app/src/main/java/com/lagradost/quicknovel/network/CloudflareKiller.kt:19-24 | every parsed entry has a non-empty name and value and is the last pair with that name |
| `CookieParser.ParseCookieMapComplete` | app/src/main/java/com/lagradost/quicknovel/network/CloudflareKiller.kt:19-24 | the last pair of every non-empty name with a non-empty value is parsed |
| `CookieParser.ParseCookieMapSpec` | app/src/main/java/com/lagradost/quicknovel/network/CloudflareKiller.kt:19-24 | `k` maps to `v` if and only if both are non-empty and the last segment named `k` carries `v` |
| `CookieParser.ParseDropsBlankLastValue` | app/src/main/java/com/lagradost/quicknovel/network/CloudflareKiller.kt:20-23 | a name whose last segment has a blank value is absent, because the filter runs after `associate` |
| `CookieParser.ParseCookieMapWellFormed` | app/src/main/java/com/lagradost/quicknovel/network/CloudflareKiller.kt:19-24 | every parsed name and value is non-empty, trimmed and free of `;` and `=` |
| `CookieParser.WellFormedTrimmed` | app/src/main/java/com/lagradost/quicknovel/network/CloudflareKiller.kt:22-23 | a well-formed word is what `trim` leaves of it, and is not blank |
| `CookieParser.ParseEmpty` | app/src/main/java/com/lagradost/quicknovel/network/CloudflareKiller.kt:19-24 | `""` parses to the empty map |
| `CookieExamples.ParseSinglePair` | app/src/main/java/com/lagradost/quicknovel/network/CloudflareKiller.kt:19-24 | `n=v` parses to {n: v} for every pair of well-formed words |
| `CookieExamples.ParseBlankValue` | app/src/main/java/com/lagradost/quicknovel/network/CloudflareKiller.kt:19-24 | `n=` parses to the empty map |
| `CookieExamples.ParseTwoPairs` | app/src/main/java/com/lagradost/quicknovel/network/CloudflareKiller.kt:19-24 | `n1=v1; n2=v2` with distinct names parses to both entries |
| `CookieExamples.ParseLastDuplicateBlank` | app/src/main/java/com/lagradost/quicknovel/network/CloudflareKiller.kt:19-24 | `n=v; n=` parses to the empty map |
| `CookieExamples.ParseSecondEquals` | app/src/main/java/com/lagradost/quicknovel/network/CloudflareKiller.kt:19-24 | `n=v=rest` parses to {n: v} |
| `CookieExamples.ParseDropsBlanks` | app/src/main/java/com/lagradost/quicknovel/network/CloudflareKiller.kt:19-24 | `n=v;; =w; m=` parses to {n: v}, dropping the empty segment, the blank name and the blank value |
| `CookieExamples.ParseTwoPairsExample` | app/src/main/java/com/lagradost/quicknovel/network/CloudflareKiller.kt:19-24 | `a=1; b=2` parses to {a: 1, b: 2} |
| `CookieExamples.ParseDropsBlanksExample` | app/src/main/java/com/lagradost/quicknovel/network/CloudflareKiller.kt:19-24 | `a=1;; =2; c=` parses to {a: 1} |
| `CookieExamples.ParseSecondEqualsExample` | app/src/main/java/com/lagradost/quicknovel/network/CloudflareKiller.kt:19-24 | `a=b=c` parses to {a: b} |
| `CookieExamples.ParseDuplicateExample` | app/src/main/java/com/lagradost/quicknovel/network/CloudflareKiller.kt:19-24 | `a=1; a=` parses to the empty map |
| `CookieExamples.ParseClearance` | app/src/main/java/com/lagradost/quicknovel/network/CloudflareKiller.kt:19-24 | `cf_clearance=abc; other=1` parses to {cf_clearance: abc, other: 1} |
| `Http.RebuildSpec` | app/src/main/java/com/lagradost/quicknovel/network/CloudflareKiller.kt:63-69 | the rebuilt request keeps address, verb and body, keeps every caller cookie, adds a cached cookie only where the caller has none of that name, and adds `user-agent` only when one is reported |
| `Bypass.AfterChecksSnoc` | app/src/main/java/com/lagradost/quicknovel/network/CloudflareKiller.kt:82-97 | one more store reading extends the series of checks by one `trySolveWithSavedCookies` |
| `Bypass.AfterChecksFrame` | app/src/main/java/com/lagradost/quicknovel/network/CloudflareKiller.kt:54-61 | the checks touch only the request's host and remove nothing; the host is cached afterwards exactly when it was before or some reading cleared |
| `Bypass.AfterChecksNoneClear` | app/src/main/java/com/lagradost/quicknovel/network/CloudflareKiller.kt:56-60 | with no clearing reading the cache is unchanged |
| `Bypass.AfterChecksLast` | app/src/main/java/com/lagradost/quicknovel/network/CloudflareKiller.kt:58 | afterwards the host holds the parse of the last clearing reading |
| `Bypass.LastClearingExists` | app/src/main/java/com/lagradost/quicknovel/network/CloudflareKiller.kt:82-97 | if some reading clears, a last clearing reading exists |
| `Bypass.AfterChecksWellFormed` | app/src/main/java/com/lagradost/quicknovel/network/CloudflareKiller.kt:58 | the checks keep every cached name and value well-formed |
| `Bypass.InterceptHit` | app/src/main/java/com/lagradost/quicknovel/network/CloudflareKiller.kt:31-39 | a cached host is sent with its cached cookies; no bypass runs, the WebView stays closed and the cache is unchanged |
| `Bypass.InterceptNoSolve` | app/src/main/java/com/lagradost/quicknovel/network/CloudflareKiller.kt:29-44 | an uncached host that no reading clears is passed through unmodified, with the cache unchanged |
| `Bypass.InterceptSolved` | app/src/main/java/com/lagradost/quicknovel/network/CloudflareKiller.kt:77-102 | an uncached host with a clearing reading is cached with the parse of the last one and sent rebuilt with it |
| `Bypass.InterceptMiss` | app/src/main/java/com/lagradost/quicknovel/network/CloudflareKiller.kt:29-44 | for an uncached host, passthrough happens exactly when no reading clears, and the WebView opens exactly when the fast path fails |
| `Bypass.InterceptFastPath` | app/src/main/java/com/lagradost/quicknovel/network/CloudflareKiller.kt:80-101 | a clearing cookie already in the store is cached and used, and the WebView is not opened |
| `Bypass.InterceptFrame` | app/src/main/java/com/lagradost/quicknovel/network/CloudflareKiller.kt:29-44 | one call never removes or changes an existing entry, adds at most the request's host and keeps the cache well-formed |
| `Bypass.RunKeeps` | app/src/main/java/com/lagradost/quicknovel/network/CloudflareKiller.kt:29-44 | over any series of calls, a cached entry stays present and unchanged |
| `Bypass.SolvedStaysHit` | app/src/main/java/com/lagradost/quicknovel/network/CloudflareKiller.kt:29-44 | after a solve, every later request to the host is a cache hit with the same cookies and no WebView |
| `Bypass.RunWellFormed` | app/src/main/java/com/lagradost/quicknovel/network/CloudflareKiller.kt:27 | any series of calls keeps the cache well-formed |
| `BypassExamples.ClearsWhenStarting` | app/src/main/java/com/lagradost/quicknovel/network/CloudflareKiller.kt:57 | a stored cookie that starts with `cf_clearance` passes the marker check |
| `BypassExamples.ShortCookieDoesNotClear` | app/src/main/java/com/lagradost/quicknovel/network/CloudflareKiller.kt:57 | a stored cookie shorter than the marker fails the marker check |
| `BypassExamples.SiteExample` | app/src/main/java/com/lagradost/quicknovel/network/CloudflareKiller.kt:29-102 | `site.example` with `cf_clearance=abc; other=1` in the store takes the fast path, caches {cf_clearance: abc, other: 1} and sends both cookies |
| `BypassExamples.BlockedExample` | app/src/main/java/com/lagradost/quicknovel/network/CloudflareKiller.kt:29-102 | `blocked.example` with an empty store and no marker during navigation opens the WebView, caches nothing and passes the original request through |
| `BypassExamples.BlockedNavigation` | app/src/main/java/com/lagradost/quicknovel/network/CloudflareKiller.kt:29-102 | the failure run for one concrete navigation: a sub-request with no cookie, then one whose store holds only `session=1` |
| `BypassExamples.BlankMarkerCachesNothing` | app/src/main/java/com/lagradost/quicknovel/network/CloudflareKiller.kt:54-61 | a store holding only `cf_clearance=` counts as solved, and the host is cached with the empty map |
| `Killer.CloudflareKiller.constructor` | app/src/main/java/com/lagradost/quicknovel/network/CloudflareKiller.kt:27 | a new interceptor starts with an empty cache |
| `Killer.CloudflareKiller.TrySolveWithSavedCookies` | app/src/main/java/com/lagradost/quicknovel/network/CloudflareKiller.kt:54-61 | the result is true exactly when the store has a cookie containing `cf_clearance`; if so the host's entry becomes its parse, and otherwise the cache is unchanged |
| `Killer.CloudflareKiller.Proceed` | app/src/main/java/com/lagradost/quicknovel/network/CloudflareKiller.kt:63-75 | sends the request rebuilt as `Http.Rebuild` describes |
| `Killer.CloudflareKiller.BypassCloudflare` | app/src/main/java/com/lagradost/quicknovel/network/CloudflareKiller.kt:77-102 | the loop over the WebView's sub-requests leaves the cache as the series of checks prescribes; the method returns the rebuilt request when the host is cached and `None` otherwise; the WebView opens exactly when the fast path fails |
| `Killer.CloudflareKiller.Intercept` | app/src/main/java/com/lagradost/quicknovel/network/CloudflareKiller.kt:29-44 | response, new cache and WebView use are those of `Bypass.InterceptOutcome`, and a well-formed cache stays well-formed |

## Left out

- The platform's cookie store (`getWebViewCookie`, lines 46-48) is not modelled. It is I/O. What it returns becomes the `ambient` and `webView` inputs.
- `WebViewResolver` is not modelled. It is a foreign component. Its configuration (the never-matching exit `Regex`, `userAgent = null`, `useOkhttp = false`, the match-all `additionalUrls`) is left out. So is its decision to stop loading once the callback returns true. The navigation appears only as the sequence of store readings its callbacks made (`Bypass.Environment.webView`), so the model holds whether it stops early or not.
- `WebViewResolver.getWebViewUserAgent()` is not modelled. It lives in code outside this file. Its result is the `userAgent` input.
- OkHttp is not modelled. It is a foreign library and does network I/O. `chain.proceed` and `baseClient.newCall(...).await()` become the `Forwarded` and `Fetched` responses. Network failures, which propagate to the caller unchanged, are not represented.
- `getHeaders` is not modelled. It lives in a different library. The model does not render the cookie map into a `Cookie` header string; the rebuilt request keeps it as a map.
- `Http.Request.headers` stands for `request.headers.toMap()`. Repeated header names are not modelled: `proceed` collapses them to their last value, and the passthrough keeps them all.
- OkHttp header names are case-insensitive. The model treats `user-agent` as an exact map key.
- Kotlin maps keep insertion order (`LinkedHashMap`). The model uses unordered maps, so entry order in the parse and in the cache is not captured.
- `runBlocking`, `@AnyThread` and concurrent `intercept` calls are not modelled. Calls are sequential, each running to completion (`Bypass.Run`). Interleavings of two calls that both bypass the same host are not modelled.
- Logging (`Log.d`, `debugWarning`, the `TAG` constant) has no effect on behaviour and is left out.
- `Text.IsWhitespace` fixes the Unicode whitespace set of current JVMs (`Character.isWhitespace` or `isSpaceChar`). Differences between Unicode versions are not modelled.
- Kotlin strings are UTF-16; the model works on Dafny characters. Surrogate pairs are not distinguished, which is harmless because no whitespace character, `;`, `=` or marker character is a surrogate.
