# Login rate limiter and route-info inference, modelled in Dafny

This project models the two pieces of the CMS web application that have logic of
their own.

- **The fixed-window login rate limiter.** A process-wide table maps the key
  `prefix:ip` to a record holding a hit count and a reset time. On each request
  the middleware does four things in order:
  - it replaces a missing or expired record with a fresh one (count 0, reset time
    `now + duration`);
  - it adds one to the count and stores the record;
  - it sets the `X-RateLimit-Limit`, `X-RateLimit-Remaining` and `X-RateLimit-Reset`
    headers;
  - it either calls the next handler or flashes "too many attempts" and answers 429
    with a redirect back.
- **Route-info inference** in the request logger. This is a pure function from the
  route's handler, the request path and the negotiated format to a
  controller/action/format triple, or to nothing.

Files:

- `wrappers.dfy` holds `Option`.
- `js_string.dfy` models the JavaScript string behaviour the code relies on:
  - `split` with a one-character separator, with `join` as its inverse;
  - `filter(Boolean)`;
  - the regular-expression class `\s`, as the white-space and line-terminator code
    points of ECMA-262, sections 12.2 and 12.3.
- `request_logger.dfy` holds `RequestLogger`: `GetRouteInfo`, `Capitalize`,
  `StripCallParens` and their lemmas.
- `rate_limiter.dfy` holds `RateLimiterMiddleware`, described below.

In `rate_limiter.dfy`, the class `RateLimiter` owns the table as a
`map<string, Record>` field. Its `Handle` method updates that field step by step, as
the source does. `Handle` is proved against the specification functions `Hit`, `Step`
and `Respond`. The lemmas about those functions state:

- the window rules;
- the n-th-request decision;
- that keys are independent of each other;
- the default-policy example.

The clock (`Date.now()`) and the client address (`request.ip()`) are parameters of
`Handle`. The result of content negotiation (`request.accepts`) is the parameter
`accepted` of `GetRouteInfo`.

Two features of the code shape the model:

- The window is fixed. It expires only when `resetTime < now`, so a request at
  exactly the reset time still counts in the old window (`SameWindowAtResetTime`).
- The middleware itself answers 429 and redirects back, so `SetStatus(429)` and
  `RedirectBack` are among the model's effects.

## Model

| member | source | states |
|---|---|---|
| RateLimiterMiddleware.MaxRequests | app/middleware/rate_limiter_middleware.ts:35 | the limit is never 0: an option that is given and non-zero is kept (negative values too), anything else gives 5 |
| RateLimiterMiddleware.Duration | app/middleware/rate_limiter_middleware.ts:36 | the window length is never 0: a non-zero option is kept, otherwise 600000 ms |
| RateLimiterMiddleware.Prefix | app/middleware/rate_limiter_middleware.ts:37 | the prefix is never empty: a non-empty option is kept, otherwise "login" |
| RateLimiterMiddleware.FalsyOptionsDefault | app/middleware/rate_limiter_middleware.ts:35-37 | missing, zero or empty options give 5 requests, 600000 ms and prefix "login" |
| RateLimiterMiddleware.Key | app/middleware/rate_limiter_middleware.ts:41 | the key is the prefix, then ':', then the address, so each of the three can be read back from it |
| RateLimiterMiddleware.KeyDistinctIps | app/middleware/rate_limiter_middleware.ts:41 | with the same prefix, different addresses never share a record |
| RateLimiterMiddleware.KeyDistinctPrefixes | app/middleware/rate_limiter_middleware.ts:41 | different prefixes that contain no ':' never share a record, whatever the addresses |
| RateLimiterMiddleware.KeyCollision | app/middleware/rate_limiter_middleware.ts:41 | a prefix containing ':' can collide with another prefix: ("a", "b:c") and ("a:b", "c") give the same key |
| RateLimiterMiddleware.Hit | app/middleware/rate_limiter_middleware.ts:44-53 | a missing or expired record (reset time strictly before now) becomes count 1 with reset time now + duration; otherwise the count grows by one and the reset time is kept |
| RateLimiterMiddleware.SameWindowAtResetTime | app/middleware/rate_limiter_middleware.ts:47 | expiry is strict: a request at exactly the reset time continues the old window |
| RateLimiterMiddleware.FirstHitIffExpired | app/middleware/rate_limiter_middleware.ts:47-52 | in a table whose records all have count >= 1, a request is counted as 1 exactly when its record was missing or expired |
| RateLimiterMiddleware.Remaining | app/middleware/rate_limiter_middleware.ts:56 | the remaining count is never negative, never below limit - count, and is either 0 or limit - count |
| RateLimiterMiddleware.Respond | app/middleware/rate_limiter_middleware.ts:56-68 | the request is allowed exactly when count <= limit; remaining is >= 0 and is limit - count when allowed; the first three effects are always the Limit, Remaining and Reset headers; the request reaches the next handler exactly when it is allowed, and then the headers are followed by the call to the next handler alone; otherwise nothing remains and the headers are followed by exactly the flash error, status 429 and the redirect back |
| RateLimiterMiddleware.Step | app/middleware/rate_limiter_middleware.ts:53 | the table after one request holds the request's key with the record `Hit` computes, has exactly the old keys plus that one, and keeps every other key's record |
| RateLimiterMiddleware.StepOtherKeys | app/middleware/rate_limiter_middleware.ts:53 | a request writes only its own key: every other key is present and equal exactly as before |
| RateLimiterMiddleware.StepsCommute | app/middleware/rate_limiter_middleware.ts:44-53 | requests under two different keys give the same table in either order |
| RateLimiterMiddleware.WindowCounts | app/middleware/rate_limiter_middleware.ts:47-53 | within a window (every time at or before the reset time), k requests add exactly k to the count, rejected ones included, and leave the reset time unchanged |
| RateLimiterMiddleware.HitsOtherKeys | app/middleware/rate_limiter_middleware.ts:53 | any number of requests under one key leave every other key's record unchanged |
| RateLimiterMiddleware.NthRequest | app/middleware/rate_limiter_middleware.ts:44-53 | after n requests in a window opened on a missing or expired record at time start, the record is (n, start + duration) |
| RateLimiterMiddleware.NthReply | app/middleware/rate_limiter_middleware.ts:56-68 | the n-th request of a window is allowed exactly when n <= limit, with max(0, limit - n) remaining |
| RateLimiterMiddleware.ReplyForCount | app/middleware/rate_limiter_middleware.ts:56-62 | for a record with count n, the reply is allowed exactly when n <= limit, with max(0, limit - n) remaining |
| RateLimiterMiddleware.NewWindowAfterReset | app/middleware/rate_limiter_middleware.ts:47-48 | after the reset time, the next request starts over at count 1 with a new reset time, and is allowed for any positive limit, however many requests came before |
| RateLimiterMiddleware.DefaultPolicyExample | app/middleware/rate_limiter_middleware.ts:35-68 | with the defaults, the sixth request of a window is refused with 0 remaining and the record (6, start + 600000), and one after the reset time starts a new window and passes |
| RateLimiterMiddleware.DefaultPolicyFirstFive | app/middleware/rate_limiter_middleware.ts:35-68 | with the defaults, the n-th of the first five requests of a window passes with 5 - n remaining |
| RateLimiterMiddleware.RateLimiter.constructor | app/middleware/rate_limiter_middleware.ts:5 | the table starts empty |
| RateLimiterMiddleware.RateLimiter.Handle | app/middleware/rate_limiter_middleware.ts:14-69 | the new table is the old one with only the request's key rewritten to the Hit record, all other keys unchanged; the reply is Respond(limit, new record), allowed exactly when the new count is within the limit; every record keeps count >= 1 |
| RequestLogger.UpperAscii | app/middleware/request_logger.ts:113 | a lower-case ASCII letter becomes its upper-case letter; every other character is unchanged |
| RequestLogger.Capitalize | app/middleware/request_logger.ts:111-114 | the empty string stays empty; otherwise the length is kept, the first character is upper-cased and the rest is unchanged |
| RequestLogger.CapitalizeIdempotent | app/middleware/request_logger.ts:111-114 | capitalising twice is the same as capitalising once |
| RequestLogger.StripCallParens | app/middleware/request_logger.ts:60 | the global replacement of white space, "()", white space by nothing never lengthens the name; what it removes is stated by StripCallParensChanges, LeadingCallParensRemoved, StripConcat, CallParensRemovedAnywhere and TrailingCallParensRemoved |
| RequestLogger.StripCallParensChanges | app/middleware/request_logger.ts:60 | the replacement leaves the name unchanged exactly when it contains no "()", and otherwise strictly shortens it |
| RequestLogger.LeadingCallParensRemoved | app/middleware/request_logger.ts:60 | a leading "()" with any white space before and after it disappears, together with that white space |
| RequestLogger.StripConcat | app/middleware/request_logger.ts:60 | the global replacement acts on two pieces separately when the first does not end in white space and the second does not start with ")" or with white space that matters to it |
| RequestLogger.CallParensRemovedAnywhere | app/middleware/request_logger.ts:60 | a "()" with the white space around it disappears wherever it sits after text that does not end in white space: the text in front is replaced on its own and the text behind it follows |
| RequestLogger.TrailingCallParensRemoved | app/middleware/request_logger.ts:60 | a name with no white space and no "(", followed by "()", comes back as the bare name |
| RequestLogger.Format | app/middleware/request_logger.ts:53 | the format is never empty: the negotiated format if there is a non-empty one, otherwise "unknown" |
| RequestLogger.Segments | app/middleware/request_logger.ts:72 | every path segment is non-empty and contains no '/' |
| RequestLogger.GetRouteInfo | app/middleware/request_logger.ts:37-106 | every guess carries the negotiated format; a non-empty string handler, or an array handler of at least two items, always gives a guess |
| RequestLogger.TupleHandler | app/middleware/request_logger.ts:58-63 | an array handler of at least two items gives controller = its first item with every "()" match removed, action = its second item, and the logged format |
| RequestLogger.RouteInfoNoneIff | app/middleware/request_logger.ts:44-105 | the result is null exactly when the handler is passed over and the path consists only of slashes (the empty path included) |
| RequestLogger.NamedHandlerWithDot | app/middleware/request_logger.ts:48-54 | a string handler "C.A" followed by nothing or ".anything" gives controller C and action A, with "Unknown" for an empty piece |
| RequestLogger.NamedHandlerWithoutDot | app/middleware/request_logger.ts:48-54 | a non-empty string handler without a dot is the controller, and the action is "Unknown" |
| RequestLogger.NamedHandlerNeverEmpty | app/middleware/request_logger.ts:51-52 | a string handler never gives an empty controller or action, and neither contains a dot |
| RequestLogger.FallsBackToUrl | app/middleware/request_logger.ts:44-68 | with no route, a falsy empty-string handler, an object handler or an array of fewer than two items, the guess is the URL guess |
| RequestLogger.UrlNoneIff | app/middleware/request_logger.ts:72-74 | URL inference gives nothing exactly when the path has no character other than '/' |
| RequestLogger.UrlInferenceShape | app/middleware/request_logger.ts:74-101 | a URL guess always has a controller ending in "Controller" (with something before it) and a non-empty action without '/' |
| RequestLogger.SegmentsOfPath | app/middleware/request_logger.ts:72 | the path "/s1/.../sn" built from valid segments splits back into exactly s1 ... sn |
| RequestLogger.ExtraSlashesIgnored | app/middleware/request_logger.ts:72 | doubled, leading and trailing slashes do not change the segments |
| RequestLogger.AdminLoginRoute | app/middleware/request_logger.ts:82-86 | /admin/login, whatever segments follow it, gives AdminAuthController#show |
| RequestLogger.AdminSectionRoute | app/middleware/request_logger.ts:82-90 | /admin/X[/Y...] with X other than "login" gives "Admin" + capitalize(X) + "Controller", with action Y, or "index" when Y is absent |
| RequestLogger.PlainRoute | app/middleware/request_logger.ts:91-94 | any other path, a lone /admin included, gives capitalize(first segment) + "Controller", with action the second segment or "index" |
| JsString.Split | app/middleware/request_logger.ts:49 | splitting always gives at least one piece, and no piece contains the separator |
| JsString.JoinSplit | app/middleware/request_logger.ts:72 | joining the pieces with the separator rebuilds the original string |
| JsString.SplitJoin | app/middleware/request_logger.ts:72 | splitting a join of separator-free pieces gives the pieces back |
| JsString.SplitAtSep | app/middleware/request_logger.ts:72 | splitting a + sep + b gives the pieces of a followed by the pieces of b |
| JsString.FilterNonEmpty | app/middleware/request_logger.ts:72 | the filter keeps only non-empty strings, each taken from the input, and never lengthens the list |
| JsString.FilterEmptyIff | app/middleware/request_logger.ts:72-74 | the filter leaves nothing exactly when every input string is empty |

## Left out

- Concurrency and persistence of the table. Requests are handled one at a time. The table is not shared between processes and does not survive a restart.
- The record in the table is an object that the source mutates in place and then stores again under the same key. The model replaces the record by a new value. Nothing else holds that object, so the two behave the same.
- Header values are the integers themselves. Their decimal rendering by `toString()` is not modelled.
- Options are integers or strings. A non-integer or `NaN` option, which JavaScript would treat as truthy or falsy, is not modelled.
- The options, the clock, the count and the reset time are exact unbounded integers. In JavaScript they are doubles, so `now + duration` and the count lose exactness above 2^53. The model does not capture that rounding.
- The session flash is an effect carrying the message. The redirect-back target is the framework's concern.
- Capitalize: upper-cases only the ASCII letters a-z and leaves every other character unchanged. JavaScript's `toUpperCase` also maps non-ASCII letters, sometimes to more than one character.
- An array handler's items are given as the strings that `String(item)` would produce. How a class or a function renders as a string is not modelled.
- `StripCallParens` is the source's one global regular-expression replacement, written out as a scanning function. No general regular-expression engine is modelled.
- `RequestLogger.handle` is not modelled. It does logging, `process.hrtime` timing with a floating-point, two-decimal duration, and awaits the next handler, all I/O and floating point.
- `app/controllers/admin/auth_controller.ts` is not part of this model. It calls the credential check, the auth guard and the session, waits a random delay, and writes five constant security headers.
- `start/routes.ts`, `config/i18n.ts`, `vite.config.ts` and `app/controllers/home_controller.ts` are not part of this model. They hold route declarations, a session/cookie locale switch, configuration and view rendering.
