# Public meal tracker backend: a Dafny model

This project models the decision logic of the public meal tracker's Flask
backend. The backend has two parts.

- **Per-key fixed-window rate limiter** (`backend/utils.py`). The `rate_limit(limit, period)`
  decorator keeps one module-level dictionary. It maps `"<endpoint>:<client ip>"` to a
  window `{count, reset_time}`.
  - A key's window opens on its first request.
  - The window is replaced lazily by the first request that arrives strictly after
    `reset_time`.
  - A request is refused with 429 and `Retry-After` once `count >= limit`.
  - Otherwise the count goes up by one and the handler runs. Its reply carries the
    remaining quota and the seconds to reset.
- **Meal status, admin gate and meal log** (`backend/app.py`).
  - A status read picks a row with the greatest timestamp from the `meals` table.
  - It reports "has not eaten" once an "ate" row is strictly more than three hours old,
    together with the whole minutes since that meal.
  - `login_required` answers 401 when the session has no email and 403 when the email
    is not `ALLOWED_EMAIL`. Otherwise it runs the handler.
  - `auth_status` uses the same test.
  - The login callback stores any verified user in the session and redirects by email.
  - `logout` clears the session.
  - `log_meal` appends one row.

Files:

- `Clock.dfy` (module `Clock`): instants as integer microseconds, and Python's
  `int(...)` of a quotient as truncation toward zero.
- `RateLimit.dfy` (module `RateLimit`):
  - `Admit` is the pure specification of one request against the store.
  - The lemmas about `Admit` state the limiter's properties.
  - Class `RateLimitStore` is the module-level dictionary, updated in place.
    `Attempt` follows lines 41-81 step by step. `Wrapper` adds the key derivation and
    the handler call.
- `MealApp.dfy` (module `MealApp`):
  - Pure functions `Latest`, `Derive`, `MealStatus`, `Gate`, `AuthStatusOf` and
    `SignedInSession`, with the lemmas about them.
  - Class `MealTracker` holds the `meals` table, the AUTOINCREMENT counter and the
    session. Its methods `GetMealStatus`, `LogMeal`, `Callback` and `Logout` are the
    endpoints.

Behaviour of the code that a reader might expect to be different:

- The three-hour expiry is strict (`>`, app.py:205). A `>=` test would expire the meal at
  exactly three hours; the code still reports it as eaten then.
- An expired view reports `timestamp: None` (app.py:209), not the meal's timestamp.
- Emails are compared exactly, so `Admin@x.org` and `admin@x.org` differ (app.py:78, 148, 160).
- A verified user who is not the allowed one still gets a session (app.py:143-145). The
  gate refuses them with 403 later (app.py:78-82), and `auth_status` reports them as not
  authenticated.
- `Retry-After` is the number of seconds left, truncated. It can be 0 while requests are
  still refused, as `RetryAfterZeroYetRefused` shows. Waiting Retry-After + 1 seconds is
  always enough (`RetryAfterPlusOneSuffices`).
- There is no delete endpoint and no recent-events endpoint.
- `/api/remind` is not rate limited (app.py:240-245).

## Model

| member | source | states |
|---|---|---|
| `Clock.Truncated` | backend/utils.py:57 | `int()` of a duration in units: for a non-negative duration the largest whole number of units it contains; toward zero for a negative one |
| `RateLimit.Key` | backend/utils.py:38 | the key is the function name, one colon, then the client address, and each part can be read back from it |
| `RateLimit.KeyInjective` | backend/utils.py:38 | function names hold no colon, so two requests share a key only for the same endpoint and the same address |
| `RateLimit.Fresh` | backend/utils.py:42-45 | a new window has count 0 and ends exactly one period after it opens |
| `RateLimit.SecondsLeft` | backend/utils.py:56-57 | for a window that `now` has not passed, `int(total_seconds())` of the time left: `secs` seconds fit into it, `secs + 1` do not, and `secs` is never negative |
| `RateLimit.Renewed` | backend/utils.py:40-52 | after the first-request and reset checks, `now` lies within the key's window; a stored window is kept while `now` is not past its reset time; a window with a non-zero count is always the stored one |
| `RateLimit.Admit` | backend/utils.py:40-81 | only the requested key is added or changed; a request is refused exactly when the renewed count is at least the limit; a refusal keeps the count; an admission adds exactly one, never passes the limit, keeps the reset time and reports remaining = limit − new count; Retry-After (refused) or X-RateLimit-Reset (admitted) is the whole number of seconds from now to the key's reset time, the fraction dropped |
| `RateLimit.FirstRequestOpensWindow` | backend/utils.py:41-45 | an unseen key gets a window with count 0 and reset = now + period; its first request is admitted iff limit > 0 |
| `RateLimit.ResetOnlyStrictlyAfter` | backend/utils.py:47-52 | the stored window is kept iff now <= reset time, so it is kept at exactly the reset time; strictly after, a fresh window opens at now |
| `RateLimit.SecondsLeftBounded` | backend/utils.py:55-81 | Retry-After on a refusal, and X-RateLimit-Reset on an admission, are in [0, period] whenever the requested key has no stored window, or its window ends at most one period after `now` |
| `RateLimit.RemainingBounded` | backend/utils.py:75-79 | an admitted request implies limit > 0 and reports a remaining quota in [0, limit − 1] |
| `RateLimit.AdmitKeepsWithinLimit` | backend/utils.py:55-76 | a request keeps its key's count <= its endpoint's limit, and leaves the window of every other key, of any endpoint, as it was |
| `RateLimit.AdmitKeepsOpenedBy` | backend/utils.py:40-52 | a request keeps its key's window ending at most one period of its endpoint after `now` |
| `RateLimit.OpenedByLater` | backend/utils.py:44-51 | a key's window that ends at most one period after `now` does so after any later instant too, so the invariant survives a clock that moves forward |
| `RateLimit.RetryAfterZeroYetRefused` | backend/utils.py:48-57 | half a second before a full window ends, the refusal says Retry-After 0 and an immediate retry is refused again |
| `RateLimit.RetryAfterPlusOneSuffices` | backend/utils.py:48-57 | after a refusal, a request made Retry-After + 1 seconds later always meets a fresh window |
| `RateLimit.FivePerHour` | backend/utils.py:20-24 | with `rate_limit(5, 3600)`, five requests in one window report remaining 4, 3, 2, 1, 0; the sixth is refused; a request strictly after the window's end is admitted with 4 left |
| `RateLimit.AdmitsExactlyRoomLeft` | backend/utils.py:41-79 | while requests on a key arrive no later than its window's reset time, in any order, exactly min(number of requests, limit − count) of them are admitted, never more |
| `RateLimit.AtMostLimitPerWindow` | backend/utils.py:41-79 | requests that open a new window on a key (its first, or the first after the stored one ended) and all arrive within one period of the first are admitted exactly min(number of requests, limit) times |
| `RateLimit.RateLimitStore.constructor` | backend/utils.py:9 | the store starts empty |
| `RateLimit.RateLimitStore.Attempt` | backend/utils.py:40-81 | the in-place update leaves the store equal to `Admit`'s and returns its decision; it keeps the requested key's count within the limit and its window within one period of `now`, and leaves every other key as it was |
| `RateLimit.RateLimitStore.Wrapper` | backend/utils.py:29-112 | the decorated endpoint updates the store under the key `func:ip`; the reply carries the handler's response, with limit, remaining and reset, exactly when the request is admitted; a refusal is a 429 carrying Retry-After and the limit, with no handler response |
| `MealApp.Latest` | backend/app.py:187-189 | an empty table has no latest row; otherwise the row returned is in the table and no row has a later timestamp |
| `MealApp.Derive` | backend/app.py:192-216 | the view says "ate" iff the latest event is an ate event at most 3 h old; it is the expired form iff the latest event is an ate event more than 3 h old; the expired form has last_meal_timestamp = the event's timestamp and whole minutes elapsed, rounded down; every other view echoes the event's timestamp; no event gives `ate=false, timestamp=None` |
| `MealApp.MealStatus` | backend/app.py:182-216 | an empty table reads `ate=false, timestamp=None`; otherwise the view is derived from some row with the greatest timestamp, with ties left open as the query leaves them |
| `MealApp.ExpiryIsStrict` | backend/app.py:205-216 | an ate event at most 3 h old, including exactly 3 h, is reported as eaten with its own timestamp |
| `MealApp.NotAteIsEchoed` | backend/app.py:205-216 | a "not eaten" event is echoed with its timestamp, however old |
| `MealApp.ExpiredMinutesAtLeast180` | backend/app.py:205-212 | an ate event more than 3 h old gives the expired view with at least 180 minutes since the meal |
| `MealApp.BoundaryStraddle` | backend/app.py:201-216 | at exactly three hours the meal still counts as eaten; one microsecond later the view is expired, with 180 minutes |
| `MealApp.ExpiryPersists` | backend/app.py:201-212 | once a meal has expired it stays expired at every later read, and the minutes reported never go down |
| `MealApp.LoggedMealIsReported` | backend/app.py:223-233 | a meal logged at `now` without a custom timestamp, newer than every stored row, is what a read at `now` reports |
| `MealApp.Gate` | backend/app.py:70-84 | 401 iff the session has no email; the handler runs iff an allowed email is configured and the session email equals it exactly; 403 otherwise |
| `MealApp.RefusalCode` | backend/app.py:71-82 | a refused request gets 401 iff the session holds no email, and 403 iff it holds one while no allowed email is configured or the email differs from it |
| `MealApp.AuthStatusOf` | backend/app.py:158-168 | the status says authenticated iff the gate would admit, and then reports the allowed email and the stored name, or "" when no name is stored |
| `MealApp.Landing` | backend/app.py:147-153 | the callback redirects to the admin page iff an allowed email is configured and equals the user's exactly, and to the unauthorized page otherwise |
| `MealApp.SignedInSession` | backend/app.py:142-145 | a sign-in writes the email, the given name and the permanent flag set to true, and leaves every other session entry as it was |
| `MealApp.SignInDecidesAccess` | backend/app.py:138-153 | after a verified sign-in the gate never answers 401; it admits iff the email is the allowed one, which is exactly when the callback redirects to /admin |
| `MealApp.SignInThenStatus` | backend/app.py:142-168 | right after a verified sign-in, `auth_status` reports the user's email and given name if the email is the allowed one, and not authenticated otherwise |
| `MealApp.ClearedSessionIsSignedOut` | backend/app.py:171-174 | an emptied session is refused with 401 and reports not authenticated |
| `MealApp.MealTracker.constructor` | backend/app.py:47-55 | the table starts empty, ids start at 1 and the session is empty |
| `MealApp.MealTracker.GetMealStatus` | backend/app.py:182-216 | the read changes nothing; it reports `ate=false, timestamp=None` for an empty table and otherwise the view derived from some latest row |
| `MealApp.MealTracker.LogMeal` | backend/app.py:219-237 | when the gate refuses, the reply is that refusal and the table and counter are unchanged; when admitted, exactly one row is appended with a fresh increasing id, `ate` false when absent, the caller's timestamp when given and else now, and both are echoed; the session is never changed |
| `MealApp.MealTracker.Callback` | backend/app.py:137-155 | an unverified email gives 400 and leaves the session as it was; a verified one is always written to the session, and the redirect goes to /admin iff the gate now admits |
| `MealApp.MealTracker.Logout` | backend/app.py:171-174 | the session is empty afterwards whatever it held, so logging out again changes nothing, and the gate answers 401 |

## Left out

- HTTP plumbing is not modelled. That covers Flask request and response objects, `jsonify`, header strings, CORS and cookie settings (app.py:26-31). Header values are integers in the reply datatypes.
- The three ways `wrapper` attaches headers to the handler's result (utils.py:86-112) are modelled as one case. They set the same three values.
- SQLite is replaced by an in-memory sequence. That covers the connections and `init_db_if_needed` (app.py:38-64). The AUTOINCREMENT id is a counter that starts at 1.
- The Google OAuth round trip is not modelled: `login`, the token exchange in `callback` and `get_google_provider_cfg`. They are network calls. The callback model starts from the userinfo answer (email_verified, email, given_name).
- `send_reminder` is not modelled. It only prints, and no rate limit applies to it.
- Timestamps are integer microseconds, not ISO-8601 strings. The model does not parse timestamps. It ignores that SQLite orders the `timestamp` column as text. It ignores float rounding in `total_seconds()`.
- The mix of naive and aware datetimes in app.py:199-200 is not modelled. The model uses one consistent clock.
- A stored row with an empty timestamp is not modelled (the `if timestamp:` test at app.py:198). `log_meal` always stores a timestamp, so every row has one.
- Concurrency is not modelled. The module-level store is unsynchronised in the code, and the model is sequential.
- `dotenv`, `secrets` and `print` logging are not modelled.
- Session expiry after seven days (`PERMANENT_SESSION_LIFETIME`) is not modelled.
- `MealApp.MealRequest` covers only a JSON body that exists and whose `ate` is a boolean or absent. `get_json()` returning nothing, and non-boolean `ate` values, are not modelled.
- `RateLimit.RateLimitStore.Wrapper`: "the handler runs exactly once on admission" is stated as "the reply carries `handler()` exactly on admission". A Dafny function value has no effects that could be counted.
- `RateLimit.Admit`: `limit` and `period` are taken as non-negative. The decorator's arguments are counts and seconds, and negative values are not modelled.
