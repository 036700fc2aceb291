/**
  The per-key fixed-window rate limiter of `backend/utils.py`.

  One store, shared by every decorated endpoint, maps the key
  "<endpoint>:<client ip>" to a window: how many requests it has admitted and
  the instant at which it may be replaced. A window opens on a key's first
  request and is replaced lazily by the first request that arrives strictly
  after its reset instant; there is no timer.
 */
module RateLimit {
  import opened Clock

  /** A key's window: admitted requests so far, and the instant it ends. */
  datatype Window = Window(count: nat, resetTime: Instant)

  /** What the limiter reports. `Allowed` carries the three X-RateLimit-*
      header values (429 is never returned with it); `Denied` carries
      Retry-After, which is also the X-RateLimit-Reset header of the 429; the
      429's X-RateLimit-Remaining header is the constant 0 and is not carried. */
  datatype Decision =
    | Allowed(remaining: int, limit: nat, resetIn: int)
    | Denied(retryAfter: int, limit: nat)

  /** The store after one request, and the decision taken for it. */
  datatype Admission = Admission(windows: map<string, Window>, decision: Decision)

  /** What the decorated endpoint answers: the handler's own response with the
      rate-limit headers, or the 429 reply, in which the handler took no part. */
  datatype Reply<R> =
    | Served(body: R, limit: nat, remaining: int, resetIn: int)
    | Limited(retryAfter: int, limit: nat)

  /** The key of a request: the endpoint's function name, a colon, the client address. */
  function Key(funcName: string, ip: string): (k: string)
    ensures |k| == |funcName| + 1 + |ip|
    ensures k[..|funcName|] == funcName && k[|funcName|] == ':' && k[|funcName| + 1..] == ip
  {
    funcName + [':'] + ip
  }

  /** Python function names never contain a colon, so two requests share a
      window only when they hit the same endpoint from the same address. */
  lemma {:induction false} KeyInjective(f1: string, ip1: string, f2: string, ip2: string)
    requires ':' !in f1 && ':' !in f2
    requires Key(f1, ip1) == Key(f2, ip2)
    ensures f1 == f2 && ip1 == ip2
  {
    var k := Key(f1, ip1);
    if |f1| != |f2| {
      assert false;
    }
    assert f1 == k[..|f1|] == f2;
    assert ip1 == k[|f1| + 1..] == ip2;
  }

  /** A window opened at `now`. */
  function Fresh(now: Instant, period: nat): (w: Window)
    ensures w.count == 0 && w.resetTime - now == period * MicrosPerSecond
  {
    Window(0, now + period * MicrosPerSecond)
  }

  /** The key's window once the first-request and expiry checks have run:
      the stored one while `now` has not passed its reset instant, a fresh one
      otherwise. Either way `now` lies within the window. */
  function Renewed(windows: map<string, Window>, key: string, now: Instant, period: nat): (w: Window)
    ensures now <= w.resetTime
    ensures key in windows && now <= windows[key].resetTime ==> w == windows[key]
    ensures w.count > 0 ==> key in windows && w == windows[key]
  {
    if key !in windows || now > windows[key].resetTime then Fresh(now, period)
    else windows[key]
  }

  /** Seconds from `now` to the end of window `w`, as `int(total_seconds())`:
      the whole seconds left, the fraction of a second dropped. */
  function SecondsLeft(w: Window, now: Instant): (secs: int)
    requires now <= w.resetTime
    ensures 0 <= secs && secs * MicrosPerSecond <= w.resetTime - now < secs * MicrosPerSecond + MicrosPerSecond
  {
    Truncated(w.resetTime - now, MicrosPerSecond)
  }

  /** One request on `key` at `now`, for an endpoint allowing `limit` requests
      per `period` seconds: only the key's own entry may change, a refused
      request leaves its count alone, and an admitted one adds exactly one
      without going over the limit. */
  function Admit(windows: map<string, Window>, key: string, now: Instant, limit: nat, period: nat): (r: Admission)
    ensures r.windows.Keys == windows.Keys + {key}
    ensures forall k :: k in windows && k != key ==> r.windows[k] == windows[k]
    ensures r.decision.limit == limit
    ensures r.decision.Denied? <==> Renewed(windows, key, now, period).count >= limit
    ensures r.decision.Denied? ==> r.windows[key] == Renewed(windows, key, now, period)
    ensures r.decision.Allowed? ==>
      && r.windows[key].count == Renewed(windows, key, now, period).count + 1 <= limit
      && r.windows[key].resetTime == Renewed(windows, key, now, period).resetTime
      && r.decision.remaining == limit - r.windows[key].count
    ensures var secs := if r.decision.Denied? then r.decision.retryAfter else r.decision.resetIn;
      && 0 <= secs
      && secs * MicrosPerSecond <= r.windows[key].resetTime - now < secs * MicrosPerSecond + MicrosPerSecond
  {
    var w := Renewed(windows, key, now, period);
    if w.count >= limit then
      Admission(windows[key := w], Denied(SecondsLeft(w, now), limit))
    else
      var w' := w.(count := w.count + 1);
      Admission(windows[key := w'], Allowed(limit - w'.count, limit, SecondsLeft(w', now)))
  }

  /** The key's window, if stored, is within its endpoint's limit. Endpoints
      with limits of their own share the store, so this is stated per key. */
  predicate WithinLimit(windows: map<string, Window>, key: string, limit: nat)
  {
    key in windows ==> windows[key].count <= limit
  }

  /** The key's window, if stored, was opened no later than `now` by an
      endpoint with this period: its reset instant is at most one period ahead. */
  predicate OpenedBy(windows: map<string, Window>, key: string, now: Instant, period: nat)
  {
    key in windows ==> windows[key].resetTime - now <= period * MicrosPerSecond
  }

  /** The first request on an unseen key opens a window of one period that
      starts empty; the request itself is then admitted when the limit is positive. */
  lemma FirstRequestOpensWindow(windows: map<string, Window>, key: string, now: Instant, limit: nat, period: nat)
    requires key !in windows
    ensures Renewed(windows, key, now, period) == Window(0, now + period * MicrosPerSecond)
    ensures Admit(windows, key, now, limit, period).decision.Allowed? <==> limit > 0
  {
  }

  /** A stored window survives up to and including its reset instant and is
      replaced by a fresh one strictly after it. */
  lemma ResetOnlyStrictlyAfter(windows: map<string, Window>, key: string, now: Instant, period: nat)
    requires key in windows
    ensures Renewed(windows, key, now, period) == windows[key] <==> now <= windows[key].resetTime
    ensures now > windows[key].resetTime ==> Renewed(windows, key, now, period) == Fresh(now, period)
  {
  }

  /** The reported seconds-to-reset (Retry-After on a refusal, X-RateLimit-Reset
      on an admission) is never negative and, on a clock that has not run back
      past the key's window's opening, never more than one period. */
  lemma {:induction false} SecondsLeftBounded(windows: map<string, Window>, key: string, now: Instant, limit: nat, period: nat)
    requires OpenedBy(windows, key, now, period)
    ensures var d := Admit(windows, key, now, limit, period).decision;
      0 <= (if d.Allowed? then d.resetIn else d.retryAfter) <= period
  {
    var w := Renewed(windows, key, now, period);
    assert w.resetTime - now <= period * MicrosPerSecond;
    TruncatedAtMost(w.resetTime - now, MicrosPerSecond, period);
  }

  /** An admitted request reports between 0 and limit - 1 requests left. */
  lemma RemainingBounded(windows: map<string, Window>, key: string, now: Instant, limit: nat, period: nat)
    ensures var d := Admit(windows, key, now, limit, period).decision;
      d.Allowed? ==> limit > 0 && 0 <= d.remaining <= limit - 1
  {
  }

  /** A request keeps its key's window within the endpoint's limit; the
      windows of every other key, whatever their endpoint, are untouched. */
  lemma {:induction false} AdmitKeepsWithinLimit(windows: map<string, Window>, key: string, now: Instant, limit: nat, period: nat)
    requires WithinLimit(windows, key, limit)
    ensures var r := Admit(windows, key, now, limit, period).windows;
      && key in r && WithinLimit(r, key, limit)
      && forall k :: k in windows && k != key ==> k in r && r[k] == windows[k]
  {
  }

  /** A request keeps its key's window opened by `now`; later requests see the
      same, since a window opened by `now` is opened by any later instant
      (`OpenedByLater`). */
  lemma {:induction false} AdmitKeepsOpenedBy(windows: map<string, Window>, key: string, now: Instant, limit: nat, period: nat)
    requires OpenedBy(windows, key, now, period)
    ensures var r := Admit(windows, key, now, limit, period).windows;
      key in r && OpenedBy(r, key, now, period)
  {
    assert Admit(windows, key, now, limit, period).windows[key].resetTime == Renewed(windows, key, now, period).resetTime;
  }

  lemma OpenedByLater(windows: map<string, Window>, key: string, now: Instant, later: Instant, period: nat)
    requires OpenedBy(windows, key, now, period) && now <= later
    ensures OpenedBy(windows, key, later, period)
  {
  }

  /** Waiting the reported Retry-After seconds is not always enough: the
      truncation drops up to a second, and the window is kept up to and
      including its reset instant. Half a second before the end of a full
      window the reply says 0 seconds, and a retry at once is refused again. */
  lemma RetryAfterZeroYetRefused()
    ensures var ws := map["my_endpoint:10.0.0.1" := Window(5, 3_600_000_000)];
      var first := Admit(ws, "my_endpoint:10.0.0.1", 3_599_500_000, 5, 3600);
      && first.decision == Denied(0, 5)
      && Admit(first.windows, "my_endpoint:10.0.0.1", 3_599_500_000, 5, 3600).decision.Denied?
  {
  }

  /** Waiting one second more than Retry-After always reaches a fresh window. */
  lemma {:induction false} RetryAfterPlusOneSuffices(windows: map<string, Window>, key: string, now: Instant, limit: nat, period: nat)
    requires Admit(windows, key, now, limit, period).decision.Denied?
    ensures var r := Admit(windows, key, now, limit, period);
      var later := now + (r.decision.retryAfter + 1) * MicrosPerSecond;
      Renewed(r.windows, key, later, period) == Fresh(later, period)
  {
    var r := Admit(windows, key, now, limit, period);
    var w := r.windows[key];
    assert w == Renewed(windows, key, now, period);
    assert now <= w.resetTime;
    assert w.resetTime - now < (r.decision.retryAfter + 1) * MicrosPerSecond;
  }

  /** With five requests per hour, five requests within one window are
      admitted with 4, 3, 2, 1, 0 requests remaining, the sixth is refused,
      and a request strictly after the window's end is admitted with 4 left. */
  lemma {:induction false} FivePerHour(windows: map<string, Window>, key: string, t: seq<Instant>)
    requires key !in windows
    requires |t| == 7
    requires forall i :: 0 < i < 6 ==> t[i - 1] <= t[i]
    requires t[5] <= t[0] + 3600 * MicrosPerSecond < t[6]
    ensures var a0 := Admit(windows, key, t[0], 5, 3600);
      var a1 := Admit(a0.windows, key, t[1], 5, 3600);
      var a2 := Admit(a1.windows, key, t[2], 5, 3600);
      var a3 := Admit(a2.windows, key, t[3], 5, 3600);
      var a4 := Admit(a3.windows, key, t[4], 5, 3600);
      var a5 := Admit(a4.windows, key, t[5], 5, 3600);
      var a6 := Admit(a5.windows, key, t[6], 5, 3600);
      && a0.decision.Allowed? && a0.decision.remaining == 4
      && a1.decision.Allowed? && a1.decision.remaining == 3
      && a2.decision.Allowed? && a2.decision.remaining == 2
      && a3.decision.Allowed? && a3.decision.remaining == 1
      && a4.decision.Allowed? && a4.decision.remaining == 0
      && a5.decision.Denied?
      && a6.decision.Allowed? && a6.decision.remaining == 4
  {
    var reset := t[0] + 3600 * MicrosPerSecond;
    assert t[1] <= t[2] <= t[3] <= t[4] <= t[5] <= reset;
    var a0 := Admit(windows, key, t[0], 5, 3600);
    assert a0.windows[key] == Window(1, reset);
    var a1 := Admit(a0.windows, key, t[1], 5, 3600);
    assert a1.windows[key] == Window(2, reset);
    var a2 := Admit(a1.windows, key, t[2], 5, 3600);
    assert a2.windows[key] == Window(3, reset);
    var a3 := Admit(a2.windows, key, t[3], 5, 3600);
    assert a3.windows[key] == Window(4, reset);
    var a4 := Admit(a3.windows, key, t[4], 5, 3600);
    assert a4.windows[key] == Window(5, reset);
    var a5 := Admit(a4.windows, key, t[5], 5, 3600);
    assert a5.windows[key] == Window(5, reset);
  }

  /** How many of the requests on `key`, arriving at the instants `times` in
      that order, are admitted. */
  function AdmittedCount(windows: map<string, Window>, key: string, times: seq<Instant>, limit: nat, period: nat): nat
    decreases |times|
  {
    if times == [] then 0
    else
      var a := Admit(windows, key, times[0], limit, period);
      (if a.decision.Allowed? then 1 else 0) + AdmittedCount(a.windows, key, times[1..], limit, period)
  }

  /** Within one window, whatever the arrival instants and their order, the
      limiter admits exactly as many requests as the window still has room
      for, and never more. */
  lemma {:induction false} AdmitsExactlyRoomLeft(windows: map<string, Window>, key: string, times: seq<Instant>, limit: nat, period: nat)
    requires key in windows && windows[key].count <= limit
    requires forall i :: 0 <= i < |times| ==> times[i] <= windows[key].resetTime
    ensures var room := limit - windows[key].count;
      AdmittedCount(windows, key, times, limit, period) == if |times| < room then |times| else room
    decreases |times|
  {
    if times != [] {
      var a := Admit(windows, key, times[0], limit, period);
      assert a.windows[key].resetTime == windows[key].resetTime;
      assert forall i :: 0 <= i < |times[1..]| ==> times[1..][i] == times[i + 1];
      AdmitsExactlyRoomLeft(a.windows, key, times[1..], limit, period);
    }
  }

  /** Requests that open a new window on a key (its first ever, or the first
      after its stored window ended) and all arrive within one period of the
      first are admitted `limit` at most: exactly the first `limit` of them. */
  lemma {:induction false} AtMostLimitPerWindow(windows: map<string, Window>, key: string, times: seq<Instant>, limit: nat, period: nat)
    requires times != [] && (key !in windows || times[0] > windows[key].resetTime)
    requires forall i :: 0 <= i < |times| ==> times[i] <= times[0] + period * MicrosPerSecond
    ensures AdmittedCount(windows, key, times, limit, period) == if |times| < limit then |times| else limit
  {
    var started := windows[key := Fresh(times[0], period)];
    assert Renewed(windows, key, times[0], period) == Renewed(started, key, times[0], period);
    assert Admit(windows, key, times[0], limit, period) == Admit(started, key, times[0], limit, period);
    AdmitsExactlyRoomLeft(started, key, times, limit, period);
  }

  /** The module-level `rate_limit_store` dictionary, updated in place. */
  class RateLimitStore {
    var windows: map<string, Window>

    constructor ()
      ensures windows == map[]
    {
      windows := map[];
    }

    /** Lines 41-81 of the wrapper: open or renew the key's window, then
        refuse at the limit or count the request. */
    method Attempt(key: string, now: Instant, limit: nat, period: nat) returns (d: Decision)
      modifies this
      ensures windows == Admit(old(windows), key, now, limit, period).windows
      ensures d == Admit(old(windows), key, now, limit, period).decision
      ensures old(WithinLimit(windows, key, limit)) ==> WithinLimit(windows, key, limit)
      ensures old(OpenedBy(windows, key, now, period)) ==> OpenedBy(windows, key, now, period)
      ensures forall k :: k != key ==> (k in windows <==> k in old(windows))
      ensures forall k :: k != key && k in windows ==> windows[k] == old(windows)[k]
    {
      ghost var before := windows;
      if key !in windows {
        windows := windows[key := Window(0, now + period * MicrosPerSecond)];
      }
      if now > windows[key].resetTime {
        windows := windows[key := Window(0, now + period * MicrosPerSecond)];
      }
      var w := windows[key];
      assert w == Renewed(before, key, now, period);
      assert windows == before[key := w];
      if w.count >= limit {
        var timeLeft := SecondsLeft(w, now);
        d := Denied(timeLeft, limit);
        assert Admission(windows, d) == Admit(before, key, now, limit, period);
      } else {
        w := w.(count := w.count + 1);
        windows := windows[key := w];
        var remaining := limit - w.count;
        var timeLeft := SecondsLeft(w, now);
        d := Allowed(remaining, limit, timeLeft);
        assert Admission(windows, d) == Admit(before, key, now, limit, period);
      }
    }

    /** The decorated endpoint: `rate_limit(limit, period)` applied to the
        handler named `funcName`, called from `ip` at `now`. The handler's
        response is part of the reply exactly when the request is admitted. */
    method Wrapper<R>(limit: nat, period: nat, funcName: string, handler: () -> R, ip: string, now: Instant)
      returns (reply: Reply<R>)
      modifies this
      ensures var a := Admit(old(windows), Key(funcName, ip), now, limit, period);
        && windows == a.windows
        && (reply.Served? <==> a.decision.Allowed?)
        && (reply.Served? ==> reply == Served(handler(), limit, a.decision.remaining, a.decision.resetIn))
        && (reply.Limited? ==> reply == Limited(a.decision.retryAfter, limit))
    {
      var key := Key(funcName, ip);
      var d := Attempt(key, now, limit, period);
      match d
      case Denied(retryAfter, _) =>
        reply := Limited(retryAfter, limit);
      case Allowed(remaining, _, resetIn) =>
        var response := handler();
        reply := Served(response, limit, remaining, resetIn);
    }
  }
}
