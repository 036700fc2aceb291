/**
  The meal-tracking backend of `backend/app.py`, without its HTTP, SQLite and
  OAuth plumbing.

  The `meals` table is a sequence of events `(id, ate, timestamp)`; a status
  read selects an event with the greatest timestamp and derives the public
  view from it and the current instant, turning a meal older than three hours
  into "has not eaten" on the fly. The Flask session is a map; the admin gate
  admits a request only when the session's email is the configured one.
 */
module MealApp {
  import opened Clock

  datatype Option<T> = None | Some(value: T)

  /** An `ate` event older than this is reported as "has not eaten". */
  const ExpiryMicros: int := 3 * 60 * 60 * MicrosPerSecond

  const AdminPage: string := "http://localhost:3000/admin"
  const UnauthorizedPage: string := "http://localhost:3000/unauthorized"

  /** Session entries. Flask keeps the `permanent` flag as an entry of its own. */
  const UserEmail: string := "user_email"
  const UserName: string := "user_name"
  const PermanentFlag: string := "_permanent"

  /** A row of the `meals` table. */
  datatype MealEvent = MealEvent(id: nat, ate: bool, timestamp: Instant)

  /** The body of GET /api/meals: either the latest event echoed, or the
      expired form `{ate: false, timestamp: None, last_meal_timestamp,
      status_changed: true, time_since_last_meal}`. */
  datatype StatusView =
    | Reported(ate: bool, timestamp: Option<Instant>)
    | Expired(lastMealTimestamp: Instant, minutesSinceLastMeal: int)
  {
    /** The `ate` field of the JSON body. */
    predicate Ate() { Reported? && ate }
  }

  datatype SessionValue = Text(text: string) | Flag(flag: bool)
  type Session = map<string, SessionValue>

  /** The outcome of `login_required`: 401, 403, or run the handler. */
  datatype Access = Unauthenticated | Forbidden | Admitted

  /** The body of GET /api/auth/status. */
  datatype AuthStatus = SignedOut | SignedIn(email: string, name: string)

  /** What the identity provider's userinfo endpoint says about the user. */
  datatype Userinfo = Userinfo(emailVerified: bool, email: string, givenName: string)

  /** The reply of the login callback: 400, or a redirect to the frontend. */
  datatype CallbackReply = NotVerified | Redirect(location: string)

  /** The JSON body of POST /api/meals; `None` is an absent field (`ate`), or
      an absent or falsy one (`timestamp`). */
  datatype MealRequest = MealRequest(ate: Option<bool>, timestamp: Option<Instant>)

  /** The reply of POST /api/meals: the gate's refusal, or the stored row's
      `ate` and `timestamp` echoed back. */
  datatype LogReply = Refused(access: Access) | Logged(ate: bool, timestamp: Instant)

  // ---------------------------------------------------------------------------
  // Status derivation (GET /api/meals)

  /** `e` is a row that `ORDER BY timestamp DESC LIMIT 1` may return. */
  ghost predicate IsLatest(meals: seq<MealEvent>, e: MealEvent)
  {
    e in meals && forall x :: x in meals ==> x.timestamp <= e.timestamp
  }

  /** One row with the greatest timestamp, if the table has any row. Which of
      several tied rows is picked is left open by the query; this picks the
      last inserted. */
  function Latest(meals: seq<MealEvent>): (r: Option<MealEvent>)
    ensures r.None? <==> meals == []
    ensures r.Some? ==> IsLatest(meals, r.value)
  {
    if meals == [] then None
    else
      var last := meals[|meals| - 1];
      match Latest(meals[..|meals| - 1])
      case None => Some(last)
      case Some(m) => if m.timestamp <= last.timestamp then Some(last) else Some(m)
  }

  /** The view of the latest event at instant `now`. It reports "ate" only for
      an `ate` event at most three hours old, and the expired form only for an
      `ate` event more than three hours old, with the whole minutes elapsed. */
  function Derive(latest: Option<MealEvent>, now: Instant): (v: StatusView)
    ensures v.Ate() <==> latest.Some? && latest.value.ate && now - latest.value.timestamp <= ExpiryMicros
    ensures v.Expired? <==> latest.Some? && latest.value.ate && now - latest.value.timestamp > ExpiryMicros
    ensures v.Expired? ==>
      && v.lastMealTimestamp == latest.value.timestamp
      && v.minutesSinceLastMeal * MicrosPerMinute <= now - latest.value.timestamp
      && now - latest.value.timestamp < v.minutesSinceLastMeal * MicrosPerMinute + MicrosPerMinute
    ensures v.Reported? && latest.Some? ==> v.timestamp == Some(latest.value.timestamp)
    ensures latest.None? ==> v == Reported(false, None)
  {
    match latest
    case None => Reported(false, None)
    case Some(e) =>
      var elapsed := now - e.timestamp;
      if elapsed > ExpiryMicros && e.ate then Expired(e.timestamp, Truncated(elapsed, MicrosPerMinute))
      else Reported(e.ate, Some(e.timestamp))
  }

  /** The status read over the whole table. */
  function MealStatus(meals: seq<MealEvent>, now: Instant): (v: StatusView)
    ensures meals == [] ==> v == Reported(false, None)
    ensures meals != [] ==> exists e :: IsLatest(meals, e) && v == Derive(Some(e), now)
  {
    Derive(Latest(meals), now)
  }

  /** The three-hour threshold is strict: an `ate` event is still reported as
      eaten, with its own timestamp, at exactly three hours. */
  lemma ExpiryIsStrict(e: MealEvent, now: Instant)
    requires e.ate && now - e.timestamp <= ExpiryMicros
    ensures Derive(Some(e), now) == Reported(true, Some(e.timestamp))
  {
  }

  /** An event saying "has not eaten" is echoed unchanged, however old. */
  lemma NotAteIsEchoed(e: MealEvent, now: Instant)
    requires !e.ate
    ensures Derive(Some(e), now) == Reported(false, Some(e.timestamp))
  {
  }

  /** An expired meal reports at least 180 minutes since the meal. */
  lemma {:induction false} ExpiredMinutesAtLeast180(e: MealEvent, now: Instant)
    requires e.ate && now - e.timestamp > ExpiryMicros
    ensures Derive(Some(e), now).Expired?
    ensures Derive(Some(e), now).minutesSinceLastMeal >= 180
  {
    var v := Derive(Some(e), now);
    var m := v.minutesSinceLastMeal;
    assert m * MicrosPerMinute + MicrosPerMinute > 180 * MicrosPerMinute;
  }

  /** Two reads one microsecond apart straddle the boundary: three hours after
      a meal it is still eaten; one microsecond later it has expired. */
  lemma BoundaryStraddle(e: MealEvent)
    requires e.ate
    ensures Derive(Some(e), e.timestamp + ExpiryMicros).Ate()
    ensures Derive(Some(e), e.timestamp + ExpiryMicros + 1) == Expired(e.timestamp, 180)
  {
  }

  /** Once expired, a meal stays expired for every later read, and the minutes
      reported never go down. */
  lemma {:induction false} ExpiryPersists(e: MealEvent, t1: Instant, t2: Instant)
    requires t1 <= t2 && Derive(Some(e), t1).Expired?
    ensures Derive(Some(e), t2).Expired?
    ensures Derive(Some(e), t1).minutesSinceLastMeal <= Derive(Some(e), t2).minutesSinceLastMeal
  {
    TruncatedMonotonic(t1 - e.timestamp, t2 - e.timestamp, MicrosPerMinute);
  }

  /** A meal logged at `now` with no custom timestamp, newer than every row
      already stored, is what a read at the same instant reports. */
  lemma {:induction false} LoggedMealIsReported(meals: seq<MealEvent>, id: nat, ate: bool, now: Instant)
    requires forall x :: x in meals ==> x.timestamp < now
    ensures MealStatus(meals + [MealEvent(id, ate, now)], now) == Reported(ate, Some(now))
  {
    var all := meals + [MealEvent(id, ate, now)];
    var e := Latest(all).value;
    assert MealEvent(id, ate, now) == all[|all| - 1];
    assert e.timestamp == now;
    if e != MealEvent(id, ate, now) {
      assert false;
    }
  }

  // ---------------------------------------------------------------------------
  // The admin gate and the session

  /** `login_required`: 401 without a session email, 403 when it is not the
      allowed one (compared exactly, and never equal when no email is
      configured), otherwise the handler runs. */
  function Gate(session: Session, allowed: Option<string>): (a: Access)
    ensures a == Unauthenticated <==> UserEmail !in session
    ensures a == Admitted <==> allowed.Some? && UserEmail in session && session[UserEmail] == Text(allowed.value)
  {
    if UserEmail !in session then Unauthenticated
    else if allowed.None? || session[UserEmail] != Text(allowed.value) then Forbidden
    else Admitted
  }

  /** The HTTP status `login_required` answers with when it refuses: 401 when
      the session holds no email, 403 when it holds one that is not the
      allowed email. */
  function RefusalCode(session: Session, allowed: Option<string>): (code: int)
    requires Gate(session, allowed) != Admitted
    ensures code == 401 <==> UserEmail !in session
    ensures code == 403 <==> UserEmail in session && (allowed.None? || session[UserEmail] != Text(allowed.value))
  {
    match Gate(session, allowed)
    case Unauthenticated => 401
    case Forbidden => 403
  }

  /** `auth_status`: signed in exactly when the gate would admit, reporting
      the allowed email and the stored name (empty when none is stored). */
  function AuthStatusOf(session: Session, allowed: Option<string>): (s: AuthStatus)
    ensures s.SignedIn? <==> Gate(session, allowed) == Admitted
    ensures s.SignedIn? ==> allowed == Some(s.email)
    ensures s.SignedIn? && UserName in session && session[UserName].Text? ==> s.name == session[UserName].text
    ensures s.SignedIn? && UserName !in session ==> s.name == ""
  {
    if UserEmail in session && allowed.Some? && session[UserEmail] == Text(allowed.value) then
      SignedIn(allowed.value, if UserName in session && session[UserName].Text? then session[UserName].text else "")
    else SignedOut
  }

  /** The session entries the callback writes for a verified user. */
  function SignedInSession(session: Session, info: Userinfo): (s: Session)
    ensures s.Keys == session.Keys + {UserEmail, UserName, PermanentFlag}
    ensures s[UserEmail] == Text(info.email) && s[UserName] == Text(info.givenName) && s[PermanentFlag] == Flag(true)
    ensures forall k :: k in session && k !in {UserEmail, UserName, PermanentFlag} ==> s[k] == session[k]
  {
    session[UserEmail := Text(info.email)][UserName := Text(info.givenName)][PermanentFlag := Flag(true)]
  }

  /** Where the callback sends a verified user: the admin page for the
      allowed email, compared exactly, and the unauthorized page for any other. */
  function Landing(info: Userinfo, allowed: Option<string>): (page: string)
    ensures page == AdminPage <==> allowed.Some? && allowed.value == info.email
    ensures page == UnauthorizedPage <==> allowed != Some(info.email)
  {
    if allowed == Some(info.email) then AdminPage else UnauthorizedPage
  }

  /** After a verified sign-in the gate decides by the email alone: it admits
      the allowed user, whom the callback sent to the admin page, and refuses
      (403) any other, whom it sent to the unauthorized page, although that
      user holds a session. */
  lemma {:induction false} SignInDecidesAccess(session: Session, info: Userinfo, allowed: Option<string>)
    ensures var s := SignedInSession(session, info);
      && Gate(s, allowed) != Unauthenticated
      && (Gate(s, allowed) == Admitted <==> allowed == Some(info.email))
      && (Gate(s, allowed) == Admitted <==> Landing(info, allowed) == AdminPage)
  {
    var s := SignedInSession(session, info);
    assert UserEmail in s && s[UserEmail] == Text(info.email);
  }

  /** `auth_status` right after a verified sign-in reports the signed-in
      user's email and given name when the email is the allowed one, and
      reports not authenticated otherwise. */
  lemma {:induction false} SignInThenStatus(session: Session, info: Userinfo, allowed: Option<string>)
    ensures AuthStatusOf(SignedInSession(session, info), allowed)
      == if allowed == Some(info.email) then SignedIn(info.email, info.givenName) else SignedOut
  {
    var s := SignedInSession(session, info);
    assert UserEmail in s && s[UserEmail] == Text(info.email);
    assert UserName in s && s[UserName] == Text(info.givenName);
  }

  /** An emptied session is signed out and refused with 401. */
  lemma ClearedSessionIsSignedOut(allowed: Option<string>)
    ensures Gate(map[], allowed) == Unauthenticated
    ensures AuthStatusOf(map[], allowed) == SignedOut
  {
  }

  // ---------------------------------------------------------------------------
  // The application state: the meals table and the session

  class MealTracker {
    /** ALLOWED_EMAIL from the environment; absent when it is not set. */
    const allowedEmail: Option<string>
    /** The `meals` table, in insertion order. */
    var meals: seq<MealEvent>
    /** The next AUTOINCREMENT id. */
    var nextId: nat
    var session: Session

    /** Ids are assigned in increasing order and all lie below `nextId`. */
    ghost predicate Valid()
      reads this
    {
      && (forall i, j :: 0 <= i < j < |meals| ==> meals[i].id < meals[j].id)
      && (forall i :: 0 <= i < |meals| ==> meals[i].id < nextId)
    }

    constructor (allowed: Option<string>)
      ensures Valid()
      ensures allowedEmail == allowed && meals == [] && nextId == 1 && session == map[]
    {
      allowedEmail := allowed;
      meals := [];
      nextId := 1;
      session := map[];
    }

    /** GET /api/meals: reads the table and changes nothing. */
    method GetMealStatus(now: Instant) returns (v: StatusView)
      ensures meals == [] ==> v == Reported(false, None)
      ensures meals != [] ==> exists e :: IsLatest(meals, e) && v == Derive(Some(e), now)
    {
      v := MealStatus(meals, now);
    }

    /** POST /api/meals behind `login_required`: refused requests change
        nothing; an admitted one appends exactly one row, with `ate` false
        when absent and the caller's timestamp when given, else `now`, and
        echoes both. */
    method LogMeal(body: MealRequest, now: Instant) returns (r: LogReply)
      requires Valid()
      modifies this
      ensures Valid()
      ensures session == old(session)
      ensures Gate(session, allowedEmail) != Admitted ==>
        r == Refused(Gate(session, allowedEmail)) && meals == old(meals) && nextId == old(nextId)
      ensures Gate(session, allowedEmail) == Admitted ==>
        var ate := if body.ate.Some? then body.ate.value else false;
        var ts := if body.timestamp.Some? then body.timestamp.value else now;
        && r == Logged(ate, ts)
        && meals == old(meals) + [MealEvent(old(nextId), ate, ts)]
        && nextId > old(nextId)
    {
      var access := Gate(session, allowedEmail);
      if access != Admitted {
        return Refused(access);
      }
      var ate := match body.ate case Some(a) => a case None => false;
      var timestamp := match body.timestamp case Some(t) => t case None => now;
      meals := meals + [MealEvent(nextId, ate, timestamp)];
      nextId := nextId + 1;
      r := Logged(ate, timestamp);
    }

    /** The decision part of the login callback, once the provider has
        answered: 400 and no change for an unverified email; otherwise the
        session is written, whoever the user is, and the redirect depends on
        whether the email is the allowed one. */
    method Callback(info: Userinfo) returns (r: CallbackReply)
      modifies this`session
      ensures !info.emailVerified ==> r == NotVerified && session == old(session)
      ensures info.emailVerified ==>
        && session == SignedInSession(old(session), info)
        && r == Redirect(Landing(info, allowedEmail))
        && (r == Redirect(AdminPage) <==> Gate(session, allowedEmail) == Admitted)
    {
      if !info.emailVerified {
        return NotVerified;
      }
      session := session[UserEmail := Text(info.email)];
      session := session[UserName := Text(info.givenName)];
      session := session[PermanentFlag := Flag(true)];
      SignInDecidesAccess(old(session), info, allowedEmail);
      if Some(info.email) == allowedEmail {
        r := Redirect(AdminPage);
      } else {
        r := Redirect(UnauthorizedPage);
      }
    }

    /** POST /api/auth/logout: the session is emptied, whatever it held, so a
        second logout finds it already empty and leaves it so. */
    method Logout()
      modifies this`session
      ensures session == map[]
      ensures Gate(session, allowedEmail) == Unauthenticated
    {
      session := map[];
    }
  }
}
