/** The session record stored under `userSession` and its 30-day expiry rule. */
module Sessions {
  import opened Wrappers

  /** Times are milliseconds since the epoch. */
  datatype Session = Session(email: string, loginTime: int, lastActivity: int, persistent: bool)

  /** What the `userSession` key holds: a parsable record, or text `JSON.parse` rejects. */
  datatype SessionText = Json(session: Session) | Garbled

  /** 30 days in milliseconds. */
  const MaxSessionAge: int := 30 * 24 * 60 * 60 * 1000

  /** `setUserSession`'s record: login and last activity both `now`, persistent. */
  function NewSession(email: string, now: int): Session {
    Session(email, now, now, true)
  }

  /** `isSessionValid`'s expiry test: the age strictly exceeds 30 days. */
  predicate Expired(s: Session, now: int) {
    now - s.loginTime > MaxSessionAge
  }

  /** What `getUserSession` reads: garbled text reads as no session. */
  function ParseSession(slot: Option<SessionText>): (r: Option<Session>)
    ensures r.Some? <==> slot.Some? && slot.value.Json?
    ensures r.Some? ==> r.value == slot.value.session
  {
    if slot.Some? && slot.value.Json? then Some(slot.value.session) else None
  }

  /**
   * A session created at time `t` is still valid exactly 30 days later and
   * at 29 days, and expired one millisecond after 30 days and at 31 days.
   */
  lemma ExpiryBoundary(email: string, t: int)
    ensures !Expired(NewSession(email, t), t + MaxSessionAge)
    ensures !Expired(NewSession(email, t), t + 29 * 24 * 60 * 60 * 1000)
    ensures Expired(NewSession(email, t), t + MaxSessionAge + 1)
    ensures Expired(NewSession(email, t), t + 31 * 24 * 60 * 60 * 1000)
  {
  }

  /** Refreshing the activity time never changes whether a session has expired. */
  lemma ActivityDoesNotExtend(s: Session, later: int, now: int)
    ensures Expired(s.(lastActivity := later), now) <==> Expired(s, now)
  {
  }
}
