/**
 * Expiring sessions: the in-memory map from session id to `{user_id, created_at}`
 * with a duration read once from the configuration, and lazy expiry: a lookup
 * compares the entry's age with the duration and never removes anything.
 */
module ExpiringSessions {
  import opened Wrappers
  import IntParse

  /** Timestamps are integer microseconds, the resolution of Python's datetime. */
  const MicrosPerSecond: int := 1_000_000

  /** One entry of the session map; either key of the stored dictionary may be missing. */
  datatype SessionEntry = SessionEntry(userId: Option<string>, createdAt: Option<int>)

  /** The configured duration: the integer value of `SESSION_DURATION`, 0 when unset or unparsable. */
  function DurationFromConfig(raw: Option<string>): (d: int)
    ensures raw.Some? && IntParse.ParseInt(raw.value).Some? ==> d == IntParse.ParseInt(raw.value).value
    ensures raw.None? || IntParse.ParseInt(raw.value).None? ==> d == 0
  {
    if raw.None? then 0
    else match IntParse.ParseInt(raw.value)
      case None => 0
      case Some(n) => n
  }

  /** Any integer written in the configuration is the duration used. */
  lemma DurationOfPrintedInteger(n: int)
    ensures DurationFromConfig(Some(IntParse.Show(n))) == n
  {
    IntParse.ParseShow(n);
  }

  /** The deadline has passed: creation time plus duration lies strictly before `now`. */
  predicate Expired(createdAt: int, duration: int, now: int) {
    createdAt + duration * MicrosPerSecond < now
  }

  /**
   * A session is valid at `now` when expiry is disabled (a duration of 0 or less),
   * or when it records its creation time and `now` is at or before its deadline.
   */
  predicate ValidAt(createdAt: Option<int>, duration: int, now: int) {
    duration <= 0 || (createdAt.Some? && !Expired(createdAt.value, duration, now))
  }

  class SessionExpAuth {
    var sessionDuration: int
    var userIdBySessionId: map<string, SessionEntry>

    /**
     * Reads the duration from the raw configuration value. The session map is
     * shared by every authenticator and is not reset here.
     */
    constructor (rawDuration: Option<string>, sessions: map<string, SessionEntry>)
      ensures sessionDuration == DurationFromConfig(rawDuration)
      ensures userIdBySessionId == sessions
    {
      sessionDuration := DurationFromConfig(rawDuration);
      userIdBySessionId := sessions;
    }

    /**
     * `create_session`: `generated` is the id the parent authenticator produced
     * for `userId`, or None when it refused. On success the entry for that id
     * becomes `{userId, now}` and no other entry changes.
     */
    method CreateSession(userId: Option<string>, generated: Option<string>, now: int)
      returns (sessionId: Option<string>)
      modifies this
      ensures sessionId == generated
      ensures sessionDuration == old(sessionDuration)
      ensures generated.None? ==> userIdBySessionId == old(userIdBySessionId)
      ensures generated.Some? ==>
                userIdBySessionId == old(userIdBySessionId)[generated.value := SessionEntry(userId, Some(now))]
    {
      sessionId := generated;
      if sessionId.None? {
        return;
      }
      userIdBySessionId := userIdBySessionId[sessionId.value := SessionEntry(userId, Some(now))];
    }

    /**
     * `user_id_for_session_id`: the stored user id when the entry exists and is
     * still valid at `now`. With a duration of 0 or less every entry is valid; with
     * a positive one, an entry is valid up to and including its deadline and only
     * if it records its creation time.
     */
    function UserIdForSessionId(sessionId: Option<string>, now: int): (r: Option<string>)
      reads this
      ensures r.Some? <==> sessionId.Some? && sessionId.value in userIdBySessionId
                           && userIdBySessionId[sessionId.value].userId.Some?
                           && ValidAt(userIdBySessionId[sessionId.value].createdAt, sessionDuration, now)
      ensures r.Some? ==> r == userIdBySessionId[sessionId.value].userId
    {
      if sessionId.None? then None
      else if sessionId.value !in userIdBySessionId then None
      else
        var entry := userIdBySessionId[sessionId.value];
        if sessionDuration <= 0 then entry.userId
        else if entry.createdAt.None? then None
        else if Expired(entry.createdAt.value, sessionDuration, now) then None
        else entry.userId
    }
  }

  /** Once a lookup fails it fails at every later time: an expired session never comes back. */
  lemma ExpiryIsPermanent(auth: SessionExpAuth, sessionId: Option<string>, now: int, later: int)
    requires now <= later
    requires auth.UserIdForSessionId(sessionId, now).None?
    ensures auth.UserIdForSessionId(sessionId, later).None?
  {
  }

  /** The deadline instant itself is still valid; one microsecond later the session has expired. */
  lemma DeadlineIsInclusive(auth: SessionExpAuth, sessionId: string, user: string, created: int)
    requires auth.sessionDuration > 0
    requires sessionId in auth.userIdBySessionId
    requires auth.userIdBySessionId[sessionId] == SessionEntry(Some(user), Some(created))
    ensures auth.UserIdForSessionId(Some(sessionId), created + auth.sessionDuration * MicrosPerSecond) == Some(user)
    ensures auth.UserIdForSessionId(Some(sessionId), created + auth.sessionDuration * MicrosPerSecond + 1) == None
  {
  }

  /** With expiry disabled the stored user id is returned at any time, even without a creation time. */
  lemma DisabledExpiryIgnoresAge(auth: SessionExpAuth, sessionId: string, now: int)
    requires auth.sessionDuration <= 0
    requires sessionId in auth.userIdBySessionId
    ensures auth.UserIdForSessionId(Some(sessionId), now) == auth.userIdBySessionId[sessionId].userId
  {
  }

  /**
   * The expiry scenario: with a one-second duration a fresh session resolves
   * half a second later, no longer resolves two seconds later, and its entry
   * is still stored.
   */
  method ExpiryScenario(t0: int) returns (early: Option<string>, late: Option<string>, kept: bool)
    ensures early == Some("user-1") && late == None && kept
  {
    IntParse.ParseShow(1);
    assert IntParse.Show(1) == "1";
    var auth := new SessionExpAuth(Some("1"), map[]);
    var s := auth.CreateSession(Some("user-1"), Some("sid-1"), t0);
    early := auth.UserIdForSessionId(s, t0 + 500_000);
    late := auth.UserIdForSessionId(s, t0 + 2_000_000);
    kept := "sid-1" in auth.userIdBySessionId;
  }
}
