/**
 * Durable sessions: every session is also saved as a `UserSession` record in a
 * store, looked up by first match on its session id, checked for expiry the way
 * the expiring sessions are, and removed on logout.
 */
module DurableSessions {
  import opened Wrappers
  import opened Requests
  import opened ExpiringSessions
  import IntParse

  /** A saved session record; the store sets its creation time when it is made. */
  datatype UserSession = UserSession(userId: Option<string>, sessionId: Option<string>, createdAt: int)

  /** The index of the first record with that session id: the first element a search returns. */
  function FirstSession(records: seq<UserSession>, sessionId: string): (k: Option<nat>)
    ensures k.Some? ==> k.value < |records| && records[k.value].sessionId == Some(sessionId)
    ensures k.Some? ==> forall j :: 0 <= j < k.value ==> records[j].sessionId != Some(sessionId)
    ensures k.None? ==> forall j :: 0 <= j < |records| ==> records[j].sessionId != Some(sessionId)
  {
    FirstWhere(records, (r: UserSession) => r.sessionId == Some(sessionId))
  }

  /**
   * The store-backed authenticator. `exp` is the part it inherits from the
   * expiring-session authenticator: the configured duration and the shared
   * in-memory map, which it still writes on login.
   */
  class SessionDBAuth {
    const exp: SessionExpAuth
    var records: seq<UserSession>

    constructor (rawDuration: Option<string>, sessions: map<string, SessionEntry>, stored: seq<UserSession>)
      ensures fresh(exp)
      ensures exp.sessionDuration == DurationFromConfig(rawDuration) && exp.userIdBySessionId == sessions
      ensures records == stored
    {
      exp := new SessionExpAuth(rawDuration, sessions);
      records := stored;
    }

    /**
     * `create_session`: the inherited creation, then one new record with the
     * user id and the session id appended to the store; nothing is saved when
     * the inherited creation gives None.
     */
    method CreateSession(userId: Option<string>, generated: Option<string>, now: int)
      returns (sessionId: Option<string>)
      modifies this, exp
      ensures sessionId == generated
      ensures exp.sessionDuration == old(exp.sessionDuration)
      ensures generated.None? ==> records == old(records) && exp.userIdBySessionId == old(exp.userIdBySessionId)
      ensures generated.Some? ==> records == old(records) + [UserSession(userId, generated, now)]
      ensures generated.Some? ==>
                exp.userIdBySessionId == old(exp.userIdBySessionId)[generated.value := SessionEntry(userId, Some(now))]
    {
      sessionId := exp.CreateSession(userId, generated, now);
      if sessionId.None? {
        return;
      }
      records := records + [UserSession(userId, sessionId, now)];
    }

    /**
     * `user_id_for_session_id`: the user id of the first record with that session
     * id, when it is valid at `now` under the configured duration.
     */
    function UserIdForSessionId(sessionId: Option<string>, now: int): (r: Option<string>)
      reads this, exp
      ensures r.Some? <==> sessionId.Some? && FirstSession(records, sessionId.value).Some?
                           && records[FirstSession(records, sessionId.value).value].userId.Some?
                           && ValidAt(Some(records[FirstSession(records, sessionId.value).value].createdAt),
                                      exp.sessionDuration, now)
      ensures r.Some? ==> r == records[FirstSession(records, sessionId.value).value].userId
    {
      if sessionId.None? then None
      else match FirstSession(records, sessionId.value)
        case None => None
        case Some(k) =>
          if exp.sessionDuration <= 0 then records[k].userId
          else if Expired(records[k].createdAt, exp.sessionDuration, now) then None
          else records[k].userId
    }

    /**
     * `destroy_session`: removes the first record holding the request's session
     * cookie, provided that session still resolves to a user at `now`; answers
     * whether it removed one. `cookieName` is the configured session cookie name.
     */
    method DestroySession(request: Option<Request>, cookieName: string, now: int) returns (destroyed: bool)
      modifies this
      ensures destroyed <==> request.Some? && CookieGet(request.value, cookieName).Some?
                             && old(UserIdForSessionId(CookieGet(request.value, cookieName), now)).Some?
      ensures !destroyed ==> records == old(records)
      ensures destroyed ==>
                var k := FirstSession(old(records), CookieGet(request.value, cookieName).value).value;
                records == old(records)[..k] + old(records)[k + 1..]
    {
      if request.None? {
        return false;
      }
      var sessionId := CookieGet(request.value, cookieName);
      if sessionId.None? {
        return false;
      }
      var userId := UserIdForSessionId(sessionId, now);
      if userId.None? {
        return false;
      }
      // the store is the one just searched, so the search finds the record again
      var k := FirstSession(records, sessionId.value).value;
      records := records[..k] + records[k + 1..];
      return true;
    }
  }

  /** Removing the first record with a session id takes out exactly that record. */
  lemma {:induction false} RemovalTakesOneRecord(records: seq<UserSession>, sessionId: string)
    requires FirstSession(records, sessionId).Some?
    ensures var k := FirstSession(records, sessionId).value;
            var after := records[..k] + records[k + 1..];
            |after| == |records| - 1 &&
            multiset(after) + multiset{records[k]} == multiset(records) &&
            records[k].sessionId == Some(sessionId)
  {
    var k := FirstSession(records, sessionId).value;
    assert records == records[..k] + [records[k]] + records[k + 1..];
  }

  /** When session ids are unique in the store, a destroyed session no longer resolves. */
  lemma DestroyedSessionIsGone(records: seq<UserSession>, sessionId: string)
    requires FirstSession(records, sessionId).Some?
    requires forall i, j :: 0 <= i < j < |records| && records[i].sessionId == Some(sessionId)
                            ==> records[j].sessionId != Some(sessionId)
    ensures var k := FirstSession(records, sessionId).value;
            FirstSession(records[..k] + records[k + 1..], sessionId).None?
  {
    var k := FirstSession(records, sessionId).value;
    var after := records[..k] + records[k + 1..];
    forall j | 0 <= j < |after|
      ensures after[j].sessionId != Some(sessionId)
    {
      if j < k {
        assert after[j] == records[j];
      } else {
        assert after[j] == records[j + 1];
      }
    }
  }

  /**
   * The logout scenario on the store: a session created at `t0` with a positive
   * duration can be destroyed before its deadline, and cannot after it.
   */
  method LogoutScenario(t0: int) returns (late: bool, onTime: bool)
    ensures !late && onTime
  {
    IntParse.ParseShow(60);
    assert IntParse.Show(60) == "60";
    var request := Request([], map["session_id" := "sid-1"]);
    var stale := new SessionDBAuth(Some("60"), map[], []);
    var s := stale.CreateSession(Some("user-1"), Some("sid-1"), t0);
    late := stale.DestroySession(Some(request), "session_id", t0 + 61 * MicrosPerSecond);
    assert !late && |stale.records| == 1;
    var auth := new SessionDBAuth(Some("60"), map[], []);
    s := auth.CreateSession(Some("user-1"), Some("sid-1"), t0);
    onTime := auth.DestroySession(Some(request), "session_id", t0 + 60 * MicrosPerSecond);
    assert onTime && auth.records == [];
  }
}
