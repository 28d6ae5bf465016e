/**
 * `SessionManager`: an in-memory table of sessions keyed by session id, and beside it
 * each user's single active session. Sessions last 24 hours and count the documents
 * uploaded into them. The clock and the UUID parser are inputs: every operation that
 * reads `datetime.utcnow()` takes `now` (microseconds), the manager is built with the
 * predicate `uuid.UUID(...)` succeeds on, and `create_session` is given the id that
 * `uuid4()` would have produced. Removing a session's directory is not modelled.
 */
module Sessions {
  import opened Wrappers
  import opened Constants

  /** One entry of `_sessions`. */
  datatype Session = Session(userId: string, createdAt: int, expiresAt: int, documentCount: nat)

  /** The `ValueError`s `create_session` raises. */
  datatype SessionError = InvalidUserId | InvalidSessionId | SessionIdInUse

  /** `_sessions` and `_user_sessions` together. */
  datatype Table = Table(sessions: map<string, Session>, userSessions: map<string, string>)

  /** Every user's active session exists and belongs to that user. */
  predicate Consistent(t: Table) {
    forall u | u in t.userSessions :: t.userSessions[u] in t.sessions && t.sessions[t.userSessions[u]].userId == u
  }

  // ---------------------------------------------------------------------------
  // The operations on the table

  /** `expire_session`. */
  function Expire(t: Table, sid: string): Table {
    if sid !in t.sessions then t
    else
      var u := t.sessions[sid].userId;
      var users := if u in t.userSessions && t.userSessions[u] == sid then t.userSessions - {u} else t.userSessions;
      Table(t.sessions - {sid}, users)
  }

  /** `get_session` finds `sid` well-formed, present and not past its expiry. */
  predicate Live(t: Table, validUuid: string -> bool, sid: string, now: int) {
    validUuid(sid) && sid in t.sessions && !(now > t.sessions[sid].expiresAt)
  }

  /** `get_session`: the table afterwards and the session returned. */
  function Lookup(t: Table, validUuid: string -> bool, sid: string, now: int): (Table, Option<Session>) {
    if !validUuid(sid) || sid !in t.sessions then (t, None)
    else if now > t.sessions[sid].expiresAt then (Expire(t, sid), None)
    else (t, Some(t.sessions[sid]))
  }

  /**
   * `create_session`: the table afterwards and the new id or the error raised. The
   * user's previous session is expired before the custom id is checked, so an error
   * can still leave the table changed.
   */
  function Create(t: Table, validUuid: string -> bool, userId: string, sessionId: Option<string>, generated: string, now: int)
    : (Table, Result<string, SessionError>)
  {
    if !validUuid(userId) then (t, Failure(InvalidUserId))
    else
      var t1 := if userId in t.userSessions then Expire(t, t.userSessions[userId]) else t;
      if sessionId.Some? && sessionId.value != [] && !validUuid(sessionId.value) then (t1, Failure(InvalidSessionId))
      else
        var newId := if sessionId.Some? && sessionId.value != [] then sessionId.value else generated;
        if newId in t1.sessions then (t1, Failure(SessionIdInUse))
        else
          var s := Session(userId, now, now + SessionLifetime, 0);
          (Table(t1.sessions[newId := s], t1.userSessions[userId := newId]), Success(newId))
  }

  /** `validate_session_access`. */
  function Access(t: Table, validUuid: string -> bool, userId: string, sid: string, now: int): (Table, bool) {
    var (t1, s) := Lookup(t, validUuid, sid, now);
    (t1, s.Some? && s.value.userId == userId)
  }

  /** `increment_document_count`. */
  function Increment(t: Table, validUuid: string -> bool, sid: string, now: int): Table {
    var (t1, s) := Lookup(t, validUuid, sid, now);
    if s.Some? then t1.(sessions := t1.sessions[sid := s.value.(documentCount := s.value.documentCount + 1)]) else t1
  }

  /** `get_document_count`. */
  function DocumentCount(t: Table, validUuid: string -> bool, sid: string, now: int): (Table, nat) {
    var (t1, s) := Lookup(t, validUuid, sid, now);
    (t1, if s.Some? then s.value.documentCount else 0)
  }

  /** The ids `cleanup_expired_sessions` collects. */
  function ExpiredIds(t: Table, now: int): set<string> {
    set sid | sid in t.sessions && now > t.sessions[sid].expiresAt
  }

  /** The table without the sessions in `ids` and without the users whose active session is one of them. */
  function Without(t: Table, ids: set<string>): Table {
    Table(
      map sid | sid in t.sessions && sid !in ids :: t.sessions[sid],
      map u | u in t.userSessions && t.userSessions[u] !in ids :: t.userSessions[u])
  }

  // ---------------------------------------------------------------------------
  // The manager

  class SessionManager {
    var sessions: map<string, Session>
    var userSessions: map<string, string>
    /** Whether `uuid.UUID(s)` accepts `s`. */
    const validUuid: string -> bool

    function State(): Table
      reads this
    {
      Table(sessions, userSessions)
    }

    ghost predicate Valid()
      reads this
    {
      Consistent(State())
    }

    constructor (validUuid: string -> bool)
      ensures Valid() && State() == Table(map[], map[]) && this.validUuid == validUuid
    {
      sessions := map[];
      userSessions := map[];
      this.validUuid := validUuid;
    }

    method ExpireSession(sid: string)
      requires Valid()
      modifies this
      ensures Valid() && State() == Expire(old(State()), sid)
    {
      ExpireConsistent(State(), sid);
      if sid !in sessions {
        return;
      }
      var userId := sessions[sid].userId;
      if userId in userSessions {
        if userSessions[userId] == sid {
          userSessions := userSessions - {userId};
        }
      }
      sessions := sessions - {sid};
    }

    method GetSession(sid: string, now: int) returns (session: Option<Session>)
      requires Valid()
      modifies this
      ensures Valid() && (State(), session) == Lookup(old(State()), validUuid, sid, now)
    {
      if !validUuid(sid) {
        return None;
      }
      if sid !in sessions {
        return None;
      }
      var s := sessions[sid];
      if now > s.expiresAt {
        ExpireSession(sid);
        return None;
      }
      return Some(s);
    }

    method SessionExists(sid: string, now: int) returns (found: bool)
      requires Valid()
      modifies this
      ensures Valid() && (State(), found) == (Lookup(old(State()), validUuid, sid, now).0, Live(old(State()), validUuid, sid, now))
    {
      var s := GetSession(sid, now);
      found := s.Some?;
    }

    method CreateSession(userId: string, sessionId: Option<string>, generated: string, now: int)
      returns (r: Result<string, SessionError>)
      requires Valid()
      modifies this
      ensures Valid() && (State(), r) == Create(old(State()), validUuid, userId, sessionId, generated, now)
    {
      CreateConsistent(State(), validUuid, userId, sessionId, generated, now);
      if !validUuid(userId) {
        return Failure(InvalidUserId);
      }
      if userId in userSessions {
        var oldSessionId := userSessions[userId];
        ExpireSession(oldSessionId);
      }
      var newSessionId: string;
      if sessionId.Some? && sessionId.value != [] {
        if !validUuid(sessionId.value) {
          return Failure(InvalidSessionId);
        }
        newSessionId := sessionId.value;
      } else {
        newSessionId := generated;
      }
      if newSessionId in sessions {
        return Failure(SessionIdInUse);
      }
      sessions := sessions[newSessionId := Session(userId, now, now + SessionLifetime, 0)];
      userSessions := userSessions[userId := newSessionId];
      return Success(newSessionId);
    }

    method ValidateSessionAccess(userId: string, sid: string, now: int) returns (ok: bool)
      requires Valid()
      modifies this
      ensures Valid() && (State(), ok) == Access(old(State()), validUuid, userId, sid, now)
    {
      var s := GetSession(sid, now);
      if s.None? {
        return false;
      }
      if s.value.userId != userId {
        return false;
      }
      return true;
    }

    method IncrementDocumentCount(sid: string, now: int)
      requires Valid()
      modifies this
      ensures Valid() && State() == Increment(old(State()), validUuid, sid, now)
    {
      var s := GetSession(sid, now);
      if s.Some? {
        IncrementConsistent(State(), sid, s.value);
        sessions := sessions[sid := s.value.(documentCount := s.value.documentCount + 1)];
      }
    }

    method GetDocumentCount(sid: string, now: int) returns (count: nat)
      requires Valid()
      modifies this
      ensures Valid() && (State(), count) == DocumentCount(old(State()), validUuid, sid, now)
    {
      var s := GetSession(sid, now);
      count := if s.Some? then s.value.documentCount else 0;
    }

    /** Expires the collected ids one at a time, in whatever order the table yields them. */
    method CleanupExpiredSessions(now: int)
      requires Valid()
      modifies this
      ensures Valid() && State() == Without(old(State()), ExpiredIds(old(State()), now))
    {
      ghost var start := State();
      var expired := set sid | sid in sessions && now > sessions[sid].expiresAt;
      WithoutNothing(start);
      while expired != {}
        invariant expired <= ExpiredIds(start, now)
        invariant State() == Without(start, ExpiredIds(start, now) - expired)
        invariant Valid()
        decreases |expired|
      {
        var sid :| sid in expired;
        ghost var done := ExpiredIds(start, now) - expired;
        WithoutExpire(start, done, sid);
        ExpireSession(sid);
        expired := expired - {sid};
        assert ExpiredIds(start, now) - expired == done + {sid};
      }
    }
  }

  // ---------------------------------------------------------------------------
  // What the operations guarantee

  /** `expire_session` keeps every active session owned by its user. */
  lemma ExpireConsistent(t: Table, sid: string)
    requires Consistent(t)
    ensures Consistent(Expire(t, sid))
  {
    var r := Expire(t, sid);
    forall u | u in r.userSessions ensures r.userSessions[u] in r.sessions && r.sessions[r.userSessions[u]].userId == u {
      assert u in t.userSessions && r.userSessions[u] == t.userSessions[u];
    }
  }

  /**
   * An unknown id changes nothing. Otherwise exactly that session goes, and a user
   * loses their active session exactly when it was this one.
   */
  lemma ExpireEffect(t: Table, sid: string)
    requires Consistent(t)
    ensures sid !in t.sessions ==> Expire(t, sid) == t
    ensures sid !in Expire(t, sid).sessions
    ensures forall s | s != sid :: (s in Expire(t, sid).sessions <==> s in t.sessions)
    ensures forall s | s != sid && s in t.sessions :: Expire(t, sid).sessions[s] == t.sessions[s]
    ensures forall u :: u in Expire(t, sid).userSessions <==> u in t.userSessions && t.userSessions[u] != sid
    ensures forall u | u in Expire(t, sid).userSessions :: Expire(t, sid).userSessions[u] == t.userSessions[u]
  {
  }

  /**
   * `get_session` returns the session exactly when the id is well-formed, known and
   * not past expiry, and then changes nothing; a known, well-formed but expired id is
   * expired on the way.
   */
  lemma LookupSpec(t: Table, validUuid: string -> bool, sid: string, now: int)
    ensures Lookup(t, validUuid, sid, now).1.Some? <==> Live(t, validUuid, sid, now)
    ensures Live(t, validUuid, sid, now) ==> Lookup(t, validUuid, sid, now) == (t, Some(t.sessions[sid]))
    ensures !Live(t, validUuid, sid, now) && validUuid(sid) && sid in t.sessions
      ==> Lookup(t, validUuid, sid, now).0 == Expire(t, sid)
    ensures !(validUuid(sid) && sid in t.sessions) ==> Lookup(t, validUuid, sid, now).0 == t
  {
  }

  lemma LookupConsistent(t: Table, validUuid: string -> bool, sid: string, now: int)
    requires Consistent(t)
    ensures Consistent(Lookup(t, validUuid, sid, now).0)
  {
    if validUuid(sid) && sid in t.sessions && now > t.sessions[sid].expiresAt {
      ExpireConsistent(t, sid);
    }
  }

  /** `create_session` keeps every active session owned by its user, whatever it returns. */
  lemma CreateConsistent(t: Table, validUuid: string -> bool, userId: string, sessionId: Option<string>, generated: string, now: int)
    requires Consistent(t)
    ensures Consistent(Create(t, validUuid, userId, sessionId, generated, now).0)
  {
    if validUuid(userId) {
      var t1 := if userId in t.userSessions then Expire(t, t.userSessions[userId]) else t;
      if userId in t.userSessions {
        ExpireConsistent(t, t.userSessions[userId]);
      }
      var (r, res) := Create(t, validUuid, userId, sessionId, generated, now);
      if res.Success? {
        var newId := res.value;
        forall u | u in r.userSessions ensures r.userSessions[u] in r.sessions && r.sessions[r.userSessions[u]].userId == u {
          if u != userId {
            assert t1.userSessions[u] in t1.sessions;
            assert t1.userSessions[u] != newId;
          }
        }
      }
    }
  }

  /** A malformed user id raises and leaves the table as it was. */
  lemma CreateRejectsUser(t: Table, validUuid: string -> bool, userId: string, sessionId: Option<string>, generated: string, now: int)
    requires !validUuid(userId)
    ensures Create(t, validUuid, userId, sessionId, generated, now) == (t, Failure(InvalidUserId))
  {
  }

  /**
   * A malformed custom id raises only after the user's previous session has been
   * expired, so that session is gone even though creation failed.
   */
  lemma CreateExpiresFirst(t: Table, validUuid: string -> bool, userId: string, custom: string, generated: string, now: int)
    requires Consistent(t) && validUuid(userId) && userId in t.userSessions
    requires custom != [] && !validUuid(custom)
    ensures var (r, res) := Create(t, validUuid, userId, Some(custom), generated, now);
      && res == Failure(InvalidSessionId)
      && t.userSessions[userId] !in r.sessions
      && userId !in r.userSessions
  {
    ExpireEffect(t, t.userSessions[userId]);
  }

  /**
   * On success the user's previous session is gone, and the new one, owned by the
   * user with no documents, lasts exactly 24 hours and is the user's active session;
   * its id was free once the previous session was gone. Every other session and every
   * other user's active session stay as they were, and no other session appears.
   */
  lemma CreateSuccess(t: Table, validUuid: string -> bool, userId: string, sessionId: Option<string>, generated: string, now: int)
    requires Consistent(t)
    requires Create(t, validUuid, userId, sessionId, generated, now).1.Success?
    ensures var (r, res) := Create(t, validUuid, userId, sessionId, generated, now);
      var id := res.value;
      && validUuid(userId)
      && id == (if sessionId.Some? && sessionId.value != [] then sessionId.value else generated)
      && (id !in t.sessions || (userId in t.userSessions && id == t.userSessions[userId]))
      && r.sessions[id] == Session(userId, now, now + 24 * 60 * 60 * 1000000, 0)
      && r.sessions[id].expiresAt - r.sessions[id].createdAt == SessionLifetime
      && r.userSessions[userId] == id
      && (userId in t.userSessions && t.userSessions[userId] != id ==> t.userSessions[userId] !in r.sessions)
      && (forall s | s in t.sessions && s != id && !(userId in t.userSessions && s == t.userSessions[userId]) ::
            s in r.sessions && r.sessions[s] == t.sessions[s])
      && (forall s | s in r.sessions && s != id :: s in t.sessions)
      && (forall u | u != userId :: (u in r.userSessions <==> u in t.userSessions))
      && (forall u | u != userId && u in t.userSessions :: r.userSessions[u] == t.userSessions[u])
  {
    if userId in t.userSessions {
      ExpireEffect(t, t.userSessions[userId]);
    }
  }

  /** Access is granted exactly to the owner of a live session. */
  lemma AccessIff(t: Table, validUuid: string -> bool, userId: string, sid: string, now: int)
    ensures Access(t, validUuid, userId, sid, now).1 <==> Live(t, validUuid, sid, now) && t.sessions[sid].userId == userId
    ensures Access(t, validUuid, userId, sid, now).0 == Lookup(t, validUuid, sid, now).0
  {
  }

  lemma IncrementConsistent(t: Table, sid: string, s: Session)
    requires Consistent(t) && sid in t.sessions && t.sessions[sid].userId == s.userId
    ensures Consistent(t.(sessions := t.sessions[sid := s.(documentCount := s.documentCount + 1)]))
  {
  }

  /**
   * A live session's count rises by exactly one and nothing else changes; otherwise
   * the call does what `get_session` does and no count changes.
   */
  lemma IncrementSpec(t: Table, validUuid: string -> bool, sid: string, now: int)
    ensures var r := Increment(t, validUuid, sid, now);
      Live(t, validUuid, sid, now) ==>
        && r.userSessions == t.userSessions
        && r.sessions.Keys == t.sessions.Keys
        && r.sessions[sid] == t.sessions[sid].(documentCount := t.sessions[sid].documentCount + 1)
        && forall s | s in t.sessions && s != sid :: r.sessions[s] == t.sessions[s]
    ensures !Live(t, validUuid, sid, now) ==> Increment(t, validUuid, sid, now) == Lookup(t, validUuid, sid, now).0
  {
  }

  /** The count of a session that is not live reads as 0. */
  lemma DocumentCountSpec(t: Table, validUuid: string -> bool, sid: string, now: int)
    ensures DocumentCount(t, validUuid, sid, now).1 == if Live(t, validUuid, sid, now) then t.sessions[sid].documentCount else 0
  {
  }

  lemma WithoutNothing(t: Table)
    ensures Without(t, {}) == t
  {
    assert Without(t, {}).sessions == t.sessions;
    assert Without(t, {}).userSessions == t.userSessions;
  }

  /** Expiring one more collected id from the partly cleaned table. */
  lemma WithoutExpire(t: Table, done: set<string>, sid: string)
    requires Consistent(t) && sid in t.sessions && sid !in done
    ensures Expire(Without(t, done), sid) == Without(t, done + {sid})
  {
    var w := Without(t, done);
    var a := Expire(w, sid);
    var b := Without(t, done + {sid});
    assert a.sessions == b.sessions;
    forall u ensures u in a.userSessions <==> u in b.userSessions {
      if u in t.userSessions && t.userSessions[u] == sid {
        assert t.sessions[sid].userId == u;
      }
    }
    assert a.userSessions == b.userSessions;
  }

  /** Cleaning up keeps every active session owned by its user. */
  lemma WithoutConsistent(t: Table, ids: set<string>)
    requires Consistent(t)
    ensures Consistent(Without(t, ids))
  {
  }

  /**
   * `cleanup_expired_sessions` removes exactly the sessions whose expiry `now` has
   * passed, keeps the others as they were, and drops exactly the users whose active
   * session was removed.
   */
  lemma CleanupSpec(t: Table, now: int)
    ensures var r := Without(t, ExpiredIds(t, now));
      && (forall sid :: sid in r.sessions <==> sid in t.sessions && !(now > t.sessions[sid].expiresAt))
      && (forall sid | sid in r.sessions :: r.sessions[sid] == t.sessions[sid])
      && (forall u :: u in r.userSessions <==> u in t.userSessions && t.userSessions[u] !in ExpiredIds(t, now))
  {
  }

  // ---------------------------------------------------------------------------
  // Removing a session's directory, as written

  /**
   * `expire_session` as written: the table afterwards, and whether a `TypeError` leaves
   * the call. Once the session is gone from both tables, `_cleanup_session_directory`
   * runs; when the directory exists and `shutil.rmtree` raises, its handler calls
   * `log_error` without the exception argument that function requires, and that call
   * raises. `removalFails` says whether the directory exists and removing it raises.
   */
  function ExpireAsWritten(t: Table, sid: string, removalFails: bool): (Table, bool) {
    if sid !in t.sessions then (t, false) else (Expire(t, sid), removalFails)
  }

  /**
   * `get_session` as written: the table afterwards, and the session found or the
   * `TypeError` that expiring a stale session let through.
   */
  function LookupAsWritten(t: Table, validUuid: string -> bool, sid: string, now: int, removalFails: bool)
    : (Table, Result<Option<Session>, string>)
  {
    if !validUuid(sid) || sid !in t.sessions then (t, Success(None))
    else if now > t.sessions[sid].expiresAt then
      var (t1, raised) := ExpireAsWritten(t, sid, removalFails);
      (t1, if raised then Failure("TypeError") else Success(None))
    else (t, Success(Some(t.sessions[sid])))
  }

  /**
   * The discrepancy: looking up a well-formed, known but expired session whose directory
   * cannot be removed raises as written, after the session has been removed, where the
   * intended lookup expires it the same way and reports no session. In every other case
   * the two agree.
   */
  lemma LookupAsWrittenRaises(t: Table, validUuid: string -> bool, sid: string, now: int, removalFails: bool)
    ensures var (t1, res) := LookupAsWritten(t, validUuid, sid, now, removalFails);
      && t1 == Lookup(t, validUuid, sid, now).0
      && (res.Failure? <==> removalFails && validUuid(sid) && sid in t.sessions && now > t.sessions[sid].expiresAt)
      && (res.Success? ==> res.value == Lookup(t, validUuid, sid, now).1)
    ensures removalFails && validUuid(sid) && sid in t.sessions && now > t.sessions[sid].expiresAt ==>
      && sid !in LookupAsWritten(t, validUuid, sid, now, removalFails).0.sessions
      && Lookup(t, validUuid, sid, now).1 == None
  {
  }
}

