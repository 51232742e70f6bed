/** `UserDBHandler`: registering users and logging them in. With the
    session query corrected, a login reuses the user's live session or
    replaces all of the user's sessions with a new one that runs for seven
    days; as written, it always replaces them. */
module Users {
  import opened Wrappers
  import opened Text
  import opened CivilTime
  import opened Errors
  import opened Common
  import opened Store

  datatype UserData = UserData(name: string, password: string)

  /** The length of a session id. */
  const SessionIdLength: nat := 10
  /** How many calendar days a new session runs. */
  const SessionDays: int := 7
  /** User ids are drawn from `[0, UserIdBound)`. */
  const UserIdBound: int := 10000

  const CreateUserFailed: string := "couldn't create new user: "
  const CreateSessionFailed: string := "couldn't create new session: "

  function SessionLookupFailed(userId: int): string {
    "error getting session with user id '" + FormatInt(userId) + "': "
  }

  function DeleteSessionsFailed(userId: int): string {
    "error deleting sessions for user with id '" + FormatInt(userId) + "': "
  }

  /** The row a new user is stored as: role and OAuth flag are left to the
      table's defaults, a plain user without OAuth. */
  function NewUser(id: int, name: string, hash: string): User {
    User(id, name, hash, USER, false)
  }

  /** No two users share a name. */
  predicate UniqueNames(users: seq<User>) {
    forall i, j :: 0 <= i < j < |users| ==> users[i].name != users[j].name
  }

  /** A session of `userId` that is still running at `now`. */
  predicate Live(s: SessionRow, userId: int, now: Instant) {
    s.userId == userId && After(s.expireAt, now)
  }

  /** The first live session of `userId`: the row `QueryRow` scans. */
  function FindLive(sessions: seq<SessionRow>, userId: int, now: Instant): (r: Option<nat>)
    ensures r.Some? ==> r.value < |sessions| && Live(sessions[r.value], userId, now)
    ensures r.Some? ==> forall j :: 0 <= j < r.value ==> !Live(sessions[j], userId, now)
    ensures r.None? ==> forall j :: 0 <= j < |sessions| ==> !Live(sessions[j], userId, now)
  {
    if |sessions| == 0 then None
    else if Live(sessions[0], userId, now) then Some(0)
    else
      match FindLive(sessions[1..], userId, now)
      case None => None
      case Some(i) => Some(i + 1)
  }

  /** `getActiveSession` as its query is meant to read (`userId = $1 AND
      expireAt > $2`): the id of the user's first live session, or a
      no-rows error. */
  function ActiveSession(sessions: seq<SessionRow>, userId: int, now: Instant): (r: Result<string, Error>)
    ensures r.Success? <==> exists s :: s in sessions && Live(s, userId, now)
    ensures r.Success? ==> exists s :: s in sessions && Live(s, userId, now) && s.sessionId == r.value
    ensures r.Failure? ==> r.error == Wrapped(SessionLookupFailed(userId), ErrNoRows)
  {
    match FindLive(sessions, userId, now)
    case Some(i) => Success(sessions[i].sessionId)
    case None => Failure(Wrapped(SessionLookupFailed(userId), ErrNoRows))
  }

  /** `getActiveSession` as written: its query uses `$1` for both the user id
      and the clock but is handed two arguments, which the driver refuses
      with an error (`driverError`) before any row is looked at. */
  function ActiveSessionAsWritten(sessions: seq<SessionRow>, userId: int, now: Instant, driverError: string)
    : (r: Result<string, Error>)
    ensures r.Failure? && Root(r.error) != NoRows
  {
    Failure(Wrapped(SessionLookupFailed(userId), Plain(driverError)))
  }

  /** A live session that the written lookup misses and the intended one finds. */
  lemma AsWrittenMissesLiveSession()
    ensures var sessions := [SessionRow("abcdefghij", 1, Instant(2024, 1, 8, 0))];
      ActiveSession(sessions, 1, Instant(2024, 1, 1, 0)) == Success("abcdefghij")
      && ActiveSessionAsWritten(sessions, 1, Instant(2024, 1, 1, 0), "").Failure?
  {
    var sessions := [SessionRow("abcdefghij", 1, Instant(2024, 1, 8, 0))];
    assert Live(sessions[0], 1, Instant(2024, 1, 1, 0));
  }

  /** The sessions table after `DELETE FROM sessions WHERE userId = ..`: the
      user's rows are gone and the others stay, in order. */
  function WithoutUser(sessions: seq<SessionRow>, userId: int): (r: seq<SessionRow>)
    ensures |r| <= |sessions|
    ensures forall s :: s in r <==> s in sessions && s.userId != userId
  {
    if |sessions| == 0 then []
    else
      var rest := WithoutUser(sessions[1..], userId);
      assert forall s :: s in sessions <==> s == sessions[0] || s in sessions[1..];
      if sessions[0].userId == userId then rest else [sessions[0]] + rest
  }

  /** No user holds two sessions. */
  predicate OneSessionPerUser(sessions: seq<SessionRow>) {
    forall i, j :: 0 <= i < j < |sessions| ==> sessions[i].userId != sessions[j].userId
  }

  lemma ConsOnePerUser(first: SessionRow, rest: seq<SessionRow>)
    requires OneSessionPerUser(rest)
    requires forall t :: t in rest ==> t.userId != first.userId
    ensures OneSessionPerUser([first] + rest)
  {
    var r := [first] + rest;
    forall i, j | 0 <= i < j < |r| ensures r[i].userId != r[j].userId {
      assert r[j] == rest[j - 1];
      if i > 0 {
        assert r[i] == rest[i - 1];
      }
    }
  }

  /** The first session's user holds none of the later sessions. */
  lemma FirstUserUnique(sessions: seq<SessionRow>)
    requires |sessions| > 0 && OneSessionPerUser(sessions)
    ensures OneSessionPerUser(sessions[1..])
    ensures forall t :: t in sessions[1..] ==> t.userId != sessions[0].userId
  {
    var tail := sessions[1..];
    forall i, j | 0 <= i < j < |tail| ensures tail[i].userId != tail[j].userId {
      assert tail[i] == sessions[i + 1] && tail[j] == sessions[j + 1];
    }
    forall t | t in tail ensures t.userId != sessions[0].userId {
      var k :| 0 <= k < |tail| && tail[k] == t;
      assert sessions[k + 1] == t;
    }
  }

  lemma {:induction false} WithoutUserKeepsOnePerUser(sessions: seq<SessionRow>, userId: int)
    requires OneSessionPerUser(sessions)
    ensures OneSessionPerUser(WithoutUser(sessions, userId))
    decreases |sessions|
  {
    if |sessions| > 0 {
      FirstUserUnique(sessions);
      WithoutUserKeepsOnePerUser(sessions[1..], userId);
      if sessions[0].userId != userId {
        ConsOnePerUser(sessions[0], WithoutUser(sessions[1..], userId));
      }
    }
  }

  /** What a login leaves: its answer and the sessions table after it. */
  datatype LoginOutcome = LoginOutcome(result: Result<string, Error>, sessions: seq<SessionRow>)

  /** What `CreateSession` does once the credentials have passed, given the
      answer of the session lookup: a session found is handed out again;
      on any lookup error the user's sessions are deleted and a new one is
      inserted, and the deletion stays even when the insert then fails. */
  function AfterLookup(sessions: seq<SessionRow>, userId: int, lookup: Result<string, Error>,
                       draws: seq<int>, now: Instant, deleteFault: Option<string>, insertFault: Option<string>)
    : LoginOutcome
    requires |draws| == SessionIdLength && Draws(draws, |Letters|)
  {
    match lookup
    case Success(id) => LoginOutcome(Success(id), sessions)
    case Failure(_) =>
      if deleteFault.Some? then
        LoginOutcome(Failure(Wrapped(DeleteSessionsFailed(userId), Plain(deleteFault.value))), sessions)
      else
        var kept := WithoutUser(sessions, userId);
        if insertFault.Some? then
          LoginOutcome(Failure(Wrapped(CreateSessionFailed, Plain(insertFault.value))), kept)
        else
          LoginOutcome(Success(RandomId(draws)),
                       kept + [SessionRow(RandomId(draws), userId, AddDate(now, 0, 0, SessionDays))])
  }

  /** `CreateSession` as a transition of the sessions table, with the
      corrected session query (`ActiveSession`), and with bcrypt's
      comparison, the id draws, the clock and the failures of the delete and
      the insert passed in. An unknown name and a wrong password give the
      same error; a live session is handed out again; otherwise the user's
      sessions are replaced by a new one. */
  function Login(users: seq<User>, sessions: seq<SessionRow>, request: UserData, compare: BcryptCompare,
                 draws: seq<int>, now: Instant, deleteFault: Option<string>, insertFault: Option<string>)
    : LoginOutcome
    requires |draws| == SessionIdLength && Draws(draws, |Letters|)
  {
    match GetUserByName(users, request.name)
    case Failure(_) => LoginOutcome(Failure(WrongPassword), sessions)
    case Success(user) =>
      if !IsPasswordCorrect(compare, user.passwordHash, request.password) then
        LoginOutcome(Failure(WrongPassword), sessions)
      else
        AfterLookup(sessions, user.id, ActiveSession(sessions, user.id, now), draws, now, deleteFault, insertFault)
  }

  /** `CreateSession` as written: the same transition with the session query
      as written (`ActiveSessionAsWritten`), whose driver error
      `driverError` is passed in. */
  function LoginAsWritten(users: seq<User>, sessions: seq<SessionRow>, request: UserData, compare: BcryptCompare,
                          draws: seq<int>, now: Instant, deleteFault: Option<string>, insertFault: Option<string>,
                          driverError: string)
    : LoginOutcome
    requires |draws| == SessionIdLength && Draws(draws, |Letters|)
  {
    match GetUserByName(users, request.name)
    case Failure(_) => LoginOutcome(Failure(WrongPassword), sessions)
    case Success(user) =>
      if !IsPasswordCorrect(compare, user.passwordHash, request.password) then
        LoginOutcome(Failure(WrongPassword), sessions)
      else
        AfterLookup(sessions, user.id, ActiveSessionAsWritten(sessions, user.id, now, driverError),
                    draws, now, deleteFault, insertFault)
  }

  /** Whether `name` and `password` pass: a user with that name exists and
      the comparison accepts the password against that user's hash. */
  predicate Accepted(users: seq<User>, request: UserData, compare: BcryptCompare) {
    GetUserByName(users, request.name).Success?
    && compare(GetUserByName(users, request.name).value.passwordHash, request.password).None?
  }

  /** A login is refused with the one wrong-credentials error exactly when
      the name is unknown or the password does not match, so the answer
      does not tell which; a refused login leaves the sessions alone. */
  lemma LoginRejects(users: seq<User>, sessions: seq<SessionRow>, request: UserData, compare: BcryptCompare,
                     draws: seq<int>, now: Instant, deleteFault: Option<string>, insertFault: Option<string>)
    requires |draws| == SessionIdLength && Draws(draws, |Letters|)
    ensures var out := Login(users, sessions, request, compare, draws, now, deleteFault, insertFault);
      (out.result == Failure(WrongPassword) <==> !Accepted(users, request, compare))
      && (!Accepted(users, request, compare) ==> out.sessions == sessions)
  {
  }

  /** An accepted login with a live session hands out that user's first
      live session and changes nothing. */
  lemma LoginReuses(users: seq<User>, sessions: seq<SessionRow>, request: UserData, compare: BcryptCompare,
                    draws: seq<int>, now: Instant, deleteFault: Option<string>, insertFault: Option<string>)
    requires |draws| == SessionIdLength && Draws(draws, |Letters|)
    requires Accepted(users, request, compare)
    requires exists s :: s in sessions && Live(s, GetUserByName(users, request.name).value.id, now)
    ensures var out := Login(users, sessions, request, compare, draws, now, deleteFault, insertFault);
      out.sessions == sessions && out.result.Success?
      && exists s :: s in sessions && Live(s, GetUserByName(users, request.name).value.id, now)
                     && s.sessionId == out.result.value
  {
  }

  /** An accepted login without a live session and without faults leaves the
      user exactly one session, the new one, with the drawn id, running for
      seven days from `now`; the other users' sessions are untouched. */
  lemma LoginReplaces(users: seq<User>, sessions: seq<SessionRow>, request: UserData, compare: BcryptCompare,
                      draws: seq<int>, now: Instant)
    requires |draws| == SessionIdLength && Draws(draws, |Letters|) && Valid(now)
    requires Accepted(users, request, compare)
    requires forall s :: s in sessions ==> !Live(s, GetUserByName(users, request.name).value.id, now)
    ensures var out := Login(users, sessions, request, compare, draws, now, None, None);
      var uid := GetUserByName(users, request.name).value.id;
      var created := SessionRow(RandomId(draws), uid, AddDate(now, 0, 0, SessionDays));
      out.result == Success(RandomId(draws))
      && created in out.sessions && Live(created, uid, now)
      && (forall s :: s in out.sessions && s.userId == uid ==> s == created)
      && (forall s: SessionRow :: s.userId != uid ==> (s in out.sessions <==> s in sessions))
  {
    AddDaysAfter(now, SessionDays);
  }

  /** When the insert fails after the delete went through, the user is left
      with no session at all. */
  lemma FailedInsertLosesSessions(users: seq<User>, sessions: seq<SessionRow>, request: UserData,
                                  compare: BcryptCompare, draws: seq<int>, now: Instant, fault: string)
    requires |draws| == SessionIdLength && Draws(draws, |Letters|)
    requires Accepted(users, request, compare)
    requires forall s :: s in sessions ==> !Live(s, GetUserByName(users, request.name).value.id, now)
    ensures var out := Login(users, sessions, request, compare, draws, now, None, Some(fault));
      out.result == Failure(Wrapped(CreateSessionFailed, Plain(fault)))
      && forall s :: s in out.sessions ==> s.userId != GetUserByName(users, request.name).value.id
  {
  }

  /** As written, an accepted login without faults always replaces the
      user's sessions by a new one, live or not: the user ends with exactly
      that session, with the drawn id, and the other users' sessions are
      untouched. */
  lemma LoginAsWrittenAlwaysReplaces(users: seq<User>, sessions: seq<SessionRow>, request: UserData,
                                     compare: BcryptCompare, draws: seq<int>, now: Instant, driverError: string)
    requires |draws| == SessionIdLength && Draws(draws, |Letters|) && Valid(now)
    requires Accepted(users, request, compare)
    ensures var out := LoginAsWritten(users, sessions, request, compare, draws, now, None, None, driverError);
      var uid := GetUserByName(users, request.name).value.id;
      var created := SessionRow(RandomId(draws), uid, AddDate(now, 0, 0, SessionDays));
      out.result == Success(RandomId(draws))
      && created in out.sessions && Live(created, uid, now)
      && (forall s :: s in out.sessions && s.userId == uid ==> s == created)
      && (forall s: SessionRow :: s.userId != uid ==> (s in out.sessions <==> s in sessions))
  {
    AddDaysAfter(now, SessionDays);
  }

  /** A live session that the corrected login keeps and hands out is deleted
      by the written one, which hands out a new id instead: every login as
      written ends the user's other sessions. */
  lemma LoginAsWrittenDropsLiveSession(users: seq<User>, sessions: seq<SessionRow>, request: UserData,
                                       compare: BcryptCompare, draws: seq<int>, now: Instant,
                                       driverError: string, live: SessionRow)
    requires |draws| == SessionIdLength && Draws(draws, |Letters|)
    requires Accepted(users, request, compare)
    requires live in sessions && Live(live, GetUserByName(users, request.name).value.id, now)
    requires live.sessionId != RandomId(draws)
    ensures var out := LoginAsWritten(users, sessions, request, compare, draws, now, None, None, driverError);
      live !in out.sessions && out.result == Success(RandomId(draws))
      && live in Login(users, sessions, request, compare, draws, now, None, None).sessions
  {
  }

  /** `FindLive` stops at row `k` when that row is live and none before it is. */
  lemma {:induction false} FindLiveAt(sessions: seq<SessionRow>, userId: int, now: Instant, k: nat)
    requires k < |sessions| && Live(sessions[k], userId, now)
    requires forall j :: 0 <= j < k ==> !Live(sessions[j], userId, now)
    ensures FindLive(sessions, userId, now) == Some(k)
    decreases k
  {
    if k > 0 {
      var tail := sessions[1..];
      assert tail[k - 1] == sessions[k];
      forall j | 0 <= j < k - 1 ensures !Live(tail[j], userId, now) {
        assert tail[j] == sessions[j + 1];
      }
      FindLiveAt(tail, userId, now, k - 1);
    }
  }

  /** A session that was not live at `now` is not live at any later reading. */
  lemma StaysExpired(s: SessionRow, userId: int, now: Instant, later: Instant)
    requires !Live(s, userId, now) && !Before(later, now)
    ensures !Live(s, userId, later)
  {
    if s.userId == userId {
      NotBeforeTrans(s.expireAt, now, later);
    }
  }

  /** Logging in again at any later reading, after a login that succeeded and
      while the session it handed out has not expired, gives the same
      session id and changes nothing, whatever the second call's draws and
      faults. */
  lemma LoginTwice(users: seq<User>, sessions: seq<SessionRow>, request: UserData, compare: BcryptCompare,
                   draws: seq<int>, draws2: seq<int>, now: Instant, later: Instant,
                   deleteFault: Option<string>, insertFault: Option<string>,
                   deleteFault2: Option<string>, insertFault2: Option<string>)
    requires |draws| == SessionIdLength && Draws(draws, |Letters|)
    requires |draws2| == SessionIdLength && Draws(draws2, |Letters|)
    requires Valid(now) && !Before(later, now)
    requires Accepted(users, request, compare)
    requires Login(users, sessions, request, compare, draws, now, deleteFault, insertFault).result.Success?
    requires var first := Login(users, sessions, request, compare, draws, now, deleteFault, insertFault);
      var uid := GetUserByName(users, request.name).value.id;
      forall s :: s in first.sessions && s.userId == uid && s.sessionId == first.result.value ==>
        After(s.expireAt, later)
    ensures var first := Login(users, sessions, request, compare, draws, now, deleteFault, insertFault);
      Login(users, first.sessions, request, compare, draws2, later, deleteFault2, insertFault2) == first
  {
    var first := Login(users, sessions, request, compare, draws, now, deleteFault, insertFault);
    var user := GetUserByName(users, request.name).value;
    var k: nat;
    if ActiveSession(sessions, user.id, now).Failure? {
      var kept := WithoutUser(sessions, user.id);
      var created := SessionRow(RandomId(draws), user.id, AddDate(now, 0, 0, SessionDays));
      assert first.sessions == kept + [created];
      k := |kept|;
      assert first.sessions[k] == created;
      forall j | 0 <= j < k ensures !Live(first.sessions[j], user.id, later) {
        assert first.sessions[j] == kept[j];
        assert kept[j] in kept;
      }
    } else {
      k := FindLive(sessions, user.id, now).value;
      assert first.sessions == sessions;
      forall j | 0 <= j < k ensures !Live(first.sessions[j], user.id, later) {
        StaysExpired(sessions[j], user.id, now, later);
      }
    }
    assert first.sessions[k] in first.sessions;
    FindLiveAt(first.sessions, user.id, later, k);
  }

  /** Under one session per user, a successful login leaves the user exactly
      one session, live at `now` and carrying the id handed out. */
  lemma LoginLeavesOneLiveSession(users: seq<User>, sessions: seq<SessionRow>, request: UserData,
                                  compare: BcryptCompare, draws: seq<int>, now: Instant,
                                  deleteFault: Option<string>, insertFault: Option<string>)
    requires |draws| == SessionIdLength && Draws(draws, |Letters|) && Valid(now)
    requires OneSessionPerUser(sessions)
    requires Login(users, sessions, request, compare, draws, now, deleteFault, insertFault).result.Success?
    ensures Accepted(users, request, compare)
    ensures var out := Login(users, sessions, request, compare, draws, now, deleteFault, insertFault);
      var uid := GetUserByName(users, request.name).value.id;
      exists s :: s in out.sessions && Live(s, uid, now) && s.sessionId == out.result.value
                  && forall t :: t in out.sessions && t.userId == uid ==> t == s
  {
    var out := Login(users, sessions, request, compare, draws, now, deleteFault, insertFault);
    var uid := GetUserByName(users, request.name).value.id;
    match FindLive(sessions, uid, now)
    case Some(i) =>
      assert out.sessions == sessions;
      forall t | t in sessions && t.userId == uid ensures t == sessions[i] {
        var j :| 0 <= j < |sessions| && sessions[j] == t;
        assert j == i;
      }
    case None =>
      LoginReplaces(users, sessions, request, compare, draws, now);
  }

  /** Logins keep at most one session per user. */
  lemma LoginKeepsOnePerUser(users: seq<User>, sessions: seq<SessionRow>, request: UserData, compare: BcryptCompare,
                             draws: seq<int>, now: Instant, deleteFault: Option<string>, insertFault: Option<string>)
    requires |draws| == SessionIdLength && Draws(draws, |Letters|)
    requires OneSessionPerUser(sessions)
    ensures OneSessionPerUser(Login(users, sessions, request, compare, draws, now, deleteFault, insertFault).sessions)
  {
    var out := Login(users, sessions, request, compare, draws, now, deleteFault, insertFault);
    if Accepted(users, request, compare) {
      var user := GetUserByName(users, request.name).value;
      WithoutUserKeepsOnePerUser(sessions, user.id);
      var kept := WithoutUser(sessions, user.id);
      if out.sessions != sessions && out.sessions != kept {
        var r := out.sessions;
        assert r == kept + [r[|kept|]] && r[|kept|].userId == user.id;
        forall i, j | 0 <= i < j < |r| ensures r[i].userId != r[j].userId {
          if j == |kept| {
            assert r[i] == kept[i];
            assert kept[i] in kept;
          } else {
            assert r[i] == kept[i] && r[j] == kept[j];
          }
        }
      }
    }
  }

  class UserHandler {
    const db: Database

    constructor (db: Database)
      ensures this.db == db
    {
      this.db := db;
    }

    /** `CreateUser`, with the outcome of bcrypt, the drawn id
        (`rand.Intn(10000)`) and the failure of the insert passed in. A name
        that is taken is refused before anything is hashed; the new user is
        appended only when the id is free and the insert goes through. */
    method CreateUser(request: UserData, hashed: BcryptOutput, idDraw: int, fault: Option<string>)
      returns (r: Option<Error>)
      requires 0 <= idDraw < UserIdBound
      requires db.Valid()
      modifies db
      ensures db.Valid()
      ensures db.sessions == old(db.sessions) && db.shares == old(db.shares)
      ensures GetUserByName(old(db.users), request.name).Success? ==>
        r == Some(UserAlreadyExists) && db.users == old(db.users)
      ensures GetUserByName(old(db.users), request.name).Failure? && hashed.err.Some? ==>
        r == Some(Plain(hashed.err.value)) && db.users == old(db.users)
      ensures GetUserByName(old(db.users), request.name).Failure? && hashed.err.None? ==>
        if exists u :: u in old(db.users) && u.id == idDraw then
          r == Some(Wrapped(CreateUserFailed, DuplicateKey)) && db.users == old(db.users)
        else if fault.Some? then
          r == Some(Wrapped(CreateUserFailed, Plain(fault.value))) && db.users == old(db.users)
        else
          r == None && db.users == old(db.users) + [NewUser(idDraw, request.name, hashed.hash)]
      ensures UniqueNames(old(db.users)) ==> UniqueNames(db.users)
    {
      if GetUserByName(db.users, request.name).Success? {
        return Some(UserAlreadyExists);
      }
      var hash := CreatePasswordHash(hashed);
      if hash.Failure? {
        return Some(hash.error);
      }
      if GetUserById(db.users, idDraw).Success? {
        return Some(Wrapped(CreateUserFailed, DuplicateKey));
      }
      if fault.Some? {
        return Some(Wrapped(CreateUserFailed, Plain(fault.value)));
      }
      var user := NewUser(idDraw, request.name, hash.value);
      AddFreshId(db.users, user);
      ghost var before := db.users;
      db.users := db.users + [user];
      forall i, j | 0 <= i < j < |db.users| && UniqueNames(before) ensures db.users[i].name != db.users[j].name {
        if j == |before| {
          assert db.users[i] in before;
        } else {
          assert db.users[i] == before[i] && db.users[j] == before[j];
        }
      }
      r := None;
    }

    /** `deleteSessions`, with the failure of the statement passed in. */
    method DeleteSessions(userId: int, fault: Option<string>) returns (r: Option<Error>)
      modifies db
      ensures db.users == old(db.users) && db.shares == old(db.shares)
      ensures fault.Some? ==>
        r == Some(Wrapped(DeleteSessionsFailed(userId), Plain(fault.value))) && db.sessions == old(db.sessions)
      ensures fault.None? ==> r == None && db.sessions == WithoutUser(old(db.sessions), userId)
    {
      if fault.Some? {
        return Some(Wrapped(DeleteSessionsFailed(userId), Plain(fault.value)));
      }
      db.sessions := WithoutUser(db.sessions, userId);
      r := None;
    }

    /** `createNewSession`, with the id draws, the clock and the failure of
        the insert passed in: a session with a new random id that runs
        for seven days. */
    method CreateNewSession(userId: int, draws: seq<int>, now: Instant, fault: Option<string>)
      returns (r: Result<string, Error>)
      requires |draws| == SessionIdLength && Draws(draws, |Letters|)
      modifies db
      ensures db.users == old(db.users) && db.shares == old(db.shares)
      ensures fault.Some? ==>
        r == Failure(Wrapped(CreateSessionFailed, Plain(fault.value))) && db.sessions == old(db.sessions)
      ensures fault.None? ==>
        r == Success(RandomId(draws))
        && db.sessions == old(db.sessions) + [SessionRow(RandomId(draws), userId, AddDate(now, 0, 0, SessionDays))]
    {
      var sessionId := CreateRandomId(SessionIdLength, draws);
      if fault.Some? {
        return Failure(Wrapped(CreateSessionFailed, Plain(fault.value)));
      }
      db.sessions := db.sessions + [SessionRow(sessionId, userId, AddDate(now, 0, 0, SessionDays))];
      r := Success(sessionId);
    }

    /** `CreateSession` with the corrected session query: the login
        transition on the connection's tables. */
    method CreateSession(request: UserData, compare: BcryptCompare, draws: seq<int>, now: Instant,
                         deleteFault: Option<string>, insertFault: Option<string>) returns (r: Result<string, Error>)
      requires |draws| == SessionIdLength && Draws(draws, |Letters|)
      modifies db
      ensures db.users == old(db.users) && db.shares == old(db.shares)
      ensures var out := Login(old(db.users), old(db.sessions), request, compare, draws, now, deleteFault, insertFault);
        r == out.result && db.sessions == out.sessions
    {
      var found := GetUserByName(db.users, request.name);
      if found.Failure? {
        return Failure(WrongPassword);
      }
      var user := found.value;
      if !IsPasswordCorrect(compare, user.passwordHash, request.password) {
        return Failure(WrongPassword);
      }
      var active := ActiveSession(db.sessions, user.id, now);
      if active.Success? {
        return Success(active.value);
      }
      var deleted := DeleteSessions(user.id, deleteFault);
      if deleted.Some? {
        return Failure(deleted.value);
      }
      r := CreateNewSession(user.id, draws, now, insertFault);
    }
  }
}
