/** Sessions, password credentials and challenges: the pure session functions and the version-checked statements. */
module IdentityTables {
  import opened Maybe

  type Id = string   // UUIDs in canonical form, and names of processes and transactions
  type Hash = string
  type Time = int

  datatype Session = Session(
    id: Id, account: Id, tokenHash: Hash, createdAt: Time, expiresAt: Time,
    rotatedAt: Option<Time>, revokedAt: Option<Time>, version: nat)

  datatype Credential = Credential(account: Id, passwordHash: Hash, changedAt: Time, version: nat)

  datatype Challenge = Challenge(
    id: Id, account: Id, tokenHash: Hash, createdAt: Time, expiresAt: Time, consumedAt: Option<Time>, version: nat)

  datatype Tables = Tables(sessions: map<Id, Session>, credentials: map<Id, Credential>, challenges: map<Id, Challenge>)

  datatype SessionError = Inactive | InvalidTtl

  // ---- Session functions ----

  function CreateSession(id: Id, account: Id, tokenHash: Hash, now: Time, ttlMs: int): Result<Session, SessionError> {
    if ttlMs < 60000 then Err(InvalidTtl)
    else Ok(Session(id, account, tokenHash, now, now + ttlMs, None, None, 1))
  }

  predicate IsActive(s: Session, now: Time) {
    s.revokedAt == None && s.expiresAt > now
  }

  function RotateSession(s: Session, tokenHash: Hash, now: Time): Result<Session, SessionError> {
    if !IsActive(s, now) then Err(Inactive)
    else Ok(s.(tokenHash := tokenHash, rotatedAt := Some(now), version := s.version + 1))
  }

  function RevokeSession(s: Session, now: Time): Session {
    if s.revokedAt.Some? then s else s.(revokedAt := Some(now), version := s.version + 1)
  }

  // ---- Statements ----

  /** The UPDATE that names every mutable column and tests id and version. */
  function ReplacedSession(t: Tables, next: Session, expected: nat): (r: (Tables, bool)) {
    if next.id in t.sessions && t.sessions[next.id].version == expected then
      var row := t.sessions[next.id];
      var changed := row.(tokenHash := next.tokenHash, expiresAt := next.expiresAt,
                          rotatedAt := next.rotatedAt, revokedAt := next.revokedAt, version := next.version);
      (t.(sessions := t.sessions[next.id := changed]), true)
    else (t, false)
  }

  /** The rows that revoking every session of an account will touch. */
  function Revocable(t: Tables, account: Id): (ids: set<Id>) {
    set id | id in t.sessions && t.sessions[id].account == account && t.sessions[id].revokedAt == None
  }

  function RevokedRow(s: Session, now: Time): Session {
    s.(revokedAt := Some(now), version := s.version + 1)
  }

  function RevokedAll(t: Tables, ids: set<Id>, now: Time): Tables {
    t.(sessions := map id | id in t.sessions :: if id in ids then RevokedRow(t.sessions[id], now) else t.sessions[id])
  }

  predicate ReplacesCredential(t: Tables, c: Credential) {
    if c.account in t.credentials then t.credentials[c.account].version + 1 == c.version else c.version == 1
  }

  predicate ConsumesChallenge(t: Tables, id: Id, expected: nat, now: Time) {
    && id in t.challenges
    && t.challenges[id].version == expected && t.challenges[id].consumedAt == None && t.challenges[id].expiresAt > now
  }

  function ConsumedChallenge(t: Tables, id: Id, now: Time): Tables
    requires id in t.challenges
  {
    var row := t.challenges[id];
    t.(challenges := t.challenges[id := row.(consumedAt := Some(now), version := row.version + 1)])
  }

  predicate FoundByHash(t: Tables, hash: Hash, id: Id) {
    id in t.sessions && t.sessions[id].tokenHash == hash
  }

  // ---- The repository ----

  datatype RepositoryError = InvalidVersion | VersionConflict | ConstraintViolation

  /** The CHECK constraints of the session table. */
  predicate RowIsAllowed(s: Session) {
    && s.version >= 1 && s.expiresAt > s.createdAt
    && (s.rotatedAt.Some? ==> s.rotatedAt.value >= s.createdAt)
    && (s.revokedAt.Some? ==> s.revokedAt.value >= s.createdAt)
    && exists i :: 0 <= i < |s.tokenHash| && s.tokenHash[i] != ' '
  }

  predicate HashIsTaken(t: Tables, hash: Hash, except: Id) {
    exists id :: id in t.sessions && id != except && t.sessions[id].tokenHash == hash
  }

  /** The sessions that revoking all of an account's but `spared` will touch. */
  function RevocableExcept(t: Tables, account: Id, spared: Option<Id>): (ids: set<Id>)
    ensures spared == None ==> ids == Revocable(t, account)
    ensures forall id :: id in ids <==> id in Revocable(t, account) && Some(id) != spared
  {
    set id | id in Revocable(t, account) && Some(id) != spared
  }

  /** Each session of the account but `spared` as revoking it alone would leave it; every other as it was. */
  ghost predicate RevokedEach(t: Tables, u: Tables, account: Id, spared: Option<Id>, now: Time) {
    && u.sessions.Keys == t.sessions.Keys && u.credentials == t.credentials && u.challenges == t.challenges
    && forall id :: id in t.sessions ==>
         u.sessions[id] == if t.sessions[id].account == account && Some(id) != spared
           then RevokeSession(t.sessions[id], now) else t.sessions[id]
  }

  /** The bulk UPDATE does to each session what revoking that session alone does. */
  lemma RevocableIsExact(t: Tables, account: Id, spared: Option<Id>, now: Time)
    ensures RevokedEach(t, RevokedAll(t, RevocableExcept(t, account, spared), now), account, spared, now)
  {
  }

  class IdentityRepository {
    var tables: Tables

    constructor ()
      ensures tables == Tables(map[], map[], map[])
    {
      tables := Tables(map[], map[], map[]);
    }

    method CreateSession(session: Session) returns (r: Result<(), RepositoryError>)
      modifies this
      ensures r == Err(InvalidVersion) <==> session.version != 1
      ensures r == Err(ConstraintViolation) <==>
                && session.version == 1
                && (session.id in old(tables).sessions || HashIsTaken(old(tables), session.tokenHash, session.id)
                   || !RowIsAllowed(session))
      ensures tables == if r.Ok? then old(tables).(sessions := old(tables).sessions[session.id := session])
              else old(tables)
      ensures r.Ok? ==> forall id :: FoundByHash(tables, session.tokenHash, id) <==> id == session.id
    {
      if session.version != 1 { return Err(InvalidVersion); }
      if session.id in tables.sessions || HashIsTaken(tables, session.tokenHash, session.id) || !RowIsAllowed(session) {
        return Err(ConstraintViolation);
      }
      tables := tables.(sessions := tables.sessions[session.id := session]);
      return Ok(());
    }

    method ReplaceSessionIfVersionMatches(next: Session, expected: nat) returns (r: Result<bool, RepositoryError>)
      modifies this
      ensures r == Err(InvalidVersion) <==> expected < 1 || next.version != expected + 1
      ensures var (t, hit) := ReplacedSession(old(tables), next, expected);
              && (r.Ok? ==> (tables, r.value) == (t, hit))
              && (r.Err? ==> tables == old(tables))
              && (r == Err(ConstraintViolation) <==>
                    && expected >= 1 && next.version == expected + 1 && hit
                    && (HashIsTaken(old(tables), next.tokenHash, next.id) || !RowIsAllowed(t.sessions[next.id])))
    {
      if expected < 1 || next.version != expected + 1 { return Err(InvalidVersion); }
      if next.id !in tables.sessions || tables.sessions[next.id].version != expected { return Ok(false); }
      var row := tables.sessions[next.id];
      row := row.(tokenHash := next.tokenHash, expiresAt := next.expiresAt, rotatedAt := next.rotatedAt);
      row := row.(revokedAt := next.revokedAt, version := next.version);
      if HashIsTaken(tables, row.tokenHash, next.id) || !RowIsAllowed(row) { return Err(ConstraintViolation); }
      tables := tables.(sessions := tables.sessions[next.id := row]);
      return Ok(true);
    }

    method RevokeAllSessionsForAccount(account: Id, now: Time, spared: Option<Id>)
        returns (r: Result<nat, RepositoryError>)
      modifies this
      ensures r.Ok? ==> r.value == |RevocableExcept(old(tables), account, spared)|
      ensures r.Ok? ==> RevokedEach(old(tables), tables, account, spared, now)
      ensures r.Err? ==> r.error == ConstraintViolation && tables == old(tables)
      ensures r.Err? <==> exists id ::
                id in RevocableExcept(old(tables), account, spared)
                  && !RowIsAllowed(RevokedRow(old(tables).sessions[id], now))
    {
      var ids := RevocableExcept(tables, account, spared);
      if exists id :: id in ids && !RowIsAllowed(RevokedRow(tables.sessions[id], now)) {
        return Err(ConstraintViolation);
      }
      RevocableIsExact(tables, account, spared, now);
      tables := RevokedAll(tables, ids, now);
      return Ok(|ids|);
    }

    method ConsumeChallengeIfActive(id: Id, expected: nat, now: Time) returns (r: Result<bool, RepositoryError>)
      modifies this
      ensures r == Ok(false) <==> !ConsumesChallenge(old(tables), id, expected, now)
      ensures r == Ok(true) <==>
              ConsumesChallenge(old(tables), id, expected, now) && now >= old(tables).challenges[id].createdAt
      ensures r.Err? ==> r.error == ConstraintViolation
      ensures tables == if r == Ok(true) then ConsumedChallenge(old(tables), id, now) else old(tables)
    {
      if id !in tables.challenges { return Ok(false); }
      var row := tables.challenges[id];
      if row.version != expected || row.consumedAt.Some? || row.expiresAt <= now { return Ok(false); }
      if now < row.createdAt { return Err(ConstraintViolation); }
      var consumed := row.(consumedAt := Some(now), version := row.version + 1);
      tables := tables.(challenges := tables.challenges[id := consumed]);
      return Ok(true);
    }

    method ReplacePasswordCredential(c: Credential) returns (r: Result<(), RepositoryError>)
      modifies this
      ensures r.Ok? <==> ReplacesCredential(old(tables), c)
      ensures r.Err? ==> r.error == VersionConflict
      ensures tables == if r.Ok? then old(tables).(credentials := old(tables).credentials[c.account := c])
              else old(tables)
    {
      if c.account in tables.credentials && tables.credentials[c.account].version == c.version - 1 {
        tables := tables.(credentials := tables.credentials[c.account := c]);
        return Ok(());
      }
      if c.version == 1 && c.account !in tables.credentials {
        tables := tables.(credentials := tables.credentials[c.account := c]);
        return Ok(());
      }
      return Err(VersionConflict);
    }
  }

  /**
   * The rows that the session functions make keep the table's checks exactly when the clock does not stand before the
   * creation and the hash is not blank.
   */
  lemma OwnRowsAreAllowed(s: Session, hash: Hash, now: Time)
    requires s.version >= 1 && s.expiresAt > s.createdAt && s.rotatedAt == None && s.revokedAt == None
    ensures RowIsAllowed(s.(tokenHash := hash)) <==> exists c :: c in hash && c != ' '
    ensures RowIsAllowed(s) && IsActive(s, now) ==>
              (RowIsAllowed(RotateSession(s, s.tokenHash, now).value) <==> now >= s.createdAt)
    ensures RowIsAllowed(s) ==> (RowIsAllowed(RevokeSession(s, now)) <==> now >= s.createdAt)
    ensures !RowIsAllowed(s.(version := 0)) && !RowIsAllowed(s.(expiresAt := s.createdAt))
  {
    if i :| 0 <= i < |hash| && hash[i] != ' ' { assert hash[i] in hash; }
    if c :| c in hash && c != ' ' {
      var i :| 0 <= i < |hash| && hash[i] == c;
      assert s.(tokenHash := hash).tokenHash[i] != ' ';
    }
    if RowIsAllowed(s) {
      var i :| 0 <= i < |s.tokenHash| && s.tokenHash[i] != ' ';
      assert RevokeSession(s, now).tokenHash[i] != ' ';
    }
  }
}
