/** Nothing is rotated, extended or consumed after its time, however the flows interleave. */
module IdentityTimes {
  import opened Maybe
  import opened IdentityTables
  import opened IdentityProtocol

  // ---- One call ----

  /** A session starts with version 1 and lives for exactly its lifetime, which is a minute at least. */
  lemma SessionsLiveAMinute(id: Id, account: Id, hash: Hash, now: Time, ttlMs: int)
    ensures var r := CreateSession(id, account, hash, now, ttlMs);
            && (r.Ok? <==> ttlMs >= 60 * 1000)
            && (r.Ok? ==> r.value == Session(id, account, hash, now, now + ttlMs, None, None, 1))
  {
  }

  /** A session can be rotated until it expires or is revoked, and nothing but its hash is renewed. */
  lemma RotationSucceedsExactly(s: Session, hash: Hash, now: Time)
    ensures var r := RotateSession(s, hash, now);
            && (r.Ok? <==> s.revokedAt == None && now < s.expiresAt)
            && (r.Ok? ==> r.value == s.(tokenHash := hash, rotatedAt := Some(now), version := s.version + 1))
  {
  }

  /** A challenge can be consumed once, under its version, until it expires. */
  lemma ConsumptionSucceedsExactly(t: Tables, id: Id, expected: nat, now: Time)
    ensures ConsumesChallenge(t, id, expected, now) <==>
              id in t.challenges && t.challenges[id].consumedAt == None && t.challenges[id].version == expected
              && now < t.challenges[id].expiresAt
  {
  }

  // ---- Every run ----

  ghost predicate SessionInTime(s: Session) {
    (s.rotatedAt.Some? ==> s.rotatedAt.value < s.expiresAt) && s.expiresAt >= s.createdAt + 60 * 1000
  }

  ghost predicate ChallengeInTime(c: Challenge) {
    c.consumedAt.Some? ==> c.consumedAt.value < c.expiresAt
  }

  ghost predicate SessionsInTime(t: Tables) {
    forall id :: id in t.sessions ==> SessionInTime(t.sessions[id])
  }

  ghost predicate IntentInTime(i: Intent) {
    SessionInTime(i.seen) && (i.next.rotatedAt.Some? ==> i.next.rotatedAt.value < i.seen.expiresAt)
  }

  ghost predicate IntentsInTime(s: State) {
    forall pid :: pid in s.intents ==> IntentInTime(s.intents[pid])
  }

  ghost predicate ChallengesInTime(s: State) {
    && (forall id :: id in s.tables.challenges ==> ChallengeInTime(s.tables.challenges[id]))
    && (forall x :: x in s.txs ==> TxInTime(s.tables, s.txs[x]))
  }

  /** The challenge that a transaction will consume had not expired when it was opened. */
  ghost predicate TxInTime(t: Tables, tx: Tx) {
    tx.challenge.Some? && tx.challenge.value in t.challenges ==> tx.now < t.challenges[tx.challenge.value].expiresAt
  }

  lemma ReadIsInTime(s: State, step: Step, ttlMs: int)
    requires Enabled(s, step, ttlMs) && SessionsInTime(s.tables) && (step.ReadToRotate? || step.ReadToSignOut?)
    ensures IntentInTime(Apply(s, step, ttlMs).intents[step.pid])
  {
    hide IsLocked, CredentialIsLocked, ChallengeIsLocked;
    assert SessionInTime(s.tables.sessions[step.id]);
  }

  lemma IntentsStayInTime(s: State, step: Step, ttlMs: int)
    requires Enabled(s, step, ttlMs) && SessionsInTime(s.tables) && IntentsInTime(s)
    ensures IntentsInTime(Apply(s, step, ttlMs))
  {
    hide SessionsInTime, IntentInTime, IsLocked, CredentialIsLocked, ChallengeIsLocked, IsActive, ConsumesChallenge;
    if step.ReadToRotate? || step.ReadToSignOut? { ReadIsInTime(s, step, ttlMs); }
  }

  lemma WriteIsInTime(t: Tables, i: Intent)
    requires SessionsInTime(t) && IntentOk(t, i) && IntentInTime(i)
    ensures SessionsInTime(ReplacedSession(t, i.next, i.seen.version).0)
  {
    if i.next.id in t.sessions { assert SessionInTime(t.sessions[i.next.id]); }
  }

  lemma SessionsStayInTime(s: State, step: Step, ttlMs: int)
    requires Inv(s, ttlMs) && Enabled(s, step, ttlMs) && SessionsInTime(s.tables) && IntentsInTime(s)
    ensures SessionsInTime(Apply(s, step, ttlMs).tables)
  {
    hide IsLocked, CredentialIsLocked, ChallengeIsLocked, IsActive, ConsumesChallenge, HashesOk, DrawnHashesOk;
    hide RevocationsOk, ChangesOk, SessionsOk, SessionInTime, IntentOk;
    match step
    case SignIn(id, account, hash, now) => NewSessionIsInTime(id, account, hash, now, ttlMs);
    case Write(pid) => WriteIsInTime(s.tables, s.intents[pid]);
    case Commit(x) => CommitIsInTime(s.tables, s.txs[x]);
    case _ =>
  }

  lemma NewSessionIsInTime(id: Id, account: Id, hash: Hash, now: Time, ttlMs: int)
    ensures var r := CreateSession(id, account, hash, now, ttlMs); r.Ok? ==> SessionInTime(r.value)
  {
  }

  lemma CommitIsInTime(t: Tables, tx: Tx)
    requires tx.revocation.Some? && SessionsInTime(t)
    ensures SessionsInTime(Committed(t, tx))
  {
    var u := Committed(t, tx);
    forall id | id in u.sessions ensures SessionInTime(u.sessions[id]) { assert SessionInTime(t.sessions[id]); }
  }

  lemma ChallengesStayInTime(s: State, step: Step, ttlMs: int)
    requires Inv(s, ttlMs) && Enabled(s, step, ttlMs) && ChallengesInTime(s)
    ensures ChallengesInTime(Apply(s, step, ttlMs))
  {
    hide IsLocked, CredentialIsLocked, HashesOk, DrawnHashesOk, RevocationsOk, SessionsOk, IntentsOk, IsActive;
    hide ReplacesCredential, ChallengeInTime;
    match step
    case CreateChallenge(id, account, hash, now, ttl) =>
      ChangesAreStored(s);
      FreshChallengeIsInTime(id, account, hash, now, ttl);
    case Commit(x) => CommittedChallengeInTime(s, x);
    case _ =>
  }

  lemma FreshChallengeIsInTime(id: Id, account: Id, hash: Hash, now: Time, ttl: nat)
    ensures ChallengeInTime(Challenge(id, account, hash, now, now + ttl, None, 1))
  {
  }

  /** The challenge of an open transaction is in its table. */
  lemma ChangesAreStored(s: State)
    requires ChangesOk(s)
    ensures forall x :: x in s.txs && s.txs[x].challenge.Some? ==> s.txs[x].challenge.value in s.tables.challenges
  {
    forall x | x in s.txs && s.txs[x].challenge.Some? ensures s.txs[x].challenge.value in s.tables.challenges {
      assert ChangeOk(s.tables, s.txs[x]);
    }
  }

  lemma CommittedChallengeInTime(s: State, x: Id)
    requires x in s.txs && s.txs[x].revocation.Some? && ChallengesInTime(s)
    ensures ChallengesInTime(s.(tables := Committed(s.tables, s.txs[x]), txs := s.txs - {x}))
  {
    var t, u := s.tables, Committed(s.tables, s.txs[x]);
    assert TxInTime(t, s.txs[x]);
    forall id | id in u.challenges ensures ChallengeInTime(u.challenges[id]) {
      assert ChallengeInTime(t.challenges[id]);
    }
    forall y | y in s.txs && y != x ensures TxInTime(u, s.txs[y]) { assert TxInTime(t, s.txs[y]); }
  }

  /**
   * In every reachable state: each session was last rotated before it expired and lives a minute at least, and each
   * consumed challenge was consumed before it expired.
   */
  lemma {:induction false} NothingHappensTooLate(steps: seq<Step>, ttlMs: int)
    ensures var s := Run(steps, ttlMs); SessionsInTime(s.tables) && IntentsInTime(s) && ChallengesInTime(s)
    decreases |steps|
  {
    if steps != [] {
      hide Enabled, Apply, SessionsInTime, IntentsInTime, ChallengesInTime, Inv;
      var s, step := Run(steps[..|steps| - 1], ttlMs), steps[|steps| - 1];
      NothingHappensTooLate(steps[..|steps| - 1], ttlMs);
      InvHolds(steps[..|steps| - 1], ttlMs);
      if Enabled(s, step, ttlMs) {
        SessionsStayInTime(s, step, ttlMs);
        IntentsStayInTime(s, step, ttlMs);
        ChallengesStayInTime(s, step, ttlMs);
      }
    }
  }
}
