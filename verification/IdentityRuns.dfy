/** What the interleaved identity flows guarantee over whole runs. */
module IdentityRuns {
  import opened Maybe
  import opened IdentityTables
  import opened IdentityProtocol

  // ---- Over whole runs ----

  lemma RunSteps(steps: seq<Step>, k: nat, ttlMs: int)
    requires k < |steps|
    ensures Run(steps[..k + 1], ttlMs) == Next(Run(steps[..k], ttlMs), steps[k], ttlMs)
  {
    hide Next;
    assert steps[..k + 1][..k] == steps[..k];
  }

  lemma EvolvesTransitively(t: Tables, u: Tables, v: Tables)
    requires Evolves(t, u) && Evolves(u, v)
    ensures Evolves(t, v)
  {
    forall id | id in t.sessions ensures id in v.sessions && Later(t.sessions[id], v.sessions[id]) {
      assert Later(t.sessions[id], u.sessions[id]) && Later(u.sessions[id], v.sessions[id]);
    }
  }

  /** No session is lost, un-revoked, re-dated or changed without a new version, whatever happens in between. */
  lemma {:induction false} SessionsOnlyMoveForward(steps: seq<Step>, k: nat, l: nat, ttlMs: int)
    requires k <= l <= |steps|
    ensures Evolves(Run(steps[..k], ttlMs).tables, Run(steps[..l], ttlMs).tables)
    decreases l - k
  {
    hide Next, Evolves, Run;
    if k == l {
      EvolvesToItself(Run(steps[..k], ttlMs).tables);
    } else {
      SessionsOnlyMoveForward(steps, k, l - 1, ttlMs);
      RunSteps(steps, l - 1, ttlMs);
      InvHolds(steps[..l - 1], ttlMs);
      SessionsEvolve(Run(steps[..l - 1], ttlMs), steps[l - 1], ttlMs);
      EvolvesTransitively(Run(steps[..k], ttlMs).tables, Run(steps[..l - 1], ttlMs).tables,
        Run(steps[..l], ttlMs).tables);
    }
  }

  lemma EvolvesToItself(t: Tables)
    ensures Evolves(t, t)
  {
  }

  lemma ExpiryIsFixed(steps: seq<Step>, id: Id, ttlMs: int)
    requires id in Run(steps, ttlMs).tables.sessions
    ensures var row := Run(steps, ttlMs).tables.sessions[id]; row.expiresAt == row.createdAt + ttlMs
  {
    hide Run;
    InvHolds(steps, ttlMs);
  }

  /** The `k`-th step writes over version `version` of session `id`. */
  ghost predicate Wins(steps: seq<Step>, k: nat, id: Id, version: nat, ttlMs: int) {
    && k < |steps| && steps[k].Write?
    && var s := Run(steps[..k], ttlMs);
       && Enabled(s, steps[k], ttlMs)
       && s.intents[steps[k].pid].seen.id == id && s.intents[steps[k].pid].seen.version == version
       && ReplacedSession(s.tables, s.intents[steps[k].pid].next, version).1
  }

  lemma WinnerRaisesTheVersion(steps: seq<Step>, k: nat, id: Id, version: nat, ttlMs: int)
    requires Wins(steps, k, id, version, ttlMs)
    ensures id in Run(steps[..k], ttlMs).tables.sessions
            && Run(steps[..k], ttlMs).tables.sessions[id].version == version
    ensures id in Run(steps[..k + 1], ttlMs).tables.sessions
            && Run(steps[..k + 1], ttlMs).tables.sessions[id].version == version + 1
  {
    hide Run, IsLocked, CredentialIsLocked, ChallengeIsLocked, HashesOk, DrawnHashesOk, RevocationsOk, ChangesOk;
    RunSteps(steps, k, ttlMs);
    InvHolds(steps[..k], ttlMs);
    assert IntentOk(Run(steps[..k], ttlMs).tables, Run(steps[..k], ttlMs).intents[steps[k].pid]);
  }

  /** Of all rotations and sign-outs that read one version of a session, at most one is ever written. */
  lemma OneWinnerPerVersion(steps: seq<Step>, k: nat, l: nat, id: Id, version: nat, ttlMs: int)
    requires Wins(steps, k, id, version, ttlMs) && Wins(steps, l, id, version, ttlMs)
    ensures k == l
  {
    hide Run, Wins;
    WinnerRaisesTheVersion(steps, k, id, version, ttlMs);
    WinnerRaisesTheVersion(steps, l, id, version, ttlMs);
    WinsInside(steps, k, id, version, ttlMs);
    WinsInside(steps, l, id, version, ttlMs);
    if k < l { SessionsOnlyMoveForward(steps, k + 1, l, ttlMs); }
    if l < k { SessionsOnlyMoveForward(steps, l + 1, k, ttlMs); }
  }

  lemma WinsInside(steps: seq<Step>, k: nat, id: Id, version: nat, ttlMs: int)
    requires Wins(steps, k, id, version, ttlMs)
    ensures k < |steps|
  {
  }

  lemma {:induction false} RetiredStaysRetired(steps: seq<Step>, k: nat, l: nat, ttlMs: int)
    requires k <= l <= |steps|
    ensures Run(steps[..k], ttlMs).retired <= Run(steps[..l], ttlMs).retired
    decreases l - k
  {
    hide Run;
    if k < l {
      RetiredStaysRetired(steps, k, l - 1, ttlMs);
      RunSteps(steps, l - 1, ttlMs);
      RetiredGrows(Run(steps[..l - 1], ttlMs), steps[l - 1], ttlMs);
    }
  }

  lemma RetiredGrows(s: State, step: Step, ttlMs: int)
    ensures s.retired <= Next(s, step, ttlMs).retired
  {
    hide IsLocked, CredentialIsLocked, ChallengeIsLocked;
  }

  /** Once a rotation is written, its new hash finds the session and the hash it replaced finds nothing, ever after. */
  lemma OnlyTheLatestHashFinds(steps: seq<Step>, k: nat, id: Id, version: nat, ttlMs: int)
    requires Wins(steps, k, id, version, ttlMs)
    requires Rotates(Run(steps[..k], ttlMs).intents[steps[k].pid])
    ensures var i := Run(steps[..k], ttlMs).intents[steps[k].pid];
            && FoundByHash(Run(steps[..k], ttlMs).tables, i.seen.tokenHash, id)
            && FoundByHash(Run(steps[..k + 1], ttlMs).tables, i.next.tokenHash, id)
            && (forall l, other :: k < l <= |steps| ==>
               !FoundByHash(Run(steps[..l], ttlMs).tables, i.seen.tokenHash, other))
  {
    hide Run, IsLocked, CredentialIsLocked, ChallengeIsLocked, HashesOk, DrawnHashesOk, RevocationsOk, ChangesOk;
    var i := Run(steps[..k], ttlMs).intents[steps[k].pid];
    RunSteps(steps, k, ttlMs);
    InvHolds(steps[..k], ttlMs);
    assert IntentOk(Run(steps[..k], ttlMs).tables, i);
    forall l, other | k < l <= |steps| ensures !FoundByHash(Run(steps[..l], ttlMs).tables, i.seen.tokenHash, other) {
      RetiredStaysRetired(steps, k + 1, l, ttlMs);
      InvHolds(steps[..l], ttlMs);
      RetiredFindsNothing(Run(steps[..l], ttlMs), i.seen.tokenHash, other);
    }
  }

  lemma RetiredFindsNothing(s: State, hash: Hash, id: Id)
    requires HashesOk(s) && hash in s.retired
    ensures !FoundByHash(s.tables, hash, id)
  {
  }

  // ---- Challenges and credentials ----

  ghost predicate MovesOn(t: Tables, u: Tables) {
    && (forall id :: id in t.challenges && t.challenges[id].consumedAt.Some? ==>
       id in u.challenges && u.challenges[id] == t.challenges[id])
    && (forall a :: a in t.credentials ==> a in u.credentials && t.credentials[a].version <= u.credentials[a].version)
  }

  lemma StepMovesOn(s: State, step: Step, ttlMs: int)
    requires Inv(s, ttlMs)
    ensures MovesOn(s.tables, Next(s, step, ttlMs).tables)
  {
    hide IsLocked, CredentialIsLocked, ChallengeIsLocked, HashesOk, DrawnHashesOk, RevocationsOk, SessionsOk,
         IntentsOk, ReplacesCredential, ConsumesChallenge, IsActive;
  }

  lemma {:induction false} RunMovesOn(steps: seq<Step>, k: nat, l: nat, ttlMs: int)
    requires k <= l <= |steps|
    ensures MovesOn(Run(steps[..k], ttlMs).tables, Run(steps[..l], ttlMs).tables)
    decreases l - k
  {
    hide Run, Next;
    if k < l {
      RunMovesOn(steps, k, l - 1, ttlMs);
      RunSteps(steps, l - 1, ttlMs);
      InvHolds(steps[..l - 1], ttlMs);
      hide Inv;
      StepMovesOn(Run(steps[..l - 1], ttlMs), steps[l - 1], ttlMs);
    }
  }

  /** The `k`-th step commits `tx`. */
  ghost predicate Commits(steps: seq<Step>, k: nat, tx: Tx, ttlMs: int) {
    && k < |steps| && steps[k].Commit?
    && var s := Run(steps[..k], ttlMs);
       Enabled(s, steps[k], ttlMs) && s.txs[steps[k].txid] == tx
  }

  lemma WhatACommitDoes(steps: seq<Step>, k: nat, tx: Tx, ttlMs: int)
    requires Commits(steps, k, tx, ttlMs)
    ensures var t, u := Run(steps[..k], ttlMs).tables, Run(steps[..k + 1], ttlMs).tables;
            && (tx.challenge.Some? ==>
                  && tx.challenge.value in t.challenges && t.challenges[tx.challenge.value].consumedAt == None
                  && tx.challenge.value in u.challenges
                  && u.challenges[tx.challenge.value].consumedAt == Some(tx.now))
            && (tx.credential.Some? ==>
                  && tx.account in t.credentials && t.credentials[tx.account].version + 1 == tx.credential.value.version
                  && tx.account in u.credentials && u.credentials[tx.account] == tx.credential.value)
  {
    hide Run, IsLocked, CredentialIsLocked, ChallengeIsLocked, HashesOk, DrawnHashesOk, RevocationsOk, SessionsOk,
         IntentsOk;
    RunSteps(steps, k, ttlMs);
    InvHolds(steps[..k], ttlMs);
  }

  /** A challenge is consumed by at most one committed transaction. */
  lemma ChallengesAreConsumedOnce(steps: seq<Step>, k: nat, l: nat, tx1: Tx, tx2: Tx, ttlMs: int)
    requires Commits(steps, k, tx1, ttlMs) && Commits(steps, l, tx2, ttlMs)
    requires tx1.challenge.Some? && tx1.challenge == tx2.challenge
    ensures k == l
  {
    hide Run, Enabled;
    WhatACommitDoes(steps, k, tx1, ttlMs);
    WhatACommitDoes(steps, l, tx2, ttlMs);
    if k < l { RunMovesOn(steps, k + 1, l, ttlMs); }
    if l < k { RunMovesOn(steps, l + 1, k, ttlMs); }
  }

  /** Of the password changes and resets that read one credential version, at most one commits. */
  lemma OneChangePerCredentialVersion(steps: seq<Step>, k: nat, l: nat, tx1: Tx, tx2: Tx, ttlMs: int)
    requires Commits(steps, k, tx1, ttlMs) && Commits(steps, l, tx2, ttlMs)
    requires tx1.credential.Some? && tx2.credential.Some? && tx1.account == tx2.account
    requires tx1.credential.value.version == tx2.credential.value.version
    ensures k == l
  {
    hide Run, Enabled;
    WhatACommitDoes(steps, k, tx1, ttlMs);
    WhatACommitDoes(steps, l, tx2, ttlMs);
    if k < l { RunMovesOn(steps, k + 1, l, ttlMs); }
    if l < k { RunMovesOn(steps, l + 1, k, ttlMs); }
  }

  // ---- What a password change revokes ----

  ghost predicate AllRevoked(t: Tables, account: Id) {
    forall id :: id in t.sessions && t.sessions[id].account == account ==> t.sessions[id].revokedAt.Some?
  }

  /**
   * After the commit, an unrevoked session of the account is exactly one that was created after the revoking statement.
   */
  lemma CommitLeavesOnlyNewcomers(s: State, x: Id, ttlMs: int)
    requires Inv(s, ttlMs) && Enabled(s, Commit(x), ttlMs)
    ensures var tx, u := s.txs[x], Next(s, Commit(x), ttlMs).tables;
            && u.sessions.Keys == s.tables.sessions.Keys
            && (forall id :: id in u.sessions && u.sessions[id].account == tx.account ==>
                  (u.sessions[id].revokedAt == None <==>
                    id !in tx.revocation.value.known && s.tables.sessions[id].revokedAt == None))
            && (AllRevoked(u, tx.account) <==>
                  forall id :: id in Revocable(s.tables, tx.account) ==> id in tx.revocation.value.known)
  {
    hide IsLocked, CredentialIsLocked, ChallengeIsLocked, HashesOk, DrawnHashesOk, SessionsOk, IntentsOk;
    var tx, u := s.txs[x], Next(s, Commit(x), ttlMs).tables;
    assert RevocationOk(s.tables, tx.account, tx.revocation.value);
    assert forall id :: id in u.sessions ==> u.sessions[id].account == s.tables.sessions[id].account;
  }

  ghost predicate StaysOpen(steps: seq<Step>, x: Id, k: nat, l: nat) {
    k <= l <= |steps| && forall i :: k <= i < l ==> steps[i] != Commit(x) && steps[i] != Abort(x)
  }

  lemma {:induction false} RevocationIsRemembered(steps: seq<Step>, x: Id, k: nat, l: nat, ttlMs: int)
    requires StaysOpen(steps, x, k, l)
    requires x in Run(steps[..k], ttlMs).txs && Run(steps[..k], ttlMs).txs[x].revocation.Some?
    ensures x in Run(steps[..l], ttlMs).txs && Run(steps[..l], ttlMs).txs[x] == Run(steps[..k], ttlMs).txs[x]
    decreases l - k
  {
    hide Run;
    if k < l {
      RevocationIsRemembered(steps, x, k, l - 1, ttlMs);
      RunSteps(steps, l - 1, ttlMs);
      hide Inv, IsLocked, CredentialIsLocked, ChallengeIsLocked;
    }
  }

  /** When a password change commits, no session that the account had at its revoking statement is left unrevoked. */
  lemma PasswordChangeEndsOldSessions(steps: seq<Step>, x: Id, k: nat, l: nat, id: Id, ttlMs: int)
    requires k < l < |steps| && steps[k] == Revoke(x) && steps[l] == Commit(x)
    requires Enabled(Run(steps[..k], ttlMs), steps[k], ttlMs) && StaysOpen(steps, x, k + 1, l)
    requires id in SessionsOf(Run(steps[..k], ttlMs).tables, Run(steps[..k], ttlMs).txs[x].account)
    ensures var u := Run(steps[..l + 1], ttlMs).tables; id in u.sessions && u.sessions[id].revokedAt.Some?
  {
    hide Run, Inv, IsLocked, CredentialIsLocked, ChallengeIsLocked, Committed;
    RunSteps(steps, k, ttlMs);
    RunSteps(steps, l, ttlMs);
    RevocationIsRemembered(steps, x, k + 1, l, ttlMs);
    InvHolds(steps[..l], ttlMs);
    CommitLeavesOnlyNewcomers(Run(steps[..l], ttlMs), x, ttlMs);
    SessionsOnlyMoveForward(steps, k, l, ttlMs);
    SessionsOnlyMoveForward(steps, l, l + 1, ttlMs);
  }

  /** A sign-in that lands between the revoking statement and the commit outlives the password change. */
  lemma NewcomerSurvives(ttlMs: int)
    requires ttlMs >= 60000
    ensures var s1 := Next(START, Provision("a", "old", 0), ttlMs);
            var s2 := Next(s1, Open("t", "a", Some(Credential("a", "new", 5, 2)), None, 5), ttlMs);
            var s3 := Next(s2, Revoke("t"), ttlMs);
            var s4 := Next(s3, SignIn("s", "a", "h", 5), ttlMs);
            && Enabled(s4, Commit("t"), ttlMs)
            && !AllRevoked(Next(s4, Commit("t"), ttlMs).tables, "a")
  {
    var s1 := Next(START, Provision("a", "old", 0), ttlMs);
    assert s1.tables.credentials == map["a" := Credential("a", "old", 0, 1)] && s1.txs == map[];
    var s2 := Next(s1, Open("t", "a", Some(Credential("a", "new", 5, 2)), None, 5), ttlMs);
    assert s2.txs == map["t" := Tx("a", Some(Credential("a", "new", 5, 2)), None, 5, None)];
    assert Revocable(s2.tables, "a") == {} && SessionsOf(s2.tables, "a") == {};
    assert Enabled(s2, Revoke("t"), ttlMs);
    var s3 := Next(s2, Revoke("t"), ttlMs);
    assert s3.txs["t"].revocation == Some(Revocation({}, {}));
    var s4 := Next(s3, SignIn("s", "a", "h", 5), ttlMs);
    assert "s" in s4.tables.sessions && s4.tables.sessions["s"].account == "a"
      && s4.tables.sessions["s"].revokedAt == None;
    var u := Next(s4, Commit("t"), ttlMs).tables;
    assert "s" in u.sessions && u.sessions["s"] == s4.tables.sessions["s"];
  }
}
