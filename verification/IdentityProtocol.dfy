/**
 * Session, password and challenge flows interleaved: reads happen outside the transactions whose statements test
 * versions.
 */
module IdentityProtocol {
  import opened Maybe
  import opened IdentityTables

  /** A session that has been read, and the record built from it that is still to be written. */
  datatype Intent = Intent(seen: Session, next: Session)

  /** What the revoking statement of a transaction locked, and which sessions its account had then. */
  datatype Revocation = Revocation(locked: set<Id>, known: set<Id>)

  /** An open transaction that changes a password, completes a reset, or only revokes sessions. */
  datatype Tx = Tx(account: Id, credential: Option<Credential>, challenge: Option<Id>, now: Time,
      revocation: Option<Revocation>)

  datatype State = State(
    tables: Tables,
    intents: map<Id, Intent>,
    txs: map<Id, Tx>,
    issued: set<Hash>,      // every token hash ever drawn
    retired: set<Hash>)     // those that a rotation has replaced

  datatype Step =
    | SignIn(id: Id, account: Id, hash: Hash, now: Time)
    | ReadToRotate(pid: Id, id: Id, newHash: Hash, now: Time)
    | ReadToSignOut(pid: Id, id: Id, now: Time)
    | Write(pid: Id)
    | Provision(account: Id, passwordHash: Hash, now: Time)
    | CreateChallenge(id: Id, account: Id, hash: Hash, now: Time, ttl: nat)
    | Open(txid: Id, account: Id, credential: Option<Credential>, challenge: Option<(Id, nat)>, now: Time)
    | Revoke(txid: Id)
    | Commit(txid: Id)
    | Abort(txid: Id)

  ghost predicate IsLocked(s: State, id: Id) {
    exists t :: t in s.txs && s.txs[t].revocation.Some? && id in s.txs[t].revocation.value.locked
  }

  ghost predicate CredentialIsLocked(s: State, account: Id) {
    exists t :: t in s.txs && s.txs[t].credential.Some? && s.txs[t].account == account
  }

  ghost predicate ChallengeIsLocked(s: State, id: Id) {
    exists t :: t in s.txs && s.txs[t].challenge == Some(id)
  }

  /** A step that would block on a row lock, fail its statement or draw a used value does not happen. */
  ghost predicate Enabled(s: State, step: Step, ttlMs: int) {
    match step
    case SignIn(id, account, hash, now) => id !in s.tables.sessions && hash !in s.issued
    case ReadToRotate(pid, id, newHash, now) =>
      pid !in s.intents && newHash !in s.issued && id in s.tables.sessions && IsActive(s.tables.sessions[id], now)
    case ReadToSignOut(pid, id, now) => pid !in s.intents && id in s.tables.sessions
      && s.tables.sessions[id].revokedAt == None
    case Write(pid) => pid in s.intents && !IsLocked(s, s.intents[pid].seen.id)
    case Provision(account, _, _) => account !in s.tables.credentials
    case CreateChallenge(id, _, _, _, _) => id !in s.tables.challenges
    case Open(txid, account, credential, challenge, now) =>
      && txid !in s.txs
      && (credential.Some? ==>
            && credential.value.account == account && credential.value.version >= 2
            && !CredentialIsLocked(s, account) && ReplacesCredential(s.tables, credential.value))
      && (challenge.Some? ==>
            && credential.Some?
            && !ChallengeIsLocked(s, challenge.value.0)
            && ConsumesChallenge(s.tables, challenge.value.0, challenge.value.1, now)
            && s.tables.challenges[challenge.value.0].account == account)
    case Revoke(txid) =>
      && txid in s.txs && s.txs[txid].revocation == None
      && (forall id :: id in Revocable(s.tables, s.txs[txid].account) ==> !IsLocked(s, id))
    case Commit(txid) => txid in s.txs && s.txs[txid].revocation.Some?
    case Abort(txid) => txid in s.txs
  }

  function SessionsOf(t: Tables, account: Id): set<Id> {
    set id | id in t.sessions && t.sessions[id].account == account
  }

  /** Everything a transaction wrote becomes visible at once. */
  function Committed(t: Tables, tx: Tx): Tables
    requires tx.revocation.Some?
  {
    var t1 := if tx.challenge.Some? && tx.challenge.value in t.challenges
      then ConsumedChallenge(t, tx.challenge.value, tx.now) else t;
    var t2 := if tx.credential.Some? then t1.(credentials := t1.credentials[tx.account := tx.credential.value]) else t1;
    RevokedAll(t2, tx.revocation.value.locked, tx.now)
  }

  ghost function Apply(s: State, step: Step, ttlMs: int): State
    requires Enabled(s, step, ttlMs)
  {
    match step
    case SignIn(id, account, hash, now) =>
      (match CreateSession(id, account, hash, now, ttlMs)
       case Err(_) => s
       case Ok(row) => s.(tables := s.tables.(sessions := s.tables.sessions[id := row]), issued := s.issued + {hash}))
    case ReadToRotate(pid, id, newHash, now) =>
      var row := s.tables.sessions[id];
      s.(intents := s.intents[pid := Intent(row, RotateSession(row, newHash, now).value)],
        issued := s.issued + {newHash})
    case ReadToSignOut(pid, id, now) =>
      var row := s.tables.sessions[id];
      s.(intents := s.intents[pid := Intent(row, RevokeSession(row, now))])
    case Write(pid) =>
      var intent := s.intents[pid];
      var (t, replaced) := ReplacedSession(s.tables, intent.next, intent.seen.version);
      s.(tables := t, intents := s.intents - {pid},
         retired := if replaced && intent.next.tokenHash != intent.seen.tokenHash
           then s.retired + {intent.seen.tokenHash} else s.retired)
    case Provision(account, passwordHash, now) =>
      s.(tables := s.tables.(credentials := s.tables.credentials[account := Credential(account, passwordHash, now, 1)]))
    case CreateChallenge(id, account, hash, now, ttl) =>
      var row := Challenge(id, account, hash, now, now + ttl, None, 1);
      s.(tables := s.tables.(challenges := s.tables.challenges[id := row]))
    case Open(txid, account, credential, challenge, now) =>
      var consumed := if challenge.Some? then Some(challenge.value.0) else None;
      s.(txs := s.txs[txid := Tx(account, credential, consumed, now, None)])
    case Revoke(txid) =>
      var tx := s.txs[txid];
      s.(txs := s.txs[txid := tx.(revocation := Some(Revocation(Revocable(s.tables, tx.account),
        SessionsOf(s.tables, tx.account))))])
    case Commit(txid) => s.(tables := Committed(s.tables, s.txs[txid]), txs := s.txs - {txid})
    case Abort(txid) => s.(txs := s.txs - {txid})
  }

  // ---- The invariant ----

  /**
   * Nothing about a session is ever undone: a revocation stays, an expiry stays, and every change raises the version.
   */
  predicate Later(a: Session, b: Session) {
    && a.id == b.id && a.account == b.account && a.createdAt == b.createdAt && a.expiresAt == b.expiresAt
    && a.version <= b.version
    && (a.version == b.version ==> a == b)
    && (a.revokedAt.Some? ==> b.revokedAt == a.revokedAt && b.tokenHash == a.tokenHash)
  }

  ghost predicate Evolves(t: Tables, u: Tables) {
    forall id :: id in t.sessions ==> id in u.sessions && Later(t.sessions[id], u.sessions[id])
  }

  ghost predicate SessionsOk(t: Tables, ttlMs: int) {
    forall id :: id in t.sessions ==>
      t.sessions[id].id == id && t.sessions[id].version >= 1
        && t.sessions[id].expiresAt == t.sessions[id].createdAt + ttlMs
  }

  predicate Rotates(i: Intent) {
    i.next.tokenHash != i.seen.tokenHash
  }

  /** What was read has not been overtaken, or the write will fail. */
  ghost predicate IntentOk(t: Tables, i: Intent) {
    && i.seen.id in t.sessions && Later(i.seen, t.sessions[i.seen.id])
    && i.seen.revokedAt == None
    && i.next.id == i.seen.id && i.next.expiresAt == i.seen.expiresAt && i.next.version == i.seen.version + 1
    && (if Rotates(i) then i.next.revokedAt == None else i.next.revokedAt.Some?)
  }

  ghost predicate IntentsOk(s: State) {
    forall pid :: pid in s.intents ==> IntentOk(s.tables, s.intents[pid])
  }

  ghost predicate HashesOk(s: State) {
    && s.retired <= s.issued
    && (forall id :: id in s.tables.sessions ==> s.tables.sessions[id].tokenHash in s.issued - s.retired)
    && (forall i, j :: i in s.tables.sessions && j in s.tables.sessions && i != j ==>
       s.tables.sessions[i].tokenHash != s.tables.sessions[j].tokenHash)
  }

  /** A hash drawn for a rotation that is still to be written belongs to nobody else. */
  ghost predicate DrawnHashesOk(s: State) {
    && (forall p :: p in s.intents && Rotates(s.intents[p]) ==> s.intents[p].next.tokenHash in s.issued - s.retired)
    && (forall p, id :: p in s.intents && Rotates(s.intents[p]) && id in s.tables.sessions ==>
          s.tables.sessions[id].tokenHash != s.intents[p].next.tokenHash)
    && (forall p, q :: p in s.intents && q in s.intents && p != q && Rotates(s.intents[p]) && Rotates(s.intents[q]) ==>
          s.intents[p].next.tokenHash != s.intents[q].next.tokenHash)
  }

  ghost predicate RevocationOk(t: Tables, account: Id, r: Revocation) {
    && r.locked <= r.known
    && (forall id :: id in r.known ==> id in t.sessions && t.sessions[id].account == account)
    && (forall id :: id in r.known ==> (t.sessions[id].revokedAt == None <==> id in r.locked))
  }

  ghost predicate RevocationsOk(s: State) {
    && (forall x :: x in s.txs && s.txs[x].revocation.Some? ==>
       RevocationOk(s.tables, s.txs[x].account, s.txs[x].revocation.value))
    && (forall x, y, id :: x in s.txs && y in s.txs && x != y && HoldsLock(s.txs[x], id) ==> !HoldsLock(s.txs[y], id))
  }

  predicate HoldsLock(tx: Tx, id: Id) {
    tx.revocation.Some? && id in tx.revocation.value.locked
  }

  /** The credential that an open transaction will write is the next version, and its challenge is unconsumed. */
  ghost predicate ChangeOk(t: Tables, tx: Tx) {
    && (tx.credential.Some? ==>
          var c := tx.credential.value;
          c.account == tx.account && c.version >= 2 && c.account in t.credentials
          && t.credentials[c.account].version + 1 == c.version)
    && (tx.challenge.Some? ==>
          tx.credential.Some? && tx.challenge.value in t.challenges
          && t.challenges[tx.challenge.value].consumedAt == None)
  }

  predicate WriteApart(a: Tx, b: Tx) {
    && !(a.credential.Some? && b.credential.Some? && a.account == b.account)
    && !(a.challenge.Some? && a.challenge == b.challenge)
  }

  ghost predicate ChangesOk(s: State) {
    && (forall x :: x in s.txs ==> ChangeOk(s.tables, s.txs[x]))
    && (forall x, y :: x in s.txs && y in s.txs && x != y ==> WriteApart(s.txs[x], s.txs[y]))
  }

  ghost predicate Inv(s: State, ttlMs: int) {
    && SessionsOk(s.tables, ttlMs) && IntentsOk(s) && HashesOk(s) && DrawnHashesOk(s) && RevocationsOk(s)
       && ChangesOk(s)
  }

  ghost function Next(s: State, step: Step, ttlMs: int): State {
    if Enabled(s, step, ttlMs) then Apply(s, step, ttlMs) else s
  }

  lemma {:induction false} SessionsEvolve(s: State, step: Step, ttlMs: int)
    requires Inv(s, ttlMs)
    ensures Evolves(s.tables, Next(s, step, ttlMs).tables)
  {
    hide IsLocked, CredentialIsLocked, ChallengeIsLocked, HashesOk, DrawnHashesOk, ChangesOk, IsActive,
         ConsumesChallenge, ReplacesCredential;
    if Enabled(s, step, ttlMs) && step.Commit? {
      CommitEvolves(s, step.txid);
    }
  }

  lemma CommitEvolves(s: State, x: Id)
    requires RevocationsOk(s) && ChangesOk(s) && x in s.txs && s.txs[x].revocation.Some?
    ensures Evolves(s.tables, Committed(s.tables, s.txs[x]))
  {
  }

  lemma SessionsOkKept(s: State, step: Step, ttlMs: int)
    requires Inv(s, ttlMs)
    ensures SessionsOk(Next(s, step, ttlMs).tables, ttlMs)
  {
    hide Next, IntentsOk, HashesOk, DrawnHashesOk, RevocationsOk, ChangesOk;
    SessionsEvolve(s, step, ttlMs);
    var t := Next(s, step, ttlMs).tables;
    forall id | id in t.sessions && id !in s.tables.sessions
      ensures t.sessions[id].id == id && t.sessions[id].version == 1
      ensures t.sessions[id].expiresAt == t.sessions[id].createdAt + ttlMs
    {
      NewSessionIsOk(s, step, id, ttlMs);
    }
  }

  lemma NewSessionIsOk(s: State, step: Step, id: Id, ttlMs: int)
    requires id in Next(s, step, ttlMs).tables.sessions && id !in s.tables.sessions
    ensures var row := Next(s, step, ttlMs).tables.sessions[id];
            row.id == id && row.version == 1 && row.expiresAt == row.createdAt + ttlMs
  {
    hide IsLocked, CredentialIsLocked, ChallengeIsLocked, IsActive, ConsumesChallenge, ReplacesCredential;
  }

  lemma IntentsOkKept(s: State, step: Step, ttlMs: int)
    requires Inv(s, ttlMs)
    ensures IntentsOk(Next(s, step, ttlMs))
  {
    var s' := Next(s, step, ttlMs);
    SessionsEvolve(s, step, ttlMs);
    forall pid | pid in s'.intents ensures IntentOk(s'.tables, s'.intents[pid]) {
      if pid in s.intents && s'.intents[pid] == s.intents[pid] {
        IntentOutlives(s.tables, s'.tables, s.intents[pid]);
      } else {
        NewIntentIsOk(s, step, pid, ttlMs);
      }
    }
  }

  lemma IntentOutlives(t: Tables, u: Tables, i: Intent)
    requires IntentOk(t, i) && Evolves(t, u)
    ensures IntentOk(u, i)
  {
  }

  lemma NewIntentIsOk(s: State, step: Step, pid: Id, ttlMs: int)
    requires Inv(s, ttlMs)
    requires var s' := Next(s, step, ttlMs);
             pid in s'.intents && !(pid in s.intents && s'.intents[pid] == s.intents[pid])
    ensures var s' := Next(s, step, ttlMs); IntentOk(s'.tables, s'.intents[pid])
  {
    hide IsLocked, CredentialIsLocked, ChallengeIsLocked, RevocationsOk, DrawnHashesOk, ConsumesChallenge,
         ReplacesCredential, Committed;
    assert step.ReadToRotate? || step.ReadToSignOut?;
  }

  lemma CommitKeepsHashes(s: State, x: Id)
    requires ChangesOk(s) && x in s.txs && s.txs[x].revocation.Some?
    ensures var u := Committed(s.tables, s.txs[x]);
            && u.sessions.Keys == s.tables.sessions.Keys
            && forall id :: id in u.sessions ==> u.sessions[id].tokenHash == s.tables.sessions[id].tokenHash
  {
  }

  lemma WriteKeepsHashes(s: State, pid: Id)
    requires pid in s.intents && IntentsOk(s) && HashesOk(s) && DrawnHashesOk(s)
    ensures var intent := s.intents[pid];
            var (t, replaced) := ReplacedSession(s.tables, intent.next, intent.seen.version);
            && t.sessions.Keys == s.tables.sessions.Keys
            && (forall id :: id in t.sessions ==>
                 t.sessions[id].tokenHash == if replaced && id == intent.seen.id then intent.next.tokenHash
                   else s.tables.sessions[id].tokenHash)
            && (replaced ==> s.tables.sessions[intent.seen.id] == intent.seen)
            && (!replaced ==> t == s.tables)
  {
    assert IntentOk(s.tables, s.intents[pid]);
  }

  ghost predicate AllHashesOk(s: State) {
    HashesOk(s) && DrawnHashesOk(s)
  }

  lemma HashesAreFramed(s: State, s': State)
    requires AllHashesOk(s)
    requires s'.issued == s.issued && s'.retired == s.retired && s'.intents == s.intents
    requires s'.tables.sessions.Keys == s.tables.sessions.Keys
    requires forall id :: id in s.tables.sessions ==>
             s'.tables.sessions[id].tokenHash == s.tables.sessions[id].tokenHash
    ensures AllHashesOk(s')
  {
  }

  lemma SignInKeepsHashes(s: State, s': State, id: Id, row: Session)
    requires AllHashesOk(s) && id !in s.tables.sessions && row.tokenHash !in s.issued
    requires s' == s.(tables := s.tables.(sessions := s.tables.sessions[id := row]),
             issued := s.issued + {row.tokenHash})
    ensures AllHashesOk(s')
  {
  }

  lemma ReadToRotateKeepsHashes(s: State, s': State, pid: Id, intent: Intent)
    requires AllHashesOk(s) && pid !in s.intents && intent.next.tokenHash !in s.issued
    requires s' == s.(intents := s.intents[pid := intent], issued := s.issued + {intent.next.tokenHash})
    ensures AllHashesOk(s')
  {
  }

  lemma ReadToSignOutKeepsHashes(s: State, s': State, pid: Id, intent: Intent)
    requires AllHashesOk(s) && pid !in s.intents && !Rotates(intent)
    requires s' == s.(intents := s.intents[pid := intent])
    ensures AllHashesOk(s')
  {
  }

  lemma RotationKeepsHashes(s: State, s': State, pid: Id)
    requires AllHashesOk(s) && IntentsOk(s) && pid in s.intents && Rotates(s.intents[pid])
    requires var i := s.intents[pid];
             && s.tables.sessions[i.seen.id] == i.seen
             && s'.issued == s.issued && s'.intents == s.intents - {pid} && s'.retired == s.retired + {i.seen.tokenHash}
             && s'.tables.sessions.Keys == s.tables.sessions.Keys
             && (forall id :: id in s.tables.sessions ==>
                  s'.tables.sessions[id].tokenHash == if id == i.seen.id then i.next.tokenHash
                    else s.tables.sessions[id].tokenHash)
    ensures AllHashesOk(s')
  {
    var i := s.intents[pid];
    assert i.seen.tokenHash == s.tables.sessions[i.seen.id].tokenHash;
  }

  lemma WriteKeepsAllHashes(s: State, pid: Id, ttlMs: int)
    requires Inv(s, ttlMs) && Enabled(s, Write(pid), ttlMs)
    ensures AllHashesOk(Apply(s, Write(pid), ttlMs))
  {
    hide IsLocked, CredentialIsLocked, ChallengeIsLocked, RevocationsOk, ChangesOk, SessionsOk, HashesOk,
         DrawnHashesOk, ReplacedSession;
    var s', i := Apply(s, Write(pid), ttlMs), s.intents[pid];
    WriteKeepsHashes(s, pid);
    var idle := s.(intents := s.intents - {pid});
    FewerIntents(s, pid);
    if ReplacedSession(s.tables, i.next, i.seen.version).1 && Rotates(i) {
      RotationKeepsHashes(s, s', pid);
    } else {
      HashesAreFramed(idle, s');
    }
  }

  lemma FewerIntents(s: State, pid: Id)
    requires AllHashesOk(s)
    ensures AllHashesOk(s.(intents := s.intents - {pid}))
  {
  }

  lemma AllHashesOkKept(s: State, step: Step, ttlMs: int)
    requires Inv(s, ttlMs)
    ensures AllHashesOk(Next(s, step, ttlMs))
  {
    hide IsLocked, CredentialIsLocked, ChallengeIsLocked, RevocationsOk, ConsumesChallenge, ReplacesCredential,
         HashesOk, DrawnHashesOk, Committed, SessionsOk;
    var s' := Next(s, step, ttlMs);
    if Enabled(s, step, ttlMs) {
      match step
      case SignIn(id, account, hash, now) =>
        if ttlMs >= 60000 { SignInKeepsHashes(s, s', id, CreateSession(id, account, hash, now, ttlMs).value); }
      case ReadToRotate(pid, _, _, _) => ReadToRotateKeepsHashes(s, s', pid, s'.intents[pid]);
      case ReadToSignOut(pid, _, _) => ReadToSignOutKeepsHashes(s, s', pid, s'.intents[pid]);
      case Write(pid) => WriteKeepsAllHashes(s, pid, ttlMs);
      case Commit(txid) =>
        CommitKeepsHashes(s, txid);
        HashesAreFramed(s, s');
      case _ => HashesAreFramed(s, s');
    }
  }

  // ---- Transactions keep what they locked ----

  lemma RevocationOutlives(t: Tables, u: Tables, account: Id, r: Revocation)
    requires RevocationOk(t, account, r) && Evolves(t, u)
    requires forall id :: id in r.locked ==> u.sessions[id].revokedAt == None
    ensures RevocationOk(u, account, r)
  {
  }

  lemma RevocationsAreFramed(s: State, s': State)
    requires RevocationsOk(s) && Evolves(s.tables, s'.tables)
    requires forall x :: x in s'.txs ==> x in s.txs && s'.txs[x] == s.txs[x]
    requires forall x, id :: x in s'.txs && HoldsLock(s.txs[x], id) ==>
             id in s'.tables.sessions && s'.tables.sessions[id].revokedAt == None
    ensures RevocationsOk(s')
  {
    hide HoldsLock, RevocationOk, Evolves;
    forall x | x in s'.txs && s'.txs[x].revocation.Some?
      ensures RevocationOk(s'.tables, s'.txs[x].account, s'.txs[x].revocation.value) {
      LocksAreHeld(s.txs[x]);
      RevocationOutlives(s.tables, s'.tables, s.txs[x].account, s.txs[x].revocation.value);
    }
  }

  lemma LocksAreHeld(tx: Tx)
    requires tx.revocation.Some?
    ensures forall id :: id in tx.revocation.value.locked ==> HoldsLock(tx, id)
  {
  }

  lemma WriteSparesLocked(s: State, pid: Id, x: Id, id: Id, ttlMs: int)
    requires Inv(s, ttlMs) && Enabled(s, Write(pid), ttlMs) && x in s.txs && HoldsLock(s.txs[x], id)
    ensures id in s.tables.sessions && id in Apply(s, Write(pid), ttlMs).tables.sessions
    ensures Apply(s, Write(pid), ttlMs).tables.sessions[id] == s.tables.sessions[id]
  {
    hide HashesOk, DrawnHashesOk, ChangesOk, SessionsOk;
    assert IsLocked(s, id);
    assert IntentOk(s.tables, s.intents[pid]);
    assert RevocationOk(s.tables, s.txs[x].account, s.txs[x].revocation.value);
  }

  lemma CommitSparesLocked(s: State, c: Id, x: Id, id: Id)
    requires RevocationsOk(s) && ChangesOk(s) && c in s.txs && s.txs[c].revocation.Some?
    requires x in s.txs && x != c && HoldsLock(s.txs[x], id)
    ensures id in s.tables.sessions && id in Committed(s.tables, s.txs[c]).sessions
    ensures Committed(s.tables, s.txs[c]).sessions[id] == s.tables.sessions[id]
  {
    assert RevocationOk(s.tables, s.txs[x].account, s.txs[x].revocation.value);
    assert !HoldsLock(s.txs[c], id);
  }

  lemma LockedIsUnrevoked(s: State, x: Id, id: Id)
    requires RevocationsOk(s) && x in s.txs && HoldsLock(s.txs[x], id)
    ensures id in s.tables.sessions && s.tables.sessions[id].revokedAt == None
  {
    assert RevocationOk(s.tables, s.txs[x].account, s.txs[x].revocation.value);
  }

  lemma RevocationsOkKept(s: State, step: Step, ttlMs: int)
    requires Inv(s, ttlMs)
    ensures RevocationsOk(Next(s, step, ttlMs))
  {
    var s' := Next(s, step, ttlMs);
    SessionsEvolve(s, step, ttlMs);
    if Enabled(s, step, ttlMs) {
      match step
      case Revoke(x) => RevokeKeepsRevocations(s, x, ttlMs);
      case Open(x, _, _, _, _) => OpenKeepsRevocations(s, step, ttlMs);
      case _ => OthersKeepRevocations(s, step, ttlMs);
    }
  }

  lemma OthersKeepRevocations(s: State, step: Step, ttlMs: int)
    requires Inv(s, ttlMs) && Enabled(s, step, ttlMs) && !step.Revoke? && !step.Open?
    requires Evolves(s.tables, Next(s, step, ttlMs).tables)
    ensures RevocationsOk(Next(s, step, ttlMs))
  {
    hide HoldsLock, RevocationsOk, HashesOk, DrawnHashesOk, IntentsOk, SessionsOk, Evolves, IsLocked,
         CredentialIsLocked, ChallengeIsLocked, IsActive, ConsumesChallenge, ReplacesCredential, Committed,
         ReplacedSession;
    var s' := Next(s, step, ttlMs);
    forall x, id | x in s'.txs && HoldsLock(s.txs[x], id)
      ensures id in s'.tables.sessions && s'.tables.sessions[id].revokedAt == None {
      LockedIsUnrevoked(s, x, id);
      if step.Write? { WriteSparesLocked(s, step.pid, x, id, ttlMs); }
      if step.Commit? { CommitSparesLocked(s, step.txid, x, id); CommitKeepsHashes(s, step.txid); }
    }
    RevocationsAreFramed(s, s');
  }

  lemma OpenKeepsRevocations(s: State, step: Step, ttlMs: int)
    requires Inv(s, ttlMs) && Enabled(s, step, ttlMs) && step.Open?
    ensures RevocationsOk(Next(s, step, ttlMs))
  {
    hide RevocationOk, HashesOk, DrawnHashesOk, IntentsOk, SessionsOk, IsLocked, CredentialIsLocked, ChallengeIsLocked,
         ConsumesChallenge, ReplacesCredential;
  }

  lemma RevokeKeepsRevocations(s: State, x: Id, ttlMs: int)
    requires Inv(s, ttlMs) && Enabled(s, Revoke(x), ttlMs)
    ensures RevocationsOk(Next(s, Revoke(x), ttlMs))
  {
    hide HashesOk, DrawnHashesOk, IntentsOk, SessionsOk, ChangesOk;
    var s' := Next(s, Revoke(x), ttlMs);
    var r := s'.txs[x].revocation.value;
    assert RevocationOk(s.tables, s.txs[x].account, r);
    forall y, id | y in s.txs && y != x && HoldsLock(s.txs[y], id) ensures id !in r.locked {
      assert IsLocked(s, id);
    }
  }

  lemma ChangesAreFramed(s: State, s': State)
    requires ChangesOk(s)
    requires forall x :: x in s'.txs ==>
               && x in s.txs && s'.txs[x].account == s.txs[x].account
               && s'.txs[x].credential == s.txs[x].credential && s'.txs[x].challenge == s.txs[x].challenge
    requires forall a :: a in s.tables.credentials ==>
             a in s'.tables.credentials && s'.tables.credentials[a] == s.tables.credentials[a]
    requires forall id :: id in s.tables.challenges ==>
             id in s'.tables.challenges && s'.tables.challenges[id] == s.tables.challenges[id]
    ensures ChangesOk(s')
  {
  }

  lemma ChangesOkKept(s: State, step: Step, ttlMs: int)
    requires Inv(s, ttlMs)
    ensures ChangesOk(Next(s, step, ttlMs))
  {
    hide HashesOk, DrawnHashesOk, IntentsOk, SessionsOk, IsLocked, CredentialIsLocked, ChallengeIsLocked,
         RevocationsOk, IsActive, ChangesOk;
    if Enabled(s, step, ttlMs) && step.Commit? {
      CommitKeepsChanges(s, step.txid, ttlMs);
    } else if Enabled(s, step, ttlMs) && step.Open? {
      OpenKeepsChanges(s, step, ttlMs);
    } else {
      ChangesAreFramed(s, Next(s, step, ttlMs));
    }
  }

  lemma CommitKeepsChanges(s: State, x: Id, ttlMs: int)
    requires Inv(s, ttlMs) && Enabled(s, Commit(x), ttlMs)
    ensures ChangesOk(Next(s, Commit(x), ttlMs))
  {
    hide HashesOk, DrawnHashesOk, IntentsOk, SessionsOk, RevocationsOk;
  }

  lemma OpenKeepsChanges(s: State, step: Step, ttlMs: int)
    requires Inv(s, ttlMs) && Enabled(s, step, ttlMs) && step.Open?
    ensures ChangesOk(Next(s, step, ttlMs))
  {
    hide HashesOk, DrawnHashesOk, IntentsOk, SessionsOk, RevocationsOk, IsLocked, ChangesOk;
    var s' := Next(s, step, ttlMs);
    AddedChangeIsOk(s, s', step.txid, s'.txs[step.txid]);
  }

  lemma AddedChangeIsOk(s: State, s': State, txid: Id, tx: Tx)
    requires ChangesOk(s) && txid !in s.txs && s'.tables == s.tables && s'.txs == s.txs[txid := tx]
    requires tx.credential.Some? ==>
               && tx.credential.value.account == tx.account && tx.credential.value.version >= 2
               && ReplacesCredential(s.tables, tx.credential.value)
               && !CredentialIsLocked(s, tx.account)
    requires tx.challenge.Some? ==>
               && tx.credential.Some? && tx.challenge.value in s.tables.challenges
               && s.tables.challenges[tx.challenge.value].consumedAt == None
               && !ChallengeIsLocked(s, tx.challenge.value)
    ensures ChangesOk(s')
  {
    forall y | y in s.txs ensures WriteApart(tx, s.txs[y]) && WriteApart(s.txs[y], tx) {
    }
  }

  lemma InvKept(s: State, step: Step, ttlMs: int)
    requires Inv(s, ttlMs)
    ensures Inv(Next(s, step, ttlMs), ttlMs)
  {
    hide SessionsOk, IntentsOk, RevocationsOk, ChangesOk, Next;
    SessionsOkKept(s, step, ttlMs);
    IntentsOkKept(s, step, ttlMs);
    AllHashesOkKept(s, step, ttlMs);
    RevocationsOkKept(s, step, ttlMs);
    ChangesOkKept(s, step, ttlMs);
  }

  const START := State(Tables(map[], map[], map[]), map[], map[], {}, {})

  ghost function Run(steps: seq<Step>, ttlMs: int): State
    decreases |steps|
  {
    if steps == [] then START else Next(Run(steps[..|steps| - 1], ttlMs), steps[|steps| - 1], ttlMs)
  }

  lemma {:induction false} InvHolds(steps: seq<Step>, ttlMs: int)
    ensures Inv(Run(steps, ttlMs), ttlMs)
    decreases |steps|
  {
    if steps == [] {
      assert Run(steps, ttlMs) == START;
    } else {
      hide Inv, Next;
      InvHolds(steps[..|steps| - 1], ttlMs);
      InvKept(Run(steps[..|steps| - 1], ttlMs), steps[|steps| - 1], ttlMs);
    }
  }
}
