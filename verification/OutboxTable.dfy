/** Rows of the outbox table and the statements of its SQL store, one atomic step per statement. */
module OutboxTable {
  import opened Maybe

  type Id = nat      // UUIDs: only equality and their order matter
  type Token = nat   // UUIDs: only equality matters
  type Time = int    // milliseconds

  datatype Status = PENDING | PROCESSING | DELIVERED | DEAD

  datatype Row = Row(
    id: Id,
    dedupeKey: string,
    recipientAccountId: string,
    payload: string,
    createdAt: Time,
    availableAt: Time,
    attemptCount: nat,
    status: Status,
    leaseToken: Option<Token>,
    leaseExpiresAt: Option<Time>,
    lastErrorCode: Option<string>,
    deliveredAt: Option<Time>)

  type Table = map<Id, Row>

  predicate Terminal(row: Row) {
    row.status == DELIVERED || row.status == DEAD
  }

  /** Some holder may still acknowledge this row with `token`; the lease expiry is not consulted. */
  predicate HeldBy(row: Row, token: Token) {
    row.status == PROCESSING && row.leaseToken == Some(token)
  }

  predicate Eligible(row: Row, now: Time) {
    && row.availableAt <= now
    && (row.status == PENDING
        || (row.status == PROCESSING && row.leaseExpiresAt.Some? && row.leaseExpiresAt.value <= now))
  }

  /** ORDER BY available_at, created_at, id. */
  predicate Before(a: Row, b: Row) {
    if a.availableAt != b.availableAt then a.availableAt < b.availableAt
    else if a.createdAt != b.createdAt then a.createdAt < b.createdAt
    else a.id < b.id
  }

  function Claimed(row: Row, token: Token, expiresAt: Time): Row {
    row.(status := PROCESSING, leaseToken := Some(token), leaseExpiresAt := Some(expiresAt))
  }

  function Delivered(row: Row, at: Time): Row {
    row.(status := DELIVERED, deliveredAt := Some(at), leaseToken := None, leaseExpiresAt := None,
      lastErrorCode := None)
  }

  function Failed(row: Row, code: string, nextAvailableAt: Time, maxAttempts: nat): Row {
    var exhausted := row.attemptCount + 1 >= maxAttempts;
    row.(attemptCount := row.attemptCount + 1,
    status := if exhausted then DEAD else PENDING,
    availableAt := if exhausted then row.availableAt else nextAvailableAt,
    lastErrorCode := Some(code), leaseToken := None, leaseExpiresAt := None)
  }

  function Dead(row: Row, code: string): Row {
    row.(status := DEAD, attemptCount := row.attemptCount + 1,
    lastErrorCode := Some(code), leaseToken := None, leaseExpiresAt := None)
  }

  /** What a holder writes when it acknowledges a row. */
  datatype Mark =
    | MarkDelivered(at: Time)
    | MarkFailed(code: string, nextAvailableAt: Time, maxAttempts: nat)
    | MarkDead(code: string)

  function Marked(row: Row, mark: Mark): Row {
    match mark
    case MarkDelivered(at) => Delivered(row, at)
    case MarkFailed(code, next, maxAttempts) => Failed(row, code, next, maxAttempts)
    case MarkDead(code) => Dead(row, code)
  }

  /** UPDATE ... WHERE id = $1 AND status = 'PROCESSING' AND lease_token = $2. */
  function Update(t: Table, id: Id, token: Token, mark: Mark): Table {
    map i | i in t :: if i == id && HeldBy(t[i], token) then Marked(t[i], mark) else t[i]
  }

  predicate UpdateHits(t: Table, id: Id, token: Token) {
    id in t && HeldBy(t[id], token)
  }

  /** CHECK (available_at >= created_at). */
  predicate InTimeOrder(row: Row) {
    row.availableAt >= row.createdAt
  }

  /** The statement would break the CHECK, so the server refuses it. */
  predicate UpdateRefused(t: Table, id: Id, token: Token, mark: Mark) {
    UpdateHits(t, id, token) && !InTimeOrder(Marked(t[id], mark))
  }

  function CheckedUpdate(t: Table, id: Id, token: Token, mark: Mark): Table {
    if UpdateRefused(t, id, token, mark) then t else Update(t, id, token, mark)
  }

  /** How the INSERT ends; a primary-key violation is an error, only the dedupe key is a conflict target. */
  datatype Inserted = Enqueued | Duplicate | IdTaken

  function InsertOutcome(t: Table, row: Row): Inserted {
    if exists i :: i in t && t[i].dedupeKey == row.dedupeKey then Duplicate
    else if row.id in t then IdTaken
    else Enqueued
  }

  function Insert(t: Table, row: Row): Table {
    if InsertOutcome(t, row).Enqueued? then t[row.id := row] else t
  }

  /** A row that has been claimed and failed once for each entry of `nexts`, the times offered for the next attempt. */
  function AfterFailures(row: Row, nexts: seq<Time>, token: Token, expiresAt: Time, code: string, maxAttempts: nat): Row
    decreases |nexts|
  {
    if nexts == [] then row
    else
      var before := AfterFailures(row, nexts[..|nexts| - 1], token, expiresAt, code, maxAttempts);
      Failed(Claimed(before, token, expiresAt), code, nexts[|nexts| - 1], maxAttempts)
  }

  /** A new row is retried at each time offered until exactly `maxAttempts` failures have been used up. */
  lemma {:induction false} RetriedUntilExhausted(row: Row, nexts: seq<Time>, token: Token, expiresAt: Time,
      code: string, maxAttempts: nat)
    requires row.status == PENDING && row.attemptCount == 0 && 1 <= maxAttempts && |nexts| <= maxAttempts
    ensures var r, n := AfterFailures(row, nexts, token, expiresAt, code, maxAttempts), |nexts|;
            && r.attemptCount == n && r.id == row.id && r.dedupeKey == row.dedupeKey && r.payload == row.payload
            && r.status == (if n == maxAttempts then DEAD else PENDING)
            && (n > 0 ==> r.leaseToken == None && r.leaseExpiresAt == None && r.lastErrorCode == Some(code))
            && (0 < n < maxAttempts ==> r.availableAt == nexts[n - 1])
    decreases |nexts|
  {
    if nexts != [] { RetriedUntilExhausted(row, nexts[..|nexts| - 1], token, expiresAt, code, maxAttempts); }
  }

  /** The ids the claiming statement's candidate query may yield; `skipped` are rows other transactions hold locked. */
  ghost predicate FirstEligible(t: Table, now: Time, limit: nat, skipped: set<Id>, chosen: seq<Id>) {
    && |chosen| <= limit
    && (forall i :: 0 <= i < |chosen| ==> chosen[i] in t && chosen[i] !in skipped && Eligible(t[chosen[i]], now))
    && (forall i, j :: 0 <= i < j < |chosen| ==> Before(t[chosen[i]], t[chosen[j]]))
    && (forall id :: id in t && id !in skipped && id !in chosen && Eligible(t[id], now) ==>
          |chosen| == limit && forall i :: 0 <= i < |chosen| ==> Before(t[chosen[i]], t[id]))
  }

  function Claim(t: Table, chosen: seq<Id>, token: Token, expiresAt: Time): Table {
    map i | i in t :: if i in chosen then Claimed(t[i], token, expiresAt) else t[i]
  }

  ghost predicate KeyedById(t: Table) {
    forall i :: i in t ==> t[i].id == i
  }

  /** The ordering is total on ids, so a claim is determined by the table, the time, the limit and the locked rows. */
  lemma FirstEligibleIsUnique(t: Table, now: Time, limit: nat, skipped: set<Id>, a: seq<Id>, b: seq<Id>)
    requires KeyedById(t)
    requires FirstEligible(t, now, limit, skipped, a) && FirstEligible(t, now, limit, skipped, b)
    ensures a == b
  {
    SamePrefix(t, now, limit, skipped, a, b, if |a| <= |b| then |a| else |b|);
    if |a| < |b| {
      NotYetChosen(a, b, |a|);
    } else if |b| < |a| {
      NotYetChosen(b, a, |b|);
    }
  }

  lemma {:induction false} SamePrefix(t: Table, now: Time, limit: nat, skipped: set<Id>, a: seq<Id>, b: seq<Id>, k: nat)
    requires KeyedById(t)
    requires FirstEligible(t, now, limit, skipped, a) && FirstEligible(t, now, limit, skipped, b)
    requires k <= |a| && k <= |b|
    ensures a[..k] == b[..k]
  {
    if k > 0 {
      SamePrefix(t, now, limit, skipped, a, b, k - 1);
      NextPrecedes(t, now, limit, skipped, a, b, k - 1);
      NextPrecedes(t, now, limit, skipped, b, a, k - 1);
    }
  }

  /** After a common prefix, each claim's next row is the other's or precedes it. */
  lemma NextPrecedes(t: Table, now: Time, limit: nat, skipped: set<Id>, a: seq<Id>, b: seq<Id>, k: nat)
    requires KeyedById(t)
    requires FirstEligible(t, now, limit, skipped, a) && FirstEligible(t, now, limit, skipped, b)
    requires k < |a| && k < |b| && a[..k] == b[..k]
    ensures a[k] == b[k] || Before(t[a[k]], t[b[k]])
  {
    forall i | 0 <= i < k ensures a[i] == b[i] { assert a[..k][i] == b[..k][i]; }
    if b[k] in a {
      var i :| 0 <= i < |a| && a[i] == b[k];
      assert i >= k;
    }
  }

  /** An id that follows the common prefix of `a` in `b` does not occur in `a`. */
  lemma NotYetChosen(a: seq<Id>, b: seq<Id>, k: nat)
    requires k == |a| < |b| && a[..k] == b[..k]
    requires forall i, j :: 0 <= i < j < |b| ==> b[i] != b[j]
    ensures b[k] !in a
  {
    forall i | 0 <= i < |a| ensures a[i] != b[k] { assert a[i] == a[..k][i] == b[..k][i]; }
  }

  /** No later than in every respect: by time of availability, then by creation, then by id. */
  ghost predicate ComesBy(a: Row, b: Row) {
    && a.availableAt <= b.availableAt
    && (a.availableAt == b.availableAt ==> a.createdAt <= b.createdAt)
    && (a.availableAt == b.availableAt && a.createdAt == b.createdAt ==> a.id < b.id)
  }

  /** The rows that have waited longest are claimed, longest first, and none that has waited longer is left out. */
  lemma LongestWaitingFirst(t: Table, now: Time, limit: nat, skipped: set<Id>, chosen: seq<Id>)
    requires FirstEligible(t, now, limit, skipped, chosen)
    ensures forall i, j :: 0 <= i < j < |chosen| ==> ComesBy(t[chosen[i]], t[chosen[j]])
    ensures forall id, i :: id in t && id !in skipped && id !in chosen && Eligible(t[id], now) && 0 <= i < |chosen| ==>
              ComesBy(t[chosen[i]], t[id])
  {
  }
}
