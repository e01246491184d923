/** Password-reset and verification requests: a challenge, its security event and its delivery in one transaction. */
module SecretRequests {
  import opened Maybe
  import opened Uuids
  import opened Transactions
  import opened SecretDelivery
  import IdentityTables
  import OutboxTable
  import AuditRecorder
  import JsText

  type Time = int

  datatype Purpose = PasswordReset | EmailVerification

  datatype EventRow = EventRow(id: string, purpose: Purpose, subject: string, correlationId: string, occurredAt: Time)

  /** The three tables that a request writes. */
  datatype World = World(
    challenges: map<string, IdentityTables.Challenge>,
    events: seq<EventRow>,
    outbox: OutboxTable.Table)

  datatype RequestWrite =
    | InsertChallenge(challenge: IdentityTables.Challenge)
    | AppendEvent(event: EventRow)
    | EnqueueRow(row: OutboxTable.Row)

  predicate HasEvent(w: World, id: string) {
    exists i :: 0 <= i < |w.events| && w.events[i].id == id
  }

  predicate HasHash(w: World, hash: string) {
    exists id :: id in w.challenges && w.challenges[id].tokenHash == hash
  }

  /**
   * Each INSERT against the constraints of its table; the outbox alone ignores a conflict, and only on its dedupe key.
   */
  function Applied(w: World, write: RequestWrite): Option<World> {
    match write
    case InsertChallenge(c) =>
      if c.id in w.challenges || HasHash(w, c.tokenHash) || c.expiresAt <= c.createdAt then None
      else Some(w.(challenges := w.challenges[c.id := c]))
    case AppendEvent(e) => if HasEvent(w, e.id) then None else Some(w.(events := w.events + [e]))
    case EnqueueRow(row) =>
      if OutboxTable.InsertOutcome(w.outbox, row).IdTaken? then None
      else Some(w.(outbox := OutboxTable.Insert(w.outbox, row)))
  }

  /** What one request draws and reads: ids, token, clocks and the encryption of its payload. */
  datatype Request = Request(
    purpose: Purpose, accountId: string, challengeDraw: string, tokenHash: string, secret: string,
    now: Time, ttlMs: int, correlationId: string, eventDraw: string, recordedAt: Time,
    outboxId: OutboxTable.Id, sinkNow: Time, encrypt: (Delivery, OutboxTable.Id) -> string)

  predicate MintsIds(r: Request) {
    IdentityUuid(r.challengeDraw).Some? && IdentityUuid(r.accountId).Some?
  }

  function ChallengeOf(r: Request): IdentityTables.Challenge
    requires MintsIds(r)
  {
    IdentityTables.Challenge(
      IdentityUuid(r.challengeDraw).value, IdentityUuid(r.accountId).value, r.tokenHash,
      r.now, r.now + r.ttlMs, None, 1)
  }

  predicate RecordsEvent(r: Request) {
    AuditRecorder.AcceptsCorrelation(r.correlationId) && IdentityUuid(r.eventDraw).Some?
  }

  function EventOf(r: Request): EventRow
    requires RecordsEvent(r)
  {
    EventRow(
      IdentityUuid(r.eventDraw).value, r.purpose, JsText.Trim(r.accountId), JsText.Trim(r.correlationId),
      r.recordedAt)
  }

  function DeliveryOf(r: Request): Delivery
    requires MintsIds(r)
  {
    var purpose := if r.purpose == PasswordReset then "password-reset" else "email-verification";
    Delivery(ChallengeOf(r).id, r.accountId, purpose, r.secret, ChallengeOf(r).expiresAt)
  }

  function DeliveringWork(r: Request): Work<RequestWrite>
    requires MintsIds(r)
  {
    if !Deliverable(DeliveryOf(r), r.sinkNow) then Throw
    else Query(EnqueueRow(SecretRow(DeliveryOf(r), r.outboxId, r.sinkNow, r.encrypt)), Return)
  }

  function RecordingWork(r: Request): Work<RequestWrite>
    requires MintsIds(r)
  {
    if !RecordsEvent(r) then Throw else Query(AppendEvent(EventOf(r)), DeliveringWork(r))
  }

  /** The body of the transaction, with a throw wherever a validation fails before the next statement. */
  function RequestWork(r: Request): Work<RequestWrite> {
    if !MintsIds(r) then Throw else Query(InsertChallenge(ChallengeOf(r)), RecordingWork(r))
  }

  /** What a request puts into its three rows. */
  lemma RequestSays(r: Request)
    requires MintsIds(r) && RecordsEvent(r)
    ensures var c, e, d := ChallengeOf(r), EventOf(r), DeliveryOf(r);
            && IdentityUuid(r.challengeDraw) == Some(c.id) && IdentityUuid(r.accountId) == Some(c.account)
            && c.tokenHash == r.tokenHash && c.createdAt == r.now && c.expiresAt - r.now == r.ttlMs
            && c.consumedAt == None && c.version == 1
            && IdentityUuid(r.eventDraw) == Some(e.id) && e.purpose == r.purpose && e.occurredAt == r.recordedAt
            && e.subject == JsText.Trim(r.accountId) && e.correlationId == JsText.Trim(r.correlationId)
            && d.deliveryId == c.id && d.accountId == r.accountId && d.secret == r.secret && d.expiresAt == c.expiresAt
            && (r.purpose.PasswordReset? ==> d.purpose == "password-reset")
            && (r.purpose.EmailVerification? ==> d.purpose == "email-verification")
  {
    hide IdentityUuid, JsText.Trim;
  }

  /** Keys of the outbox belong to challenges, one row each. */
  ghost predicate WorldOk(w: World) {
    && UniqueKeys(w.outbox)
    && (forall i, x :: i in w.outbox && w.outbox[i].dedupeKey == DedupeKey(x) ==> x in w.challenges)
  }

  /** `after` is `before` with the challenge of `r`, its event, and the only row that carries its dedupe key. */
  ghost predicate AddsExactly(before: World, after: World, r: Request) {
    && MintsIds(r) && RecordsEvent(r) && Deliverable(DeliveryOf(r), r.sinkNow)
    && var challenge, row := ChallengeOf(r), SecretRow(DeliveryOf(r), r.outboxId, r.sinkNow, r.encrypt);
       && challenge.id !in before.challenges && after.challenges == before.challenges[challenge.id := challenge]
       && !HasEvent(before, EventOf(r).id) && after.events == before.events + [EventOf(r)]
       && r.outboxId !in before.outbox && after.outbox == before.outbox[r.outboxId := row]
       && row.dedupeKey == DedupeKey(challenge.id)
       && (forall i :: i in after.outbox && after.outbox[i].dedupeKey == DedupeKey(challenge.id) ==> i == r.outboxId)
  }

  function Database(plan: nat -> Fate): Server<World, RequestWrite> {
    Server(Applied, (_: RequestWrite) => true, plan)
  }

  /** Every validation of the request passes. */
  predicate Valid(r: Request) {
    MintsIds(r) && RecordsEvent(r) && Deliverable(DeliveryOf(r), r.sinkNow)
  }

  function ThreeWrites(r: Request): seq<RequestWrite>
    requires Valid(r)
  {
    [InsertChallenge(ChallengeOf(r)), AppendEvent(EventOf(r)),
     EnqueueRow(SecretRow(DeliveryOf(r), r.outboxId, r.sinkNow, r.encrypt))]
  }

  lemma WorkHasThreeWrites(r: Request)
    ensures !Catches(RequestWork(r)) && (Throws(RequestWork(r)) <==> !Valid(r))
    ensures Valid(r) ==> Writes(RequestWork(r)) == ThreeWrites(r)
  {
    hide MintsIds, RecordsEvent, Deliverable, ChallengeOf, EventOf, DeliveryOf, SecretRow;
    if MintsIds(r) {
      assert !Catches(DeliveringWork(r)) && (Throws(DeliveringWork(r)) <==> !Deliverable(DeliveryOf(r), r.sinkNow));
      assert !Catches(RecordingWork(r)) && (Throws(RecordingWork(r)) <==> !Valid(r));
      if Valid(r) {
        assert Writes(DeliveringWork(r)) == ThreeWrites(r)[2..];
        assert Writes(RecordingWork(r)) == ThreeWrites(r)[1..];
      }
    }
  }

  /** What stands in the tables can refuse only what it already holds. */
  ghost predicate Fits(w: World, r: Request)
    requires Valid(r)
  {
    && ChallengeOf(r).id !in w.challenges && !HasHash(w, r.tokenHash) && r.ttlMs > 0
    && !HasEvent(w, EventOf(r).id)
    && r.outboxId !in w.outbox
  }

  lemma NewKeyIsFree(w: World, r: Request)
    requires WorldOk(w) && Valid(r) && ChallengeOf(r).id !in w.challenges
    ensures SecretRow(DeliveryOf(r), r.outboxId, r.sinkNow, r.encrypt).dedupeKey == DedupeKey(ChallengeOf(r).id)
    ensures forall i :: i in w.outbox ==> w.outbox[i].dedupeKey != DedupeKey(ChallengeOf(r).id)
  {
    hide DedupeKey, Canonical, IsUuid;
    var id := ChallengeOf(r).id;
    MintedIsCanonical(r);
    OutboxReadsOnlyWhatIdentityReads(id);
    assert OutboxUuid(id) == Some(id);
  }

  lemma MintedIsCanonical(r: Request)
    requires MintsIds(r)
    ensures IdentityUuid(ChallengeOf(r).id) == Some(ChallengeOf(r).id)
  {
    CanonicalIsFixed(ChallengeOf(r).id, '8');
  }

  /** The three writes go through exactly when the request fits, and then they add exactly what it promises. */
  lemma ThreeWritesApply(w: World, r: Request, server: Server<World, RequestWrite>)
    requires WorldOk(w) && Valid(r) && server.apply == Applied
    ensures var u := AllApplied(server, w, ThreeWrites(r));
            && (u.Some? <==> Fits(w, r))
            && (u.Some? ==> AddsExactly(w, u.value, r) && WorldOk(u.value))
  {
    hide DedupeKey, ChallengeOf, EventOf, SecretRow, Deliverable, RecordsEvent, WorldOk, AddsExactly, AllApplied;
    var writes := ThreeWrites(r);
    ThreeApplied(w, writes[0], writes[1], writes[2], server);
    ChallengeShape(r);
    if ChallengeOf(r).id !in w.challenges {
      NewKeyIsFree(w, r);
      RowIsItself(r);
      if Fits(w, r) { FittingRequestAdds(w, r); }
    }
  }

  lemma RowIsItself(r: Request)
    requires Valid(r)
    ensures SecretRow(DeliveryOf(r), r.outboxId, r.sinkNow, r.encrypt).id == r.outboxId
  {
  }

  lemma ThreeApplied(w: World, x: RequestWrite, y: RequestWrite, z: RequestWrite, server: Server<World, RequestWrite>)
    requires server.apply == Applied
    ensures AllApplied(server, w, [x, y, z])
         == match Applied(w, x)
            case None => None
            case Some(w1) =>
              match Applied(w1, y)
              case None => None
              case Some(w2) => Applied(w2, z)
  {
    hide Applied;
    assert [x, y, z][1..] == [y, z] && [y, z][1..] == [z] && [z][1..] == [];
    forall v: World ensures AllApplied(server, v, [z]) == Applied(v, z) {
      assert [z][1..] == [];
      if Applied(v, z).Some? { assert AllApplied(server, Applied(v, z).value, []) == Applied(v, z); }
    }
  }

  lemma ChallengeShape(r: Request)
    requires MintsIds(r)
    ensures ChallengeOf(r).tokenHash == r.tokenHash
            && (ChallengeOf(r).expiresAt <= ChallengeOf(r).createdAt <==> r.ttlMs <= 0)
  {
  }

  lemma FittingRequestAdds(w: World, r: Request)
    requires WorldOk(w) && Valid(r) && Fits(w, r)
    ensures var row := SecretRow(DeliveryOf(r), r.outboxId, r.sinkNow, r.encrypt);
            var u := World(w.challenges[ChallengeOf(r).id := ChallengeOf(r)], w.events + [EventOf(r)],
              w.outbox[r.outboxId := row]);
            AddsExactly(w, u, r) && WorldOk(u)
  {
    hide DedupeKey, ChallengeOf, EventOf, DeliveryOf, Deliverable, RecordsEvent;
    NewKeyIsFree(w, r);
    forall x | DedupeKey(x) == DedupeKey(ChallengeOf(r).id) ensures x == ChallengeOf(r).id {
      DedupeKeyIsInjective(x, ChallengeOf(r).id);
    }
  }

  /**
   * From any tables that are in order and with any fate for any statement: if COMMIT takes effect the request has added
   * exactly its challenge, its event and the one row keyed by that challenge; otherwise all three tables stay as they
   * were.
   */
  lemma RequestIsAllOrNothing(c: Conn<World, RequestWrite>, r: Request, options: Options, plan: nat -> Fate)
    requires c.phase == Idle && WorldOk(c.committed)
    ensures var o := Transacted(c, RequestWork(r), options, Database(plan));
            var takes := TakesEffectAtCommit(c, RequestWork(r), options, Database(plan));
            && (takes ==> AddsExactly(c.committed, o.conn.committed, r))
            && (!takes ==> o.conn.committed == c.committed)
            && (o.ok ==> takes)
            && WorldOk(o.conn.committed)
  {
    hide Valid, ThreeWrites, RequestWork, Applied, Transacted, TakesEffectAtCommit, CommitFate, AddsExactly, WorldOk,
         AllApplied;
    var server := Database(plan);
    WorkHasThreeWrites(r);
    AllOrNothing(c, RequestWork(r), options, server);
    if Valid(r) { ThreeWritesApply(c.committed, r, server); }
  }

  lemma ThreeWritesOnAnyTables(w: World, r: Request, server: Server<World, RequestWrite>)
    requires Valid(r) && server.apply == Applied && AllApplied(server, w, ThreeWrites(r)).Some?
    ensures var u := AllApplied(server, w, ThreeWrites(r)).value;
            var row := SecretRow(DeliveryOf(r), r.outboxId, r.sinkNow, r.encrypt);
            && u.challenges == w.challenges[ChallengeOf(r).id := ChallengeOf(r)] && u.events == w.events + [EventOf(r)]
            && u.outbox == if HasKey(w.outbox, row.dedupeKey) then w.outbox else w.outbox[row.id := row]
  {
    hide DedupeKey, ChallengeOf, EventOf, SecretRow, Deliverable, RecordsEvent, AllApplied, DeliveryOf;
    var writes := ThreeWrites(r);
    ThreeApplied(w, writes[0], writes[1], writes[2], server);
  }

  /**
   * On any tables at all, a request whose COMMIT takes effect adds its row if and only if the row's key was not there.
   */
  lemma RowIsAddedExactlyWhenItsKeyIsNew(c: Conn<World, RequestWrite>, r: Request, options: Options, plan: nat -> Fate)
    requires c.phase == Idle && TakesEffectAtCommit(c, RequestWork(r), options, Database(plan))
    ensures Valid(r)
    ensures var t, u := c.committed, Transacted(c, RequestWork(r), options, Database(plan)).conn.committed;
            var row := SecretRow(DeliveryOf(r), r.outboxId, r.sinkNow, r.encrypt);
            && u.challenges == t.challenges[ChallengeOf(r).id := ChallengeOf(r)] && u.events == t.events + [EventOf(r)]
            && u.outbox == if HasKey(t.outbox, row.dedupeKey) then t.outbox else t.outbox[row.id := row]
  {
    hide Valid, ThreeWrites, RequestWork, Applied, Transacted, TakesEffectAtCommit, AllApplied, HasKey, ChallengeOf,
         EventOf, SecretRow;
    WorkHasThreeWrites(r);
    AllOrNothing(c, RequestWork(r), options, Database(plan));
    ThreeWritesOnAnyTables(c.committed, r, Database(plan));
  }

  /** With a healthy server a request succeeds exactly when it is valid, fits the tables and may write. */
  lemma HealthyRequestSucceeds(c: Conn<World, RequestWrite>, r: Request, options: Options, plan: nat -> Fate)
    requires c.phase == Idle && WorldOk(c.committed) && forall i :: plan(i) == Done
    ensures Transacted(c, RequestWork(r), options, Database(plan)).ok <==>
            Valid(r) && Fits(c.committed, r) && !options.readOnly
  {
    hide Valid, RequestWork, Applied, Transacted, AddsExactly, WorldOk, Fits;
    var server := Database(plan);
    WorkHasThreeWrites(r);
    HealthySuccess(c, RequestWork(r), options, server);
    if Valid(r) { ThreeWritesApply(c.committed, r, server); }
  }

  /**
   * A challenge id of version 6, 7 or 8 is minted by identity and refused by the outbox: such a request never leaves
   * anything.
   */
  lemma NewVersionsNeverGoOut(c: Conn<World, RequestWrite>, r: Request, options: Options, plan: nat -> Fate)
    requires c.phase == Idle && WorldOk(c.committed)
    requires MintsIds(r) && '6' <= ChallengeOf(r).id[14] <= '8'
    ensures var o := Transacted(c, RequestWork(r), options, Database(plan)); !o.ok && o.conn.committed == c.committed
  {
    hide Transacted, TakesEffectAtCommit, RequestWork, Applied, WorldOk, Canonical;
    MintedIsCanonical(r);
    OutboxRefusesNewVersions(ChallengeOf(r).id);
    RequestIsAllOrNothing(c, r, options, plan);
  }

  // ---- Runs ----

  /**
   * A request, or anything that neither adds nor drops a challenge or a row and re-keys none: consuming, claiming,
   * settling, auditing.
   */
  datatype Step = Ask(r: Request, options: Options, plan: nat -> Fate) | Other(after: World)

  ghost predicate KeepsKeys(before: World, after: World) {
    && after.challenges.Keys == before.challenges.Keys && after.outbox.Keys == before.outbox.Keys
    && forall i :: i in before.outbox ==> after.outbox[i].dedupeKey == before.outbox[i].dedupeKey
  }

  ghost function Next(w: World, step: Step): World {
    match step
    case Ask(r, options, plan) => Transacted(Pooled(w), RequestWork(r), options, Database(plan)).conn.committed
    case Other(after) => if KeepsKeys(w, after) then after else w
  }

  ghost function Run(steps: seq<Step>): World
    decreases |steps|
  {
    if steps == [] then World(map[], [], map[]) else Next(Run(steps[..|steps| - 1]), steps[|steps| - 1])
  }

  /** The challenges and the keyed rows correspond one to one. */
  ghost predicate Paired(w: World) {
    WorldOk(w) && forall x :: x in w.challenges ==> HasKey(w.outbox, DedupeKey(x))
  }

  lemma RequestKeepsPairs(w: World, u: World, r: Request)
    requires Paired(w) && AddsExactly(w, u, r) && WorldOk(u)
    ensures Paired(u)
  {
    hide DedupeKey, ChallengeOf, EventOf, SecretRow, Deliverable, RecordsEvent;
    forall x | x in u.challenges ensures HasKey(u.outbox, DedupeKey(x)) {
      if x in w.challenges {
        var i :| i in w.outbox && w.outbox[i].dedupeKey == DedupeKey(x);
        assert i in u.outbox && u.outbox[i] == w.outbox[i];
      } else {
        assert r.outboxId in u.outbox;
      }
    }
  }

  lemma OthersKeepPairs(w: World, u: World)
    requires Paired(w) && KeepsKeys(w, u)
    ensures Paired(u)
  {
    hide DedupeKey;
    forall x | x in u.challenges ensures HasKey(u.outbox, DedupeKey(x)) {
      var i :| i in w.outbox && w.outbox[i].dedupeKey == DedupeKey(x);
      assert i in u.outbox && u.outbox[i].dedupeKey == DedupeKey(x);
    }
  }

  /** Over any run every challenge has exactly one row with its key, and every such row its challenge. */
  lemma {:induction false} EveryChallengeHasItsRow(steps: seq<Step>)
    ensures Paired(Run(steps))
    decreases |steps|
  {
    if steps != [] {
      hide Transacted, RequestWork, Paired, WorldOk, AddsExactly, TakesEffectAtCommit;
      var w, step := Run(steps[..|steps| - 1]), steps[|steps| - 1];
      EveryChallengeHasItsRow(steps[..|steps| - 1]);
      PairedIsOk(w);
      match step
      case Ask(r, options, plan) =>
        RequestIsAllOrNothing(Pooled(w), r, options, plan);
        var u := Next(w, step);
        if TakesEffectAtCommit(Pooled(w), RequestWork(r), options, Database(plan)) {
          RequestKeepsPairs(w, u, r);
        }
      case Other(after) => if KeepsKeys(w, after) { OthersKeepPairs(w, after); }
    }
  }

  lemma PairedIsOk(w: World)
    requires Paired(w)
    ensures WorldOk(w)
  {
  }
}
