/** Turning a secret that must reach somebody into one outbox row. */
module SecretDelivery {
  import opened Maybe
  import opened OutboxTable
  import opened MemoryOutbox
  import OutboxProtocol
  import opened Uuids

  datatype Delivery = Delivery(deliveryId: string, accountId: string, purpose: string, secret: string, expiresAt: Time)

  datatype Error = InvalidUuid | NotInTheFuture

  function DedupeKey(deliveryId: string): string {
    "secret-delivery:" + deliveryId
  }

  lemma DedupeKeyIsInjective(a: string, b: string)
    requires DedupeKey(a) == DedupeKey(b)
    ensures a == b
  {
    assert a == DedupeKey(a)[|"secret-delivery:"|..] && b == DedupeKey(b)[|"secret-delivery:"|..];
  }

  /** One row for each dedupe key. */
  ghost predicate UniqueKeys(t: Table) {
    forall i, j :: i in t && j in t && t[i].dedupeKey == t[j].dedupeKey ==> i == j
  }

  ghost predicate HasKey(t: Table, key: string) {
    exists i :: i in t && t[i].dedupeKey == key
  }

  function Enqueuing(t: Table, row: Row): Table {
    if InsertOutcome(t, row).Duplicate? then t else t[row.id := row]
  }

  predicate Deliverable(d: Delivery, now: Time) {
    OutboxUuid(d.deliveryId).Some? && OutboxUuid(d.accountId).Some? && d.expiresAt > now
  }

  lemma DeliverableExactly(d: Delivery, now: Time)
    ensures Deliverable(d, now) <==>
            OutboxUuid(d.deliveryId) != None && OutboxUuid(d.accountId) != None && now < d.expiresAt
  {
  }

  /** A new pending row for the delivery, under its dedupe key. */
  function SecretRow(d: Delivery, id: Id, now: Time, encrypt: (Delivery, Id) -> string): Row
    requires Deliverable(d, now)
  {
    OutboxProtocol.NewRow(
      id, DedupeKey(OutboxUuid(d.deliveryId).value), OutboxUuid(d.accountId).value, encrypt(d, id), now)
  }

  /** The row is for the account and the delivery as the outbox reads their ids, ready at once, with its own payload. */
  lemma SecretRowSays(d: Delivery, id: Id, now: Time, encrypt: (Delivery, Id) -> string)
    requires Deliverable(d, now)
    ensures var row := SecretRow(d, id, now, encrypt);
            && OutboxUuid(d.accountId) == Some(row.recipientAccountId)
            && row.dedupeKey == "secret-delivery:" + OutboxUuid(d.deliveryId).value
            && row.id == id && row.payload == encrypt(d, id) && row.attemptCount == 0 && row.status == PENDING
            && row.createdAt == now && forall t :: Eligible(row, t) <==> now <= t
  {
    hide OutboxUuid;
  }

  method Deliver(store: MemoryOutboxStore, d: Delivery, id: Id, now: Time, encrypt: (Delivery, Id) -> string)
    returns (r: Result<(), Error>)
    requires StoreOk(store.records)
    modifies store
    ensures StoreOk(store.records)
    ensures r == Err(InvalidUuid) <==> OutboxUuid(d.deliveryId).None? || OutboxUuid(d.accountId).None?
    ensures r == Err(NotInTheFuture) <==>
            OutboxUuid(d.deliveryId).Some? && OutboxUuid(d.accountId).Some? && d.expiresAt <= now
    ensures r.Ok? ==>
              store.records.at == Enqueuing(old(store.records.at), SecretRow(d, id, now, encrypt))
    ensures r.Err? ==> store.records.at == old(store.records.at)
  {
    hide OutboxUuid;
    var deliveryId := OutboxUuid(d.deliveryId);
    if deliveryId.None? { return Err(InvalidUuid); }
    var accountId := OutboxUuid(d.accountId);
    if accountId.None? { return Err(InvalidUuid); }
    if d.expiresAt <= now { return Err(NotInTheFuture); }
    var payload := encrypt(d, id);
    var record :=
      Row(id, DedupeKey(deliveryId.value), accountId.value, payload, now, now, 0, PENDING, None, None, None, None);
    var outcome := store.Enqueue(record);
    return Ok(());
  }

  /** However often a delivery id is presented, in whatever spelling, the outbox keeps the first row made for it. */
  lemma OneRowForEachDelivery(t: Table, first: Row, again: Row)
    requires UniqueKeys(t) && first.dedupeKey == again.dedupeKey
    ensures var u := Enqueuing(t, first);
            && UniqueKeys(u) && HasKey(u, first.dedupeKey)
            && Enqueuing(u, again) == u
            && (forall key :: key != first.dedupeKey && HasKey(u, key) ==> HasKey(t, key))
            && (first.id !in t ==> forall key :: HasKey(t, key) ==> HasKey(u, key))
  {
    var u := Enqueuing(t, first);
    if InsertOutcome(t, first).Duplicate? {
      var i :| i in t && t[i].dedupeKey == first.dedupeKey;
      assert u == t;
    } else {
      assert u[first.id].dedupeKey == first.dedupeKey;
      assert forall i :: i in t && i != first.id ==> u[i] == t[i];
    }
  }
}
