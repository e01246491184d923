/** The in-memory outbox store: the same contract as the SQL statements, over an insertion-ordered Map. */
module MemoryOutbox {
  import opened Maybe
  import opened JsMaps
  import opened OutboxTable

  type Records = JsMap<Id, Row>

  function Values(ids: seq<Id>, t: Table): (rows: seq<Row>)
    requires forall id :: id in ids ==> id in t
    ensures |rows| == |ids| && forall i :: 0 <= i < |ids| ==> rows[i] == t[ids[i]]
  {
    seq(|ids|, i requires 0 <= i < |ids| => t[ids[i]])
  }

  ghost predicate DistinctIds(rows: seq<Row>) {
    forall i, j :: 0 <= i < j < |rows| ==> rows[i].id != rows[j].id
  }

  ghost predicate InOrder(rows: seq<Row>) {
    forall i, j :: 0 <= i < j < |rows| ==> Before(rows[i], rows[j])
  }

  function EligibleRows(rows: seq<Row>, now: Time): (r: seq<Row>)
    ensures forall row :: row in r <==> row in rows && Eligible(row, now)
    ensures DistinctIds(rows) ==> DistinctIds(r)
  {
    if rows == [] then []
    else
      assert rows == [rows[0]] + rows[1..];
      var rest := EligibleRows(rows[1..], now);
      assert DistinctIds(rows) ==> forall row :: row in rest ==> row.id != rows[0].id;
      if Eligible(rows[0], now) then [rows[0]] + rest else rest
  }

  function InsertInOrder(row: Row, rows: seq<Row>): (r: seq<Row>)
    requires InOrder(rows) && forall x :: x in rows ==> x.id != row.id
    ensures InOrder(r)
    ensures forall x :: x in r <==> x == row || x in rows
  {
    if rows == [] then [row]
    else if Before(row, rows[0]) then
      assert forall k :: 0 < k < |rows| ==> Before(rows[0], rows[k]) && Before(row, rows[k]);
      [row] + rows
    else
      var tail := InsertInOrder(row, rows[1..]);
      assert forall x :: x in tail ==> Before(rows[0], x);
      [rows[0]] + tail
  }

  /** Array.prototype.sort with the store's comparator, which is a strict total order on rows with distinct ids. */
  function SortRows(rows: seq<Row>): (r: seq<Row>)
    requires DistinctIds(rows)
    ensures InOrder(r)
    ensures forall x :: x in r <==> x in rows
  {
    if rows == [] then []
    else InsertInOrder(rows[0], SortRows(rows[1..]))
  }

  function Take<T>(s: seq<T>, n: nat): seq<T> {
    if n < |s| then s[..n] else s
  }

  function Ids(rows: seq<Row>): (ids: seq<Id>)
    ensures |ids| == |rows| && forall i :: 0 <= i < |rows| ==> ids[i] == rows[i].id
  {
    seq(|rows|, i requires 0 <= i < |rows| => rows[i].id)
  }

  /** What the claiming expression selects, before the rows are leased. */
  function Selected(records: Records, now: Time, limit: nat): seq<Row>
    requires StoreOk(records)
  {
    Take(SortRows(EligibleRows(Values(records.keys, records.at), now)), limit)
  }

  ghost predicate StoreOk(records: Records) {
    records.Valid() && KeyedById(records.at)
  }

  lemma SortedAreEligible(records: Records, now: Time)
    requires StoreOk(records)
    ensures var sorted := SortRows(EligibleRows(Values(records.keys, records.at), now));
            forall row :: row in sorted <==> row.id in records.at && records.at[row.id] == row && Eligible(row, now)
  {
    var values := Values(records.keys, records.at);
    forall row | row in values ensures row.id in records.at && records.at[row.id] == row {
      var k :| 0 <= k < |values| && values[k] == row;
      assert records.keys[k] in records.at;
    }
    forall id | id in records.at ensures records.at[id] in values {
      var k :| 0 <= k < |records.keys| && records.keys[k] == id;
      assert values[k] == records.at[id];
    }
  }

  lemma PrefixIsFirstEligible(t: Table, sorted: seq<Row>, now: Time, limit: nat)
    requires KeyedById(t) && InOrder(sorted)
    requires forall row :: row in sorted <==> row.id in t && t[row.id] == row && Eligible(row, now)
    ensures FirstEligible(t, now, limit, {}, Ids(Take(sorted, limit)))
  {
    var chosen := Take(sorted, limit);
    forall i | 0 <= i < |sorted| ensures sorted[i].id in t && t[sorted[i].id] == sorted[i] && Eligible(sorted[i], now) {
      assert sorted[i] in sorted;
    }
    assert forall k :: 0 <= k < |chosen| ==> Ids(chosen)[k] in Ids(chosen);
    forall id | id in t && id !in Ids(chosen) && Eligible(t[id], now)
      ensures |chosen| == limit && forall i :: 0 <= i < |chosen| ==> Before(chosen[i], t[id])
    {
      assert t[id] in sorted;
      var j :| 0 <= j < |sorted| && sorted[j] == t[id];
      assert j >= |chosen|;
    }
  }

  /** The filter, sort and slice yield exactly what the SQL candidate query yields when nothing is locked. */
  lemma SelectedIsFirstEligible(records: Records, now: Time, limit: nat)
    requires StoreOk(records)
    ensures FirstEligible(records.at, now, limit, {}, Ids(Selected(records, now, limit)))
  {
    SortedAreEligible(records, now);
    PrefixIsFirstEligible(records.at, SortRows(EligibleRows(Values(records.keys, records.at), now)), now, limit);
  }

  lemma SelectedAreRecords(records: Records, now: Time, limit: nat)
    requires StoreOk(records)
    ensures var selected := Selected(records, now, limit);
            DistinctIds(selected) && forall row :: row in selected ==> row.id in records.at && records.at[row.id] == row
  {
    SortedAreEligible(records, now);
    var sorted := SortRows(EligibleRows(Values(records.keys, records.at), now));
    hide Take, SortRows, EligibleRows, InOrder, DistinctIds, Before, Eligible;
    TakeOfKeyed(records.at, sorted, limit);
  }

  lemma TakeOfKeyed(t: Table, rows: seq<Row>, limit: nat)
    requires InOrder(rows) && forall row :: row in rows ==> row.id in t && t[row.id] == row
    ensures DistinctIds(Take(rows, limit))
    ensures forall row :: row in Take(rows, limit) ==> row.id in t && t[row.id] == row
  {
    forall i, j | 0 <= i < j < |rows| ensures rows[i].id != rows[j].id {
      assert rows[i] in rows && rows[j] in rows && Before(rows[i], rows[j]);
    }
  }

  function ClaimedRows(rows: seq<Row>, token: Token, expiresAt: Time): (r: seq<Row>)
    ensures |r| == |rows| && forall i :: 0 <= i < |r| ==> r[i] == Claimed(rows[i], token, expiresAt)
  {
    seq(|rows|, i requires 0 <= i < |rows| => Claimed(rows[i], token, expiresAt))
  }

  lemma SameIds(rows: seq<Row>, token: Token, expiresAt: Time)
    ensures Ids(ClaimedRows(rows, token, expiresAt)) == Ids(rows)
    ensures DistinctIds(rows) ==> DistinctIds(ClaimedRows(rows, token, expiresAt))
    ensures forall row :: row in ClaimedRows(rows, token, expiresAt) ==> row.id in Ids(rows)
    ensures forall row :: row in rows ==> row.id in Ids(rows)
    ensures forall id :: id in Ids(rows) ==> exists i :: 0 <= i < |rows| && rows[i].id == id
  {
    forall row | row in rows ensures row.id in Ids(rows) {
      var i :| 0 <= i < |rows| && rows[i] == row;
      assert Ids(rows)[i] == row.id;
    }
    forall row | row in ClaimedRows(rows, token, expiresAt) ensures row.id in Ids(rows) {
      var i :| 0 <= i < |rows| && ClaimedRows(rows, token, expiresAt)[i] == row;
      assert Ids(rows)[i] == row.id;
    }
  }

  ghost predicate AllPresent(rows: seq<Row>, t: Table) {
    forall row :: row in rows ==> row.id in t
  }

  ghost predicate AreRecords(rows: seq<Row>, t: Table) {
    forall row :: row in rows ==> row.id in t && t[row.id] == row
  }

  /** `after` is `before` with `rows` written over their records. */
  ghost predicate Wrote(before: Table, after: Table, rows: seq<Row>) {
    && after.Keys == before.Keys
    && AreRecords(rows, after)
    && forall id :: id in after && id !in Ids(rows) ==> after[id] == before[id]
  }

  lemma ClaimedArePresent(selected: seq<Row>, t: Table, token: Token, expiresAt: Time)
    requires DistinctIds(selected) && AreRecords(selected, t)
    ensures DistinctIds(ClaimedRows(selected, token, expiresAt))
            && AllPresent(ClaimedRows(selected, token, expiresAt), t)
  {
    SameIds(selected, token, expiresAt);
  }

  lemma WritingClaimedRowsClaims(before: Table, after: Table, selected: seq<Row>, token: Token, expiresAt: Time)
    requires AreRecords(selected, before)
    requires Wrote(before, after, ClaimedRows(selected, token, expiresAt))
    ensures after == Claim(before, Ids(selected), token, expiresAt)
    ensures var rows, ids := ClaimedRows(selected, token, expiresAt), Ids(selected);
            |rows| == |ids| && forall k :: 0 <= k < |rows| ==>
              ids[k] in after && rows[k].id == ids[k] && rows[k] == after[ids[k]]
  {
    SameIds(selected, token, expiresAt);
    var rows := ClaimedRows(selected, token, expiresAt);
    assert forall k :: 0 <= k < |rows| ==> rows[k] in rows;
    forall id | id in after ensures after[id] == Claim(before, Ids(selected), token, expiresAt)[id] {
      if id in Ids(selected) {
        var k :| 0 <= k < |selected| && selected[k].id == id;
        assert selected[k] in selected && rows[k] in rows;
      }
    }
  }

  class MemoryOutboxStore {
    var records: Records

    constructor ()
      ensures StoreOk(records) && records.at == map[]
    {
      records := JsMap([], map[]);
    }

    /** Agrees with the SQL insert except when the id is taken by a row with another dedupe key: then it overwrites. */
    method Enqueue(record: Row) returns (outcome: Inserted)
      requires StoreOk(records)
      modifies this
      ensures StoreOk(records)
      ensures outcome == if InsertOutcome(old(records.at), record).Duplicate? then Duplicate else Enqueued
      ensures records.at == if outcome.Duplicate? then old(records.at) else old(records.at)[record.id := record]
    {
      if exists row :: row in Values(records.keys, records.at) && row.dedupeKey == record.dedupeKey {
        var row :| row in Values(records.keys, records.at) && row.dedupeKey == record.dedupeKey;
        assert row.id in records.at;
        return Duplicate;
      }
      forall i | i in records.at ensures records.at[i].dedupeKey != record.dedupeKey {
        var k :| 0 <= k < |records.keys| && records.keys[k] == i;
        assert Values(records.keys, records.at)[k] in Values(records.keys, records.at);
      }
      records := records.Put(record.id, record);
      return Enqueued;
    }

    method SetAll(rows: seq<Row>)
      requires StoreOk(records) && DistinctIds(rows) && AllPresent(rows, records.at)
      modifies this
      ensures StoreOk(records) && records.keys == old(records.keys)
      ensures Wrote(old(records.at), records.at, rows)
    {
      for i := 0 to |rows|
        invariant StoreOk(records) && records.keys == old(records.keys) && records.at.Keys == old(records.at.Keys)
        invariant forall k :: 0 <= k < i ==> rows[k].id in records.at && records.at[rows[k].id] == rows[k]
        invariant forall id :: id in records.at && id !in Ids(rows) ==> records.at[id] == old(records.at)[id]
      {
        assert rows[i] in rows && Ids(rows)[i] == rows[i].id;
        records := records.Put(rows[i].id, rows[i]);
      }
    }

    method Select(now: Time, limit: nat) returns (rows: seq<Row>)
      requires StoreOk(records)
      ensures DistinctIds(rows) && AreRecords(rows, records.at)
      ensures FirstEligible(records.at, now, limit, {}, Ids(rows))
    {
      SelectedAreRecords(records, now, limit);
      SelectedIsFirstEligible(records, now, limit);
      rows := Selected(records, now, limit);
    }

    method ClaimBatch(now: Time, limit: nat, token: Token, leaseMs: nat) returns (rows: seq<Row>, ghost chosen: seq<Id>)
      requires StoreOk(records)
      modifies this
      ensures StoreOk(records) && records.keys == old(records.keys)
      ensures FirstEligible(old(records.at), now, limit, {}, chosen)
      ensures records.at == Claim(old(records.at), chosen, token, now + leaseMs)
      ensures |rows| == |chosen| && forall k :: 0 <= k < |rows| ==>
              rows[k].id == chosen[k] && rows[k] == records.at[chosen[k]]
    {
      hide StoreOk, FirstEligible, ClaimedRows, AreRecords, AllPresent, Wrote, DistinctIds, Ids, Claim;
      var selected := Select(now, limit);
      chosen := Ids(selected);
      rows := ClaimedRows(selected, token, now + leaseMs);
      ClaimedArePresent(selected, records.at, token, now + leaseMs);
      SetAll(rows);
      WritingClaimedRowsClaims(old(records.at), records.at, selected, token, now + leaseMs);
    }

    /** markDelivered, markFailed and markDead: one guarded write, as the SQL UPDATE. */
    method Acknowledge(id: Id, token: Token, mark: Mark) returns (updated: bool)
      requires StoreOk(records)
      modifies this
      ensures StoreOk(records) && records.keys == old(records.keys)
      ensures records.at == Update(old(records.at), id, token, mark)
      ensures updated == UpdateHits(old(records.at), id, token)
    {
      if id !in records.at || records.at[id].status != PROCESSING || records.at[id].leaseToken != Some(token) {
        return false;
      }
      records := records.Put(id, Marked(records.at[id], mark));
      return true;
    }
  }

  /** The two stores' enqueue agree exactly when the id is free or the dedupe key is already present. */
  lemma EnqueueAgreesExactly(t: Table, record: Row)
    requires KeyedById(t)
    ensures var memory := if InsertOutcome(t, record).Duplicate? then t else t[record.id := record];
            memory == Insert(t, record) && InsertOutcome(t, record) != IdTaken
            <==> record.id !in t || exists i :: i in t && t[i].dedupeKey == record.dedupeKey
  {
  }

  /**
   * The two stores' acknowledgements agree except for a failure with attempts left that offers a time before the row's
   * creation, which the table refuses.
   */
  lemma AcknowledgeAgreesExactly(t: Table, id: Id, token: Token, mark: Mark)
    requires forall i :: i in t ==> InTimeOrder(t[i])
    ensures Update(t, id, token, mark) == CheckedUpdate(t, id, token, mark) <==>
            !(&& UpdateHits(t, id, token) && mark.MarkFailed?
              && t[id].attemptCount + 1 < mark.maxAttempts && mark.nextAvailableAt < t[id].createdAt)
  {
    if UpdateHits(t, id, token) {
      assert Update(t, id, token, mark)[id].status != t[id].status;
    }
  }
}
