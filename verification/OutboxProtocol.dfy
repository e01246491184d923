/** Any number of outbox processors, interleaved between every two statements and provider calls. */
module OutboxProtocol {
  import opened Maybe
  import opened OutboxTable

  /** How far a holder got with the first of its remaining jobs. */
  datatype Phase = Started | Accepted | Failing

  datatype Worker = Worker(token: Token, jobs: seq<Row>, phase: Phase)

  /** `seen` and `deliveries` belong to a provider that deduplicates on the idempotency key. */
  datatype State = State(
    rows: Table,
    workers: map<nat, Worker>,
    issued: set<Token>,
    seen: set<string>,
    deliveries: seq<string>)

  /** A statement's request may be lost before it runs, or its answer after it ran. */
  datatype Fault = NoFault | RequestLost | AnswerLost

  datatype Step =
    | Enqueue(id: Id, dedupeKey: string, recipient: string, payload: string, at: Time)
    | ClaimBatch(w: nat, now: Time, limit: nat, token: Token, expiresAt: Time, skipped: set<Id>,
                 chosen: seq<Id>, answer: seq<Id>)
    | JobThrows(w: nat)
    | Send(w: nat, reached: bool, answered: bool)
    | Acknowledge(w: nat, mark: Mark, fault: Fault)
    | Crash(w: nat)

  const INITIAL := State(map[], map[], {}, {}, [])

  function NewRow(id: Id, dedupeKey: string, recipient: string, payload: string, at: Time): Row {
    Row(id, dedupeKey, recipient, payload, at, at, 0, PENDING, None, None, None, None)
  }

  predicate Busy(s: State, w: nat) {
    w in s.workers && s.workers[w].jobs != []
  }

  /** Which acknowledgement the processor issues from which point of its loop body. */
  predicate MayMark(phase: Phase, mark: Mark) {
    match phase
    case Started => !mark.MarkDelivered?
    case Accepted => mark.MarkDelivered?
    case Failing => mark.MarkFailed?
  }

  function AfterMark(s: State, w: nat, fault: Fault): map<nat, Worker>
    requires Busy(s, w)
  {
    var worker := s.workers[w];
    if fault.NoFault? then s.workers[w := worker.(jobs := worker.jobs[1..], phase := Started)]
    else if worker.phase.Failing? then s.workers - {w}
    else s.workers[w := worker.(phase := Failing)]
  }

  function Accept(s: State, key: string): State {
    if key in s.seen then s else s.(seen := s.seen + {key}, deliveries := s.deliveries + [key])
  }

  /**
   * One atomic step; a step that is not possible in `s` leaves it unchanged. To a processor an acknowledgement that the
   * server refuses is one that was lost.
   */
  ghost function Next(s: State, step: Step): State {
    match step
    case Enqueue(id, key, recipient, payload, at) =>
      s.(rows := Insert(s.rows, NewRow(id, key, recipient, payload, at)))
    case ClaimBatch(w, now, limit, token, expiresAt, skipped, chosen, answer) =>
      if Busy(s, w) || token in s.issued || !FirstEligible(s.rows, now, limit, skipped, chosen)
         || multiset(answer) != multiset(chosen) then s
      else
        assert forall i :: 0 <= i < |answer| ==> answer[i] in multiset(answer);
        var rows := Claim(s.rows, chosen, token, expiresAt);
        s.(rows := rows, issued := s.issued + {token},
        workers := s.workers[w :=
          Worker(token, seq(|answer|, i requires 0 <= i < |answer| => rows[answer[i]]), Started)])
    case JobThrows(w) =>
      if Busy(s, w) && s.workers[w].phase.Started?
      then s.(workers := s.workers[w := s.workers[w].(phase := Failing)]) else s
    case Send(w, reached, answered) =>
      if !Busy(s, w) || !s.workers[w].phase.Started? then s
      else
        var s' := if reached then Accept(s, s.workers[w].jobs[0].dedupeKey) else s;
        s'.(workers := s.workers[w := s.workers[w].(phase := if reached && answered then Accepted else Failing)])
    case Acknowledge(w, mark, fault) =>
      if !Busy(s, w) || !MayMark(s.workers[w].phase, mark) then s
      else
        var id, token := s.workers[w].jobs[0].id, s.workers[w].token;
        var outcome := if UpdateRefused(s.rows, id, token, mark) then RequestLost else fault;
        s.(rows := if outcome.RequestLost? then s.rows else Update(s.rows, id, token, mark),
        workers := AfterMark(s, w, outcome))
    case Crash(w) => s.(workers := s.workers - {w})
  }

  ghost function Run(s: State, steps: seq<Step>): State
    decreases |steps|
  {
    if steps == [] then s else Run(Next(s, steps[0]), steps[1..])
  }

  // ---- What every step keeps ----

  ghost predicate RowOk(row: Row, id: Id, issued: set<Token>) {
    && row.id == id
    && (row.status == PROCESSING <==> row.leaseToken.Some?)
    && (row.leaseToken.Some? <==> row.leaseExpiresAt.Some?)
    && (row.leaseToken.Some? ==> row.leaseToken.value in issued)
    && (row.status == DELIVERED <==> row.deliveredAt.Some?)
    && InTimeOrder(row)
  }

  ghost predicate RowsOk(s: State) {
    && (forall i :: i in s.rows ==> RowOk(s.rows[i], i, s.issued))
    && (forall i, j :: i in s.rows && j in s.rows && s.rows[i].dedupeKey == s.rows[j].dedupeKey ==> i == j)
  }

  ghost predicate JobsOk(rows: Table, jobs: seq<Row>) {
    forall k :: 0 <= k < |jobs| ==> jobs[k].id in rows && rows[jobs[k].id].dedupeKey == jobs[k].dedupeKey
  }

  ghost predicate WorkerOk(s: State, worker: Worker) {
    && worker.token in s.issued
    && JobsOk(s.rows, worker.jobs)
    && (worker.phase.Accepted? ==> worker.jobs != [] && worker.jobs[0].dedupeKey in s.seen)
  }

  ghost predicate WorkersOk(s: State) {
    && (forall w :: w in s.workers ==> WorkerOk(s, s.workers[w]))
    && (forall v, w :: v in s.workers && w in s.workers && s.workers[v].token == s.workers[w].token ==> v == w)
  }

  ghost predicate Distinct<T(!new)>(s: seq<T>) {
    forall i, j :: 0 <= i < j < |s| ==> s[i] != s[j]
  }

  ghost predicate ProviderOk(s: State) {
    && Distinct(s.deliveries)
    && (forall key :: key in s.seen <==> key in s.deliveries)
    && (forall key :: key in s.seen ==> exists i :: i in s.rows && s.rows[i].dedupeKey == key)
    && (forall i :: i in s.rows && s.rows[i].status == DELIVERED ==> s.rows[i].dedupeKey in s.seen)
  }

  ghost predicate Inv(s: State) {
    RowsOk(s) && WorkersOk(s) && ProviderOk(s)
  }

  /**
   * What one step can do to one row: nothing, a claim of an eligible row under a new token, or the acknowledgement of
   * its lease holder.
   */
  ghost predicate RowStep(s: State, step: Step, id: Id, before: Row, after: Row) {
    || after == before
    || (&& step.ClaimBatch? && Eligible(before, step.now) && step.token !in s.issued
        && after == before.(status := PROCESSING, leaseToken := Some(step.token),
                            leaseExpiresAt := Some(step.expiresAt)))
    || (&& step.Acknowledge? && Busy(s, step.w) && s.workers[step.w].jobs[0].id == id
        && HeldBy(before, s.workers[step.w].token) && MayMark(s.workers[step.w].phase, step.mark)
        && IsMarked(before, step.mark, after) && InTimeOrder(after))
  }

  /** What an acknowledgement leaves in the row: the outcome, one attempt more unless it was delivered, and no lease. */
  ghost predicate IsMarked(before: Row, mark: Mark, after: Row) {
    var attempts := before.attemptCount + 1;
    match mark
    case MarkDelivered(at) =>
      after == before.(status := DELIVERED, deliveredAt := Some(at), lastErrorCode := None,
                       leaseToken := None, leaseExpiresAt := None)
    case MarkDead(code) =>
      after == before.(status := DEAD, attemptCount := attempts, lastErrorCode := Some(code),
                       leaseToken := None, leaseExpiresAt := None)
    case MarkFailed(code, next, maxAttempts) =>
      if attempts < maxAttempts
      then after == before.(status := PENDING, attemptCount := attempts, lastErrorCode := Some(code),
                            availableAt := next, leaseToken := None, leaseExpiresAt := None)
      else after == before.(status := DEAD, attemptCount := attempts, lastErrorCode := Some(code),
                            leaseToken := None, leaseExpiresAt := None)
  }

  /** A new row can be claimed from its time on, has every attempt left, and is what it was enqueued with. */
  lemma NewRowIsReady(id: Id, key: string, recipient: string, payload: string, at: Time, now: Time)
    ensures var row := NewRow(id, key, recipient, payload, at);
            && (Eligible(row, now) <==> at <= now)
            && row.attemptCount == 0 && row.lastErrorCode == None && row.deliveredAt == None
            && row.id == id && row.dedupeKey == key && row.recipientAccountId == recipient && row.payload == payload
            && row.createdAt == at
  {
  }

  lemma StepOnRow(s: State, step: Step, id: Id)
    requires id in s.rows
    ensures id in Next(s, step).rows
    ensures RowStep(s, step, id, s.rows[id], Next(s, step).rows[id])
    ensures s.issued <= Next(s, step).issued
  {
  }

  lemma RowStaysOk(s: State, step: Step, id: Id)
    requires Inv(s) && id in Next(s, step).rows
    ensures RowOk(Next(s, step).rows[id], id, Next(s, step).issued)
    ensures id in s.rows ==> Next(s, step).rows[id].dedupeKey == s.rows[id].dedupeKey
  {
    if id in s.rows {
      var row, row' := s.rows[id], Next(s, step).rows[id];
      assert RowOk(row, id, s.issued);
      if row' != row {
        if step.ClaimBatch? {
          assert row' == Claimed(row, step.token, step.expiresAt);
        } else {
          assert row' == Marked(row, step.mark);
        }
      }
    }
  }

  lemma RowsStayOk(s: State, step: Step)
    requires Inv(s)
    ensures RowsOk(Next(s, step))
  {
    forall i | i in Next(s, step).rows
      ensures RowOk(Next(s, step).rows[i], i, Next(s, step).issued)
      ensures i in s.rows ==> Next(s, step).rows[i].dedupeKey == s.rows[i].dedupeKey
    {
      RowStaysOk(s, step, i);
    }
  }

  lemma JobsStayOk(s: State, step: Step, jobs: seq<Row>)
    requires JobsOk(s.rows, jobs)
    ensures JobsOk(Next(s, step).rows, jobs)
  {
    forall k | 0 <= k < |jobs|
      ensures jobs[k].id in Next(s, step).rows && Next(s, step).rows[jobs[k].id].dedupeKey == jobs[k].dedupeKey
    {
      StepOnRow(s, step, jobs[k].id);
    }
  }

  lemma ClaimedJobsOk(s: State, step: Step)
    requires Inv(s) && step.ClaimBatch? && FirstEligible(s.rows, step.now, step.limit, step.skipped, step.chosen)
    requires multiset(step.answer) == multiset(step.chosen)
    ensures forall k :: 0 <= k < |step.answer| ==> step.answer[k] in s.rows
    ensures var rows := Claim(s.rows, step.chosen, step.token, step.expiresAt);
            JobsOk(rows, seq(|step.answer|, i requires 0 <= i < |step.answer| => rows[step.answer[i]]))
  {
    forall k | 0 <= k < |step.answer| ensures step.answer[k] in s.rows && s.rows[step.answer[k]].id == step.answer[k] {
      assert step.answer[k] in multiset(step.answer);
      assert step.answer[k] in step.chosen;
      assert RowOk(s.rows[step.answer[k]], step.answer[k], s.issued);
    }
  }

  lemma WorkerStaysOk(s: State, step: Step, w: nat)
    requires Inv(s) && w in Next(s, step).workers
    ensures WorkerOk(Next(s, step), Next(s, step).workers[w])
  {
    var s' := Next(s, step);
    if w in s.workers {
      assert WorkerOk(s, s.workers[w]);
      JobsStayOk(s, step, s.workers[w].jobs);
    }
    if step.ClaimBatch? && s' != s && w == step.w {
      ClaimedJobsOk(s, step);
    }
  }

  lemma WorkersStayOk(s: State, step: Step)
    requires Inv(s)
    ensures WorkersOk(Next(s, step))
  {
    var s' := Next(s, step);
    forall w | w in s'.workers ensures WorkerOk(s', s'.workers[w]) {
      WorkerStaysOk(s, step, w);
    }
    forall v, w | v in s'.workers && w in s'.workers && s'.workers[v].token == s'.workers[w].token
      ensures v == w
    {
      assert v in s.workers ==> WorkerOk(s, s.workers[v]);
      assert w in s.workers ==> WorkerOk(s, s.workers[w]);
    }
  }

  lemma DeliveredStaysAccepted(s: State, step: Step, id: Id)
    requires Inv(s) && id in Next(s, step).rows && Next(s, step).rows[id].status == DELIVERED
    ensures Next(s, step).rows[id].dedupeKey in Next(s, step).seen
  {
    if id in s.rows && s.rows[id].status != DELIVERED {
      var worker := s.workers[step.w];
      assert Next(s, step).rows[id] == Marked(s.rows[id], step.mark) && worker.jobs[0].id == id;
      assert WorkerOk(s, worker);
    }
  }

  lemma SeenStaysEnqueued(s: State, step: Step, key: string)
    requires Inv(s) && key in Next(s, step).seen
    ensures exists i :: i in Next(s, step).rows && Next(s, step).rows[i].dedupeKey == key
  {
    if key in s.seen {
      var i :| i in s.rows && s.rows[i].dedupeKey == key;
      RowStaysOk(s, step, i);
      assert i in Next(s, step).rows;
    } else {
      var job := s.workers[step.w].jobs[0];
      assert WorkerOk(s, s.workers[step.w]);
      assert job.id in Next(s, step).rows && Next(s, step).rows[job.id].dedupeKey == key;
    }
  }

  lemma ProviderStaysOk(s: State, step: Step)
    requires Inv(s)
    ensures ProviderOk(Next(s, step))
  {
    var s' := Next(s, step);
    forall i | i in s'.rows && s'.rows[i].status == DELIVERED ensures s'.rows[i].dedupeKey in s'.seen {
      DeliveredStaysAccepted(s, step, i);
    }
    forall key | key in s'.seen ensures exists i :: i in s'.rows && s'.rows[i].dedupeKey == key {
      SeenStaysEnqueued(s, step, key);
    }
    assert (s'.seen == s.seen && s'.deliveries == s.deliveries)
      || (step.Send? && s'.seen == Accept(s, s.workers[step.w].jobs[0].dedupeKey).seen);
  }

  lemma {:induction false} InvHolds(s: State, steps: seq<Step>)
    requires Inv(s)
    ensures Inv(Run(s, steps))
    decreases |steps|
  {
    if steps != [] {
      RowsStayOk(s, steps[0]);
      WorkersStayOk(s, steps[0]);
      ProviderStaysOk(s, steps[0]);
      InvHolds(Next(s, steps[0]), steps[1..]);
    }
  }

  // ---- Safety over whole runs ----

  /**
   * In every reachable state a delivered row was accepted by the provider, which delivered each key once and only for
   * enqueued rows.
   */
  lemma DeliveredWasAccepted(steps: seq<Step>)
    ensures var s := Run(INITIAL, steps);
            && (forall i :: i in s.rows && s.rows[i].status == DELIVERED ==> s.rows[i].dedupeKey in s.deliveries)
            && Distinct(s.deliveries)
            && (forall key :: key in s.deliveries ==> exists i :: i in s.rows && s.rows[i].dedupeKey == key)
            && (forall i, j :: i in s.rows && j in s.rows && s.rows[i].dedupeKey == s.rows[j].dedupeKey ==> i == j)
  {
    InvHolds(INITIAL, steps);
  }

  /** At most one processor holds a row, whatever the clocks say. */
  lemma OneHolder(steps: seq<Step>, id: Id, v: nat, w: nat)
    requires var s := Run(INITIAL, steps);
             && id in s.rows && v in s.workers && w in s.workers
             && HeldBy(s.rows[id], s.workers[v].token) && HeldBy(s.rows[id], s.workers[w].token)
    ensures v == w
  {
    InvHolds(INITIAL, steps);
  }

  /** DELIVERED and DEAD rows never change again. */
  lemma {:induction false} TerminalIsAbsorbing(s: State, steps: seq<Step>, id: Id)
    requires id in s.rows && Terminal(s.rows[id])
    ensures id in Run(s, steps).rows && Run(s, steps).rows[id] == s.rows[id]
    decreases |steps|
  {
    if steps != [] {
      StepOnRow(s, steps[0], id);
      TerminalIsAbsorbing(Next(s, steps[0]), steps[1..], id);
    }
  }

  /** How often `id` enters DELIVERED or DEAD along a run. */
  ghost function TerminalTransitions(s: State, steps: seq<Step>, id: Id): nat
    decreases |steps|
  {
    if steps == [] then 0
    else
      var s' := Next(s, steps[0]);
      var entered := id in s'.rows && Terminal(s'.rows[id]) && !(id in s.rows && Terminal(s.rows[id]));
      (if entered then 1 else 0) + TerminalTransitions(s', steps[1..], id)
  }

  lemma {:induction false} AtMostOneTerminalTransition(s: State, steps: seq<Step>, id: Id)
    ensures TerminalTransitions(s, steps, id) <= if id in s.rows && Terminal(s.rows[id]) then 0 else 1
    decreases |steps|
  {
    if steps != [] {
      if id in s.rows { StepOnRow(s, steps[0], id); }
      AtMostOneTerminalTransition(Next(s, steps[0]), steps[1..], id);
    }
  }

  /** A token that was issued and no longer holds the row never holds it again, and using it changes nothing. */
  lemma {:induction false} LostLeaseStaysLost(s: State, steps: seq<Step>, id: Id, token: Token, mark: Mark)
    requires id in s.rows && token in s.issued && !HeldBy(s.rows[id], token)
    ensures var t := Run(s, steps).rows;
            && id in t && !HeldBy(t[id], token)
            && !UpdateHits(t, id, token) && CheckedUpdate(t, id, token, mark) == t
    decreases |steps|
  {
    if steps != [] {
      StepOnRow(s, steps[0], id);
      LostLeaseStaysLost(Next(s, steps[0]), steps[1..], id, token, mark);
    }
  }

  /** A claim after the lease has expired, or an acknowledgement of the row under its token. */
  ghost predicate Ends(s: State, step: Step, id: Id, token: Token, expiry: Time) {
    || (step.ClaimBatch? && step.now >= expiry)
    || (step.Acknowledge? && Busy(s, step.w) && s.workers[step.w].token == token && s.workers[step.w].jobs[0].id == id)
  }

  ghost predicate LeaseIsLeft(s: State, steps: seq<Step>, id: Id, token: Token, expiry: Time)
    decreases |steps|
  {
    steps == [] || (!Ends(s, steps[0], id, token, expiry)
      && LeaseIsLeft(Next(s, steps[0]), steps[1..], id, token, expiry))
  }

  /**
   * A live lease is never taken: until a claim after its expiry or an acknowledgement under its token, the row stays as
   * it is.
   */
  lemma {:induction false} LiveLeaseIsKept(s: State, steps: seq<Step>, id: Id, token: Token, expiry: Time)
    requires id in s.rows && HeldBy(s.rows[id], token) && s.rows[id].leaseExpiresAt == Some(expiry)
    requires LeaseIsLeft(s, steps, id, token, expiry)
    ensures id in Run(s, steps).rows && Run(s, steps).rows[id] == s.rows[id]
    decreases |steps|
  {
    if steps != [] {
      hide Next;
      StepOnRow(s, steps[0], id);
      LiveLeaseIsKept(Next(s, steps[0]), steps[1..], id, token, expiry);
    }
  }
}
