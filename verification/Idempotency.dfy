/** Claiming, completing and replaying an idempotency key, fenced by a claim generation. */
module Idempotency {
  import opened Maybe
  import JsText

  type Time = int
  type Hash = string
  type Response = string   // the serialised response

  datatype KeyStatus = IN_PROGRESS | COMPLETED

  datatype KeyRow = KeyRow(
    requestHash: Hash, generation: nat, status: KeyStatus, response: Option<Response>,
    createdAt: Time, updatedAt: Time, expiresAt: Time)

  datatype ClaimRequest = ClaimRequest(hash: Hash, now: Time, expiresAt: Time)

  datatype Answer = Started(generation: nat) | InProgress | Replay(response: Option<Response>) | Conflict

  // ---- The three statements on the row of one key ----

  /** INSERT ... ON CONFLICT DO NOTHING RETURNING claim_generation. */
  function Inserted(row: Option<KeyRow>, c: ClaimRequest): (Option<KeyRow>, Option<Answer>) {
    if row.None? then (Some(KeyRow(c.hash, 1, IN_PROGRESS, None, c.now, c.now, c.expiresAt)), Some(Started(1)))
    else (row, None)
  }

  /** SELECT ... FOR UPDATE and, on an expired row, the replacing UPDATE under the same row lock. */
  function Resolved(row: KeyRow, c: ClaimRequest): (KeyRow, Answer) {
    if row.expiresAt <= c.now then
      (KeyRow(c.hash, row.generation + 1, IN_PROGRESS, None, c.now, c.now, c.expiresAt), Started(row.generation + 1))
    else if row.requestHash != c.hash then (row, Conflict)
    else if row.status == COMPLETED then (row, Replay(row.response))
    else (row, InProgress)
  }

  /** The guarded UPDATE hits the row, and CHECK (updated_at >= created_at) lets it. */
  predicate Completes(row: Option<KeyRow>, hash: Hash, generation: nat, now: Time) {
    && row.Some? && row.value.requestHash == hash && row.value.generation == generation
    && row.value.status == IN_PROGRESS && row.value.createdAt <= now < row.value.expiresAt
  }

  function Completed(row: Option<KeyRow>, hash: Hash, generation: nat, response: Response, now: Time): Option<KeyRow> {
    if Completes(row, hash, generation, now)
    then Some(row.value.(status := COMPLETED, response := Some(response), updatedAt := now))
    else row
  }

  // ---- The store ----

  type Key = (string, string)   // operation and idempotency key

  datatype ClaimError = InvalidInput

  predicate IsSha256(hash: string) {
    |hash| == 64 && forall i :: 0 <= i < 64 ==> ('0' <= hash[i] <= '9') || ('a' <= hash[i] <= 'f')
  }

  const MAX_OPERATION := 128
  const MAX_KEY := 256

  function NormalizedKey(operation: string, key: string): Option<Key> {
    var o, k := JsText.NonBlank(operation, MAX_OPERATION), JsText.NonBlank(key, MAX_KEY);
    if o.Some? && k.Some? then Some((o.value, k.value)) else None
  }

  function RowOf(rows: map<Key, KeyRow>, key: Key): Option<KeyRow> {
    if key in rows then Some(rows[key]) else None
  }

  class IdempotencyStore {
    var rows: map<Key, KeyRow>

    constructor ()
      ensures rows == map[]
    {
      rows := map[];
    }

    /** The insert, then on a conflict the locked resolution; only the row of this key can change. */
    method Claim(operation: string, key: string, c: ClaimRequest) returns (r: Result<Answer, ClaimError>)
      modifies this
      ensures (rows, r) == ClaimedRows(old(rows), operation, key, c)
    {
      var k := NormalizedKey(operation, key);
      if k.None? || !IsSha256(c.hash) || c.expiresAt <= c.now {
        return Err(InvalidInput);
      }
      var inserted := Inserted(RowOf(rows, k.value), c);
      if inserted.1.Some? {
        rows := rows[k.value := inserted.0.value];
        return Ok(inserted.1.value);
      }
      var (row, answer) := Resolved(rows[k.value], c);
      rows := rows[k.value := row];
      return Ok(answer);
    }

    /** Succeeds only for the current, uncompleted generation, within the window of its claim and with its hash. */
    method Complete(operation: string, key: string, hash: Hash, generation: nat, response: Response, now: Time)
        returns (ok: bool)
      modifies this
      ensures (rows, ok) == CompletedRows(old(rows), operation, key, hash, generation, response, now)
    {
      var k := NormalizedKey(operation, key);
      if k.None? || !IsSha256(hash) || generation < 1 || !Completes(RowOf(rows, k.value), hash, generation, now) {
        return false;
      }
      rows := rows[k.value := Completed(RowOf(rows, k.value), hash, generation, response, now).value];
      return true;
    }
  }

  // ---- Runs on one key: any number of clients, interleaved between statements, each with its own clock ----

  datatype Step =
    | InsertStep(claim: ClaimRequest)
    | ResolveStep(claim: ClaimRequest)
    | CompleteStep(hash: Hash, generation: nat, response: Response, now: Time)

  /**
   * One granted claim, one successful completion, one replay; `current` is the generation in force when it happened.
   */
  datatype Start = Start(generation: nat, claim: ClaimRequest)
  datatype Completion = Completion(generation: nat, current: nat, hash: Hash, response: Response, now: Time)
  datatype Replayed = Replayed(current: nat, hash: Hash, response: Option<Response>, now: Time)

  datatype Ledger = Ledger(row: Option<KeyRow>, starts: seq<Start>, completions: seq<Completion>,
      replays: seq<Replayed>)

  const EMPTY := Ledger(None, [], [], [])

  function Record(l: Ledger, row: Option<KeyRow>, claim: ClaimRequest, answer: Answer): Ledger {
    match answer
    case Started(g) => l.(row := row, starts := l.starts + [Start(g, claim)])
    case Replay(response) => l.(row := row,
      replays := l.replays + [Replayed(|l.starts|, claim.hash, response, claim.now)])
    case _ => l.(row := row)
  }

  /** A claim whose expiry is not after its time is rejected; a step that does not apply changes nothing. */
  function Next(l: Ledger, step: Step): Ledger {
    match step
    case InsertStep(c) =>
      var (row, answer) := Inserted(l.row, c);
      if c.expiresAt <= c.now || answer.None? then l else Record(l, row, c, answer.value)
    case ResolveStep(c) =>
      if c.expiresAt <= c.now || l.row.None? then l
      else var (row, answer) := Resolved(l.row.value, c); Record(l, Some(row), c, answer)
    case CompleteStep(hash, g, response, now) =>
      if !Completes(l.row, hash, g, now) then l
      else l.(row := Completed(l.row, hash, g, response, now),
              completions := l.completions + [Completion(g, |l.starts|, hash, response, now)])
  }

  function Run(l: Ledger, steps: seq<Step>): Ledger
    decreases |steps|
  {
    if steps == [] then l else Run(Next(l, steps[0]), steps[1..])
  }

  /** The row is the last start, completed by the last completion or not at all. */
  ghost predicate RowMatches(l: Ledger) {
    if l.row.None? then l.starts == []
    else
      && var row, n := l.row.value, |l.starts|;
      && n >= 1 && row.generation == n
      && l.starts[n - 1].claim == ClaimRequest(row.requestHash, row.createdAt, row.expiresAt)
      && (row.status == COMPLETED <==> row.response.Some?)
      && (row.status == COMPLETED <==> l.completions != [] && l.completions[|l.completions| - 1].generation == n)
      && (row.status == COMPLETED ==> l.completions[|l.completions| - 1].response == row.response.value)
  }

  ghost predicate StartsOk(starts: seq<Start>) {
    && (forall i :: 0 <= i < |starts| ==>
       starts[i].generation == i + 1 && starts[i].claim.now < starts[i].claim.expiresAt)
    && (forall i :: 0 < i < |starts| ==> starts[i - 1].claim.expiresAt <= starts[i].claim.now)
  }

  /** A completion happened while its own generation was in force, within that claim's window and with its hash. */
  ghost predicate CompletionOk(c: Completion, starts: seq<Start>) {
    && 1 <= c.generation <= |starts| && c.current == c.generation
    && c.hash == starts[c.generation - 1].claim.hash
    && starts[c.generation - 1].claim.now <= c.now < starts[c.generation - 1].claim.expiresAt
  }

  ghost predicate CompletionsOk(l: Ledger) {
    && (forall i :: 0 <= i < |l.completions| ==> CompletionOk(l.completions[i], l.starts))
    && (forall i, j :: 0 <= i < j < |l.completions| ==> l.completions[i].generation < l.completions[j].generation)
  }

  /** A replay returned what the generation in force was completed with, for the same hash and before its expiry. */
  ghost predicate ReplayOk(r: Replayed, l: Ledger) {
    && 1 <= r.current <= |l.starts| && r.now < l.starts[r.current - 1].claim.expiresAt
    && exists k :: 0 <= k < |l.completions| && l.completions[k].generation == r.current
                   && Some(l.completions[k].response) == r.response && l.completions[k].hash == r.hash
  }

  ghost predicate Inv(l: Ledger) {
    && RowMatches(l) && StartsOk(l.starts) && CompletionsOk(l)
    && forall i :: 0 <= i < |l.replays| ==> ReplayOk(l.replays[i], l)
  }

  lemma ReplayStaysOk(r: Replayed, l: Ledger, l': Ledger)
    requires ReplayOk(r, l) && l.starts <= l'.starts && l.completions <= l'.completions
    ensures ReplayOk(r, l')
  {
    var k :| 0 <= k < |l.completions| && l.completions[k].generation == r.current
             && Some(l.completions[k].response) == r.response && l.completions[k].hash == r.hash;
    assert l'.completions[k] == l.completions[k];
  }

  lemma RowStaysMatched(l: Ledger, step: Step)
    requires Inv(l)
    ensures RowMatches(Next(l, step))
  {
    var n := |l.completions|;
    assert n > 0 ==> CompletionOk(l.completions[n - 1], l.starts);
    match step
    case InsertStep(c) =>
    case ResolveStep(c) =>
    case CompleteStep(hash, g, response, now) =>
  }

  lemma StartsStayOk(l: Ledger, step: Step)
    requires Inv(l)
    ensures StartsOk(Next(l, step).starts)
  {
  }

  lemma MoreStartsStayOk(l: Ledger, l': Ledger)
    requires CompletionsOk(l) && l.starts <= l'.starts && l'.completions == l.completions
    ensures CompletionsOk(l')
  {
    forall i | 0 <= i < |l.completions| ensures CompletionOk(l.completions[i], l'.starts) {
      assert CompletionOk(l.completions[i], l.starts);
    }
  }

  lemma OneMoreCompletionIsOk(l: Ledger, l': Ledger, c: Completion)
    requires CompletionsOk(l) && l'.starts == l.starts && l'.completions == l.completions + [c]
    requires CompletionOk(c, l.starts) && c.generation == |l.starts|
    requires l.completions != [] ==> l.completions[|l.completions| - 1].generation < c.generation
    ensures CompletionsOk(l')
  {
    var n := |l.completions|;
    forall i | 0 <= i < n ensures l.completions[i].generation < c.generation {
      assert i < n - 1 ==> l.completions[i].generation < l.completions[n - 1].generation;
    }
  }

  /** The completion that succeeds is the first of the generation in force. */
  lemma CompletionIsNew(l: Ledger, hash: Hash, g: nat, response: Response, now: Time)
    requires Inv(l) && Completes(l.row, hash, g, now)
    ensures CompletionOk(Completion(g, |l.starts|, hash, response, now), l.starts) && g == |l.starts|
    ensures l.completions != [] ==> l.completions[|l.completions| - 1].generation < g
  {
    if l.completions != [] { assert CompletionOk(l.completions[|l.completions| - 1], l.starts); }
  }

  lemma CompletionsStayOk(l: Ledger, step: Step)
    requires Inv(l)
    ensures CompletionsOk(Next(l, step))
  {
    hide CompletionsOk, CompletionOk;
    InvMeansCompletionsOk(l);
    match step
    case CompleteStep(hash, g, response, now) =>
      if Completes(l.row, hash, g, now) {
        CompletionIsNew(l, hash, g, response, now);
        OneMoreCompletionIsOk(l, Next(l, step), Completion(g, |l.starts|, hash, response, now));
      }
    case _ => MoreStartsStayOk(l, Next(l, step));
  }

  lemma InvMeansCompletionsOk(l: Ledger)
    requires Inv(l)
    ensures CompletionsOk(l)
  {
  }

  lemma ReplaysStayOk(l: Ledger, step: Step, i: nat)
    requires Inv(l) && i < |Next(l, step).replays|
    ensures ReplayOk(Next(l, step).replays[i], Next(l, step))
  {
    var l' := Next(l, step);
    if i < |l.replays| {
      ReplayStaysOk(l.replays[i], l, l');
    } else {
      var k := |l.completions| - 1;
      assert CompletionOk(l.completions[k], l.starts);
      assert l'.completions[k].generation == |l.starts|;
    }
  }

  lemma StepKeepsInv(l: Ledger, step: Step)
    requires Inv(l)
    ensures Inv(Next(l, step))
  {
    RowStaysMatched(l, step);
    StartsStayOk(l, step);
    CompletionsStayOk(l, step);
    forall i | 0 <= i < |Next(l, step).replays| ensures ReplayOk(Next(l, step).replays[i], Next(l, step)) {
      ReplaysStayOk(l, step, i);
    }
  }

  lemma {:induction false} InvHolds(l: Ledger, steps: seq<Step>)
    requires Inv(l)
    ensures Inv(Run(l, steps))
    decreases |steps|
  {
    if steps != [] {
      StepKeepsInv(l, steps[0]);
      InvHolds(Next(l, steps[0]), steps[1..]);
    }
  }

  lemma {:induction false} StartsAreSpaced(starts: seq<Start>, i: nat, j: nat)
    requires StartsOk(starts) && i < j < |starts|
    ensures starts[i].claim.expiresAt <= starts[j].claim.now
  {
    if i + 1 < j { StartsAreSpaced(starts, i, j - 1); }
  }

  /** Generations count up from 1, and no two granted claims are in force at the same time. */
  lemma ClaimWindowsAreDisjoint(steps: seq<Step>, i: nat, j: nat, t: Time)
    requires i < j < |Run(EMPTY, steps).starts|
    ensures var starts := Run(EMPTY, steps).starts;
            && starts[i].generation == i + 1 && starts[j].generation == j + 1
            && !(starts[i].claim.now <= t < starts[i].claim.expiresAt
               && starts[j].claim.now <= t < starts[j].claim.expiresAt)
  {
    InvHolds(EMPTY, steps);
    StartsAreSpaced(Run(EMPTY, steps).starts, i, j);
  }

  /** Each generation completes at most once, while in force, before its expiry and with its own hash. */
  lemma CompletionsAreFenced(steps: seq<Step>, i: nat)
    requires i < |Run(EMPTY, steps).completions|
    ensures var l := Run(EMPTY, steps); var c := l.completions[i];
            && CompletionOk(c, l.starts)
            && (forall j :: 0 <= j < |l.completions| && j != i ==> l.completions[j].generation != c.generation)
  {
    InvHolds(EMPTY, steps);
  }

  /**
   * Every replay returned the response its generation was completed with, for the hash that generation was claimed
   * with.
   */
  lemma ReplaysAreFaithful(steps: seq<Step>, i: nat)
    requires i < |Run(EMPTY, steps).replays|
    ensures var l := Run(EMPTY, steps); var r := l.replays[i];
            && ReplayOk(r, l)
            && r.hash == l.starts[r.current - 1].claim.hash
  {
    InvHolds(EMPTY, steps);
    var l := Run(EMPTY, steps);
    var r := l.replays[i];
    assert ReplayOk(r, l);
    var k :| 0 <= k < |l.completions| && l.completions[k].generation == r.current
             && Some(l.completions[k].response) == r.response && l.completions[k].hash == r.hash;
    assert CompletionOk(l.completions[k], l.starts);
  }

  /** A superseded generation can never complete again, whatever happens next. */
  lemma {:induction false} StaleGenerationNeverCompletes(l: Ledger, steps: seq<Step>, hash: Hash, generation: nat,
      now: Time)
    requires l.row.Some? && generation < l.row.value.generation
    ensures !Completes(Run(l, steps).row, hash, generation, now)
    decreases |steps|
  {
    if steps != [] { StaleGenerationNeverCompletes(Next(l, steps[0]), steps[1..], hash, generation, now); }
  }

  /** A completion of the generation in force exists exactly when the row is completed. */
  ghost predicate CompletedWith(l: Ledger, generation: nat, response: Response) {
    exists k :: 0 <= k < |l.completions| && l.completions[k].generation == generation
      && l.completions[k].response == response
  }

  lemma CompletionInForce(l: Ledger, response: Response)
    requires Inv(l) && l.row.Some?
    ensures CompletedWith(l, |l.starts|, response) <==>
            l.row.value.status == COMPLETED && l.row.value.response == Some(response)
  {
    var n := |l.completions|;
    if l.row.value.status == COMPLETED {
      assert l.completions[n - 1].generation == |l.starts|;
    }
    forall k | 0 <= k < n && l.completions[k].generation == |l.starts|
      ensures k == n - 1 && l.row.value.status == COMPLETED {
      assert CompletionOk(l.completions[n - 1], l.starts);
    }
  }

  /**
   * What a claim is told depends on the last granted claim only: expired, of another hash, completed, or still running.
   */
  lemma AnswerFollowsHistory(steps: seq<Step>, c: ClaimRequest)
    requires c.now < c.expiresAt
    ensures var l := Run(EMPTY, steps);
            (l.row.None? <==> l.starts == []) &&
            (l.row.Some? ==>
              var last, answer := l.starts[|l.starts| - 1], Resolved(l.row.value, c).1;
              var inForce := c.now < last.claim.expiresAt;
              && (answer.Started? <==> !inForce) && (answer.Started? ==> answer.generation == |l.starts| + 1)
              && (answer.Conflict? <==> inForce && last.claim.hash != c.hash)
              && (forall r :: answer == Replay(Some(r)) <==>
                 inForce && last.claim.hash == c.hash && CompletedWith(l, |l.starts|, r))
              && (answer.InProgress? <==>
                 inForce && last.claim.hash == c.hash && forall r :: !CompletedWith(l, |l.starts|, r)))
  {
    hide CompletedWith, Run;
    InvHolds(EMPTY, steps);
    var l := Run(EMPTY, steps);
    if l.row.Some? {
      forall r ensures CompletedWith(l, |l.starts|, r) <==>
        l.row.value.status == COMPLETED && l.row.value.response == Some(r) {
        CompletionInForce(l, r);
      }
      if l.row.value.status == COMPLETED { assert CompletedWith(l, |l.starts|, l.row.value.response.value); }
    }
  }

  // ---- Many keys ----

  /** The operation and the key of a call are read without the white space around them. */
  ghost predicate SamePair(operation: string, key: string, operation': string, key': string) {
    JsText.Trim(operation) == JsText.Trim(operation') && JsText.Trim(key) == JsText.Trim(key')
  }

  ghost predicate IsAdmitted(operation: string, key: string) {
    && JsText.Trim(operation) != "" && JsText.Length(JsText.Trim(operation)) <= 128
    && JsText.Trim(key) != "" && JsText.Length(JsText.Trim(key)) <= 256
  }

  lemma KeysAreAdmittedExactly(operation: string, key: string)
    ensures NormalizedKey(operation, key).Some? <==> IsAdmitted(operation, key)
  {
  }

  /** Two admitted pairs share a row if and only if they are the same pair. */
  lemma RowsAreSharedExactly(operation: string, key: string, operation': string, key': string)
    requires IsAdmitted(operation, key) && IsAdmitted(operation', key')
    ensures NormalizedKey(operation, key) == NormalizedKey(operation', key') <==>
            SamePair(operation, key, operation', key')
  {
  }

  /** A call of either method; the store carries it out as a whole. */
  datatype Call =
    | ClaimCall(operation: string, key: string, claim: ClaimRequest)
    | CompleteCall(operation: string, key: string, hash: Hash, generation: nat, response: Response, now: Time)

  datatype Reply = Claimed(r: Result<Answer, ClaimError>) | Done(ok: bool)

  function ClaimedRows(rows: map<Key, KeyRow>, operation: string, key: string, c: ClaimRequest)
    : (map<Key, KeyRow>, Result<Answer, ClaimError>)
  {
    var k := NormalizedKey(operation, key);
    if k.None? || !IsSha256(c.hash) || c.expiresAt <= c.now then (rows, Err(InvalidInput))
    else if k.value !in rows then (rows[k.value := Inserted(None, c).0.value], Ok(Started(1)))
    else var (row, answer) := Resolved(rows[k.value], c); (rows[k.value := row], Ok(answer))
  }

  function CompletedRows(rows: map<Key, KeyRow>, operation: string, key: string, hash: Hash, generation: nat,
      response: Response, now: Time): (map<Key, KeyRow>, bool)
  {
    var k := NormalizedKey(operation, key);
    if k.None? || !IsSha256(hash) || generation < 1 || !Completes(RowOf(rows, k.value), hash, generation, now)
    then (rows, false)
    else (rows[k.value := Completed(RowOf(rows, k.value), hash, generation, response, now).value], true)
  }

  function Called(rows: map<Key, KeyRow>, call: Call): (map<Key, KeyRow>, Reply) {
    match call
    case ClaimCall(operation, key, c) => var (r, a) := ClaimedRows(rows, operation, key, c); (r, Claimed(a))
    case CompleteCall(operation, key, hash, generation, response, now) =>
      var (r, ok) := CompletedRows(rows, operation, key, hash, generation, response, now); (r, Done(ok))
  }

  function RowsAfter(calls: seq<Call>): map<Key, KeyRow>
    decreases |calls|
  {
    if calls == [] then map[] else Called(RowsAfter(calls[..|calls| - 1]), calls[|calls| - 1]).0
  }

  ghost predicate IsFor(call: Call, operation: string, key: string) {
    SamePair(call.operation, call.key, operation, key)
  }

  /** The calls for one pair, in order. */
  ghost function CallsFor(calls: seq<Call>, operation: string, key: string): seq<Call>
    decreases |calls|
  {
    if calls == [] then []
    else
      var last := calls[|calls| - 1];
      CallsFor(calls[..|calls| - 1], operation, key) + (if IsFor(last, operation, key) then [last] else [])
  }

  /** What the database does in one call, on the row of its pair. */
  function StepsOf(call: Call): seq<Step> {
    match call
    case ClaimCall(_, _, c) => if IsSha256(c.hash) then [InsertStep(c), ResolveStep(c)] else []
    case CompleteCall(_, _, hash, generation, response, now) =>
      if IsSha256(hash) && generation >= 1 then [CompleteStep(hash, generation, response, now)] else []
  }

  function AllSteps(calls: seq<Call>): seq<Step>
    decreases |calls|
  {
    if calls == [] then [] else AllSteps(calls[..|calls| - 1]) + StepsOf(calls[|calls| - 1])
  }

  ghost function RowFor(calls: seq<Call>, operation: string, key: string): Option<KeyRow>
    requires IsAdmitted(operation, key)
  {
    RowOf(RowsAfter(calls), NormalizedKey(operation, key).value)
  }

  lemma {:induction false} RunAcross(l: Ledger, a: seq<Step>, b: seq<Step>)
    ensures Run(l, a + b) == Run(Run(l, a), b)
    decreases |a|
  {
    if a == [] {
      assert a + b == b;
    } else {
      assert (a + b)[1..] == a[1..] + b;
      RunAcross(Next(l, a[0]), a[1..], b);
    }
  }

  lemma StepsOfCallOnRow(rows: map<Key, KeyRow>, call: Call, l: Ledger)
    requires IsAdmitted(call.operation, call.key)
    requires Inv(l) && l.row == RowOf(rows, NormalizedKey(call.operation, call.key).value)
    ensures Run(l, StepsOf(call)).row
            == RowOf(Called(rows, call).0, NormalizedKey(call.operation, call.key).value)
  {
    KeysAreAdmittedExactly(call.operation, call.key);
    hide NormalizedKey, IsSha256, Inv, IsAdmitted;
    match call
    case ClaimCall(operation, key, c) =>
      var m := Next(l, InsertStep(c));
      assert [InsertStep(c), ResolveStep(c)][1..] == [ResolveStep(c)];
      assert Run(l, [InsertStep(c), ResolveStep(c)]) == Run(m, [ResolveStep(c)]);
      assert Run(m, [ResolveStep(c)]) == Run(Next(m, ResolveStep(c)), []);
    case CompleteCall(_, _, hash, generation, response, now) =>
      var step := CompleteStep(hash, generation, response, now);
      assert Run(l, [step]) == Run(Next(l, step), []);
  }

  lemma OtherRowsStay(rows: map<Key, KeyRow>, call: Call, operation: string, key: string)
    requires IsAdmitted(operation, key) && !IsFor(call, operation, key)
    ensures RowOf(Called(rows, call).0, NormalizedKey(operation, key).value)
            == RowOf(rows, NormalizedKey(operation, key).value)
  {
    hide Resolved, Inserted, Completes, Completed, IsSha256, JsText.Trim, JsText.Length;
    if IsAdmitted(call.operation, call.key) { RowsAreSharedExactly(call.operation, call.key, operation, key); }
    KeysAreAdmittedExactly(call.operation, call.key);
  }

  /**
   * Whatever happens on other pairs, the row of a pair is what its own calls make of it one after the other, so that
   * everything said of one key holds of each pair in the store.
   */
  lemma {:induction false} RowFollowsItsOwnCalls(calls: seq<Call>, operation: string, key: string)
    requires IsAdmitted(operation, key)
    ensures RowFor(calls, operation, key) == Run(EMPTY, AllSteps(CallsFor(calls, operation, key))).row
    decreases |calls|
  {
    if calls == [] {
      NothingStored(operation, key);
    } else {
      hide Run, RowFor, IsAdmitted, IsFor;
      var front, last := calls[..|calls| - 1], calls[|calls| - 1];
      RowFollowsItsOwnCalls(front, operation, key);
      if IsFor(last, operation, key) {
        OwnCallFollows(calls, operation, key);
      } else {
        OtherCallFollows(calls, operation, key);
      }
    }
  }

  lemma RowForUnfolds(calls: seq<Call>, operation: string, key: string)
    requires IsAdmitted(operation, key) && calls != []
    ensures var front, last := calls[..|calls| - 1], calls[|calls| - 1];
            && RowFor(calls, operation, key)
               == RowOf(Called(RowsAfter(front), last).0, NormalizedKey(operation, key).value)
            && RowFor(front, operation, key) == RowOf(RowsAfter(front), NormalizedKey(operation, key).value)
  {
    hide Called, NormalizedKey, RowOf;
    KeysAreAdmittedExactly(operation, key);
  }

  lemma OwnCallFollows(calls: seq<Call>, operation: string, key: string)
    requires IsAdmitted(operation, key) && calls != [] && IsFor(calls[|calls| - 1], operation, key)
    requires var front := calls[..|calls| - 1];
             RowFor(front, operation, key) == Run(EMPTY, AllSteps(CallsFor(front, operation, key))).row
    ensures RowFor(calls, operation, key) == Run(EMPTY, AllSteps(CallsFor(calls, operation, key))).row
  {
    var front, last := calls[..|calls| - 1], calls[|calls| - 1];
    var own := CallsFor(front, operation, key);
    SameRow(last.operation, last.key, operation, key);
    assert CallsFor(calls, operation, key) == own + [last];
    assert (own + [last])[..|own|] == own;
    assert AllSteps(own + [last]) == AllSteps(own) + StepsOf(last);
    hide *;
    RowForUnfolds(calls, operation, key);
    RunAcross(EMPTY, AllSteps(own), StepsOf(last));
    EmptyIsOk();
    InvHolds(EMPTY, AllSteps(own));
    StepsOfCallOnRow(RowsAfter(front), last, Run(EMPTY, AllSteps(own)));
  }

  lemma OtherCallFollows(calls: seq<Call>, operation: string, key: string)
    requires IsAdmitted(operation, key) && calls != [] && !IsFor(calls[|calls| - 1], operation, key)
    requires var front := calls[..|calls| - 1];
             RowFor(front, operation, key) == Run(EMPTY, AllSteps(CallsFor(front, operation, key))).row
    ensures RowFor(calls, operation, key) == Run(EMPTY, AllSteps(CallsFor(calls, operation, key))).row
  {
    assert CallsFor(calls, operation, key) == CallsFor(calls[..|calls| - 1], operation, key);
    hide *;
    RowForUnfolds(calls, operation, key);
    OtherRowsStay(RowsAfter(calls[..|calls| - 1]), calls[|calls| - 1], operation, key);
  }

  lemma NothingStored(operation: string, key: string)
    requires IsAdmitted(operation, key)
    ensures RowFor([], operation, key) == Run(EMPTY, []).row
  {
  }

  lemma EmptyIsOk()
    ensures Inv(EMPTY)
  {
  }

  lemma SameRow(operation: string, key: string, operation': string, key': string)
    requires SamePair(operation, key, operation', key') && IsAdmitted(operation', key')
    ensures IsAdmitted(operation, key) && NormalizedKey(operation, key) == NormalizedKey(operation', key')
  {
  }

  /** The answer to a call depends on the calls for its own pair only. */
  lemma RepliesAreIndependent(calls: seq<Call>, others: seq<Call>, call: Call)
    requires CallsFor(calls, call.operation, call.key) == CallsFor(others, call.operation, call.key)
    ensures Called(RowsAfter(calls), call).1 == Called(RowsAfter(others), call).1
  {
    hide Resolved, Completes, Completed, IsSha256, Run, AllSteps, JsText.Trim, JsText.Length;
    if IsAdmitted(call.operation, call.key) {
      RowFollowsItsOwnCalls(calls, call.operation, call.key);
      RowFollowsItsOwnCalls(others, call.operation, call.key);
    }
    KeysAreAdmittedExactly(call.operation, call.key);
  }

  /** A pair that nobody used before is started at generation 1, whatever was claimed and completed for other pairs. */
  lemma NewPairStarts(calls: seq<Call>, operation: string, key: string, c: ClaimRequest)
    requires IsAdmitted(operation, key) && IsSha256(c.hash) && c.now < c.expiresAt
    requires forall i :: 0 <= i < |calls| ==> !IsFor(calls[i], operation, key)
    ensures Called(RowsAfter(calls), ClaimCall(operation, key, c)).1 == Claimed(Ok(Started(1)))
  {
    hide IsAdmitted, NormalizedKey, IsSha256, IsFor;
    RowFollowsItsOwnCalls(calls, operation, key);
    NoCallsFor(calls, operation, key);
    assert RowFor(calls, operation, key) == None;
    KeysAreAdmittedExactly(operation, key);
  }

  lemma {:induction false} NoCallsFor(calls: seq<Call>, operation: string, key: string)
    requires forall i :: 0 <= i < |calls| ==> !IsFor(calls[i], operation, key)
    ensures CallsFor(calls, operation, key) == []
    decreases |calls|
  {
    if calls != [] { NoCallsFor(calls[..|calls| - 1], operation, key); }
  }

  /** A request hash is spelled with 64 hexadecimal digits in lower case. */
  lemma HashesAreSpelled(hash: string)
    ensures IsSha256(hash) <==> |hash| == 64 && forall c :: c in hash ==> c in "0123456789abcdef"
  {
    forall c: char ensures c in "0123456789abcdef" <==> ('0' <= c <= '9') || ('a' <= c <= 'f') {
      if '0' <= c <= '9' { assert "0123456789abcdef"[(c - '0') as int] == c; }
      if 'a' <= c <= 'f' { assert "0123456789abcdef"[(c - 'a') as int + 10] == c; }
    }
    if |hash| == 64 && forall c :: c in hash ==> c in "0123456789abcdef" {
      assert forall i :: 0 <= i < 64 ==> hash[i] in hash;
    }
  }

  /** The first claim of a pair can be completed with its hash from its own time until it expires. */
  lemma FirstClaimCompletesExactly(calls: seq<Call>, operation: string, key: string, c: ClaimRequest,
      response: Response, t: Time)
    requires IsAdmitted(operation, key) && IsSha256(c.hash) && c.now < c.expiresAt
    requires forall i :: 0 <= i < |calls| ==> !IsFor(calls[i], operation, key)
    ensures Called(RowsAfter(calls + [ClaimCall(operation, key, c)]),
                   CompleteCall(operation, key, c.hash, 1, response, t)).1
         == Done(c.now <= t < c.expiresAt)
  {
    hide IsAdmitted, NormalizedKey, IsSha256, IsFor;
    var more := calls + [ClaimCall(operation, key, c)];
    assert more[..|calls|] == calls;
    RowFollowsItsOwnCalls(calls, operation, key);
    NoCallsFor(calls, operation, key);
    assert RowFor(calls, operation, key) == None;
    KeysAreAdmittedExactly(operation, key);
  }
}
