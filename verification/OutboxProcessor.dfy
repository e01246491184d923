/** One outbox processor over the in-memory store, and why repeating it drains the outbox. */
module OutboxProcessor {
  import opened Maybe
  import opened JsMaps
  import opened OutboxTable
  import opened MemoryOutbox
  import JsText

  datatype Options = Options(
    batchSize: nat, leaseDurationMs: nat, maxAttempts: nat, baseRetryDelayMs: nat, maxRetryDelayMs: nat)
  {
    /** The bounds the constructor enforces. */
    predicate Valid() {
      && 1 <= batchSize <= 100
      && 1_000 <= leaseDurationMs <= 300_000
      && 1 <= maxAttempts <= 10
      && 100 <= baseRetryDelayMs <= 3_600_000
      && baseRetryDelayMs <= maxRetryDelayMs <= 86_400_000
    }
  }

  datatype Secret = Secret(purpose: string, secret: string, expiresAt: Time)

  /** A recipient whose locale is malformed makes the loop body throw, as a failing lookup does. */
  datatype Lookup = LookupThrows | NoRecipient | Recipient(address: string, locale: string)

  datatype Request = Request(deliveryId: Id, idempotencyKey: string, address: string, locale: string, secret: Secret)

  /**
   * Everything outside the store: the codec, the account lookup, provider refusals and the two clock readings of each
   * job.
   */
  datatype World = World(
    decrypt: (string, Id) -> Option<Secret>,
    resolve: string -> Lookup,
    refusal: string -> Option<string>,
    clock: nat -> Time,
    catchClock: nat -> Time)

  function Pow2(n: nat): (p: nat)
    ensures p >= 1
  {
    if n == 0 then 1 else 2 * Pow2(n - 1)
  }

  function RetryDelay(o: Options, attemptCount: nat): nat {
    var delay := o.baseRetryDelayMs * Pow2(if attemptCount < 16 then attemptCount else 16);
    if delay < o.maxRetryDelayMs then delay else o.maxRetryDelayMs
  }

  lemma {:induction false} Pow2Monotone(a: nat, b: nat)
    requires a <= b
    ensures Pow2(a) <= Pow2(b)
  {
    if a < b { Pow2Monotone(a, b - 1); }
  }

  /** The back-off stays between the configured bounds and never shrinks from one attempt to the next. */
  lemma RetryDelayIsBoundedBackoff(o: Options, attemptCount: nat)
    requires o.Valid()
    ensures o.baseRetryDelayMs <= RetryDelay(o, attemptCount) <= o.maxRetryDelayMs
    ensures RetryDelay(o, attemptCount) <= RetryDelay(o, attemptCount + 1)
  {
    var n := if attemptCount < 16 then attemptCount else 16;
    Pow2Monotone(n, if attemptCount < 15 then attemptCount + 1 else 16);
    MultiplyMonotone(o.baseRetryDelayMs, 1, Pow2(n));
    MultiplyMonotone(o.baseRetryDelayMs, Pow2(n), Pow2(if attemptCount < 15 then attemptCount + 1 else 16));
  }

  /** It starts at the base, doubles with each of the first sixteen attempts up to the maximum, and then stays. */
  lemma RetryDelayDoubles(o: Options, attemptCount: nat)
    requires o.Valid()
    ensures RetryDelay(o, 0) == o.baseRetryDelayMs
    ensures var next := RetryDelay(o, attemptCount + 1);
            if attemptCount >= 16 then next == RetryDelay(o, attemptCount)
            else if 2 * RetryDelay(o, attemptCount) < o.maxRetryDelayMs then next == 2 * RetryDelay(o, attemptCount)
            else next == o.maxRetryDelayMs
  {
    assert Pow2(0) == 1;
    if attemptCount < 16 { DoubleProduct(o.baseRetryDelayMs, attemptCount); }
  }

  lemma DoubleProduct(base: nat, n: nat)
    ensures base * Pow2(n + 1) == 2 * (base * Pow2(n))
  {
  }

  lemma MultiplyMonotone(base: nat, p: nat, q: nat)
    requires p <= q
    ensures base * p <= base * q
  {
  }

  /** toLowerCase, as far as it can yield a letter of the English alphabet: the Kelvin sign becomes a k. */
  function Lower(c: char): char {
    if 'A' <= c <= 'Z' then (c as int + 32) as char else if c == '\U{212a}' then 'k' else c
  }

  /** A letter, then at most 63 letters, digits and hyphens. */
  predicate IsErrorCode(s: string) {
    && 1 <= |s| <= 64
    && 'a' <= s[0] <= 'z'
    && forall i :: 0 <= i < |s| ==> 'a' <= s[i] <= 'z' || '0' <= s[i] <= '9' || s[i] == '-'
  }

  function CodePoint(c: char): int {
    c as int
  }

  /** By code points: a small letter first, and small letters, digits and hyphens in all, up to 64 of them. */
  lemma ErrorCodesAreSpelled(s: string)
    ensures IsErrorCode(s) <==>
            && 0 < |s| < 65 && 97 <= CodePoint(s[0]) < 123
            && forall i :: 0 <= i < |s| ==>
                 97 <= CodePoint(s[i]) < 123 || 48 <= CodePoint(s[i]) < 58 || CodePoint(s[i]) == 45
  {
  }

  /** `word` is the code in lower case, without the white space around it. */
  predicate Lowers(code: string, word: string) {
    |word| == |JsText.Trim(code)| && forall i :: 0 <= i < |word| ==> word[i] == Lower(JsText.Trim(code)[i])
  }

  /** The code itself if it can be read as one, and the general one if it cannot. */
  function NormalErrorCode(code: string): (r: string)
    ensures IsErrorCode(r)
    ensures Lowers(code, r) || (r == "provider-error" && forall word :: Lowers(code, word) ==> !IsErrorCode(word))
  {
    var trimmed := JsText.Trim(code);
    var lower := seq(|trimmed|, i requires 0 <= i < |trimmed| => Lower(trimmed[i]));
    assert forall word :: Lowers(code, word) ==> word == lower;
    if IsErrorCode(lower) then lower else "provider-error"
  }

  lemma LowerOfLetters(i: nat)
    requires i < 26
    ensures Lower("ABCDEFGHIJKLMNOPQRSTUVWXYZ"[i]) == "abcdefghijklmnopqrstuvwxyz"[i]
    ensures Lower("abcdefghijklmnopqrstuvwxyz"[i]) == "abcdefghijklmnopqrstuvwxyz"[i]
  {
  }

  /** A code that is well-formed already is stored as it is. */
  lemma ErrorCodesAreKept(code: string)
    requires IsErrorCode(code)
    ensures NormalErrorCode(code) == code
  {
    JsText.TrimIsNoOp(code);
    assert seq(|code|, i requires 0 <= i < |code| => Lower(code[i])) == code;
  }

  // ---- What becomes of a job ----

  /** The secret is alive at `now`, its account has an address, and the provider refuses nothing. */
  ghost predicate IsSent(world: World, job: Row, now: Time) {
    var payload := world.decrypt(job.payload, job.id);
    && payload.Some? && payload.value.expiresAt > now
    && world.resolve(job.recipientAccountId).Recipient?
    && world.refusal(job.dedupeKey) == None
  }

  ghost predicate HasExpired(world: World, job: Row, now: Time) {
    var payload := world.decrypt(job.payload, job.id);
    payload.Some? && payload.value.expiresAt <= now
  }

  ghost predicate LacksRecipient(world: World, job: Row, now: Time) {
    var payload := world.decrypt(job.payload, job.id);
    payload.Some? && payload.value.expiresAt > now && world.resolve(job.recipientAccountId).NoRecipient?
  }

  ghost predicate IsRefused(world: World, job: Row, now: Time) {
    var payload := world.decrypt(job.payload, job.id);
    && payload.Some? && payload.value.expiresAt > now
    && world.resolve(job.recipientAccountId).Recipient?
    && world.refusal(job.dedupeKey).Some?
  }

  /** The code of a failure of this job. */
  ghost predicate FailsWith(world: World, job: Row, now: Time, code: string) {
    && (LacksRecipient(world, job, now) ==> code == "recipient-unavailable")
    && (IsRefused(world, job, now) ==> code == NormalErrorCode(world.refusal(job.dedupeKey).value))
    && (!LacksRecipient(world, job, now) && !IsRefused(world, job, now) ==> code == "provider-error")
  }

  /**
   * The clock reading that a retry is counted from: a missing recipient is no exception, every other failure is one.
   */
  ghost predicate FailsAt(world: World, job: Row, k: nat, at: Time) {
    at == if LacksRecipient(world, job, world.clock(k)) then world.clock(k) else world.catchClock(k)
  }

  /** The acknowledgement of the `k`-th claimed job. */
  ghost predicate MarkedRight(world: World, o: Options, job: Row, k: nat, mark: Mark) {
    var now := world.clock(k);
    && (mark.MarkDelivered? <==> IsSent(world, job, now))
    && (mark.MarkDead? <==> HasExpired(world, job, now))
    && (mark.MarkDelivered? ==> mark.at == now)
    && (mark.MarkDead? ==> mark.code == "delivery-expired")
    && (mark.MarkFailed? ==>
          && FailsWith(world, job, now, mark.code) && mark.maxAttempts == o.maxAttempts
          && FailsAt(world, job, k, mark.nextAvailableAt - RetryDelay(o, job.attemptCount)))
  }

  /** The request carries the job's own id, key and secret to the address of its account. */
  ghost predicate HandsOver(world: World, job: Row, request: Request) {
    && request.deliveryId == job.id && request.idempotencyKey == job.dedupeKey
    && world.decrypt(job.payload, job.id) == Some(request.secret)
    && world.resolve(job.recipientAccountId) == Recipient(request.address, request.locale)
  }

  /** What the row of the `k`-th claimed job becomes, field by field. */
  ghost predicate SettledRight(world: World, o: Options, job: Row, k: nat, row: Row) {
    var now := world.clock(k);
    && row.id == job.id && row.dedupeKey == job.dedupeKey && row.recipientAccountId == job.recipientAccountId
    && row.payload == job.payload && row.createdAt == job.createdAt
    && row.leaseToken == None && row.leaseExpiresAt == None
    && (row.status == DELIVERED <==> IsSent(world, job, now))
    && (row.status == PENDING <==>
          !IsSent(world, job, now) && !HasExpired(world, job, now) && job.attemptCount + 1 < o.maxAttempts)
    && (row.status == DEAD <==>
          HasExpired(world, job, now) || (!IsSent(world, job, now) && job.attemptCount + 1 >= o.maxAttempts))
    && row.deliveredAt == (if row.status == DELIVERED then Some(now) else job.deliveredAt)
    && row.attemptCount == (if row.status == DELIVERED then job.attemptCount else job.attemptCount + 1)
    && (row.status != PENDING ==> row.availableAt == job.availableAt)
    && (row.status == PENDING ==> FailsAt(world, job, k, row.availableAt - RetryDelay(o, job.attemptCount)))
    && (row.lastErrorCode == None <==> row.status == DELIVERED)
    && (HasExpired(world, job, now) ==> row.lastErrorCode == Some("delivery-expired"))
    && (row.status != DELIVERED && !HasExpired(world, job, now) ==>
          FailsWith(world, job, now, row.lastErrorCode.value))
  }

  lemma MarkingSettles(world: World, o: Options, job: Row, k: nat, mark: Mark)
    requires MarkedRight(world, o, job, k, mark)
    ensures SettledRight(world, o, job, k, Marked(job, mark))
  {
  }

  /** The rules leave no choice. */
  lemma SettlingIsDetermined(world: World, o: Options, job: Row, k: nat, a: Row, b: Row)
    requires SettledRight(world, o, job, k, a) && SettledRight(world, o, job, k, b)
    ensures a == b
  {
  }

  /**
   * A row is dead with the code of an expired delivery exactly when it expired, or was refused for good by that name.
   */
  lemma DeadByExpiryExactly(world: World, o: Options, job: Row, k: nat, row: Row)
    requires SettledRight(world, o, job, k, row)
    ensures row.status == DEAD && row.lastErrorCode == Some("delivery-expired") <==>
            || HasExpired(world, job, world.clock(k))
            || (&& IsRefused(world, job, world.clock(k)) && job.attemptCount + 1 >= o.maxAttempts
                && NormalErrorCode(world.refusal(job.dedupeKey).value) == "delivery-expired")
  {
  }

  /** Settling a claimed row either ends it or uses one of its attempts, with another one left. */
  ghost predicate Advanced(job: Row, row: Row, maxAttempts: nat) {
    && row.id == job.id && row.dedupeKey == job.dedupeKey
    && row.status != PROCESSING
    && (Terminal(row) || (row.attemptCount == job.attemptCount + 1 && row.attemptCount < maxAttempts))
  }

  lemma SettlingAdvances(world: World, o: Options, job: Row, k: nat, row: Row)
    requires SettledRight(world, o, job, k, row)
    ensures Advanced(job, row, o.maxAttempts)
  {
  }

  /** Nothing about a job's outcome depends on its lease. */
  lemma LeaseDoesNotMatter(world: World, o: Options, job: Row, k: nat, row: Row, token: Token, expiresAt: Time)
    ensures SettledRight(world, o, Claimed(job, token, expiresAt), k, row) <==> SettledRight(world, o, job, k, row)
  {
    hide IsSent, HasExpired, LacksRecipient, IsRefused, RetryDelay;
    SameWithLease(world, job, world.clock(k), token, expiresAt);
  }

  lemma SameWithLease(world: World, job: Row, now: Time, token: Token, expiresAt: Time)
    ensures var leased := Claimed(job, token, expiresAt);
            && (IsSent(world, leased, now) <==> IsSent(world, job, now))
            && (HasExpired(world, leased, now) <==> HasExpired(world, job, now))
            && (LacksRecipient(world, leased, now) <==> LacksRecipient(world, job, now))
            && (IsRefused(world, leased, now) <==> IsRefused(world, job, now))
  {
  }

  class CapturingProvider {
    var seen: set<string>
    var deliveries: seq<Request>

    constructor ()
      ensures seen == {} && deliveries == []
    {
      seen, deliveries := {}, [];
    }

    method Send(request: Request)
      modifies this
      ensures seen == old(seen) + {request.idempotencyKey}
      ensures deliveries == if request.idempotencyKey in old(seen) then old(deliveries) else old(deliveries) + [request]
    {
      if request.idempotencyKey in seen {
        return;
      }
      seen := seen + {request.idempotencyKey};
      deliveries := deliveries + [request];
    }
  }

  ghost predicate DeliveredSeen(t: Table, seen: set<string>) {
    forall id :: id in t && t[id].status == DELIVERED ==> t[id].dedupeKey in seen
  }

  /** The loop body up to its acknowledgement, a throw being caught as a failure. */
  method Attempt(provider: CapturingProvider, world: World, o: Options, job: Row, k: nat) returns (mark: Mark)
    modifies provider
    ensures MarkedRight(world, o, job, k, mark)
    ensures provider.seen == old(provider.seen) + if mark.MarkDelivered? then {job.dedupeKey} else {}
    ensures if mark.MarkDelivered? && job.dedupeKey !in old(provider.seen)
            then |provider.deliveries| == |old(provider.deliveries)| + 1
              && provider.deliveries[..|old(provider.deliveries)|] == old(provider.deliveries)
              && HandsOver(world, job, provider.deliveries[|old(provider.deliveries)|])
            else provider.deliveries == old(provider.deliveries)
  {
    var delay := RetryDelay(o, job.attemptCount);
    var thrown := MarkFailed("provider-error", world.catchClock(k) + delay, o.maxAttempts);
    var payload := world.decrypt(job.payload, job.id);
    if payload.None? {
      return thrown;
    }
    var now := world.clock(k);
    if payload.value.expiresAt <= now {
      return MarkDead("delivery-expired");
    }
    match world.resolve(job.recipientAccountId)
    case LookupThrows => return thrown;
    case NoRecipient => return MarkFailed("recipient-unavailable", now + delay, o.maxAttempts);
    case Recipient(address, locale) =>
      var refusal := world.refusal(job.dedupeKey);
      if refusal.Some? {
        return thrown.(code := NormalErrorCode(refusal.value));
      }
      provider.Send(Request(job.id, job.dedupeKey, address, locale, payload.value));
      return MarkDelivered(now);
  }

  // ---- What the provider gets ----

  ghost predicate Sends(world: World, jobs: seq<Row>, i: nat, key: string) {
    i < |jobs| && jobs[i].dedupeKey == key && IsSent(world, jobs[i], world.clock(i))
  }

  /**
   * What the first `k` jobs added: the keys of those that were sent, and for each such key not seen before one request,
   * of a job that was sent.
   */
  ghost predicate Provided(world: World, jobs: seq<Row>, k: nat, seen: set<string>, seen': set<string>,
      deliveries: seq<Request>, deliveries': seq<Request>) {
    && deliveries <= deliveries'
    && SeesExactly(world, jobs, k, seen, seen')
    && (forall n :: |deliveries| <= n < |deliveries'| ==> IsNewRequest(world, jobs, k, seen, deliveries'[n]))
    && (forall key :: key in seen' && key !in seen ==> IsRequested(key, deliveries', |deliveries|))
    && (forall m, n :: |deliveries| <= m < n < |deliveries'| ==>
          deliveries'[m].idempotencyKey != deliveries'[n].idempotencyKey)
  }

  ghost predicate SeesExactly(world: World, jobs: seq<Row>, k: nat, seen: set<string>, seen': set<string>) {
    forall key :: key in seen' <==> key in seen || exists i :: 0 <= i < k && Sends(world, jobs, i, key)
  }

  ghost predicate IsNewRequest(world: World, jobs: seq<Row>, k: nat, seen: set<string>, request: Request) {
    && request.idempotencyKey !in seen
    && exists i :: 0 <= i < k && Sends(world, jobs, i, request.idempotencyKey) && HandsOver(world, jobs[i], request)
  }

  ghost predicate IsRequested(key: string, deliveries: seq<Request>, from: nat) {
    exists n :: from <= n < |deliveries| && deliveries[n].idempotencyKey == key
  }

  lemma SeesNext(world: World, jobs: seq<Row>, k: nat, seen: set<string>, seen': set<string>, seen'': set<string>)
    requires SeesExactly(world, jobs, k, seen, seen') && k < |jobs|
    requires seen'' == seen' + if IsSent(world, jobs[k], world.clock(k)) then {jobs[k].dedupeKey} else {}
    ensures SeesExactly(world, jobs, k + 1, seen, seen'')
  {
    hide IsSent;
    var key := jobs[k].dedupeKey;
    assert IsSent(world, jobs[k], world.clock(k)) ==> Sends(world, jobs, k, key);
    forall x ensures x in seen'' <==> x in seen || exists i :: 0 <= i < k + 1 && Sends(world, jobs, i, x) {
      if i :| 0 <= i < k + 1 && Sends(world, jobs, i, x) { assert i < k || x == key; }
    }
  }

  lemma RequestStaysNew(world: World, jobs: seq<Row>, k: nat, seen: set<string>, request: Request)
    requires IsNewRequest(world, jobs, k, seen, request)
    ensures IsNewRequest(world, jobs, k + 1, seen, request)
    ensures forall seen' :: SeesExactly(world, jobs, k, seen, seen') ==> request.idempotencyKey in seen'
  {
    hide Sends, HandsOver;
  }

  lemma NewestRequest(world: World, jobs: seq<Row>, k: nat, seen: set<string>, seen': set<string>, request: Request)
    requires k < |jobs| && IsSent(world, jobs[k], world.clock(k)) && HandsOver(world, jobs[k], request)
    requires SeesExactly(world, jobs, k, seen, seen') && jobs[k].dedupeKey !in seen'
    ensures request.idempotencyKey == jobs[k].dedupeKey && IsNewRequest(world, jobs, k + 1, seen, request)
  {
    hide IsSent;
    assert Sends(world, jobs, k, request.idempotencyKey);
  }

  lemma ProvidedNext(world: World, jobs: seq<Row>, k: nat, seen: set<string>, seen': set<string>, seen'': set<string>,
      ds: seq<Request>, ds': seq<Request>, ds'': seq<Request>)
    requires Provided(world, jobs, k, seen, seen', ds, ds') && k < |jobs|
    requires seen'' == seen' + if IsSent(world, jobs[k], world.clock(k)) then {jobs[k].dedupeKey} else {}
    requires if IsSent(world, jobs[k], world.clock(k)) && jobs[k].dedupeKey !in seen'
             then |ds''| == |ds'| + 1 && ds''[..|ds'|] == ds' && HandsOver(world, jobs[k], ds''[|ds'|])
             else ds'' == ds'
    ensures Provided(world, jobs, k + 1, seen, seen'', ds, ds'')
  {
    hide IsSent, HandsOver, SeesExactly, IsNewRequest;
    var key := jobs[k].dedupeKey;
    SeesNext(world, jobs, k, seen, seen', seen'');
    if |ds''| > |ds'| { NewestRequest(world, jobs, k, seen, seen', ds''[|ds'|]); }
    forall n | |ds| <= n < |ds'|
      ensures ds''[n] == ds'[n] && IsNewRequest(world, jobs, k + 1, seen, ds'[n]) && ds'[n].idempotencyKey in seen'
    {
      RequestStaysNew(world, jobs, k, seen, ds'[n]);
    }
    forall x | x in seen'' && x !in seen ensures IsRequested(x, ds'', |ds|) {
      if x in seen' {
        var n :| |ds| <= n < |ds'| && ds'[n].idempotencyKey == x;
        assert ds''[n].idempotencyKey == x;
      } else {
        assert ds''[|ds'|].idempotencyKey == x;
      }
    }
  }

  // ---- A round ----

  /** `t` is `before` with the chosen rows leased as `jobs`, the first of them replaced by their outcomes. */
  ghost predicate SettledUpTo(before: Table, t: Table, chosen: seq<Id>, jobs: seq<Row>, outcomes: seq<Row>) {
    && |jobs| == |chosen| && |outcomes| <= |jobs| && t.Keys == before.Keys
    && (forall i :: 0 <= i < |chosen| ==> chosen[i] in before && jobs[i].id == chosen[i])
    && (forall i :: 0 <= i < |chosen| ==> t[chosen[i]] == if i < |outcomes| then outcomes[i] else jobs[i])
    && (forall id :: id in before && id !in chosen ==> t[id] == before[id])
  }

  ghost predicate AllSettledRight(world: World, o: Options, jobs: seq<Row>, outcomes: seq<Row>) {
    && |outcomes| <= |jobs|
    && forall k :: 0 <= k < |outcomes| ==> SettledRight(world, o, jobs[k], k, outcomes[k])
  }

  /** The whole effect of one round: the first eligible rows, in claim order, settled; the rest untouched. */
  ghost predicate Round(before: Table, after: Table, chosen: seq<Id>, world: World, o: Options, now: Time) {
    && FirstEligible(before, now, o.batchSize, {}, chosen)
    && after.Keys == before.Keys
    && (forall k :: 0 <= k < |chosen| ==> SettledRight(world, o, before[chosen[k]], k, after[chosen[k]]))
    && (forall id :: id in before && id !in chosen ==> after[id] == before[id])
  }

  ghost predicate Distinct(ids: seq<Id>) {
    forall i, j :: 0 <= i < j < |ids| ==> ids[i] != ids[j]
  }

  lemma ClaimIsDistinct(t: Table, now: Time, limit: nat, chosen: seq<Id>)
    requires FirstEligible(t, now, limit, {}, chosen)
    ensures Distinct(chosen)
  {
    forall i, j | 0 <= i < j < |chosen| ensures chosen[i] != chosen[j] {
      assert Before(t[chosen[i]], t[chosen[j]]);
    }
  }

  lemma SettleNext(before: Table, t: Table, chosen: seq<Id>, jobs: seq<Row>, outcomes: seq<Row>, row: Row)
    requires SettledUpTo(before, t, chosen, jobs, outcomes) && |outcomes| < |jobs| && Distinct(chosen)
    ensures SettledUpTo(before, t[jobs[|outcomes|].id := row], chosen, jobs, outcomes + [row])
  {
  }

  lemma SettledRightNext(world: World, o: Options, jobs: seq<Row>, outcomes: seq<Row>, row: Row)
    requires AllSettledRight(world, o, jobs, outcomes) && |outcomes| < |jobs|
    requires SettledRight(world, o, jobs[|outcomes|], |outcomes|, row)
    ensures AllSettledRight(world, o, jobs, outcomes + [row])
  {
    hide SettledRight;
  }

  /** A holder's mark replaces exactly its own row, and keeps delivered rows among those the provider saw. */
  lemma MarkingHeldRow(t: Table, seen: set<string>, job: Row, token: Token, mark: Mark)
    requires job.id in t && t[job.id] == job && HeldBy(job, token)
    ensures Update(t, job.id, token, mark) == t[job.id := Marked(job, mark)]
    ensures DeliveredSeen(t, seen) ==>
              DeliveredSeen(t[job.id := Marked(job, mark)], seen + if mark.MarkDelivered? then {job.dedupeKey} else {})
  {
  }

  lemma RoundIsDone(before: Table, t: Table, chosen: seq<Id>, jobs: seq<Row>, outcomes: seq<Row>, world: World,
      o: Options, now: Time, token: Token)
    requires FirstEligible(before, now, o.batchSize, {}, chosen) && |outcomes| == |jobs|
    requires SettledUpTo(before, t, chosen, jobs, outcomes) && AllSettledRight(world, o, jobs, outcomes)
    requires forall k :: 0 <= k < |jobs| ==> jobs[k] == Claimed(before[chosen[k]], token, now + o.leaseDurationMs)
    ensures Round(before, t, chosen, world, o, now)
    ensures Values(chosen, t) == outcomes
  {
    hide SettledRight, FirstEligible;
    forall k | 0 <= k < |chosen| ensures SettledRight(world, o, before[chosen[k]], k, t[chosen[k]]) {
      LeaseDoesNotMatter(world, o, before[chosen[k]], k, outcomes[k], token, now + o.leaseDurationMs);
    }
  }

  method ProcessJob(store: MemoryOutboxStore, provider: CapturingProvider, world: World, o: Options, job: Row, k: nat,
      token: Token)
    returns (status: Status, ghost row: Row)
    requires StoreOk(store.records) && job.id in store.records.at
    requires store.records.at[job.id] == job && HeldBy(job, token)
    modifies store, provider
    ensures StoreOk(store.records) && store.records.keys == old(store.records.keys)
    ensures store.records.at == old(store.records.at)[job.id := row]
    ensures SettledRight(world, o, job, k, row) && status == row.status
    ensures old(DeliveredSeen(store.records.at, provider.seen)) ==> DeliveredSeen(store.records.at, provider.seen)
    ensures provider.seen == old(provider.seen) + if IsSent(world, job, world.clock(k)) then {job.dedupeKey} else {}
    ensures if IsSent(world, job, world.clock(k)) && job.dedupeKey !in old(provider.seen)
            then |provider.deliveries| == |old(provider.deliveries)| + 1
              && provider.deliveries[..|old(provider.deliveries)|] == old(provider.deliveries)
              && HandsOver(world, job, provider.deliveries[|old(provider.deliveries)|])
            else provider.deliveries == old(provider.deliveries)
  {
    hide SettledRight, FailsWith, FailsAt, HandsOver, IsSent, HasExpired;
    ghost var seen := provider.seen;
    var mark := Attempt(provider, world, o, job, k);
    MarkingHeldRow(store.records.at, seen, job, token, mark);
    MarkingSettles(world, o, job, k, mark);
    var updated := store.Acknowledge(job.id, token, mark);
    status := store.records.at[job.id].status;
    row := store.records.at[job.id];
  }

  /** The first eligible rows have been leased as `jobs`, and nothing else happened yet. */
  ghost predicate Leasing(before: Table, t: Table, chosen: seq<Id>, jobs: seq<Row>, o: Options, now: Time,
      token: Token) {
    && FirstEligible(before, now, o.batchSize, {}, chosen) && Distinct(chosen)
    && SettledUpTo(before, t, chosen, jobs, [])
    && forall k :: 0 <= k < |jobs| ==> jobs[k] == Claimed(before[chosen[k]], token, now + o.leaseDurationMs)
  }

  lemma ClaimStarts(before: Table, t: Table, seen: set<string>, chosen: seq<Id>, jobs: seq<Row>, o: Options,
      now: Time, token: Token)
    requires KeyedById(before) && FirstEligible(before, now, o.batchSize, {}, chosen)
    requires t == Claim(before, chosen, token, now + o.leaseDurationMs)
    requires |jobs| == |chosen| && forall k :: 0 <= k < |jobs| ==> jobs[k].id == chosen[k] && jobs[k] == t[chosen[k]]
    ensures Leasing(before, t, chosen, jobs, o, now, token)
    ensures forall k :: 0 <= k < |jobs| ==>
              chosen[k] in before && jobs[k] == Claimed(before[chosen[k]], token, now + o.leaseDurationMs)
    ensures DeliveredSeen(before, seen) ==> DeliveredSeen(t, seen)
  {
    ClaimIsDistinct(before, now, o.batchSize, chosen);
  }

  /** How many of the first `n` rows have the given status. */
  ghost function Tally(rows: seq<Row>, n: nat, status: Status): nat
    requires n <= |rows|
  {
    if n == 0 then 0 else Tally(rows, n - 1, status) + if rows[n - 1].status == status then 1 else 0
  }

  datatype Counts = Counts(delivered: nat, retried: nat, dead: nat)

  function Bumped(counts: Counts, status: Status): Counts {
    match status
    case DELIVERED => counts.(delivered := counts.delivered + 1)
    case DEAD => counts.(dead := counts.dead + 1)
    case PENDING => counts.(retried := counts.retried + 1)
    case PROCESSING => counts
  }

  ghost predicate Counted(rows: seq<Row>, counts: Counts) {
    counts == Counts(Tally(rows, |rows|, DELIVERED), Tally(rows, |rows|, PENDING), Tally(rows, |rows|, DEAD))
  }

  lemma {:induction false} TallyOfPrefix(rows: seq<Row>, more: seq<Row>, n: nat, status: Status)
    requires n <= |rows| && rows <= more
    ensures Tally(more, n, status) == Tally(rows, n, status)
  {
    if n > 0 { TallyOfPrefix(rows, more, n - 1, status); }
  }

  lemma CountNext(rows: seq<Row>, row: Row, counts: Counts)
    requires Counted(rows, counts)
    ensures Counted(rows + [row], Bumped(counts, row.status))
  {
    TallyOfPrefix(rows, rows + [row], |rows|, DELIVERED);
    TallyOfPrefix(rows, rows + [row], |rows|, PENDING);
    TallyOfPrefix(rows, rows + [row], |rows|, DEAD);
  }

  lemma {:induction false} EveryRowIsTallied(rows: seq<Row>, n: nat)
    requires n <= |rows| && forall k :: 0 <= k < n ==> rows[k].status != PROCESSING
    ensures Tally(rows, n, DELIVERED) + Tally(rows, n, PENDING) + Tally(rows, n, DEAD) == n
  {
    if n > 0 { EveryRowIsTallied(rows, n - 1); }
  }

  lemma AllCounted(world: World, o: Options, jobs: seq<Row>, outcomes: seq<Row>, counts: Counts)
    requires AllSettledRight(world, o, jobs, outcomes) && |outcomes| == |jobs| && Counted(outcomes, counts)
    ensures counts.delivered + counts.retried + counts.dead == |jobs|
  {
    hide SettledRight;
    forall k | 0 <= k < |jobs| ensures outcomes[k].status != PROCESSING {
      SettlingAdvances(world, o, jobs[k], k, outcomes[k]);
    }
    EveryRowIsTallied(outcomes, |outcomes|);
  }

  lemma NothingYet(world: World, o: Options, jobs: seq<Row>, seen: set<string>, ds: seq<Request>)
    ensures AllSettledRight(world, o, jobs, []) && Counted([], Counts(0, 0, 0))
    ensures Provided(world, jobs, 0, seen, seen, ds, ds)
  {
  }

  /** The loop over the claimed jobs. */
  method SettleJobs(store: MemoryOutboxStore, provider: CapturingProvider, world: World, o: Options, jobs: seq<Row>,
      token: Token, ghost before: Table, ghost chosen: seq<Id>, ghost now: Time)
    returns (counts: Counts, ghost outcomes: seq<Row>)
    requires StoreOk(store.records) && Leasing(before, store.records.at, chosen, jobs, o, now, token)
    modifies store, provider
    ensures StoreOk(store.records) && store.records.keys == old(store.records.keys)
    ensures Round(before, store.records.at, chosen, world, o, now)
    ensures Values(chosen, store.records.at) == outcomes && Counted(outcomes, counts)
    ensures counts.delivered + counts.retried + counts.dead == |jobs|
    ensures old(DeliveredSeen(store.records.at, provider.seen)) ==> DeliveredSeen(store.records.at, provider.seen)
    ensures Provided(world, jobs, |jobs|, old(provider.seen), provider.seen,
                     old(provider.deliveries), provider.deliveries)
  {
    hide SettledRight, IsSent, HandsOver, FirstEligible, IsNewRequest, IsRequested, SeesExactly, AllSettledRight;
    hide Counted, Round, Provided;
    ghost var t, seen0, ds0 := store.records.at, provider.seen, provider.deliveries;
    NothingYet(world, o, jobs, seen0, ds0);
    counts := Counts(0, 0, 0);
    outcomes := [];
    for k := 0 to |jobs|
      invariant StoreOk(store.records) && store.records.keys == old(store.records.keys) && store.records.at == t
      invariant |outcomes| == k && SettledUpTo(before, t, chosen, jobs, outcomes)
      invariant AllSettledRight(world, o, jobs, outcomes) && Counted(outcomes, counts)
      invariant old(DeliveredSeen(store.records.at, provider.seen)) ==> DeliveredSeen(store.records.at, provider.seen)
      invariant Provided(world, jobs, k, seen0, provider.seen, ds0, provider.deliveries)
    {
      ghost var seen, ds := provider.seen, provider.deliveries;
      var status, row := ProcessJob(store, provider, world, o, jobs[k], k, token);
      ProvidedNext(world, jobs, k, seen0, seen, provider.seen, ds0, ds, provider.deliveries);
      SettleNext(before, t, chosen, jobs, outcomes, row);
      SettledRightNext(world, o, jobs, outcomes, row);
      CountNext(outcomes, row, counts);
      t := t[jobs[k].id := row];
      outcomes := outcomes + [row];
      counts := Bumped(counts, status);
    }
    RoundIsDone(before, store.records.at, chosen, jobs, outcomes, world, o, now, token);
    AllCounted(world, o, jobs, outcomes, counts);
  }

  /** What the rows held before they were leased decides what is provided. */
  lemma ProvidedFromRows(world: World, rows: seq<Row>, jobs: seq<Row>, token: Token, expiresAt: Time,
      seen: set<string>, seen': set<string>, ds: seq<Request>, ds': seq<Request>)
    requires |rows| == |jobs| && forall k :: 0 <= k < |jobs| ==> jobs[k] == Claimed(rows[k], token, expiresAt)
    requires Provided(world, jobs, |jobs|, seen, seen', ds, ds')
    ensures Provided(world, rows, |rows|, seen, seen', ds, ds')
  {
    hide IsSent;
    forall i: nat, key ensures Sends(world, rows, i, key) <==> Sends(world, jobs, i, key) {
      if i < |rows| { SameWithLease(world, rows[i], world.clock(i), token, expiresAt); }
    }
    forall n | |ds| <= n < |ds'| ensures IsNewRequest(world, rows, |rows|, seen, ds'[n]) {
      assert IsNewRequest(world, jobs, |jobs|, seen, ds'[n]);
      var i :| 0 <= i < |jobs| && Sends(world, jobs, i, ds'[n].idempotencyKey) && HandsOver(world, jobs[i], ds'[n]);
      assert HandsOver(world, rows[i], ds'[n]);
    }
  }

  method ProcessOnce(store: MemoryOutboxStore, provider: CapturingProvider, world: World, o: Options, now: Time,
      token: Token)
    returns (claimed: nat, counts: Counts, ghost chosen: seq<Id>)
    requires StoreOk(store.records) && o.Valid()
    modifies store, provider
    ensures StoreOk(store.records) && store.records.keys == old(store.records.keys)
    ensures Round(old(store.records.at), store.records.at, chosen, world, o, now)
    ensures claimed == |chosen| == counts.delivered + counts.retried + counts.dead
    ensures Counted(Values(chosen, store.records.at), counts)
    ensures old(DeliveredSeen(store.records.at, provider.seen)) ==> DeliveredSeen(store.records.at, provider.seen)
    ensures Provided(world, Values(chosen, old(store.records.at)), |chosen|, old(provider.seen), provider.seen,
                     old(provider.deliveries), provider.deliveries)
  {
    hide Provided, FirstEligible, Round, Leasing, Counted, DeliveredSeen;
    var jobs;
    jobs, chosen := store.ClaimBatch(now, o.batchSize, token, o.leaseDurationMs);
    ClaimStarts(old(store.records.at), store.records.at, provider.seen, chosen, jobs, o, now, token);
    ghost var outcomes;
    counts, outcomes := SettleJobs(store, provider, world, o, jobs, token, old(store.records.at), chosen, now);
    claimed := |jobs|;
    ProvidedFromRows(world, Values(chosen, old(store.records.at)), jobs, token, now + o.leaseDurationMs,
      old(provider.seen), provider.seen, old(provider.deliveries), provider.deliveries);
  }

  // ---- Progress ----

  /** What a row may still cost: the attempts left before it is dead. */
  function AttemptsLeft(row: Row, maxAttempts: nat): int {
    if Terminal(row) then 0 else maxAttempts - row.attemptCount
  }

  ghost function Energy(ids: seq<Id>, t: Table, maxAttempts: nat): int
    requires forall id :: id in ids ==> id in t
  {
    if ids == [] then 0 else AttemptsLeft(t[ids[0]], maxAttempts) + Energy(ids[1..], t, maxAttempts)
  }

  /** Rows that are not terminal still have an attempt left; true of a new row and kept by every round. */
  ghost predicate Live(t: Table, maxAttempts: nat) {
    forall id :: id in t && !Terminal(t[id]) ==> t[id].attemptCount < maxAttempts
  }

  /** Every chosen row was live and advanced; every other row is as it was. */
  ghost predicate RoundAdvances(before: Table, after: Table, chosen: seq<Id>, maxAttempts: nat) {
    && after.Keys == before.Keys && Distinct(chosen)
    && (forall id :: id in chosen ==>
       id in before && !Terminal(before[id]) && Advanced(before[id], after[id], maxAttempts))
    && (forall id :: id in before && id !in chosen ==> after[id] == before[id])
  }

  lemma RoundDoesAdvance(before: Table, after: Table, chosen: seq<Id>, world: World, o: Options, now: Time)
    requires Round(before, after, chosen, world, o, now)
    ensures RoundAdvances(before, after, chosen, o.maxAttempts)
  {
    ClaimIsDistinct(before, now, o.batchSize, chosen);
    forall id | id in chosen
      ensures id in before && !Terminal(before[id]) && Advanced(before[id], after[id], o.maxAttempts)
    {
      var k :| 0 <= k < |chosen| && chosen[k] == id;
      assert Eligible(before[id], now);
      SettlingAdvances(world, o, before[id], k, after[id]);
    }
  }

  ghost function CountIn(ids: seq<Id>, chosen: set<Id>): nat {
    if ids == [] then 0 else (if ids[0] in chosen then 1 else 0) + CountIn(ids[1..], chosen)
  }

  lemma {:induction false} EnergyDrops(ids: seq<Id>, before: Table, after: Table, chosen: set<Id>, maxAttempts: nat)
    requires forall id :: id in ids ==> id in before && id in after
    requires forall id :: id in ids && id !in chosen ==>
             AttemptsLeft(after[id], maxAttempts) == AttemptsLeft(before[id], maxAttempts)
    requires forall id :: id in ids && id in chosen ==>
             AttemptsLeft(after[id], maxAttempts) < AttemptsLeft(before[id], maxAttempts)
    ensures Energy(ids, after, maxAttempts) + CountIn(ids, chosen) <= Energy(ids, before, maxAttempts)
  {
    if ids != [] { EnergyDrops(ids[1..], before, after, chosen, maxAttempts); }
  }

  lemma {:induction false} CountInAtLeast(ids: seq<Id>, chosen: set<Id>)
    requires forall id :: id in chosen ==> id in ids
    ensures CountIn(ids, chosen) >= |chosen|
  {
    if ids == [] {
      assert chosen == {};
    } else {
      CountInAtLeast(ids[1..], chosen - {ids[0]});
      CountInGrows(ids[1..], chosen - {ids[0]}, chosen);
    }
  }

  lemma {:induction false} CountInGrows(ids: seq<Id>, small: set<Id>, big: set<Id>)
    requires small <= big
    ensures CountIn(ids, small) <= CountIn(ids, big)
  {
    if ids != [] { CountInGrows(ids[1..], small, big); }
  }

  lemma {:induction false} DistinctCardinality(ids: seq<Id>)
    requires Distinct(ids)
    ensures |IdSet(ids)| == |ids|
  {
    if ids != [] {
      DistinctCardinality(ids[1..]);
      assert ids[0] !in ids[1..];
      assert IdSet(ids) == {ids[0]} + IdSet(ids[1..]);
    }
  }

  ghost function IdSet(ids: seq<Id>): set<Id> {
    set id | id in ids
  }

  /** Every round lowers the total of attempts left by at least the number of rows it claimed. */
  lemma RoundUsesUpAttempts(keys: seq<Id>, before: Table, after: Table, chosen: seq<Id>, maxAttempts: nat)
    requires forall id :: id in keys <==> id in before
    requires RoundAdvances(before, after, chosen, maxAttempts) && Live(before, maxAttempts)
    ensures Live(after, maxAttempts)
    ensures Energy(keys, after, maxAttempts) + |chosen| <= Energy(keys, before, maxAttempts)
  {
    var ids := IdSet(chosen);
    forall id | id in chosen ensures AttemptsLeft(after[id], maxAttempts) < AttemptsLeft(before[id], maxAttempts) {
      assert Advanced(before[id], after[id], maxAttempts);
    }
    EnergyDrops(keys, before, after, ids, maxAttempts);
    DistinctCardinality(chosen);
    CountInAtLeast(keys, ids);
  }

  lemma {:induction false} EnergyNonNegative(keys: seq<Id>, t: Table, maxAttempts: nat)
    requires forall id :: id in keys ==> id in t
    requires Live(t, maxAttempts)
    ensures Energy(keys, t, maxAttempts) >= 0
  {
    if keys != [] { EnergyNonNegative(keys[1..], t, maxAttempts); }
  }

  /** From when on a claim may take this row. */
  function Horizon(row: Row): Time {
    if row.status == PROCESSING && row.leaseExpiresAt.Some? && row.leaseExpiresAt.value > row.availableAt
    then row.leaseExpiresAt.value else row.availableAt
  }

  ghost predicate Leased(t: Table) {
    forall id :: id in t && t[id].status == PROCESSING ==> t[id].leaseExpiresAt.Some?
  }

  /** A live row is eligible at exactly the times from its horizon on, so no row is stuck for ever. */
  lemma EligibleFromHorizon(row: Row, now: Time)
    requires row.status == PROCESSING ==> row.leaseExpiresAt.Some?
    ensures Eligible(row, now) <==> !Terminal(row) && Horizon(row) <= now
  {
  }

  /** A round later than every horizon that claims nothing finds nothing left to do. */
  lemma QuietMeansDone(before: Table, after: Table, world: World, o: Options, now: Time)
    requires Round(before, after, [], world, o, now) && o.Valid() && Leased(before)
    requires forall id :: id in before ==> Horizon(before[id]) <= now
    ensures forall id :: id in before ==> Terminal(before[id])
  {
    forall id | id in before ensures Terminal(before[id]) {
      EligibleFromHorizon(before[id], now);
    }
  }

  datatype RoundAt = RoundAt(chosen: seq<Id>, world: World, now: Time)

  /** A round late enough that every row it finds could be claimed. */
  ghost predicate LateRound(before: Table, after: Table, r: RoundAt, o: Options) {
    && Round(before, after, r.chosen, r.world, o, r.now)
    && forall id :: id in before ==> Horizon(before[id]) <= r.now
  }

  ghost predicate AllTerminal(t: Table) {
    forall id :: id in t ==> Terminal(t[id])
  }

  /** Repeated late rounds leave every row terminal once there are more rounds than attempts left. */
  lemma {:induction false} RepeatedRoundsDrain(keys: seq<Id>, tables: seq<Table>, rounds: seq<RoundAt>, o: Options)
    requires o.Valid() && |tables| == |rounds| + 1
    requires Leased(tables[0]) && Live(tables[0], o.maxAttempts)
    requires forall id :: id in keys <==> id in tables[0]
    requires forall n :: 0 <= n < |rounds| ==> LateRound(tables[n], tables[n + 1], rounds[n], o)
    requires |rounds| > Energy(keys, tables[0], o.maxAttempts)
    ensures exists n :: 0 <= n < |tables| && AllTerminal(tables[n])
    decreases |rounds|
  {
    EnergyNonNegative(keys, tables[0], o.maxAttempts);
    var r := rounds[0];
    assert LateRound(tables[0], tables[1], r, o);
    if r.chosen == [] {
      QuietMeansDone(tables[0], tables[1], r.world, o, r.now);
      assert AllTerminal(tables[0]);
    } else {
      RoundDoesAdvance(tables[0], tables[1], r.chosen, r.world, o, r.now);
      RoundUsesUpAttempts(keys, tables[0], tables[1], r.chosen, o.maxAttempts);
      StaysLeased(tables[0], tables[1], r.chosen, o.maxAttempts);
      forall n | 0 <= n < |rounds[1..]| ensures LateRound(tables[1..][n], tables[1..][n + 1], rounds[1..][n], o) {
        assert LateRound(tables[n + 1], tables[n + 2], rounds[n + 1], o);
      }
      RepeatedRoundsDrain(keys, tables[1..], rounds[1..], o);
      var n :| 0 <= n < |tables[1..]| && AllTerminal(tables[1..][n]);
      assert tables[n + 1] == tables[1..][n];
    }
  }

  lemma StaysLeased(before: Table, after: Table, chosen: seq<Id>, maxAttempts: nat)
    requires RoundAdvances(before, after, chosen, maxAttempts) && Leased(before)
    ensures Leased(after)
  {
    forall id | id in after ensures after[id].status == PROCESSING ==> after[id].leaseExpiresAt.Some? {
      if id in chosen {
        assert Advanced(before[id], after[id], maxAttempts);
      }
    }
  }
}
