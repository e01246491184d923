/** The bounded per-process rate limiter, against one bucket per key that nothing else can touch. */
module RateLimiter {
  import opened Maybe
  import opened JsMaps
  import opened Eviction

  datatype Policy = Policy(limit: int, windowMs: int) {
    predicate Valid() { 1 <= limit <= 10000 && 1000 <= windowMs <= 60 * 60000 }
  }

  datatype Bucket = Bucket(count: nat, resetAt: int)

  datatype Verdict = Verdict(allowed: bool, retryAfterSeconds: int)

  datatype Error = InvalidPolicy

  type Buckets = JsMap<string, Bucket>

  // ---- One key on its own ----

  /** An expired bucket counts for nothing. */
  function Live(b: Option<Bucket>, now: int): Option<Bucket> {
    if b.Some? && b.value.resetAt > now then b else None
  }

  function Charged(b: Option<Bucket>, policy: Policy, now: int): Bucket {
    match Live(b, now)
    case Some(live) => live.(count := live.count + 1)
    case None => Bucket(1, now + policy.windowMs)
  }

  function CeilSeconds(ms: int): int {
    if ms % 1000 == 0 then ms / 1000 else ms / 1000 + 1
  }

  function VerdictOn(b: Bucket, policy: Policy, now: int): Verdict {
    var seconds := CeilSeconds(b.resetAt - now);
    Verdict(b.count <= policy.limit, if seconds < 1 then 1 else seconds)
  }

  // ---- The whole table ----

  function Find(m: Buckets, key: string): Option<Bucket> {
    if key in m.at then Some(m.at[key]) else None
  }

  function Unexpired(m: Buckets, now: int): (alive: set<string>)
    ensures alive <= m.at.Keys
  {
    set key | key in m.at && m.at[key].resetAt > now
  }

  function Swept(m: Buckets, now: int): (r: Buckets)
    requires m.Valid()
    ensures r.Valid()
  {
    Restricted(m, Unexpired(m, now))
  }

  function Evicted(m: Buckets, now: int, capacity: nat): (r: Buckets)
    requires m.Valid()
    ensures r.Valid()
  {
    WithoutVictim(Swept(m, now), capacity)
  }

  function Consumed(m: Buckets, key: string, policy: Policy, now: int, capacity: nat): (r: Buckets)
    requires m.Valid()
    ensures r.Valid()
  {
    var room := if MakesRoom(m, key, capacity) then Evicted(m, now, capacity) else m;
    room.Put(key, Charged(Find(m, key), policy, now))
  }

  // ---- Runs ----

  datatype Call = Call(key: string, policy: Policy, now: int)

  function After(calls: seq<Call>, capacity: nat): (m: Buckets)
    ensures m.Valid()
    decreases |calls|
  {
    if calls == [] then JsMap([], map[])
    else
      var c := calls[|calls| - 1];
      Consumed(After(calls[..|calls| - 1], capacity), c.key, c.policy, c.now, capacity)
  }

  /** The verdict on one more call. */
  function Answer(calls: seq<Call>, c: Call, capacity: nat): Verdict {
    VerdictOn(Charged(Find(After(calls, capacity), c.key), c.policy, c.now), c.policy, c.now)
  }

  /** The bucket that `key` would have with no other key around and no capacity. */
  function Alone(calls: seq<Call>, key: string): Option<Bucket>
    decreases |calls|
  {
    if calls == [] then None
    else
      var c, before := calls[|calls| - 1], Alone(calls[..|calls| - 1], key);
      if c.key == key then Some(Charged(before, c.policy, c.now)) else before
  }

  function Dropped(m: Buckets, c: Call, capacity: nat): Option<string>
    requires m.Valid()
  {
    if MakesRoom(m, c.key, capacity) then Victim(Swept(m, c.now), capacity) else None
  }

  predicate NeverDropped(calls: seq<Call>, key: string, capacity: nat)
    decreases |calls|
  {
    calls == [] ||
    var front := calls[..|calls| - 1];
    NeverDropped(front, key, capacity) && Dropped(After(front, capacity), calls[|calls| - 1], capacity) != Some(key)
  }

  predicate TimesUpTo(calls: seq<Call>, now: int)
    decreases |calls|
  {
    calls == [] || (calls[|calls| - 1].now <= now && TimesUpTo(calls[..|calls| - 1], calls[|calls| - 1].now))
  }

  lemma FindAfterConsumed(m: Buckets, c: Call, key: string, capacity: nat)
    requires m.Valid() && Dropped(m, c, capacity) != Some(key)
    ensures var r := Consumed(m, c.key, c.policy, c.now, capacity);
            Live(Find(r, key), c.now) == if key == c.key then Live(Some(Charged(Find(m, key), c.policy, c.now)), c.now)
              else Live(Find(m, key), c.now)
  {
    hide Charged;
  }

  lemma LiveLater(b: Option<Bucket>, now: int, later: int)
    requires now <= later
    ensures Live(Live(b, now), later) == Live(b, later)
  {
  }

  lemma ChargedSeesOnlyTheLive(b: Option<Bucket>, policy: Policy, now: int)
    ensures Charged(Live(b, now), policy, now) == Charged(b, policy, now)
  {
  }

  /** Neither the expiry sweep nor the other keys can be observed through a key that was never dropped. */
  lemma {:induction false} KeysAreIndependent(calls: seq<Call>, key: string, now: int, capacity: nat)
    requires TimesUpTo(calls, now) && NeverDropped(calls, key, capacity)
    ensures Live(Find(After(calls, capacity), key), now) == Live(Alone(calls, key), now)
    decreases |calls|
  {
    if calls != [] {
      hide Consumed, Find, Charged, Live, Dropped;
      var front, c := calls[..|calls| - 1], calls[|calls| - 1];
      var m := After(front, capacity);
      KeysAreIndependent(front, key, c.now, capacity);
      FindAfterConsumed(m, c, key, capacity);
      ChargedSeesOnlyTheLive(Find(m, key), c.policy, c.now);
      ChargedSeesOnlyTheLive(Alone(front, key), c.policy, c.now);
      LiveLater(Find(After(calls, capacity), key), c.now, now);
      LiveLater(Alone(calls, key), c.now, now);
    }
  }

  lemma AnswersAreIndependent(calls: seq<Call>, c: Call, capacity: nat)
    requires TimesUpTo(calls, c.now) && NeverDropped(calls, c.key, capacity)
    ensures Answer(calls, c, capacity) == VerdictOn(Charged(Alone(calls, c.key), c.policy, c.now), c.policy, c.now)
  {
    hide Charged, Find, Alone, VerdictOn;
    KeysAreIndependent(calls, c.key, c.now, capacity);
    ChargedSeesOnlyTheLive(Find(After(calls, capacity), c.key), c.policy, c.now);
    ChargedSeesOnlyTheLive(Alone(calls, c.key), c.policy, c.now);
  }

  // ---- What is admitted in a span ----

  predicate Allowed(before: seq<Call>, c: Call) {
    Charged(Alone(before, c.key), c.policy, c.now).count <= c.policy.limit
  }

  /** How many calls of `key` in [`from`, `to`) are admitted. */
  function Admitted(calls: seq<Call>, key: string, from: int, to: int): nat
    decreases |calls|
  {
    if calls == [] then 0
    else
      var front, c := calls[..|calls| - 1], calls[|calls| - 1];
      Admitted(front, key, from, to) + (if c.key == key && from <= c.now < to && Allowed(front, c) then 1 else 0)
  }

  function InWindow(calls: seq<Call>, key: string, policy: Policy, from: int): nat {
    Admitted(calls, key, from, from + policy.windowMs)
  }

  predicate AlwaysUnder(calls: seq<Call>, key: string, policy: Policy) {
    forall i :: 0 <= i < |calls| && calls[i].key == key ==> calls[i].policy == policy
  }

  function Min(x: int, y: int): int {
    if x <= y then x else y
  }

  /** The most that a bucket can have admitted from `from` on, or in the window-long span from there. */
  function Ceiling(b: Bucket, policy: Policy, from: int): int {
    var start := b.resetAt - policy.windowMs;
    if from == start then Min(b.count, policy.limit)
    else if from >= b.resetAt then 0
    else if from > start then Min(b.count, policy.limit) - 1
    else if from + policy.windowMs > start then policy.limit - 1 + Min(b.count, policy.limit)
    else 2 * policy.limit - 1
  }

  ghost predicate Bounded(calls: seq<Call>, key: string, policy: Policy, b: Option<Bucket>) {
    forall from :: InWindow(calls, key, policy, from) <= if b.Some? then Ceiling(b.value, policy, from) else 0
  }

  lemma OthersAdmitNothing(calls: seq<Call>, key: string, policy: Policy, from: int)
    requires calls != [] && calls[|calls| - 1].key != key
    ensures InWindow(calls, key, policy, from) == InWindow(calls[..|calls| - 1], key, policy, from)
  {
  }

  lemma {:induction false} SpansAreBounded(calls: seq<Call>, key: string, policy: Policy, now: int)
    requires policy.Valid() && AlwaysUnder(calls, key, policy) && TimesUpTo(calls, now)
    ensures Bounded(calls, key, policy, Alone(calls, key))
    ensures Alone(calls, key).Some? ==>
            Alone(calls, key).value.resetAt - policy.windowMs <= now && Alone(calls, key).value.count >= 1
    decreases |calls|
  {
    if calls == [] {
      assert forall from :: InWindow(calls, key, policy, from) == 0;
    } else {
      hide InWindow, Ceiling;
      var front, c := calls[..|calls| - 1], calls[|calls| - 1];
      SpansAreBounded(front, key, policy, c.now);
      if c.key != key {
        forall from ensures InWindow(calls, key, policy, from) == InWindow(front, key, policy, from) {
          OthersAdmitNothing(calls, key, policy, from);
        }
      } else {
        forall from ensures InWindow(calls, key, policy, from) <= Ceiling(Alone(calls, key).value, policy, from) {
          OneMoreCall(calls, key, policy, from);
        }
      }
    }
  }

  lemma OneMoreCall(calls: seq<Call>, key: string, policy: Policy, from: int)
    requires policy.Valid() && calls != []
    requires var c := calls[|calls| - 1]; c.key == key && c.policy == policy
    requires var front, c := calls[..|calls| - 1], calls[|calls| - 1];
             var b := Alone(front, key);
             && InWindow(front, key, policy, from) <= (if b.Some? then Ceiling(b.value, policy, from) else 0)
             && (b.Some? ==> b.value.resetAt - policy.windowMs <= c.now && b.value.count >= 1)
    ensures InWindow(calls, key, policy, from) <= Ceiling(Alone(calls, key).value, policy, from)
  {
    hide Alone;
    AloneUnfolds(calls, key);
  }

  lemma AloneUnfolds(calls: seq<Call>, key: string)
    requires calls != []
    ensures var c, before := calls[|calls| - 1], Alone(calls[..|calls| - 1], key);
            Alone(calls, key) == if c.key == key then Some(Charged(before, c.policy, c.now)) else before
  {
  }

  lemma CeilingIsBelowTwice(b: Bucket, policy: Policy, from: int)
    requires policy.Valid()
    ensures Ceiling(b, policy, from) <= 2 * policy.limit - 1
  {
  }

  lemma SpanAloneAdmitsLessThanTwice(calls: seq<Call>, key: string, policy: Policy, now: int, from: int)
    requires policy.Valid() && AlwaysUnder(calls, key, policy) && TimesUpTo(calls, now)
    ensures InWindow(calls, key, policy, from) <= 2 * policy.limit - 1
  {
    hide InWindow, Ceiling, Alone;
    SpansAreBounded(calls, key, policy, now);
    if Alone(calls, key).Some? { CeilingIsBelowTwice(Alone(calls, key).value, policy, from); }
  }

  /** How many calls of `key` in the window from `from` the bounded limiter allows. */
  function AllowedInWindow(calls: seq<Call>, key: string, capacity: nat, policy: Policy, from: int): nat
    decreases |calls|
  {
    if calls == [] then 0
    else
      var front, c := calls[..|calls| - 1], calls[|calls| - 1];
      AllowedInWindow(front, key, capacity, policy, from)
      + (if c.key == key && from <= c.now < from + policy.windowMs && Answer(front, c, capacity).allowed then 1 else 0)
  }

  /** For a key that was never dropped, the limiter's own answers count as those of its bucket alone. */
  lemma {:induction false} AllowedAsAlone(calls: seq<Call>, key: string, capacity: nat, policy: Policy, now: int,
      from: int)
    requires TimesUpTo(calls, now) && NeverDropped(calls, key, capacity)
    ensures AllowedInWindow(calls, key, capacity, policy, from) == InWindow(calls, key, policy, from)
    decreases |calls|
  {
    if calls != [] {
      hide Dropped, Charged, Alone, Answer, VerdictOn, After;
      var front, c := calls[..|calls| - 1], calls[|calls| - 1];
      AllowedAsAlone(front, key, capacity, policy, c.now, from);
      if c.key == key { AllowedAnswer(front, c, capacity); }
    }
  }

  lemma AllowedAnswer(calls: seq<Call>, c: Call, capacity: nat)
    requires TimesUpTo(calls, c.now) && NeverDropped(calls, c.key, capacity)
    ensures Answer(calls, c, capacity).allowed == Allowed(calls, c)
  {
    hide Charged, Alone, Answer;
    AnswersAreIndependent(calls, c, capacity);
  }

  /** Under one policy, any span of one window allows a key that was never dropped fewer than twice the limit. */
  lemma SpanAdmitsLessThanTwice(calls: seq<Call>, key: string, capacity: nat, policy: Policy, now: int, from: int)
    requires policy.Valid() && AlwaysUnder(calls, key, policy) && TimesUpTo(calls, now)
             && NeverDropped(calls, key, capacity)
    ensures AllowedInWindow(calls, key, capacity, policy, from) <= 2 * policy.limit - 1
  {
    hide InWindow, NeverDropped, TimesUpTo, AllowedInWindow;
    AllowedAsAlone(calls, key, capacity, policy, now, from);
    SpanAloneAdmitsLessThanTwice(calls, key, policy, now, from);
  }

  /** The bound is met: one call opens a bucket, the rest of it comes at its end, and a new bucket follows. */
  function Worst(key: string, policy: Policy, n: nat): (calls: seq<Call>)
    requires policy.Valid() && n <= 2 * policy.limit
    ensures |calls| == n
  {
    seq(n, i requires 0 <= i < n =>
      Call(key, policy, if i == 0 then 0 else if i < policy.limit then policy.windowMs - 1 else policy.windowMs))
  }

  lemma {:induction false} WorstIsAdmitted(key: string, policy: Policy, n: nat)
    requires policy.Valid() && n <= 2 * policy.limit
    ensures Alone(Worst(key, policy, n), key)
         == if n == 0 then None else if n <= policy.limit then Some(Bucket(n, policy.windowMs))
            else Some(Bucket(n - policy.limit, 2 * policy.windowMs))
    ensures InWindow(Worst(key, policy, n), key, policy, policy.windowMs - 1) == if n == 0 then 0 else n - 1
    ensures TimesUpTo(Worst(key, policy, n), if n == 0 then 0 else Worst(key, policy, n)[n - 1].now)
    decreases n
  {
    if n > 0 {
      WorstIsAdmitted(key, policy, n - 1);
      assert Worst(key, policy, n)[..n - 1] == Worst(key, policy, n - 1);
    }
  }

  /** A key on its own is never dropped. */
  lemma {:induction false} OneKeyStays(calls: seq<Call>, key: string, capacity: nat)
    requires 0 < capacity && forall i :: 0 <= i < |calls| ==> calls[i].key == key
    ensures NeverDropped(calls, key, capacity)
    ensures calls != [] ==> key in After(calls, capacity).at
    decreases |calls|
  {
    if calls != [] {
      hide Swept, Charged;
      var front := calls[..|calls| - 1];
      OneKeyStays(front, key, capacity);
      if front == [] { assert After(front, capacity) == JsMap([], map[]); }
    }
  }

  /** Some run attains the bound, for every policy and capacity. */
  lemma TheBoundIsMet(key: string, policy: Policy, capacity: nat)
    requires policy.Valid() && 0 < capacity
    ensures var calls := Worst(key, policy, 2 * policy.limit);
            && AlwaysUnder(calls, key, policy) && TimesUpTo(calls, policy.windowMs)
               && NeverDropped(calls, key, capacity)
            && AllowedInWindow(calls, key, capacity, policy, policy.windowMs - 1) == 2 * policy.limit - 1
  {
    hide NeverDropped, AllowedInWindow;
    var calls := Worst(key, policy, 2 * policy.limit);
    WorstIsAdmitted(key, policy, 2 * policy.limit);
    OneKeyStays(calls, key, capacity);
    AllowedAsAlone(calls, key, capacity, policy, policy.windowMs, policy.windowMs - 1);
  }

  // ---- The retry hint ----

  /** After `retryAfterSeconds` the bucket just charged is gone, and no whole second earlier. */
  lemma RetryHintIsExact(b: Option<Bucket>, policy: Policy, now: int)
    requires policy.Valid()
    ensures var charged := Charged(b, policy, now);
            var retry := VerdictOn(charged, policy, now).retryAfterSeconds;
            && retry >= 1
            && (forall t :: t >= now + 1000 * retry ==> Live(Some(charged), t) == None)
            && Live(Some(charged), now + 1000 * (retry - 1)) == Some(charged)
            && (forall t, p: Policy :: p.Valid() && t >= now + 1000 * retry ==>
               VerdictOn(Charged(Some(charged), p, t), p, t).allowed)
  {
  }

  // ---- Capacity ----

  lemma SweptIsNoLonger(m: Buckets, now: int)
    requires m.Valid()
    ensures |Swept(m, now).keys| <= |m.keys| && Swept(m, now).at.Keys <= m.at.Keys
  {
  }

  /** A full table outgrows its capacity exactly when nothing has expired and its oldest key is empty. */
  lemma OnlyTheEmptyKeyOverflows(m: Buckets, key: string, policy: Policy, now: int, capacity: nat)
    requires m.Valid() && 0 < capacity && |m.keys| <= capacity
    ensures |Consumed(m, key, policy, now, capacity).keys| > capacity <==>
              key !in m.at && |m.keys| == capacity && |Swept(m, now).keys| == capacity && Swept(m, now).keys[0] == ""
  {
    hide Swept, Charged;
    SweptIsNoLonger(m, now);
  }

  lemma {:induction false} CapacityHolds(calls: seq<Call>, capacity: nat)
    requires 0 < capacity && forall i :: 0 <= i < |calls| ==> calls[i].key != ""
    ensures |After(calls, capacity).keys| <= capacity && "" !in After(calls, capacity).at
    decreases |calls|
  {
    if calls != [] {
      hide Swept, Charged;
      var c := calls[|calls| - 1];
      CapacityHolds(calls[..|calls| - 1], capacity);
      var m := After(calls[..|calls| - 1], capacity);
      OnlyTheEmptyKeyOverflows(m, c.key, c.policy, c.now, capacity);
      SweptIsNoLonger(m, c.now);
    }
  }

  /** One call for each of `n` keys, the empty one first. */
  function Crowd(n: nat, policy: Policy): seq<Call> {
    seq(n, i requires 0 <= i < n => Call(seq(i, _ => 'a'), policy, 0))
  }

  ghost predicate AllShortAndLive(m: Buckets, n: nat) {
    forall k :: k in m.at ==> |k| < n && m.at[k].resetAt > 0
  }

  lemma {:induction false} EverybodyStays(n: nat, policy: Policy, capacity: nat)
    requires policy.Valid() && 0 < capacity && n <= capacity + 1
    ensures var m := After(Crowd(n, policy), capacity);
            && |m.keys| == n
            && (n > 0 ==> m.keys[0] == "")
            && AllShortAndLive(m, n)
    decreases n
  {
    if n > 0 {
      hide After, Consumed, Crowd;
      EverybodyStays(n - 1, policy, capacity);
      NewKeyStays(After(Crowd(n - 1, policy), capacity), n - 1, policy, capacity);
      CrowdGrows(n, policy, capacity);
    }
  }

  lemma CrowdGrows(n: nat, policy: Policy, capacity: nat)
    requires n > 0
    ensures After(Crowd(n, policy), capacity)
         == Consumed(After(Crowd(n - 1, policy), capacity), seq(n - 1, _ => 'a'), policy, 0, capacity)
  {
    hide Consumed;
    assert Crowd(n, policy)[..n - 1] == Crowd(n - 1, policy);
  }

  lemma NewKeyStays(m: Buckets, n: nat, policy: Policy, capacity: nat)
    requires policy.Valid() && 0 < capacity && n <= capacity
    requires m.Valid() && |m.keys| == n && (n > 0 ==> m.keys[0] == "")
    requires AllShortAndLive(m, n)
    ensures var r := Consumed(m, seq(n, _ => 'a'), policy, 0, capacity);
            && r.keys == m.keys + [seq(n, _ => 'a')]
            && AllShortAndLive(r, n + 1)
  {
    hide Swept;
    var key := seq(n, _ => 'a');
    assert |key| == n && key !in m.at;
    assert Charged(None, policy, 0).resetAt > 0;
    assert Unexpired(m, 0) == m.at.Keys;
    NobodyIsSwept(m, 0);
  }

  lemma NobodyIsSwept(m: Buckets, now: int)
    requires m.Valid() && Unexpired(m, now) == m.at.Keys
    ensures Swept(m, now) == m
  {
    AllKept(m.keys, m.at.Keys);
  }

  /** With an empty key at the front, the table grows past its capacity. */
  lemma CapacityFailsForTheEmptyKey(policy: Policy, capacity: nat)
    requires policy.Valid() && 0 < capacity
    ensures |After(Crowd(capacity + 1, policy), capacity).keys| == capacity + 1
  {
    EverybodyStays(capacity + 1, policy, capacity);
  }

  // ---- The class ----

  lemma ConsumedSteps(m: Buckets, key: string, policy: Policy, now: int, capacity: nat)
    requires m.Valid()
    ensures var found := Find(m, key);
            var expired := found == None || found.value.resetAt <= now;
            var room := if found == None && |m.keys| >= capacity then Evicted(m, now, capacity) else m;
            var bucket := if expired then Bucket(0, now + policy.windowMs) else found.value;
            var charged := bucket.(count := bucket.count + 1);
            && Charged(found, policy, now) == charged
            && Consumed(m, key, policy, now, capacity)
               == (if expired then room.Put(key, bucket) else room).Put(key, charged)
  {
    hide Evicted;
    var room := if Find(m, key) == None && |m.keys| >= capacity then Evicted(m, now, capacity) else m;
    PutTwice(room, key, Bucket(0, now + policy.windowMs), Charged(Find(m, key), policy, now));
  }

  lemma PutTwice(m: Buckets, key: string, b: Bucket, c: Bucket)
    requires m.Valid()
    ensures m.Put(key, b).Put(key, c) == m.Put(key, c)
  {
    assert m.at[key := b][key := c] == m.at[key := c];
  }

  /** The first `i` keys of `m` have been tested. */
  ghost predicate PartlySwept(m: Buckets, now: int, i: nat, r: Buckets) {
    && m.Valid() && r.Valid() && i <= |m.keys|
    && r.keys == Kept(m.keys, r.at.Keys)
    && (forall k :: k in r.at ==> k in m.at && r.at[k] == m.at[k])
    && (forall j :: 0 <= j < |m.keys| ==> (m.keys[j] in r.at <==> j >= i || m.at[m.keys[j]].resetAt > now))
  }

  lemma SweepStarts(m: Buckets, now: int)
    requires m.Valid()
    ensures PartlySwept(m, now, 0, m)
  {
    AllKept(m.keys, m.at.Keys);
  }

  lemma SweepStep(m: Buckets, now: int, i: nat, r: Buckets)
    requires PartlySwept(m, now, i, r) && i < |m.keys|
    ensures r.Valid() && m.keys[i] in r.at
    ensures PartlySwept(m, now, i + 1, if r.at[m.keys[i]].resetAt <= now then r.Remove(m.keys[i]) else r)
  {
    hide Kept;
    var key := m.keys[i];
    assert key in r.at;
    RemovalKeepsOrder(r, key);
    KeptTwice(m.keys, r.at.Keys, r.Remove(key).at.Keys);
  }

  lemma SweepEnds(m: Buckets, now: int, r: Buckets)
    requires PartlySwept(m, now, |m.keys|, r)
    ensures r.Valid() && r == Swept(m, now)
  {
    hide Kept;
    assert r.at.Keys == Unexpired(m, now);
  }

  class ProcessRateLimiter {
    var buckets: Buckets
    const maxKeys: nat

    constructor (maxKeys: nat)
      requires 100 <= maxKeys <= 100000
      ensures this.maxKeys == maxKeys && buckets == JsMap([], map[])
    {
      this.maxKeys := maxKeys;
      buckets := JsMap([], map[]);
    }

    method Consume(key: string, policy: Policy, now: int) returns (r: Result<Verdict, Error>)
      requires buckets.Valid()
      modifies this
      ensures r.Ok? <==> 1 <= policy.limit <= 10_000 && 1_000 <= policy.windowMs <= 3_600_000
      ensures !policy.Valid() ==> r == Err(InvalidPolicy) && buckets == old(buckets)
      ensures policy.Valid() ==>
                && buckets == Consumed(old(buckets), key, policy, now, maxKeys)
                && r == Ok(VerdictOn(Charged(Find(old(buckets), key), policy, now), policy, now))
    {
      hide Evicted, Consumed, Charged;
      if !policy.Valid() { return Err(InvalidPolicy); }
      ConsumedSteps(buckets, key, policy, now, maxKeys);
      var bucket := Find(buckets, key);
      if bucket == None || bucket.value.resetAt <= now {
        if bucket == None && |buckets.keys| >= maxKeys { EvictExpiredOrOldest(now); }
        bucket := Some(Bucket(0, now + policy.windowMs));
        buckets := buckets.Put(key, bucket.value);
      }
      var charged := bucket.value.(count := bucket.value.count + 1);
      buckets := buckets.Put(key, charged);
      var retryAfterSeconds := if CeilSeconds(charged.resetAt - now) < 1 then 1 else CeilSeconds(charged.resetAt - now);
      return Ok(Verdict(charged.count <= policy.limit, retryAfterSeconds));
    }

    method EvictExpiredOrOldest(now: int)
      requires buckets.Valid()
      modifies this
      ensures buckets == Evicted(old(buckets), now, maxKeys)
    {
      hide PartlySwept, Swept;
      var keys := buckets.keys;
      SweepStarts(buckets, now);
      for i := 0 to |keys|
        invariant PartlySwept(old(buckets), now, i, buckets)
      {
        SweepStep(old(buckets), now, i, buckets);
        if buckets.at[keys[i]].resetAt <= now { buckets := buckets.Remove(keys[i]); }
      }
      SweepEnds(old(buckets), now, buckets);
      if |buckets.keys| < maxKeys { return; }
      if |buckets.keys| > 0 {
        var oldest := buckets.keys[0];
        if oldest != "" { buckets := buckets.Remove(oldest); }
      }
    }
  }
}
