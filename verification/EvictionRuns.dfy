/** Over runs of the throttle and of the rate limiter: which entry a full table loses, and when. */
module EvictionRuns {
  import opened Maybe
  import opened JsMaps
  import opened Eviction
  import Throttle
  import RateLimiter

  /** `q` came before every other one of `others`. */
  ghost predicate IsOldestOf(q: string, others: set<string>, born: string -> int) {
    forall k :: k in others && k != q ==> born(q) < born(k)
  }

  // ---- The throttle ----

  /** The number of the operation that made the present entry of `p`; an entry is present until it is removed. */
  ghost function Tracking(ops: seq<Throttle.Op>, policy: Throttle.Policy, capacity: Option<nat>): string -> int {
    (p: string) => TrackedSince(ops, p, policy, capacity)
  }

  ghost function TrackedSince(ops: seq<Throttle.Op>, p: string, policy: Throttle.Policy, capacity: Option<nat>): int
    decreases |ops|
  {
    if ops == [] then -1
    else
      var front := ops[..|ops| - 1];
      if p in Throttle.After(front, policy, capacity).at then TrackedSince(front, p, policy, capacity)
      else |ops| - 1
  }

  /** The principals whose entries still matter at `t`. */
  ghost function Mattering(m: Throttle.Entries, t: int, policy: Throttle.Policy): set<string> {
    set p | p in m.at && !Throttle.IsIdle(Throttle.Pruned(m.at[p], t, policy))
  }

  lemma SweepLeavesTheMattering(m: Throttle.Entries, t: int, policy: Throttle.Policy)
    requires m.Valid()
    ensures var swept := Throttle.Swept(m, m.keys, t, policy);
            swept.at.Keys == Mattering(m, t, policy) && swept.keys == Kept(m.keys, Mattering(m, t, policy))
            && |swept.keys| == |Mattering(m, t, policy)|
  {
    hide Throttle.Swept, Throttle.Pruned, Throttle.IsIdle, Kept;
    var swept := Throttle.Swept(m, m.keys, t, policy);
    Throttle.SweepKeepsTheLive(m, m.keys, t, policy);
    Throttle.SweepKeepsOrder(m, m.keys, t, policy);
    KeysAreCounted(swept.keys, swept.at);
  }

  lemma RemovedStaysInOrder<V>(m: JsMap<string, V>, k: string)
    requires m.Valid()
    ensures var r := m.Remove(k); r.keys == Kept(m.keys, r.at.Keys) && r.at.Keys <= m.at.Keys
  {
    hide Kept;
    RemovalKeepsOrder(m, k);
  }

  lemma PutStaysInOrder<V>(m: JsMap<string, V>, k: string, v: V)
    requires m.Valid()
    ensures var r := m.Put(k, v);
            && r.keys == Kept(m.keys, r.at.Keys) + (if k in m.at then [] else [k])
            && r.at.Keys == m.at.Keys + {k}
  {
    hide Kept;
    AllKept(m.keys, m.Put(k, v).at.Keys);
  }

  /** What a full table loses keeps the others in order. */
  lemma RoomStaysInOrder<V>(m: JsMap<string, V>, swept: JsMap<string, V>, capacity: nat)
    requires m.Valid() && swept.Valid() && swept.keys == Kept(m.keys, swept.at.Keys) && swept.at.Keys <= m.at.Keys
    ensures var r := WithoutVictim(swept, capacity); r.keys == Kept(m.keys, r.at.Keys) && r.at.Keys <= m.at.Keys
  {
    hide Kept;
    var v := Victim(swept, capacity);
    if v.Some? {
      RemovalKeepsOrder(swept, v.value);
      KeptTwice(m.keys, swept.at.Keys, swept.Remove(v.value).at.Keys);
    }
  }

  /** A new entry after making room stands last, and the others keep their order. */
  lemma NewcomerStandsLast<V>(m: JsMap<string, V>, room: JsMap<string, V>, k: string, v: V)
    requires m.Valid() && room.Valid() && room.keys == Kept(m.keys, room.at.Keys) && room.at.Keys <= m.at.Keys
    requires k !in m.at
    ensures var r := room.Put(k, v);
            r.keys == Kept(m.keys, r.at.Keys) + [k] && r.at.Keys == room.at.Keys + {k}
  {
    hide Kept;
    KeptAgrees(m.keys, room.at.Keys, room.Put(k, v).at.Keys);
  }

  /** Entries keep their order, and only a failure adds one, at the end. */
  lemma StepKeepsOrder(m: Throttle.Entries, op: Throttle.Op, policy: Throttle.Policy, capacity: Option<nat>)
    requires m.Valid()
    ensures var r := Throttle.Applied(m, op, policy, capacity);
            var isNew := op.Fail? && op.p !in m.at;
            && r.keys == Kept(m.keys, r.at.Keys) + (if isNew then [op.p] else [])
            && r.at.Keys <= m.at.Keys + (if isNew then {op.p} else {})
  {
    hide Kept, Throttle.Asked, Throttle.FailedUnbounded, Throttle.FailedBounded;
    match op
    case Ask(p, t) => AskKeepsOrder(m, p, t, policy);
    case Succeed(p) => RemovedStaysInOrder(m, p);
    case Fail(p, t) =>
      if capacity.None? {
        PutOneKeepsOrder(m, p, t, policy);
      } else {
        FailKeepsOrder(m, p, t, policy, capacity.value);
      }
  }

  lemma AskKeepsOrder(m: Throttle.Entries, p: string, t: int, policy: Throttle.Policy)
    requires m.Valid()
    ensures var r := Throttle.Asked(m, p, t, policy).0; r.keys == Kept(m.keys, r.at.Keys) && r.at.Keys <= m.at.Keys
  {
    hide Kept, Throttle.Pruned, Throttle.IsIdle;
    AllKept(m.keys, m.at.Keys);
    RemovedStaysInOrder(m, p);
    PutStaysInOrder(m, p, Throttle.Pruned(Throttle.Tracked(m, p), t, policy));
    if p in m.at { assert m.at.Keys + {p} == m.at.Keys; }
  }

  lemma PutOneKeepsOrder(m: Throttle.Entries, p: string, t: int, policy: Throttle.Policy)
    requires m.Valid()
    ensures var r := Throttle.FailedUnbounded(m, p, t, policy);
            r.keys == Kept(m.keys, r.at.Keys) + (if p in m.at then [] else [p]) && r.at.Keys == m.at.Keys + {p}
  {
    hide Kept, Throttle.Failed, Throttle.Recent;
    PutStaysInOrder(m, p, Throttle.FailedUnbounded(m, p, t, policy).at[p]);
  }

  lemma FailKeepsOrder(m: Throttle.Entries, p: string, t: int, policy: Throttle.Policy, capacity: nat)
    requires m.Valid()
    ensures var r := Throttle.FailedBounded(m, p, t, policy, capacity);
            r.keys == Kept(m.keys, r.at.Keys) + (if p in m.at then [] else [p]) && r.at.Keys <= m.at.Keys + {p}
  {
    hide Kept, Throttle.Swept, Throttle.Failed, Throttle.Pruned, WithoutVictim;
    var r := Throttle.FailedBounded(m, p, t, policy, capacity);
    if !MakesRoom(m, p, capacity) {
      PutStaysInOrder(m, p, r.at[p]);
    } else {
      var swept := Throttle.Swept(m, m.keys, t, policy);
      Throttle.SweepKeepsOrder(m, m.keys, t, policy);
      RoomStaysInOrder(m, swept, capacity);
      NewcomerStandsLast(m, WithoutVictim(swept, capacity), p, r.at[p]);
    }
  }

  /** The entries of the table stand in the order in which they were made. */
  lemma {:induction false} EntriesStandByAge(ops: seq<Throttle.Op>, policy: Throttle.Policy, capacity: Option<nat>)
    ensures OldestFirst(Throttle.After(ops, policy, capacity).keys, Tracking(ops, policy, capacity))
    ensures forall p :: p in Throttle.After(ops, policy, capacity).at ==> TrackedSince(ops, p, policy, capacity) < |ops|
    decreases |ops|
  {
    hide *;
    if ops == [] {
      NothingTracked(policy, capacity);
    } else {
      var front, op := ops[..|ops| - 1], ops[|ops| - 1];
      var m, r := Throttle.After(front, policy, capacity), Throttle.After(ops, policy, capacity);
      var before, born := Tracking(front, policy, capacity), Tracking(ops, policy, capacity);
      var added := if op.Fail? && op.p !in m.at then [op.p] else [];
      EntriesStandByAge(front, policy, capacity);
      AfterOneMore(ops, policy, capacity);
      StepKeepsOrder(m, op, policy, capacity);
      KeptOldestFirst(m.keys, r.at.Keys, before);
      KeptMembers(m.keys, r.at.Keys);
      ValidKeys(m);
      ValidKeys(r);
      AgesGoOn(Kept(m.keys, r.at.Keys), added, before, born, |front|);
    }
  }

  lemma ValidKeys<V>(m: JsMap<string, V>)
    requires m.Valid()
    ensures forall k :: k in m.keys <==> k in m.at
  {
  }

  lemma NothingTracked(policy: Throttle.Policy, capacity: Option<nat>)
    ensures Throttle.After([], policy, capacity) == JsMap([], map[])
    ensures OldestFirst([], Tracking([], policy, capacity))
  {
  }

  lemma AfterOneMore(ops: seq<Throttle.Op>, policy: Throttle.Policy, capacity: Option<nat>)
    requires ops != []
    ensures var front := ops[..|ops| - 1];
            && Throttle.After(ops, policy, capacity)
               == Throttle.Applied(Throttle.After(front, policy, capacity), ops[|ops| - 1], policy, capacity)
            && (forall p :: Tracking(front, policy, capacity)(p) == TrackedSince(front, p, policy, capacity))
            && (forall p :: Tracking(ops, policy, capacity)(p) == TrackedSince(ops, p, policy, capacity)
                  == if p in Throttle.After(front, policy, capacity).at then Tracking(front, policy, capacity)(p)
                     else |front|)
  {
    hide Throttle.Applied;
  }

  /** Those that stay keep their ages, and who is new is the youngest. */
  lemma AgesGoOn(kept: seq<string>, added: seq<string>, before: string -> int, born: string -> int, now: int)
    requires OldestFirst(kept, before) && |added| <= 1
    requires forall p :: p in kept ==> born(p) == before(p) < now
    requires forall p :: p in added ==> born(p) == now
    ensures OldestFirst(kept + added, born)
  {
    forall i | 0 <= i < |kept| ensures born(kept[i]) == before(kept[i]) < now { assert kept[i] in kept; }
    if added != [] { assert added[0] in added; }
  }

  /**
   * An entry that still matters is lost exactly to the failure of a newcomer that finds the table full of such entries,
   * and then it is the oldest of them; an empty principal is never lost.
   */
  lemma ThrottleLosesExactlyTheOldest(ops: seq<Throttle.Op>, p: string, t: int, policy: Throttle.Policy, capacity: nat,
      q: string)
    requires q in Mattering(Throttle.After(ops, policy, Some(capacity)), t, policy)
    ensures var m := Throttle.After(ops, policy, Some(capacity));
            var mattering := Mattering(m, t, policy);
            q !in Throttle.Applied(m, Throttle.Fail(p, t), policy, Some(capacity)).at <==>
              && p !in m.at && |m.at.Keys| >= capacity && |mattering| >= capacity && q != ""
              && IsOldestOf(q, mattering, Tracking(ops, policy, Some(capacity)))
  {
    hide Throttle.Swept, Throttle.Failed, Throttle.Pruned, Throttle.IsIdle, Victim, WithoutVictim, Kept, Throttle.After;
    var m := Throttle.After(ops, policy, Some(capacity));
    var swept := Throttle.Swept(m, m.keys, t, policy);
    var born := Tracking(ops, policy, Some(capacity));
    KeysAreCounted(m.keys, m.at);
    SweepLeavesTheMattering(m, t, policy);
    EntriesStandByAge(ops, policy, Some(capacity));
    KeptOldestFirst(m.keys, swept.at.Keys, born);
    FirstIsOldest(swept.keys, born, q);
    OnlyTheFirstGoes(swept, capacity);
  }

  /** A principal stays as long as an older one still matters. */
  lemma ThrottleKeepsTheYounger(ops: seq<Throttle.Op>, op: Throttle.Op, policy: Throttle.Policy, capacity: nat,
      older: string, younger: string)
    requires op.Fail?
    requires var mattering := Mattering(Throttle.After(ops, policy, Some(capacity)), op.t, policy);
             older in mattering && younger in mattering
    requires TrackedSince(ops, older, policy, Some(capacity)) < TrackedSince(ops, younger, policy, Some(capacity))
    ensures younger in Throttle.After(ops + [op], policy, Some(capacity)).at
  {
    hide Throttle.Applied, Mattering, TrackedSince;
    assert (ops + [op])[..|ops|] == ops;
    ThrottleLosesExactlyTheOldest(ops, op.p, op.t, policy, capacity, younger);
    assert Tracking(ops, policy, Some(capacity))(older) < Tracking(ops, policy, Some(capacity))(younger);
  }

  // ---- The rate limiter ----

  ghost function Opening(calls: seq<RateLimiter.Call>, capacity: nat): string -> int {
    (key: string) => OpenSince(calls, key, capacity)
  }

  /** The number of the call that opened the present entry of `key`; renewing an expired bucket keeps its place. */
  ghost function OpenSince(calls: seq<RateLimiter.Call>, key: string, capacity: nat): int
    decreases |calls|
  {
    if calls == [] then -1
    else
      var front := calls[..|calls| - 1];
      if key in RateLimiter.After(front, capacity).at then OpenSince(front, key, capacity) else |calls| - 1
  }

  lemma CallKeepsOrder(m: RateLimiter.Buckets, c: RateLimiter.Call, capacity: nat)
    requires m.Valid()
    ensures var r := RateLimiter.Consumed(m, c.key, c.policy, c.now, capacity);
            var isNew := c.key !in m.at;
            && r.keys == Kept(m.keys, r.at.Keys) + (if isNew then [c.key] else [])
            && r.at.Keys <= m.at.Keys + {c.key}
  {
    hide Kept, RateLimiter.Charged, Victim, WithoutVictim, RateLimiter.Swept;
    var v := RateLimiter.Charged(RateLimiter.Find(m, c.key), c.policy, c.now);
    AllKept(m.keys, m.at.Keys);
    if !MakesRoom(m, c.key, capacity) {
      PutStaysInOrder(m, c.key, v);
    } else {
      var swept := RateLimiter.Swept(m, c.now);
      SweptInOrder(m, c.now);
      RoomStaysInOrder(m, swept, capacity);
      NewcomerStandsLast(m, WithoutVictim(swept, capacity), c.key, v);
    }
  }

  lemma SweptInOrder(m: RateLimiter.Buckets, now: int)
    requires m.Valid()
    ensures var swept := RateLimiter.Swept(m, now);
            && swept.keys == Kept(m.keys, swept.at.Keys) && swept.at.Keys == Unexpired(m, now) <= m.at.Keys
            && |swept.keys| == |Unexpired(m, now)|
  {
    hide Kept;
    var swept := RateLimiter.Swept(m, now);
    KeysAreCounted(swept.keys, swept.at);
  }

  /** The keys whose buckets have not expired at `now`. */
  ghost function Unexpired(m: RateLimiter.Buckets, now: int): set<string> {
    set key | key in m.at && now < m.at[key].resetAt
  }

  lemma {:induction false} BucketsStandByAge(calls: seq<RateLimiter.Call>, capacity: nat)
    ensures OldestFirst(RateLimiter.After(calls, capacity).keys, Opening(calls, capacity))
    ensures forall key :: key in RateLimiter.After(calls, capacity).at ==> OpenSince(calls, key, capacity) < |calls|
    decreases |calls|
  {
    hide *;
    if calls == [] {
      NothingOpened(capacity);
    } else {
      var front, c := calls[..|calls| - 1], calls[|calls| - 1];
      var m, r := RateLimiter.After(front, capacity), RateLimiter.After(calls, capacity);
      var added := if c.key !in m.at then [c.key] else [];
      BucketsStandByAge(front, capacity);
      AfterOneMoreCall(calls, capacity);
      CallKeepsOrder(m, c, capacity);
      KeptOldestFirst(m.keys, r.at.Keys, Opening(front, capacity));
      KeptMembers(m.keys, r.at.Keys);
      ValidKeys(m);
      ValidKeys(r);
      AgesGoOn(Kept(m.keys, r.at.Keys), added, Opening(front, capacity), Opening(calls, capacity), |front|);
    }
  }

  lemma NothingOpened(capacity: nat)
    ensures RateLimiter.After([], capacity) == JsMap([], map[]) && OldestFirst([], Opening([], capacity))
  {
  }

  lemma AfterOneMoreCall(calls: seq<RateLimiter.Call>, capacity: nat)
    requires calls != []
    ensures var front, c := calls[..|calls| - 1], calls[|calls| - 1];
            && RateLimiter.After(calls, capacity)
               == RateLimiter.Consumed(RateLimiter.After(front, capacity), c.key, c.policy, c.now, capacity)
            && (forall k :: Opening(front, capacity)(k) == OpenSince(front, k, capacity))
            && (forall k :: Opening(calls, capacity)(k) == OpenSince(calls, k, capacity)
                  == if k in RateLimiter.After(front, capacity).at then Opening(front, capacity)(k) else |front|)
  {
    hide RateLimiter.Consumed;
  }

  /**
   * A bucket that has not expired is lost exactly to a new key that finds the table full of such buckets, and then it
   * is the oldest of them; that of the empty key is never lost.
   */
  lemma LimiterLosesExactlyTheOldest(calls: seq<RateLimiter.Call>, c: RateLimiter.Call, capacity: nat, q: string)
    requires q in Unexpired(RateLimiter.After(calls, capacity), c.now)
    ensures var m := RateLimiter.After(calls, capacity);
            q !in RateLimiter.Consumed(m, c.key, c.policy, c.now, capacity).at <==>
              && c.key !in m.at && |m.at.Keys| >= capacity && |Unexpired(m, c.now)| >= capacity && q != ""
              && IsOldestOf(q, Unexpired(m, c.now), Opening(calls, capacity))
  {
    hide RateLimiter.Charged, Victim, WithoutVictim, Kept, RateLimiter.Swept, RateLimiter.After;
    var m := RateLimiter.After(calls, capacity);
    var swept := RateLimiter.Swept(m, c.now);
    KeysAreCounted(m.keys, m.at);
    SweptInOrder(m, c.now);
    BucketsStandByAge(calls, capacity);
    KeptOldestFirst(m.keys, swept.at.Keys, Opening(calls, capacity));
    FirstIsOldest(swept.keys, Opening(calls, capacity), q);
    OnlyTheFirstGoes(swept, capacity);
  }

  /** A key keeps its bucket as long as an older bucket has not expired. */
  lemma LimiterKeepsTheYounger(calls: seq<RateLimiter.Call>, c: RateLimiter.Call, capacity: nat, older: string,
      younger: string)
    requires var alive := Unexpired(RateLimiter.After(calls, capacity), c.now); older in alive && younger in alive
    requires OpenSince(calls, older, capacity) < OpenSince(calls, younger, capacity)
    ensures younger in RateLimiter.After(calls + [c], capacity).at
  {
    hide RateLimiter.Consumed, Unexpired, OpenSince;
    assert (calls + [c])[..|calls|] == calls;
    LimiterLosesExactlyTheOldest(calls, c, capacity, younger);
    assert Opening(calls, capacity)(older) < Opening(calls, capacity)(younger);
  }
}
