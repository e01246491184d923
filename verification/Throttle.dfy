/** The two authentication throttles, against a plain log of failed attempts. */
module Throttle {
  import opened Maybe
  import opened JsMaps
  import opened Eviction

  datatype Policy = Policy(maxFailures: int, windowMs: int, lockMs: int) {
    predicate Valid() { maxFailures >= 1 && windowMs >= 1 && lockMs >= 1 }
  }

  datatype Entry = Entry(failures: seq<int>, blockedUntil: Option<int>)

  const NO_ENTRY := Entry([], None)

  type Entries = JsMap<string, Entry>

  function Recent(failures: seq<int>, since: int): seq<int>
    decreases |failures|
  {
    if failures == [] then []
    else
      var n := |failures| - 1;
      Recent(failures[..n], since) + (if failures[n] > since then [failures[n]] else [])
  }

  predicate BlocksAt(e: Entry, t: int) {
    e.blockedUntil.Some? && e.blockedUntil.value > t
  }

  function Pruned(e: Entry, now: int, policy: Policy): Entry {
    Entry(Recent(e.failures, now - policy.windowMs), if BlocksAt(e, now) then e.blockedUntil else None)
  }

  predicate IsIdle(e: Entry) {
    e.failures == [] && e.blockedUntil == None
  }

  /** One more failure on an entry whose old failures have been dropped. */
  function Failed(e: Entry, time: int, policy: Policy): Entry {
    var failures := e.failures + [time];
    Entry(failures, if |failures| >= policy.maxFailures then Some(time + policy.lockMs) else e.blockedUntil)
  }

  // ---- The log specification ----

  /** The `i`-th failure brought the count inside its window to the limit. */
  predicate Triggers(log: seq<int>, i: nat, policy: Policy) {
    i < |log| && |Recent(log[..i + 1], log[i] - policy.windowMs)| >= policy.maxFailures
  }

  ghost predicate LogBlocksAt(log: seq<int>, t: int, policy: Policy) {
    exists i: nat :: Triggers(log, i, policy) && log[i] + policy.lockMs > t
  }

  predicate AllUpTo(log: seq<int>, now: int) {
    forall i :: 0 <= i < |log| ==> log[i] <= now
  }

  /** From `now` on, `e` answers as the full log does. */
  ghost predicate Agrees(e: Entry, log: seq<int>, now: int, policy: Policy) {
    && AllUpTo(log, now)
    && (forall since :: since >= now - policy.windowMs ==> Recent(e.failures, since) == Recent(log, since))
    && (forall t :: t >= now ==> (BlocksAt(e, t) <==> LogBlocksAt(log, t, policy)))
  }

  lemma {:induction false} RecentOfRecent(failures: seq<int>, a: int, b: int)
    requires a <= b
    ensures Recent(Recent(failures, a), b) == Recent(failures, b)
    decreases |failures|
  {
    if failures != [] {
      var n := |failures| - 1;
      var head := Recent(failures[..n], a);
      RecentOfRecent(failures[..n], a, b);
      if failures[n] > a {
        assert (head + [failures[n]])[..|head|] == head;
      } else {
        assert Recent(failures, a) == head;
      }
    }
  }

  lemma RecentOfOneMore(failures: seq<int>, time: int, since: int)
    ensures Recent(failures + [time], since) == Recent(failures, since) + (if time > since then [time] else [])
  {
    assert (failures + [time])[..|failures|] == failures;
  }

  lemma NothingAgreesWithNothing(now: int, policy: Policy)
    ensures Agrees(NO_ENTRY, [], now, policy)
  {
  }

  lemma AgreesLater(e: Entry, log: seq<int>, now: int, later: int, policy: Policy)
    requires Agrees(e, log, now, policy) && now <= later
    ensures Agrees(e, log, later, policy)
  {
  }

  lemma PruningIsUnobservable(e: Entry, log: seq<int>, now: int, policy: Policy)
    requires Agrees(e, log, now, policy)
    ensures Agrees(Pruned(e, now, policy), log, now, policy)
  {
    hide LogBlocksAt, Recent;
    var p := Pruned(e, now, policy);
    forall since | since >= now - policy.windowMs ensures Recent(p.failures, since) == Recent(log, since) {
      RecentOfRecent(e.failures, now - policy.windowMs, since);
    }
  }

  lemma IdleIsNoEntry(e: Entry, log: seq<int>, now: int, policy: Policy)
    requires Agrees(e, log, now, policy) && IsIdle(e)
    ensures Agrees(NO_ENTRY, log, now, policy)
  {
  }

  lemma TriggersOfOneMore(log: seq<int>, time: int, i: nat, policy: Policy)
    ensures i < |log| ==> (Triggers(log + [time], i, policy) <==> Triggers(log, i, policy))
    ensures i == |log| ==>
            (Triggers(log + [time], i, policy) <==>
             |Recent(log + [time], time - policy.windowMs)| >= policy.maxFailures)
  {
    if i < |log| {
      assert (log + [time])[..i + 1] == log[..i + 1];
    } else if i == |log| {
      assert (log + [time])[..i + 1] == log + [time];
    }
  }

  lemma LogBlocksAfterOneMore(log: seq<int>, time: int, t: int, policy: Policy)
    requires AllUpTo(log, time)
    ensures LogBlocksAt(log + [time], t, policy)
       <==> if |Recent(log + [time], time - policy.windowMs)| >= policy.maxFailures then time + policy.lockMs > t
            else LogBlocksAt(log, t, policy)
  {
    hide Triggers;
    var more := log + [time];
    forall i: nat ensures i < |log| ==> (Triggers(more, i, policy) <==> Triggers(log, i, policy)) && more[i] == log[i] {
      TriggersOfOneMore(log, time, i, policy);
    }
    TriggersOfOneMore(log, time, |log|, policy);
    TriggersIsInside(policy);
    if Triggers(more, |log|, policy) && time + policy.lockMs > t {
      assert more[|log|] == time;
    }
    if i: nat :| Triggers(more, i, policy) && more[i] + policy.lockMs > t {
      assert more[i] <= time;
    }
    if i: nat :| Triggers(log, i, policy) && log[i] + policy.lockMs > t {
      assert Triggers(more, i, policy) && more[i] == log[i];
    }
  }

  lemma TriggersIsInside(policy: Policy)
    ensures forall log, i: nat :: Triggers(log, i, policy) ==> i < |log|
  {
  }

  lemma FailureAgrees(e: Entry, log: seq<int>, now: int, blockedUntil: Option<int>, policy: Policy)
    requires policy.Valid() && Agrees(e, log, now, policy)
    requires blockedUntil == e.blockedUntil || blockedUntil == Pruned(e, now, policy).blockedUntil
    ensures Agrees(Failed(Entry(Recent(e.failures, now - policy.windowMs), blockedUntil), now, policy), log + [now],
            now, policy)
  {
    hide LogBlocksAt, Recent;
    var since0 := now - policy.windowMs;
    var kept := Recent(e.failures, since0);
    var after := Failed(Entry(kept, blockedUntil), now, policy);
    forall since | since >= since0 ensures Recent(after.failures, since) == Recent(log + [now], since) {
      RecentOfOneMore(kept, now, since);
      RecentOfOneMore(log, now, since);
      RecentOfRecent(e.failures, since0, since);
    }
    RecentOfOneMore(log, now, since0);
    assert |Recent(log + [now], since0)| == |after.failures|;
    forall t | t >= now ensures BlocksAt(after, t) <==> LogBlocksAt(log + [now], t, policy) {
      LogBlocksAfterOneMore(log, now, t, policy);
    }
  }

  // ---- The unbounded throttle ----

  function Tracked(m: Entries, p: string): Entry {
    if p in m.at then m.at[p] else NO_ENTRY
  }

  /** isBlocked, the same in both throttles. */
  function Asked(m: Entries, p: string, t: int, policy: Policy): (r: (Entries, bool))
    requires m.Valid()
    ensures r.0.Valid()
  {
    if p !in m.at then (m, false)
    else if BlocksAt(m.at[p], t) then (m, true)
    else
      var e := Pruned(m.at[p], t, policy);
      (if IsIdle(e) then m.Remove(p) else m.Put(p, e), false)
  }

  function FailedUnbounded(m: Entries, p: string, t: int, policy: Policy): (r: Entries)
    requires m.Valid()
    ensures r.Valid()
  {
    var e := Tracked(m, p);
    m.Put(p, Failed(Entry(Recent(e.failures, t - policy.windowMs), e.blockedUntil), t, policy))
  }

  // ---- The bounded throttle ----

  function SweptOne(m: Entries, key: string, now: int, policy: Policy): (r: Entries)
    requires m.Valid()
    ensures r.Valid()
  {
    if key !in m.at then m
    else
      var e := Pruned(m.at[key], now, policy);
      if IsIdle(e) then m.Remove(key) else m.Put(key, e)
  }

  function Swept(m: Entries, keys: seq<string>, now: int, policy: Policy): (r: Entries)
    requires m.Valid()
    ensures r.Valid()
    decreases |keys|
  {
    if keys == [] then m
    else SweptOne(Swept(m, keys[..|keys| - 1], now, policy), keys[|keys| - 1], now, policy)
  }

  function Evicted(m: Entries, now: int, policy: Policy, capacity: nat): (r: Entries)
    requires m.Valid()
    ensures r.Valid()
  {
    WithoutVictim(Swept(m, m.keys, now, policy), capacity)
  }

  function FailedBounded(m: Entries, p: string, t: int, policy: Policy, capacity: nat): (r: Entries)
    requires m.Valid()
    ensures r.Valid()
  {
    var room := if MakesRoom(m, p, capacity) then Evicted(m, t, policy, capacity) else m;
    room.Put(p, Failed(Pruned(Tracked(room, p), t, policy), t, policy))
  }

  // ---- Runs ----

  datatype Op = Ask(p: string, t: int) | Fail(p: string, t: int) | Succeed(p: string)

  /** `capacity` None is the unbounded throttle. */
  function After(ops: seq<Op>, policy: Policy, capacity: Option<nat>): (m: Entries)
    ensures m.Valid()
    decreases |ops|
  {
    if ops == [] then JsMap([], map[])
    else Applied(After(ops[..|ops| - 1], policy, capacity), ops[|ops| - 1], policy, capacity)
  }

  function Applied(m: Entries, op: Op, policy: Policy, capacity: Option<nat>): (r: Entries)
    requires m.Valid()
    ensures r.Valid()
  {
    match op
    case Ask(p, t) => Asked(m, p, t, policy).0
    case Fail(p, t) => if capacity.Some? then FailedBounded(m, p, t, policy, capacity.value)
      else FailedUnbounded(m, p, t, policy)
    case Succeed(p) => m.Remove(p)
  }

  function Dropped(m: Entries, op: Op, policy: Policy, capacity: Option<nat>): Option<string>
    requires m.Valid()
  {
    if op.Fail? && capacity.Some? && MakesRoom(m, op.p, capacity.value)
    then Victim(Swept(m, m.keys, op.t, policy), capacity.value)
    else None
  }

  /** Every failure of `p` since its last success, nothing forgotten. */
  function Log(ops: seq<Op>, p: string): seq<int>
    decreases |ops|
  {
    if ops == [] then []
    else
      var log := Log(ops[..|ops| - 1], p);
      match ops[|ops| - 1]
      case Ask(_, _) => log
      case Fail(q, t) => if q == p then log + [t] else log
      case Succeed(q) => if q == p then [] else log
  }

  /** Every failure of `p` since its last success or its last removal as the oldest entry. */
  function LogSinceDropped(ops: seq<Op>, p: string, policy: Policy, capacity: Option<nat>): seq<int>
    decreases |ops|
  {
    if ops == [] then []
    else
      var front, op := ops[..|ops| - 1], ops[|ops| - 1];
      var log := LogSinceDropped(front, p, policy, capacity);
      match op
      case Ask(_, _) => log
      case Fail(q, t) =>
        if q == p then log + [t]
        else if Dropped(After(front, policy, capacity), op, policy, capacity) == Some(p) then []
        else log
      case Succeed(q) => if q == p then [] else log
  }

  predicate TimesUpTo(ops: seq<Op>, now: int)
    decreases |ops|
  {
    if ops == [] then true
    else
      var front, op := ops[..|ops| - 1], ops[|ops| - 1];
      if op.Succeed? then TimesUpTo(front, now) else op.t <= now && TimesUpTo(front, op.t)
  }

  predicate NeverDropped(ops: seq<Op>, p: string, policy: Policy, capacity: Option<nat>)
    decreases |ops|
  {
    ops == [] ||
    var front := ops[..|ops| - 1];
    && NeverDropped(front, p, policy, capacity)
    && Dropped(After(front, policy, capacity), ops[|ops| - 1], policy, capacity) != Some(p)
  }

  lemma SweptOneAgrees(m: Entries, key: string, p: string, log: seq<int>, now: int, policy: Policy)
    requires m.Valid() && Agrees(Tracked(m, p), log, now, policy)
    ensures Agrees(Tracked(SweptOne(m, key, now, policy), p), log, now, policy)
  {
    hide Agrees, Pruned, IsIdle;
    if key == p {
      PruningIsUnobservable(Tracked(m, p), log, now, policy);
      if IsIdle(Pruned(Tracked(m, p), now, policy)) {
        IdleIsNoEntry(Pruned(Tracked(m, p), now, policy), log, now, policy);
      }
    }
  }

  lemma {:induction false} SweptAgrees(m: Entries, keys: seq<string>, p: string, log: seq<int>, now: int,
      policy: Policy)
    requires m.Valid() && Agrees(Tracked(m, p), log, now, policy)
    ensures Agrees(Tracked(Swept(m, keys, now, policy), p), log, now, policy)
    decreases |keys|
  {
    hide Agrees, SweptOne, Tracked;
    if keys != [] {
      SweptAgrees(m, keys[..|keys| - 1], p, log, now, policy);
      SweptOneAgrees(Swept(m, keys[..|keys| - 1], now, policy), keys[|keys| - 1], p, log, now, policy);
    }
  }

  lemma AskAgrees(m: Entries, q: string, t: int, p: string, log: seq<int>, now: int, policy: Policy)
    requires m.Valid() && Agrees(Tracked(m, p), log, now, policy) && now <= t
    ensures Agrees(Tracked(Asked(m, q, t, policy).0, p), log, t, policy)
  {
    hide Agrees, Pruned, IsIdle;
    AgreesLater(Tracked(m, p), log, now, t, policy);
    SweptOneAgrees(m, q, p, log, t, policy);
  }

  lemma OthersAreUntouched(m: Entries, q: string, e: Entry, p: string)
    requires m.Valid()
    ensures Tracked(m.Put(q, e), p) == if p == q then e else Tracked(m, p)
    ensures Tracked(m.Remove(q), p) == if p == q then NO_ENTRY else Tracked(m, p)
  {
  }

  lemma FailUnboundedAgrees(m: Entries, q: string, t: int, p: string, log: seq<int>, policy: Policy)
    requires policy.Valid() && m.Valid() && Agrees(Tracked(m, p), log, t, policy)
    ensures Agrees(Tracked(FailedUnbounded(m, q, t, policy), p), if q == p then log + [t] else log, t, policy)
  {
    hide Agrees, Pruned, Failed, Recent;
    var e := Tracked(m, q);
    OthersAreUntouched(m, q, Failed(Entry(Recent(e.failures, t - policy.windowMs), e.blockedUntil), t, policy), p);
    if q == p { FailureAgrees(e, log, t, e.blockedUntil, policy); }
  }

  lemma EvictedAgrees(m: Entries, now: int, p: string, log: seq<int>, policy: Policy, capacity: nat)
    requires m.Valid() && Agrees(Tracked(m, p), log, now, policy)
    ensures Agrees(Tracked(Evicted(m, now, policy, capacity), p),
                   if Victim(Swept(m, m.keys, now, policy), capacity) == Some(p) then [] else log, now, policy)
  {
    hide Agrees, Swept, Tracked;
    SweptAgrees(m, m.keys, p, log, now, policy);
    var swept := Swept(m, m.keys, now, policy);
    var v := Victim(swept, capacity);
    if v.Some? { OthersAreUntouched(swept, v.value, NO_ENTRY, p); }
    NothingAgreesWithNothing(now, policy);
  }

  lemma FailBoundedAgrees(m: Entries, q: string, t: int, p: string, log: seq<int>, policy: Policy, capacity: nat)
    requires policy.Valid() && m.Valid() && Agrees(Tracked(m, p), log, t, policy)
    ensures var gone := MakesRoom(m, q, capacity) && Victim(Swept(m, m.keys, t, policy), capacity) == Some(p);
            Agrees(Tracked(FailedBounded(m, q, t, policy, capacity), p),
                   if q == p then log + [t] else if gone then [] else log, t, policy)
  {
    hide Agrees, Failed, Tracked, Evicted;
    var room := if MakesRoom(m, q, capacity) then Evicted(m, t, policy, capacity) else m;
    if MakesRoom(m, q, capacity) {
      EvictedAgrees(m, t, p, log, policy, capacity);
      if q == p { NewcomersAreNotDropped(m, p, m.keys, t, policy); }
    }
    var e := Tracked(room, q);
    OthersAreUntouched(room, q, Failed(Pruned(e, t, policy), t, policy), p);
    if q == p { FailureAgrees(e, log, t, Pruned(e, t, policy).blockedUntil, policy); }
  }

  lemma {:induction false} NewcomersAreNotDropped(m: Entries, p: string, keys: seq<string>, now: int, policy: Policy)
    requires m.Valid() && p !in m.at
    ensures p !in Swept(m, keys, now, policy).at
    decreases |keys|
  {
    if keys != [] { NewcomersAreNotDropped(m, p, keys[..|keys| - 1], now, policy); }
  }

  /** Pruning, deletion of idle entries and the expiry sweep are unobservable. */
  lemma {:induction false} EntriesAgreeWithTheLog(ops: seq<Op>, p: string, now: int, policy: Policy,
      capacity: Option<nat>)
    requires policy.Valid() && TimesUpTo(ops, now)
    ensures Agrees(Tracked(After(ops, policy, capacity), p), LogSinceDropped(ops, p, policy, capacity), now, policy)
    decreases |ops|
  {
    hide Agrees, Asked, FailedUnbounded, FailedBounded, Tracked, Swept, Victim;
    if ops == [] {
      NothingAgreesWithNothing(now, policy);
      NothingTracked(p);
    } else {
      var front, op := ops[..|ops| - 1], ops[|ops| - 1];
      var m, log := After(front, policy, capacity), LogSinceDropped(front, p, policy, capacity);
      match op
      case Ask(q, t) =>
        EntriesAgreeWithTheLog(front, p, t, policy, capacity);
        AskAgrees(m, q, t, p, log, t, policy);
        AgreesLater(Tracked(After(ops, policy, capacity), p), log, t, now, policy);
      case Fail(q, t) =>
        EntriesAgreeWithTheLog(front, p, t, policy, capacity);
        if capacity.Some? {
          FailBoundedAgrees(m, q, t, p, log, policy, capacity.value);
        } else {
          FailUnboundedAgrees(m, q, t, p, log, policy);
        }
        AgreesLater(Tracked(After(ops, policy, capacity), p), LogSinceDropped(ops, p, policy, capacity), t, now,
          policy);
      case Succeed(q) =>
        EntriesAgreeWithTheLog(front, p, now, policy, capacity);
        OthersAreUntouched(m, q, NO_ENTRY, p);
        NothingAgreesWithNothing(now, policy);
    }
  }

  lemma NothingTracked(p: string)
    ensures Tracked(JsMap([], map[]), p) == NO_ENTRY
  {
  }

  lemma AnswerIsTheEntrys(m: Entries, p: string, t: int, policy: Policy)
    requires m.Valid()
    ensures Asked(m, p, t, policy).1 <==> BlocksAt(Tracked(m, p), t)
  {
  }

  /** Both throttles answer as the log since the last success, or the last removal as the oldest entry, does. */
  lemma ThrottleAnswersAsItsLog(ops: seq<Op>, p: string, t: int, policy: Policy, capacity: Option<nat>)
    requires policy.Valid() && TimesUpTo(ops, t)
    ensures Asked(After(ops, policy, capacity), p, t, policy).1 <==>
            LogBlocksAt(LogSinceDropped(ops, p, policy, capacity), t, policy)
  {
    hide Asked, BlocksAt, LogBlocksAt, Tracked;
    EntriesAgreeWithTheLog(ops, p, t, policy, capacity);
    AnswerIsTheEntrys(After(ops, policy, capacity), p, t, policy);
  }

  lemma {:induction false} NothingDroppedNothingLost(ops: seq<Op>, p: string, policy: Policy, capacity: Option<nat>)
    requires NeverDropped(ops, p, policy, capacity)
    ensures LogSinceDropped(ops, p, policy, capacity) == Log(ops, p)
    decreases |ops|
  {
    hide Dropped, After;
    if ops != [] { NothingDroppedNothingLost(ops[..|ops| - 1], p, policy, capacity); }
  }

  lemma {:induction false} UnboundedNeverDrops(ops: seq<Op>, p: string, policy: Policy)
    ensures NeverDropped(ops, p, policy, None)
    decreases |ops|
  {
    if ops != [] { UnboundedNeverDrops(ops[..|ops| - 1], p, policy); }
  }

  /** The unbounded throttle answers as the full log; the bounded one does for every principal it never dropped. */
  lemma ThrottleAnswersAsTheFullLog(ops: seq<Op>, p: string, t: int, policy: Policy, capacity: Option<nat>)
    requires policy.Valid() && TimesUpTo(ops, t)
    ensures Asked(After(ops, policy, None), p, t, policy).1 <==> LogBlocksAt(Log(ops, p), t, policy)
    ensures NeverDropped(ops, p, policy, capacity) ==>
              (Asked(After(ops, policy, capacity), p, t, policy).1 <==> LogBlocksAt(Log(ops, p), t, policy))
  {
    hide Asked, LogBlocksAt, After;
    UnboundedNeverDrops(ops, p, policy);
    NothingDroppedNothingLost(ops, p, policy, None);
    ThrottleAnswersAsItsLog(ops, p, t, policy, None);
    ThrottleAnswersAsItsLog(ops, p, t, policy, capacity);
    if NeverDropped(ops, p, policy, capacity) { NothingDroppedNothingLost(ops, p, policy, capacity); }
  }

  // ---- The window ----

  /** The failures up to the `i`-th that fall into the window that ends with it. */
  ghost function InWindowOf(log: seq<int>, i: nat, policy: Policy): set<int> {
    set j | 0 <= j <= i < |log| && log[j] > log[i] - policy.windowMs
  }

  lemma {:induction false} RecentCounts(failures: seq<int>, since: int)
    ensures |Recent(failures, since)| == |set j | 0 <= j < |failures| && failures[j] > since|
    decreases |failures|
  {
    var all := set j | 0 <= j < |failures| && failures[j] > since;
    if failures == [] {
      assert all == {};
    } else {
      var n, front := |failures| - 1, failures[..|failures| - 1];
      RecentCounts(front, since);
      var less := set j | 0 <= j < |front| && front[j] > since;
      assert all == less + if failures[n] > since then {n} else {};
    }
  }

  lemma TriggersMeans(log: seq<int>, i: nat, policy: Policy)
    ensures Triggers(log, i, policy) <==> i < |log| && |InWindowOf(log, i, policy)| >= policy.maxFailures
  {
    hide Recent;
    if i < |log| {
      var front := log[..i + 1];
      RecentCounts(front, log[i] - policy.windowMs);
      assert InWindowOf(log, i, policy) == set j | 0 <= j < |front| && front[j] > log[i] - policy.windowMs;
    }
  }

  /**
   * In the unbounded throttle, and in the bounded one for a principal never dropped: it is blocked at `t` exactly when
   * some failure since its last success was the last of `maxFailures` within its window and less than `lockMs` ago.
   */
  lemma BlockedExactlyWhen(ops: seq<Op>, p: string, t: int, policy: Policy, capacity: Option<nat>)
    requires policy.Valid() && TimesUpTo(ops, t) && NeverDropped(ops, p, policy, capacity)
    ensures var log := Log(ops, p);
            Asked(After(ops, policy, capacity), p, t, policy).1 <==>
              exists i: nat ::
                i < |log| && |InWindowOf(log, i, policy)| >= policy.maxFailures && t < log[i] + policy.lockMs
  {
    hide Asked, After, Triggers, InWindowOf, Log;
    var log := Log(ops, p);
    ThrottleAnswersAsTheFullLog(ops, p, t, policy, capacity);
    forall i: nat
      ensures Triggers(log, i, policy) <==> i < |log| && |InWindowOf(log, i, policy)| >= policy.maxFailures {
      TriggersMeans(log, i, policy);
    }
  }

  // ---- What forgetting can cost ----

  lemma {:induction false} RecentAcross(a: seq<int>, b: seq<int>, since: int)
    ensures Recent(a + b, since) == Recent(a, since) + Recent(b, since)
    decreases |b|
  {
    if b == [] {
      assert a + b == a;
    } else {
      var n := |b| - 1;
      RecentAcross(a, b[..n], since);
      assert (a + b)[..|a| + n] == a + b[..n];
    }
  }

  lemma LongerLogsBlockMore(early: seq<int>, log: seq<int>, t: int, policy: Policy)
    requires LogBlocksAt(log, t, policy)
    ensures LogBlocksAt(early + log, t, policy)
  {
    var i: nat :| Triggers(log, i, policy) && log[i] + policy.lockMs > t;
    var all := early + log;
    assert all[..|early| + i + 1] == early + log[..i + 1];
    RecentAcross(early, log[..i + 1], log[i] - policy.windowMs);
    assert Triggers(all, |early| + i, policy) && all[|early| + i] == log[i];
  }

  lemma {:induction false} DroppingForgetsTheOldest(ops: seq<Op>, p: string, policy: Policy, capacity: Option<nat>)
      returns (early: seq<int>)
    ensures Log(ops, p) == early + LogSinceDropped(ops, p, policy, capacity)
    decreases |ops|
  {
    hide Dropped, After;
    if ops == [] {
      early := [];
    } else {
      early := DroppingForgetsTheOldest(ops[..|ops| - 1], p, policy, capacity);
      match ops[|ops| - 1]
      case Ask(_, _) =>
      case Fail(q, t) => if LogSinceDropped(ops, p, policy, capacity) == [] { early := Log(ops, p); }
      case Succeed(q) => if q == p { early := []; }
    }
  }

  /** Losing an entry to the capacity can only unblock. */
  lemma BoundedBlocksOnlyWhenUnboundedDoes(ops: seq<Op>, p: string, t: int, policy: Policy, capacity: Option<nat>)
    requires policy.Valid() && TimesUpTo(ops, t)
    ensures Asked(After(ops, policy, capacity), p, t, policy).1 ==> Asked(After(ops, policy, None), p, t, policy).1
  {
    hide Asked, LogBlocksAt, After;
    ThrottleAnswersAsItsLog(ops, p, t, policy, capacity);
    ThrottleAnswersAsTheFullLog(ops, p, t, policy, capacity);
    var early := DroppingForgetsTheOldest(ops, p, policy, capacity);
    if Asked(After(ops, policy, capacity), p, t, policy).1 {
      LongerLogsBlockMore(early, LogSinceDropped(ops, p, policy, capacity), t, policy);
    }
  }

  // ---- Capacity ----

  lemma PruningTwice(e: Entry, now: int, policy: Policy)
    ensures Pruned(Pruned(e, now, policy), now, policy) == Pruned(e, now, policy)
  {
    RecentOfRecent(e.failures, now - policy.windowMs, now - policy.windowMs);
  }

  /** The sweep keeps exactly the entries that still matter, pruned. */
  lemma {:induction false} SweepKeepsTheLive(m: Entries, keys: seq<string>, now: int, policy: Policy)
    requires m.Valid()
    ensures var swept := Swept(m, keys, now, policy);
            && (forall k :: k in swept.at <==> k in m.at && (k in keys ==> !IsIdle(Pruned(m.at[k], now, policy))))
            && (forall k :: k in swept.at ==>
               swept.at[k] == if k in keys then Pruned(m.at[k], now, policy) else m.at[k])
    decreases |keys|
  {
    hide Pruned, IsIdle, SweptOne;
    if keys != [] {
      var front, last := keys[..|keys| - 1], keys[|keys| - 1];
      assert keys == front + [last];
      SweepKeepsTheLive(m, front, now, policy);
      SweptOneKeepsTheLive(Swept(m, front, now, policy), last, now, policy);
      if last in m.at { PruningTwice(m.at[last], now, policy); }
    }
  }

  lemma SweptOneKeepsTheLive(m: Entries, key: string, now: int, policy: Policy)
    requires m.Valid()
    ensures var r := SweptOne(m, key, now, policy);
            && (forall k :: k in r.at <==> k in m.at && (k == key ==> !IsIdle(Pruned(m.at[k], now, policy))))
            && (forall k :: k in r.at ==> r.at[k] == if k == key then Pruned(m.at[k], now, policy) else m.at[k])
  {
    hide Pruned, IsIdle;
  }

  lemma {:induction false} SweepKeepsOrder(m: Entries, keys: seq<string>, now: int, policy: Policy)
    requires m.Valid()
    ensures var swept := Swept(m, keys, now, policy);
            swept.keys == Kept(m.keys, swept.at.Keys) && swept.at.Keys <= m.at.Keys
    decreases |keys|
  {
    hide SweptOne;
    if keys == [] {
      AllKept(m.keys, m.at.Keys);
    } else {
      var before := Swept(m, keys[..|keys| - 1], now, policy);
      SweepKeepsOrder(m, keys[..|keys| - 1], now, policy);
      SweepingOneKeepsOrder(before, keys[|keys| - 1], now, policy);
      KeptTwice(m.keys, before.at.Keys, Swept(m, keys, now, policy).at.Keys);
    }
  }

  lemma SweepingOneKeepsOrder(m: Entries, key: string, now: int, policy: Policy)
    requires m.Valid()
    ensures var r := SweptOne(m, key, now, policy); r.keys == Kept(m.keys, r.at.Keys) && r.at.Keys <= m.at.Keys
  {
    hide Pruned, IsIdle, Kept;
    AllKept(m.keys, m.at.Keys);
    if key in m.at && IsIdle(Pruned(m.at[key], now, policy)) {
      RemovalKeepsOrder(m, key);
    } else if key in m.at {
      assert m.Put(key, Pruned(m.at[key], now, policy)).at.Keys == m.at.Keys;
    }
  }

  /** A full table outgrows its capacity exactly when nothing has expired and its oldest key is empty. */
  lemma OnlyTheEmptyKeyOverflows(m: Entries, p: string, t: int, policy: Policy, capacity: nat)
    requires m.Valid() && 0 < capacity && |m.keys| <= capacity
    ensures var swept := Swept(m, m.keys, t, policy);
            |FailedBounded(m, p, t, policy, capacity).keys| > capacity <==>
              p !in m.at && |m.keys| == capacity && |swept.keys| == capacity && swept.keys[0] == ""
  {
    hide Swept, Failed, Pruned;
    if MakesRoom(m, p, capacity) {
      SweepKeepsOrder(m, m.keys, t, policy);
      KeptIsNoLonger(m.keys, Swept(m, m.keys, t, policy).at.Keys);
      NewcomersAreNotDropped(m, p, m.keys, t, policy);
    }
  }

  predicate NamesEveryone(ops: seq<Op>) {
    forall i :: 0 <= i < |ops| && ops[i].Fail? ==> ops[i].p != ""
  }

  lemma EmptyKeyStaysOut(m: Entries, op: Op, policy: Policy, capacity: nat)
    requires m.Valid() && "" !in m.at && (op.Fail? ==> op.p != "")
    ensures "" !in Applied(m, op, policy, Some(capacity)).at
  {
    hide Swept, Failed, Pruned;
    if op.Fail? { NewcomersAreNotDropped(m, "", m.keys, op.t, policy); }
  }

  lemma {:induction false} CapacityHolds(ops: seq<Op>, policy: Policy, capacity: nat)
    requires 0 < capacity && NamesEveryone(ops)
    ensures var m := After(ops, policy, Some(capacity)); |m.keys| <= capacity && "" !in m.at
    decreases |ops|
  {
    hide Failed, Pruned, Swept, FailedBounded;
    if ops != [] {
      var front, op := ops[..|ops| - 1], ops[|ops| - 1];
      CapacityHolds(front, policy, capacity);
      var m := After(front, policy, Some(capacity));
      EmptyKeyStaysOut(m, op, policy, capacity);
      if op.Fail? {
        OnlyTheEmptyKeyOverflows(m, op.p, op.t, policy, capacity);
        SweepKeepsOrder(m, m.keys, op.t, policy);
      }
    }
  }

  function Name(i: nat): (name: string)
    ensures |name| == i
  {
    seq(i, _ => 'a')
  }

  function Names(n: nat): seq<string> {
    seq(n, i requires 0 <= i < n => Name(i))
  }

  /** One failure at time 0 for each of `n` principals, the empty one first. */
  function Crowd(n: nat): seq<Op> {
    seq(n, i requires 0 <= i < n => Fail(Name(i), 0))
  }

  lemma {:induction false} EverybodyStays(n: nat, policy: Policy, capacity: nat)
    requires policy.Valid() && 0 < capacity && n <= capacity + 1
    ensures var m := After(Crowd(n), policy, Some(capacity));
            m.keys == Names(n) && forall k :: k in m.at ==> m.at[k].failures == [0]
    decreases n
  {
    if n > 0 {
      hide After, FailedBounded;
      EverybodyStays(n - 1, policy, capacity);
      assert Names(n) == Names(n - 1) + [Name(n - 1)];
      NewNameStays(After(Crowd(n - 1), policy, Some(capacity)), n - 1, policy, capacity);
      CrowdGrows(n, policy, capacity);
    }
  }

  lemma CrowdGrows(n: nat, policy: Policy, capacity: nat)
    requires n > 0
    ensures After(Crowd(n), policy, Some(capacity))
            == FailedBounded(After(Crowd(n - 1), policy, Some(capacity)), Name(n - 1), 0, policy, capacity)
  {
    hide FailedBounded;
    assert Crowd(n)[..n - 1] == Crowd(n - 1);
  }

  lemma NewNameStays(m: Entries, n: nat, policy: Policy, capacity: nat)
    requires policy.Valid() && 0 < capacity && n <= capacity
    requires m.Valid() && m.keys == Names(n) && forall k :: k in m.at ==> m.at[k].failures == [0]
    ensures var r := FailedBounded(m, Name(n), 0, policy, capacity);
            r.keys == m.keys + [Name(n)] && forall k :: k in r.at ==> r.at[k].failures == [0]
  {
    hide Swept, Pruned, Name;
    assert Name(n) !in m.keys;
    NobodyIsSwept(m, policy);
    NothingToPrune(policy);
    if MakesRoom(m, Name(n), capacity) { assert m.keys[0] == Name(0) == ""; }
  }

  lemma NothingToPrune(policy: Policy)
    ensures Pruned(NO_ENTRY, 0, policy) == NO_ENTRY
  {
  }

  lemma FreshFailureStays(e: Entry, policy: Policy)
    requires policy.Valid() && e.failures == [0]
    ensures Pruned(e, 0, policy).failures == [0]
  {
    RecentOfOneMore([], 0, 0 - policy.windowMs);
    assert [] + [0] == [0];
  }

  lemma NobodyIsSwept(m: Entries, policy: Policy)
    requires policy.Valid() && m.Valid() && forall k :: k in m.at ==> m.at[k].failures == [0]
    ensures var swept := Swept(m, m.keys, 0, policy);
            swept.keys == m.keys && forall k :: k in swept.at ==> swept.at[k].failures == [0]
  {
    hide Pruned, Swept;
    SweepKeepsTheLive(m, m.keys, 0, policy);
    SweepKeepsOrder(m, m.keys, 0, policy);
    forall k | k in m.at ensures Pruned(m.at[k], 0, policy).failures == [0] { FreshFailureStays(m.at[k], policy); }
    AllKept(m.keys, Swept(m, m.keys, 0, policy).at.Keys);
  }

  /** With an empty principal at the front, the table grows past its capacity. */
  lemma CapacityFailsForTheEmptyKey(policy: Policy, capacity: nat)
    requires policy.Valid() && 0 < capacity
    ensures |After(Crowd(capacity + 1), policy, Some(capacity)).keys| == capacity + 1
  {
    EverybodyStays(capacity + 1, policy, capacity);
  }

  // ---- The two classes ----

  class MemoryAuthenticationThrottle {
    var entries: Entries
    const policy: Policy

    constructor (policy: Policy)
      requires policy.Valid()
      ensures this.policy == policy && entries == JsMap([], map[])
    {
      this.policy := policy;
      entries := JsMap([], map[]);
    }

    method IsBlocked(p: string, now: int) returns (blocked: bool)
      requires entries.Valid()
      modifies this
      ensures (entries, blocked) == Asked(old(entries), p, now, policy)
    {
      if p !in entries.at { return false; }
      var entry := entries.at[p];
      if entry.blockedUntil.Some? && entry.blockedUntil.value > now { return true; }
      if entry.blockedUntil.Some? && entry.blockedUntil.value <= now { entry := entry.(blockedUntil := None); }
      entry := entry.(failures := Recent(entry.failures, now - policy.windowMs));
      entries := entries.Put(p, entry);
      if |entry.failures| == 0 && entry.blockedUntil == None { entries := entries.Remove(p); }
      PutThenRemove(old(entries), p, entry);
      return false;
    }

    method RecordFailure(p: string, now: int)
      requires entries.Valid()
      modifies this
      ensures entries == FailedUnbounded(old(entries), p, now, policy)
    {
      var entry := if p in entries.at then entries.at[p] else Entry([], None);
      entry := entry.(failures := Recent(entry.failures, now - policy.windowMs));
      entry := entry.(failures := entry.failures + [now]);
      if |entry.failures| >= policy.maxFailures { entry := entry.(blockedUntil := Some(now + policy.lockMs)); }
      entries := entries.Put(p, entry);
    }

    method RecordSuccess(p: string)
      requires entries.Valid()
      modifies this
      ensures entries == old(entries).Remove(p)
      ensures p !in entries.at && forall q :: q != p ==> Tracked(entries, q) == old(Tracked(entries, q))
      ensures entries.keys == Kept(old(entries).keys, entries.at.Keys)
      ensures forall t :: !Asked(entries, p, t, policy).1
    {
      RemovalKeepsOrder(entries, p);
      entries := entries.Remove(p);
    }
  }

  lemma PutThenRemove(m: Entries, p: string, e: Entry)
    requires m.Valid() && p in m.at
    ensures m.Put(p, e).Remove(p) == m.Remove(p)
  {
    assert m.at[p := e] - {p} == m.at - {p};
  }

  lemma PutTwice(m: Entries, p: string, d: Entry, e: Entry)
    requires m.Valid()
    ensures m.Put(p, d).Put(p, e) == m.Put(p, e)
  {
    assert m.at[p := d][p := e] == m.at[p := e];
  }

  lemma NewcomersStayOut(m: Entries, p: string, now: int, policy: Policy, capacity: nat)
    requires m.Valid() && p !in m.at
    ensures p !in Evicted(m, now, policy, capacity).at
  {
    hide Swept;
    NewcomersAreNotDropped(m, p, m.keys, now, policy);
  }

  lemma FailedBoundedSteps(m: Entries, p: string, t: int, policy: Policy, capacity: nat)
    requires m.Valid()
    ensures var room := if MakesRoom(m, p, capacity) then Evicted(m, t, policy, capacity) else m;
            var start := if p in m.at then m else room.Put(p, NO_ENTRY);
            var pruned := start.Put(p, Pruned(start.at[p], t, policy));
            FailedBounded(m, p, t, policy, capacity) == pruned.Put(p, Failed(pruned.at[p], t, policy))
  {
    hide Pruned, Evicted, Failed;
    if p !in m.at {
      NewcomersStayOut(m, p, t, policy, capacity);
      var room := if MakesRoom(m, p, capacity) then Evicted(m, t, policy, capacity) else m;
      var e := Pruned(NO_ENTRY, t, policy);
      PutTwice(room, p, NO_ENTRY, e);
      PutTwice(room, p, e, Failed(e, t, policy));
    } else {
      PutTwice(m, p, Pruned(m.at[p], t, policy), Failed(Pruned(m.at[p], t, policy), t, policy));
    }
  }

  lemma FailedSteps(e: Entry, t: int, policy: Policy)
    ensures Failed(e, t, policy).failures == e.failures + [t]
    ensures Failed(e, t, policy).blockedUntil == if |e.failures + [t]| >= policy.maxFailures
            then Some(t + policy.lockMs) else e.blockedUntil
  {
  }

  lemma SweptOneSteps(m: Entries, key: string, now: int, policy: Policy)
    requires m.Valid() && key in m.at
    ensures var e := Pruned(m.at[key], now, policy);
            SweptOne(m, key, now, policy) == if |e.failures| == 0 && e.blockedUntil == None
              then m.Put(key, e).Remove(key) else m.Put(key, e)
    ensures forall k :: k in m.at && k != key ==> k in SweptOne(m, key, now, policy).at
  {
    hide Pruned;
    PutThenRemove(m, key, Pruned(m.at[key], now, policy));
  }

  class ProcessAuthenticationThrottle {
    var entries: Entries
    const policy: Policy
    const maxPrincipals: nat

    constructor (policy: Policy, maxPrincipals: nat)
      requires policy.Valid() && 100 <= maxPrincipals <= 100000
      ensures this.policy == policy && this.maxPrincipals == maxPrincipals && entries == JsMap([], map[])
    {
      this.policy := policy;
      this.maxPrincipals := maxPrincipals;
      entries := JsMap([], map[]);
    }

    method IsBlocked(p: string, now: int) returns (blocked: bool)
      requires entries.Valid()
      modifies this
      ensures (entries, blocked) == Asked(old(entries), p, now, policy)
    {
      if p !in entries.at { return false; }
      var entry := entries.at[p];
      if entry.blockedUntil.Some? && entry.blockedUntil.value > now { return true; }
      Prune(p, now);
      entry := entries.at[p];
      if |entry.failures| == 0 && entry.blockedUntil == None { entries := entries.Remove(p); }
      PutThenRemove(old(entries), p, entry);
      return false;
    }

    method RecordFailure(p: string, now: int)
      requires entries.Valid()
      modifies this
      ensures entries == FailedBounded(old(entries), p, now, policy, maxPrincipals)
    {
      hide Pruned, Evicted, Failed, FailedBounded;
      FailedBoundedSteps(entries, p, now, policy, maxPrincipals);
      if p !in entries.at {
        if |entries.keys| >= maxPrincipals { Evict(now); }
        entries := entries.Put(p, Entry([], None));
      }
      Prune(p, now);
      var entry := entries.at[p];
      FailedSteps(entry, now, policy);
      entry := entry.(failures := entry.failures + [now]);
      if |entry.failures| >= policy.maxFailures { entry := entry.(blockedUntil := Some(now + policy.lockMs)); }
      entries := entries.Put(p, entry);
    }

    method RecordSuccess(p: string)
      requires entries.Valid()
      modifies this
      ensures entries == old(entries).Remove(p)
      ensures p !in entries.at && forall q :: q != p ==> Tracked(entries, q) == old(Tracked(entries, q))
      ensures entries.keys == Kept(old(entries).keys, entries.at.Keys)
      ensures forall t :: !Asked(entries, p, t, policy).1
    {
      RemovalKeepsOrder(entries, p);
      entries := entries.Remove(p);
    }

    method Prune(p: string, now: int)
      requires entries.Valid() && p in entries.at
      modifies this
      ensures entries == old(entries).Put(p, Pruned(old(entries).at[p], now, policy))
    {
      var entry := entries.at[p];
      if entry.blockedUntil.Some? && entry.blockedUntil.value <= now { entry := entry.(blockedUntil := None); }
      entry := entry.(failures := Recent(entry.failures, now - policy.windowMs));
      entries := entries.Put(p, entry);
    }

    method Evict(now: int)
      requires entries.Valid()
      modifies this
      ensures entries == Evicted(old(entries), now, policy, maxPrincipals)
    {
      var keys := entries.keys;
      for i := 0 to |keys|
        invariant entries.Valid() && entries == Swept(old(entries), keys[..i], now, policy)
        invariant forall k :: i <= k < |keys| ==> keys[k] in entries.at
      {
        hide Pruned, SweptOne;
        SweptOneSteps(entries, keys[i], now, policy);
        SweptGrows(old(entries), keys, i, now, policy);
        Prune(keys[i], now);
        var entry := entries.at[keys[i]];
        if |entry.failures| == 0 && entry.blockedUntil == None { entries := entries.Remove(keys[i]); }
      }
      assert keys[..|keys|] == keys;
      if |entries.keys| < maxPrincipals { return; }
      if |entries.keys| > 0 {
        var oldest := entries.keys[0];
        if oldest != "" { entries := entries.Remove(oldest); }
      }
    }
  }

  lemma SweptGrows(m: Entries, keys: seq<string>, i: nat, now: int, policy: Policy)
    requires m.Valid() && i < |keys|
    ensures Swept(m, keys[..i + 1], now, policy) == SweptOne(Swept(m, keys[..i], now, policy), keys[i], now, policy)
  {
    hide SweptOne;
    assert keys[..i + 1][..i] == keys[..i];
  }
}
