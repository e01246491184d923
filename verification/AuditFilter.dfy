/** Audit queries: the numbered WHERE clause against the in-memory predicate. */
module AuditFilter {
  import opened Maybe

  datatype Actor = Account(accountId: string) | System(systemId: string)

  datatype Resource = Resource(kind: string, id: string)

  datatype Record = Record(
    id: nat, occurredAt: int, actionCode: string, category: string, actor: Actor,
    resource: Option<Resource>, correlationId: Option<string>)

  /** An empty string counts as an absent criterion. */
  datatype Filter = Filter(
    actionCode: string, actionPrefix: string, category: string, actorAccountId: string,
    resourceType: string, resourceId: string, correlationId: string)

  // ---- In memory ----

  function Matches(r: Record, f: Filter): bool {
    if f.actionCode != "" && r.actionCode != f.actionCode then false
    else if f.actionPrefix != "" && !(f.actionPrefix <= r.actionCode) then false
    else if f.category != "" && r.category != f.category then false
    else if f.actorAccountId != "" && (!r.actor.Account? || r.actor.accountId != f.actorAccountId) then false
    else if f.resourceType != "" && (r.resource.None? || r.resource.value.kind != f.resourceType) then false
    else if f.resourceId != "" && (r.resource.None? || r.resource.value.id != f.resourceId) then false
    else if f.correlationId != "" && r.correlationId != Some(f.correlationId) then false
    else true
  }

  // ---- LIKE ----

  function Escaped(prefix: string): string
    decreases |prefix|
  {
    if prefix == "" then ""
    else (if prefix[0] in "\\%_" then "\\" else "") + [prefix[0]] + Escaped(prefix[1..])
  }

  /** LIKE with the default escape character; a pattern that ends in it matches nothing here. */
  predicate Like(text: string, pattern: string)
    decreases |pattern|, |text|
  {
    if pattern == "" then text == ""
    else if pattern[0] == '%' then Like(text, pattern[1..]) || (text != "" && Like(text[1..], pattern))
    else if pattern[0] == '_' then text != "" && Like(text[1..], pattern[1..])
    else if pattern[0] == '\\'
      then |pattern| > 1 && text != "" && text[0] == pattern[1] && Like(text[1..], pattern[2..])
    else text != "" && text[0] == pattern[0] && Like(text[1..], pattern[1..])
  }

  lemma {:induction false} PercentMatchesAnything(text: string)
    ensures Like(text, "%")
    decreases |text|
  {
    assert "%"[1..] == "";
    if text != "" { PercentMatchesAnything(text[1..]); }
  }

  lemma EscapedHead(prefix: string)
    requires prefix != ""
    ensures var pattern, rest := Escaped(prefix) + "%", Escaped(prefix[1..]) + "%";
            if prefix[0] in "\\%_" then pattern == ['\\', prefix[0]] + rest && pattern[2..] == rest
            else pattern == [prefix[0]] + rest && pattern[1..] == rest
  {
    var c, more := prefix[0], Escaped(prefix[1..]);
    assert Escaped(prefix) == (if c in "\\%_" then "\\" else "") + [c] + more;
    hide Escaped;
    if c in "\\%_" {
      assert "\\" + [c] + more + "%" == ['\\', c] + (more + "%");
    } else {
      assert "" + [c] + more + "%" == [c] + (more + "%");
    }
  }

  /** An escaped head matches that head and nothing else. */
  lemma LikeOfEscapedHead(text: string, prefix: string)
    requires prefix != ""
    ensures Like(text, Escaped(prefix) + "%") <==>
              text != "" && text[0] == prefix[0] && Like(text[1..], Escaped(prefix[1..]) + "%")
  {
    hide Escaped;
    EscapedHead(prefix);
  }

  /** LIKE on the escaped prefix followed by a percent sign is startsWith. */
  lemma {:induction false} LikeIsStartsWith(text: string, prefix: string)
    ensures Like(text, Escaped(prefix) + "%") <==> prefix <= text
    decreases |prefix|
  {
    if prefix == "" {
      assert Escaped(prefix) + "%" == "%";
      PercentMatchesAnything(text);
    } else {
      hide Like, Escaped;
      if text != "" { LikeIsStartsWith(text[1..], prefix[1..]); }
      PrefixOfHead(text, prefix);
      LikeOfEscapedHead(text, prefix);
    }
  }

  lemma PrefixOfHead(text: string, prefix: string)
    requires prefix != ""
    ensures prefix <= text <==> text != "" && text[0] == prefix[0] && prefix[1..] <= text[1..]
  {
    if text != "" {
      assert prefix == [prefix[0]] + prefix[1..] && text == [text[0]] + text[1..];
      if prefix <= text { assert prefix[1..] == text[1..][..|prefix| - 1]; }
      if prefix[1..] <= text[1..] && text[0] == prefix[0] {
        assert text[..|prefix|] == [text[0]] + text[1..][..|prefix| - 1];
      }
    }
  }

  // ---- The WHERE clause ----

  datatype Column = ActionCode | Category | ActorKind | ActorId | ResourceType | ResourceId | CorrelationId

  /** `column = $n`, `column LIKE ($n || '%')`, or `column = 'constant'`. */
  datatype Condition = Equals(column: Column, n: nat) | HasPrefix(column: Column, n: nat)
      | EqualsConstant(column: Column, constant: string)

  /** The stored row's columns; None is NULL. */
  function Cell(r: Record, column: Column): Option<string> {
    match column
    case ActionCode => Some(r.actionCode)
    case Category => Some(r.category)
    case ActorKind => Some(if r.actor.Account? then "account" else "system")
    case ActorId => Some(if r.actor.Account? then r.actor.accountId else r.actor.systemId)
    case ResourceType => if r.resource.Some? then Some(r.resource.value.kind) else None
    case ResourceId => if r.resource.Some? then Some(r.resource.value.id) else None
    case CorrelationId => r.correlationId
  }

  /** Three-valued: a comparison with NULL is unknown. */
  function Evaluated(c: Condition, params: seq<string>, r: Record): Option<bool> {
    match Cell(r, c.column)
    case None => None
    case Some(text) =>
      match c
      case Equals(_, n) => if 1 <= n <= |params| then Some(text == params[n - 1]) else None
      case HasPrefix(_, n) => if 1 <= n <= |params| then Some(Like(text, params[n - 1] + "%")) else None
      case EqualsConstant(_, constant) => Some(text == constant)
  }

  /** WHERE keeps a row when the conjunction is true, not when it is unknown. */
  predicate Holds(conditions: seq<Condition>, params: seq<string>, r: Record) {
    forall i :: 0 <= i < |conditions| ==> Evaluated(conditions[i], params, r) == Some(true)
  }

  /** Conditions refer to parameters that exist. */
  predicate WellNumbered(conditions: seq<Condition>, params: seq<string>) {
    forall i :: 0 <= i < |conditions| && !conditions[i].EqualsConstant? ==> 1 <= conditions[i].n <= |params|
  }

  /** The `?` of the added condition becomes the number of the parameter just pushed. */
  function Numbered(c: Condition, n: nat): Condition {
    match c
    case Equals(column, _) => Equals(column, n)
    case HasPrefix(column, _) => HasPrefix(column, n)
    case EqualsConstant(_, _) => c
  }

  predicate Tests(c: Condition, value: string, r: Record) {
    Evaluated(Numbered(c, 1), [value], r) == Some(true)
  }

  lemma AddedConditionHolds(conditions: seq<Condition>, params: seq<string>, c: Condition, value: string)
    requires WellNumbered(conditions, params)
    ensures var cs, ps := conditions + [Numbered(c, |params| + 1)], params + [value];
            && WellNumbered(cs, ps)
            && forall r :: Holds(cs, ps, r) <==> Holds(conditions, params, r) && Tests(c, value, r)
  {
    hide Cell, Like;
    var cs, ps := conditions + [Numbered(c, |params| + 1)], params + [value];
    forall r ensures Holds(cs, ps, r) <==> Holds(conditions, params, r) && Tests(c, value, r) {
      forall i | 0 <= i < |conditions| ensures Evaluated(cs[i], ps, r) == Evaluated(conditions[i], params, r) {
      }
      assert Evaluated(cs[|conditions|], ps, r) == Evaluated(Numbered(c, 1), [value], r);
      if Holds(conditions, params, r) && Tests(c, value, r) {
        assert forall i :: 0 <= i < |conditions| ==> cs[i] == conditions[i];
      }
      if Holds(cs, ps, r) {
        forall i | 0 <= i < |conditions| ensures Evaluated(conditions[i], params, r) == Some(true) {
          assert Evaluated(cs[i], ps, r) == Some(true);
        }
      }
    }
  }

  lemma ConstantConditionHolds(conditions: seq<Condition>, params: seq<string>, c: Condition)
    requires WellNumbered(conditions, params) && c.EqualsConstant?
    ensures WellNumbered(conditions + [c], params)
    ensures forall r :: Holds(conditions + [c], params, r) <==>
            Holds(conditions, params, r) && Evaluated(c, [], r) == Some(true)
  {
    hide Cell, Like;
    var cs := conditions + [c];
    forall r ensures Holds(cs, params, r) <==> Holds(conditions, params, r) && Evaluated(c, [], r) == Some(true) {
      assert Evaluated(cs[|conditions|], params, r) == Evaluated(c, [], r);
      if Holds(cs, params, r) {
        forall i | 0 <= i < |conditions| ensures Evaluated(conditions[i], params, r) == Some(true) {
          assert Evaluated(cs[i], params, r) == Some(true);
        }
      }
    }
  }

  /** The clause builder under construction. */
  class WhereBuilder {
    var conditions: seq<Condition>
    var params: seq<string>

    constructor ()
      ensures conditions == [] && params == []
    {
      conditions, params := [], [];
    }

    method Add(c: Condition, value: string)
      requires WellNumbered(conditions, params)
      modifies this
      ensures WellNumbered(conditions, params) && |params| == |old(params)| + 1
      ensures params == old(params) + [value] && conditions == old(conditions) + [Numbered(c, |params|)]
      ensures forall r :: Holds(conditions, params, r) <==> old(Holds(conditions, params, r)) && Tests(c, value, r)
    {
      hide Holds, Tests, WellNumbered;
      AddedConditionHolds(conditions, params, c, value);
      params := params + [value];
      conditions := conditions + [Numbered(c, |params|)];
    }

    method AddConstant(c: Condition)
      requires WellNumbered(conditions, params) && c.EqualsConstant?
      modifies this
      ensures WellNumbered(conditions, params) && params == old(params)
      ensures forall r :: Holds(conditions, params, r) <==>
              old(Holds(conditions, params, r)) && Evaluated(c, [], r) == Some(true)
    {
      hide Holds, WellNumbered;
      ConstantConditionHolds(conditions, params, c);
      conditions := conditions + [c];
    }
  }

  // ---- The whole clause ----

  lemma WhatTheTestsMean(r: Record, value: string)
    ensures Tests(Equals(ActionCode, 0), value, r) <==> r.actionCode == value
    ensures Tests(HasPrefix(ActionCode, 0), Escaped(value), r) <==> value <= r.actionCode
    ensures Tests(Equals(Category, 0), value, r) <==> r.category == value
    ensures Tests(Equals(ActorId, 0), value, r) <==>
            value == (if r.actor.Account? then r.actor.accountId else r.actor.systemId)
    ensures Evaluated(EqualsConstant(ActorKind, "account"), [], r) == Some(true) <==> r.actor.Account?
    ensures Tests(Equals(ResourceType, 0), value, r) <==> r.resource.Some? && r.resource.value.kind == value
    ensures Tests(Equals(ResourceId, 0), value, r) <==> r.resource.Some? && r.resource.value.id == value
    ensures Tests(Equals(CorrelationId, 0), value, r) <==> r.correlationId == Some(value)
  {
    hide Like, Escaped;
    LikeIsStartsWith(r.actionCode, value);
    assert "system"[0] != "account"[0];
  }

  /** The criteria in the order in which the clause tests them. */
  predicate PassesAll(r: Record, f: Filter) {
    && (f.actionCode != "" ==> Tests(Equals(ActionCode, 0), f.actionCode, r))
    && (f.actionPrefix != "" ==> Tests(HasPrefix(ActionCode, 0), Escaped(f.actionPrefix), r))
    && (f.category != "" ==> Tests(Equals(Category, 0), f.category, r))
    && (f.actorAccountId != "" ==>
       Evaluated(EqualsConstant(ActorKind, "account"), [], r) == Some(true)
       && Tests(Equals(ActorId, 0), f.actorAccountId, r))
    && (f.resourceType != "" ==> Tests(Equals(ResourceType, 0), f.resourceType, r))
    && (f.resourceId != "" ==> Tests(Equals(ResourceId, 0), f.resourceId, r))
    && (f.correlationId != "" ==> Tests(Equals(CorrelationId, 0), f.correlationId, r))
  }

  lemma PassingIsMatching(r: Record, f: Filter)
    ensures PassesAll(r, f) <==> Matches(r, f)
  {
    hide Tests, Evaluated, Escaped;
    WhatTheTestsMean(r, f.actionCode);
    WhatTheTestsMean(r, f.actionPrefix);
    WhatTheTestsMean(r, f.category);
    WhatTheTestsMean(r, f.actorAccountId);
    WhatTheTestsMean(r, f.resourceType);
    WhatTheTestsMean(r, f.resourceId);
    WhatTheTestsMean(r, f.correlationId);
  }

  method BuildWhere(f: Filter) returns (w: WhereBuilder)
    ensures fresh(w) && WellNumbered(w.conditions, w.params)
    ensures forall r :: Holds(w.conditions, w.params, r) <==> Matches(r, f)
  {
    w := new WhereBuilder();
    hide Tests, Evaluated, Escaped, Matches, Numbered;
    if f.actionCode != "" { w.Add(Equals(ActionCode, 0), f.actionCode); }
    if f.actionPrefix != "" { w.Add(HasPrefix(ActionCode, 0), Escaped(f.actionPrefix)); }
    if f.category != "" { w.Add(Equals(Category, 0), f.category); }
    if f.actorAccountId != "" {
      w.AddConstant(EqualsConstant(ActorKind, "account"));
      w.Add(Equals(ActorId, 0), f.actorAccountId);
    }
    if f.resourceType != "" { w.Add(Equals(ResourceType, 0), f.resourceType); }
    if f.resourceId != "" { w.Add(Equals(ResourceId, 0), f.resourceId); }
    if f.correlationId != "" { w.Add(Equals(CorrelationId, 0), f.correlationId); }
    forall r ensures Holds(w.conditions, w.params, r) <==> Matches(r, f) {
      PassingIsMatching(r, f);
    }
  }

  // ---- The two stores ----

  const MAX_LIMIT := 100

  datatype Error = InvalidLimit | DuplicateId

  function Selected(rows: seq<Record>, f: Filter): seq<Record>
    decreases |rows|
  {
    if rows == [] then []
    else Selected(rows[..|rows| - 1], f) + (if Matches(rows[|rows| - 1], f) then [rows[|rows| - 1]] else [])
  }

  function Where(rows: seq<Record>, conditions: seq<Condition>, params: seq<string>): seq<Record>
    decreases |rows|
  {
    if rows == [] then []
    else (
      var last := rows[|rows| - 1];
      Where(rows[..|rows| - 1], conditions, params) + if Holds(conditions, params, last) then [last] else [])
  }

  lemma {:induction false} WhereSelects(rows: seq<Record>, conditions: seq<Condition>, params: seq<string>, f: Filter)
    requires forall r :: Holds(conditions, params, r) <==> Matches(r, f)
    ensures Where(rows, conditions, params) == Selected(rows, f)
    decreases |rows|
  {
    hide Matches, Holds;
    if rows != [] { WhereSelects(rows[..|rows| - 1], conditions, params, f); }
  }

  /** Earlier in (occurred_at, id). */
  predicate Before(a: Record, b: Record) {
    a.occurredAt < b.occurredAt || (a.occurredAt == b.occurredAt && a.id < b.id)
  }

  predicate InOrder(rows: seq<Record>) {
    forall i, j :: 0 <= i < j < |rows| ==> Before(rows[i], rows[j])
  }

  predicate DistinctIds(rows: seq<Record>) {
    forall i, j :: 0 <= i < j < |rows| ==> rows[i].id != rows[j].id
  }

  function Inserted(r: Record, rows: seq<Record>): seq<Record>
    decreases |rows|
  {
    if rows == [] then [r]
    else if Before(rows[|rows| - 1], r) then rows + [r]
    else Inserted(r, rows[..|rows| - 1]) + [rows[|rows| - 1]]
  }

  /** Ascending by (occurred_at, id); a query returns the end of it, newest first. */
  function Sorted(rows: seq<Record>): seq<Record>
    decreases |rows|
  {
    if rows == [] then [] else Inserted(rows[|rows| - 1], Sorted(rows[..|rows| - 1]))
  }

  function NewestFirst<T>(rows: seq<T>, limit: nat): (r: seq<T>)
    ensures |r| == if limit < |rows| then limit else |rows|
    ensures forall i :: 0 <= i < |r| ==> r[i] == rows[|rows| - 1 - i]
  {
    var n := |rows|;
    seq(if limit < n then limit else n, i requires 0 <= i < n => rows[n - 1 - i])
  }

  lemma {:induction false} InsertedMembers(r: Record, rows: seq<Record>)
    ensures forall x :: x in Inserted(r, rows) <==> x == r || x in rows
    decreases |rows|
  {
    if rows != [] && !Before(rows[|rows| - 1], r) {
      InsertedMembers(r, rows[..|rows| - 1]);
      assert rows == rows[..|rows| - 1] + [rows[|rows| - 1]];
    }
  }

  lemma {:induction false} InsertedKeepsOrder(r: Record, rows: seq<Record>)
    requires InOrder(rows) && forall x :: x in rows ==> x.id != r.id
    ensures InOrder(Inserted(r, rows))
    decreases |rows|
  {
    if rows != [] && !Before(rows[|rows| - 1], r) {
      var front, last := rows[..|rows| - 1], rows[|rows| - 1];
      assert last in rows;
      InsertedKeepsOrder(r, front);
      InsertedMembers(r, front);
      forall x | x in Inserted(r, front) ensures Before(x, last) {
        if x != r {
          var i :| 0 <= i < |front| && front[i] == x;
          assert rows[i] == x;
        }
      }
      assert forall i :: 0 <= i < |Inserted(r, front)| ==> Inserted(r, front)[i] in Inserted(r, front);
    }
  }

  /** What ORDER BY occurred_at, id yields: the same rows, in order. */
  lemma {:induction false} SortedIsInOrder(rows: seq<Record>)
    requires DistinctIds(rows)
    ensures InOrder(Sorted(rows)) && forall x :: x in Sorted(rows) <==> x in rows
    decreases |rows|
  {
    if rows != [] {
      var front, last := rows[..|rows| - 1], rows[|rows| - 1];
      SortedIsInOrder(front);
      forall x | x in Sorted(front) ensures x.id != last.id {
        var i :| 0 <= i < |front| && front[i] == x;
        assert rows[i] == x;
      }
      InsertedKeepsOrder(last, Sorted(front));
      InsertedMembers(last, Sorted(front));
      assert rows == front + [last];
    }
  }

  lemma {:induction false} SelectionIsDistinct(rows: seq<Record>, f: Filter)
    requires DistinctIds(rows)
    ensures DistinctIds(Selected(rows, f)) && |Selected(rows, f)| <= |rows|
    ensures forall x :: x in Selected(rows, f) <==> x in rows && Matches(x, f)
    decreases |rows|
  {
    hide Matches;
    if rows != [] {
      var front, last := rows[..|rows| - 1], rows[|rows| - 1];
      SelectionIsDistinct(front, f);
      assert rows == front + [last];
      forall x | x in Selected(front, f) ensures x.id != last.id {
        var i :| 0 <= i < |front| && front[i] == x;
        assert rows[i] == x;
      }
      assert forall i :: 0 <= i < |Selected(front, f)| ==> Selected(front, f)[i] in Selected(front, f);
    }
  }

  function MemoryAnswer(rows: seq<Record>, f: Filter, limit: nat): seq<Record> {
    NewestFirst(Selected(rows, f), limit)
  }

  function SqlAnswer(rows: seq<Record>, f: Filter, limit: nat): seq<Record> {
    NewestFirst(Sorted(Selected(rows, f)), limit)
  }

  /** The rows of `tail` are in order, and every row of `head` comes before each of them. */
  predicate Settled(head: seq<Record>, tail: seq<Record>) {
    InOrder(tail) && forall i, j :: 0 <= i < |head| && 0 <= j < |tail| ==> Before(head[i], tail[j])
  }

  predicate SettledFrom(rows: seq<Record>, k: nat) {
    k <= |rows| && Settled(rows[..k], rows[k..])
  }

  /** Rows that come after everything else and are in order stay where they are. */
  lemma {:induction false} SortingLeavesTheTail(head: seq<Record>, tail: seq<Record>)
    requires Settled(head, tail) && DistinctIds(head)
    ensures Sorted(head + tail) == Sorted(head) + tail
    decreases |tail|
  {
    hide Inserted;
    var all := head + tail;
    if tail == [] {
      assert all == head;
    } else {
      var front, last := tail[..|tail| - 1], tail[|tail| - 1];
      assert all[..|all| - 1] == head + front;
      SortingLeavesTheTail(head, front);
      LastComesAfter(head, tail);
      InsertedLast(last, Sorted(head) + front);
      assert Sorted(head) + front + [last] == Sorted(head) + tail;
    }
  }

  lemma LastComesAfter(head: seq<Record>, tail: seq<Record>)
    requires Settled(head, tail) && DistinctIds(head) && tail != []
    ensures var rows := Sorted(head) + tail[..|tail| - 1];
            rows != [] ==> Before(rows[|rows| - 1], tail[|tail| - 1])
  {
    hide Sorted;
    SortedIsInOrder(head);
    if |tail| == 1 && Sorted(head) != [] {
      var x := Sorted(head)[|Sorted(head)| - 1];
      assert x in head;
    }
  }

  lemma InsertedLast(r: Record, rows: seq<Record>)
    requires rows == [] || Before(rows[|rows| - 1], r)
    ensures Inserted(r, rows) == rows + [r]
  {
  }

  /** If sorting leaves the rows from `k` on where they are, they are settled. */
  lemma UnmovedIsSettled(rows: seq<Record>, k: nat)
    requires DistinctIds(rows) && k <= |rows| && |Sorted(rows)| == |rows| && Sorted(rows)[k..] == rows[k..]
    ensures SettledFrom(rows, k)
  {
    var sorted := Sorted(rows);
    SortedIsInOrder(rows);
    assert forall j :: k <= j < |rows| ==> sorted[j] == sorted[k..][j - k] == rows[k..][j - k] == rows[j];
    forall i, j | 0 <= i < k <= j < |rows| ensures Before(rows[i], rows[j]) {
      assert rows[i] in sorted;
      var p :| 0 <= p < |sorted| && sorted[p] == rows[i];
      assert p < k;
    }
  }

  lemma NewestFirstIsTheTail(a: seq<Record>, b: seq<Record>, limit: nat)
    requires |a| == |b|
    ensures var k := if limit < |a| then |a| - limit else 0;
            NewestFirst(a, limit) == NewestFirst(b, limit) <==> a[k..] == b[k..]
  {
    var k := if limit < |a| then |a| - limit else 0;
    if NewestFirst(a, limit) == NewestFirst(b, limit) {
      forall j | k <= j < |a| ensures a[j] == b[j] {
        assert NewestFirst(a, limit)[|a| - 1 - j] == NewestFirst(b, limit)[|a| - 1 - j];
      }
    }
    assert forall j :: k <= j < |a| ==> a[k..][j - k] == a[j] && b[k..][j - k] == b[j];
  }

  /**
   * For every limit: the stores answer alike if and only if the matches that are returned were appended in time order
   * and every earlier match comes before each of them.
   */
  lemma AnswersAgreeExactly(rows: seq<Record>, f: Filter, limit: nat)
    requires DistinctIds(rows)
    ensures var n := |Selected(rows, f)|;
            var k := if limit < n then n - limit else 0;
            MemoryAnswer(rows, f, limit) == SqlAnswer(rows, f, limit) <==> SettledFrom(Selected(rows, f), k)
  {
    hide Selected, Sorted, Settled;
    var chosen := Selected(rows, f);
    var k := if limit < |chosen| then |chosen| - limit else 0;
    SelectionIsDistinct(rows, f);
    SortedLength(chosen);
    NewestFirstIsTheTail(chosen, Sorted(chosen), limit);
    if Sorted(chosen)[k..] == chosen[k..] { UnmovedIsSettled(chosen, k); }
    if SettledFrom(chosen, k) {
      var head, tail := chosen[..k], chosen[k..];
      assert chosen == head + tail;
      SortingLeavesTheTail(head, tail);
      SortedLength(head);
    }
  }

  lemma {:induction false} SortedLength(rows: seq<Record>)
    ensures |Sorted(rows)| == |rows|
    decreases |rows|
  {
    if rows != [] {
      SortedLength(rows[..|rows| - 1]);
      InsertedLength(rows[|rows| - 1], Sorted(rows[..|rows| - 1]));
    }
  }

  lemma {:induction false} InsertedLength(r: Record, rows: seq<Record>)
    ensures |Inserted(r, rows)| == |rows| + 1
    decreases |rows|
  {
    if rows != [] { InsertedLength(r, rows[..|rows| - 1]); }
  }

  /** `picks` are the positions of `r` in `rows`: the last matching ones, latest first. */
  ghost predicate PicksNewest(rows: seq<Record>, f: Filter, limit: nat, r: seq<Record>, picks: seq<nat>) {
    && |r| == |picks| <= limit
    && (forall i :: 0 <= i < |picks| ==> picks[i] < |rows| && r[i] == rows[picks[i]] && Matches(r[i], f))
    && (forall i, j :: 0 <= i < j < |picks| ==> picks[i] > picks[j])
    && (forall p: nat :: p < |rows| && Matches(rows[p], f) && p !in picks ==>
          |picks| == limit && forall i :: 0 <= i < |picks| ==> p < picks[i])
  }

  /** The positions of the matching rows, in order. */
  function Positions(rows: seq<Record>, f: Filter): (ps: seq<nat>)
    ensures forall i :: 0 <= i < |ps| ==> ps[i] < |rows|
    decreases |rows|
  {
    if rows == [] then []
    else Positions(rows[..|rows| - 1], f) + (if Matches(rows[|rows| - 1], f) then [|rows| - 1] else [])
  }

  lemma {:induction false} PositionsAreTheMatches(rows: seq<Record>, f: Filter)
    ensures |Positions(rows, f)| == |Selected(rows, f)|
    ensures forall i :: 0 <= i < |Positions(rows, f)| ==>
              Selected(rows, f)[i] == rows[Positions(rows, f)[i]] && Matches(Selected(rows, f)[i], f)
    ensures forall i, j :: 0 <= i < j < |Positions(rows, f)| ==> Positions(rows, f)[i] < Positions(rows, f)[j]
    ensures forall p: nat :: p < |rows| && Matches(rows[p], f) ==> p in Positions(rows, f)
    decreases |rows|
  {
    hide Matches;
    if rows != [] {
      var front := rows[..|rows| - 1];
      PositionsAreTheMatches(front, f);
      assert forall p :: 0 <= p < |front| ==> rows[p] == front[p];
    }
  }

  function Picks(rows: seq<Record>, f: Filter, limit: nat): seq<nat> {
    NewestFirst(Positions(rows, f), limit)
  }

  lemma PickMatches(rows: seq<Record>, f: Filter, limit: nat, i: nat)
    ensures |Picks(rows, f, limit)| == |MemoryAnswer(rows, f, limit)|
    ensures i < |Picks(rows, f, limit)| ==>
              var p, r := Picks(rows, f, limit)[i], MemoryAnswer(rows, f, limit)[i];
              p < |rows| && r == rows[p] && Matches(r, f)
  {
    hide Matches, Selected, Positions;
    PositionsAreTheMatches(rows, f);
  }

  lemma PicksDescend(rows: seq<Record>, f: Filter, limit: nat, i: nat, j: nat)
    ensures i < j < |Picks(rows, f, limit)| ==> Picks(rows, f, limit)[i] > Picks(rows, f, limit)[j]
  {
    hide Matches, Selected, Positions;
    PositionsAreTheMatches(rows, f);
  }

  lemma NothingNewerIsMissed(rows: seq<Record>, f: Filter, limit: nat, p: nat)
    requires p < |rows| && Matches(rows[p], f) && p !in Picks(rows, f, limit)
    ensures |Picks(rows, f, limit)| == limit && forall i :: 0 <= i < limit ==> p < Picks(rows, f, limit)[i]
  {
    hide Matches, Selected, Positions;
    var ps := Positions(rows, f);
    PositionsAreTheMatches(rows, f);
    var k :| 0 <= k < |ps| && ps[k] == p;
    LateIsAmongTheNewest(ps, limit, k);
  }

  /** The memory store returns the last matches appended, latest first, and misses no later one. */
  lemma MemoryAnswersWithTheNewest(rows: seq<Record>, f: Filter, limit: nat)
    ensures PicksNewest(rows, f, limit, MemoryAnswer(rows, f, limit), Picks(rows, f, limit))
  {
    hide Matches, MemoryAnswer, Picks;
    var picks, r := Picks(rows, f, limit), MemoryAnswer(rows, f, limit);
    PicksFit(rows, f, limit);
    PickMatches(rows, f, limit, 0);
    forall i | 0 <= i < |picks| ensures picks[i] < |rows| && r[i] == rows[picks[i]] && Matches(r[i], f) {
      PickMatches(rows, f, limit, i);
    }
    forall i, j | 0 <= i < j < |picks| ensures picks[i] > picks[j] {
      PicksDescend(rows, f, limit, i, j);
    }
    forall p: nat | p < |rows| && Matches(rows[p], f) && p !in picks
      ensures |picks| == limit && forall i :: 0 <= i < |picks| ==> p < picks[i]
    {
      NothingNewerIsMissed(rows, f, limit, p);
    }
  }

  lemma PicksFit(rows: seq<Record>, f: Filter, limit: nat)
    ensures |Picks(rows, f, limit)| <= limit
  {
    hide Positions;
  }

  lemma LateIsAmongTheNewest<T>(rows: seq<T>, limit: nat, k: nat)
    requires k < |rows|
    ensures k >= |rows| - limit ==> rows[k] in NewestFirst(rows, limit)
  {
    if k >= |rows| - limit { assert NewestFirst(rows, limit)[|rows| - 1 - k] == rows[k]; }
  }

  /** `r` are the latest matches by (occurred_at, id), latest first, and no later match is missing. */
  ghost predicate HasLatest(rows: seq<Record>, f: Filter, limit: nat, r: seq<Record>) {
    && |r| <= limit
    && (forall i :: 0 <= i < |r| ==> r[i] in rows && Matches(r[i], f))
    && (forall i, j :: 0 <= i < j < |r| ==> IsNewer(r[i], r[j]))
    && (forall x :: x in rows && Matches(x, f) && x !in r ==>
       |r| == limit && forall i :: 0 <= i < |r| ==> IsNewer(r[i], x))
  }

  /** Of two records the one with the later time is newer, and of two with one time the one with the greater id. */
  ghost predicate IsNewer(a: Record, b: Record) {
    a.occurredAt > b.occurredAt || (a.occurredAt == b.occurredAt && a.id > b.id)
  }

  lemma NewerIsAfter(a: Record, b: Record)
    ensures IsNewer(a, b) <==> Before(b, a)
  {
  }

  lemma SqlAnswersWithTheLatest(rows: seq<Record>, f: Filter, limit: nat)
    requires DistinctIds(rows)
    ensures HasLatest(rows, f, limit, SqlAnswer(rows, f, limit))
  {
    hide Matches, Selected, Sorted, Before;
    var sorted, r := Sorted(Selected(rows, f)), SqlAnswer(rows, f, limit);
    SelectionIsDistinct(rows, f);
    SortedIsInOrder(Selected(rows, f));
    var n := |sorted|;
    forall i | 0 <= i < |r| ensures r[i] in rows && Matches(r[i], f) {
      assert r[i] == sorted[n - 1 - i] && sorted[n - 1 - i] in sorted;
    }
    forall x | x in rows && Matches(x, f) && x !in r
      ensures |r| == limit && forall i :: 0 <= i < |r| ==> Before(x, r[i]) {
      assert x in sorted;
      var k :| 0 <= k < n && sorted[k] == x;
      LateIsAmongTheNewest(sorted, limit, k);
    }
    forall a: Record, b: Record ensures IsNewer(a, b) <==> Before(b, a) { NewerIsAfter(a, b); }
    hide IsNewer;
  }

  predicate HasId(rows: seq<Record>, id: nat) {
    exists i :: 0 <= i < |rows| && rows[i].id == id
  }

  class MemoryAuditStore {
    var records: seq<Record>

    constructor ()
      ensures records == []
    {
      records := [];
    }

    method Append(r: Record) returns (res: Result<(), Error>)
      requires DistinctIds(records)
      modifies this
      ensures DistinctIds(records) && HasId(records, r.id) && old(records) <= records
      ensures res == (if HasId(old(records), r.id) then Err(DuplicateId) else Ok(()))
      ensures records != old(records) <==> res.Ok?
      ensures res.Ok? ==> records == old(records) + [r]
    {
      if HasId(records, r.id) { return Err(DuplicateId); }
      records := records + [r];
      assert records[|records| - 1].id == r.id;
      return Ok(());
    }

    method Query(f: Filter, limit: int) returns (res: Result<seq<Record>, Error>)
      ensures res.Err? <==> limit < 1 || limit > MAX_LIMIT
      ensures res.Ok? ==> res.value == MemoryAnswer(records, f, limit)
      ensures res.Ok? ==> exists picks :: PicksNewest(records, f, limit, res.value, picks)
    {
      if limit < 1 || limit > MAX_LIMIT { return Err(InvalidLimit); }
      hide Selected, PicksNewest;
      MemoryAnswersWithTheNewest(records, f, limit);
      return Ok(NewestFirst(Selected(records, f), limit));
    }
  }

  class PostgresAuditStore {
    var rows: seq<Record>

    constructor ()
      ensures rows == []
    {
      rows := [];
    }

    method Append(r: Record) returns (res: Result<(), Error>)
      requires DistinctIds(rows)
      modifies this
      ensures DistinctIds(rows) && HasId(rows, r.id) && old(rows) <= rows
      ensures res == (if HasId(old(rows), r.id) then Err(DuplicateId) else Ok(()))
      ensures rows != old(rows) <==> res.Ok?
      ensures res.Ok? ==> rows == old(rows) + [r]
    {
      if HasId(rows, r.id) { return Err(DuplicateId); }
      rows := rows + [r];
      assert rows[|rows| - 1].id == r.id;
      return Ok(());
    }

    method Query(f: Filter, limit: int) returns (res: Result<seq<Record>, Error>)
      requires DistinctIds(rows)
      ensures res.Err? <==> limit < 1 || limit > MAX_LIMIT
      ensures res.Ok? ==> res.value == SqlAnswer(rows, f, limit)
      ensures res.Ok? ==> HasLatest(rows, f, limit, res.value)
    {
      if limit < 1 || limit > MAX_LIMIT { return Err(InvalidLimit); }
      var w := BuildWhere(f);
      hide Matches, Holds, WellNumbered, Sorted, HasLatest;
      WhereSelects(rows, w.conditions, w.params, f);
      SqlAnswersWithTheLatest(rows, f, limit);
      return Ok(NewestFirst(Sorted(Where(rows, w.conditions, w.params)), limit));
    }
  }
}
