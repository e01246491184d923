/** The transaction boundary over any tables, with a fault injected at any statement. */
module Transactions {
  import opened Maybe

  datatype Stmt<W> = Begin | SetIsolation | SetReadOnly | Data(w: W) | Commit | Rollback

  /** What becomes of a statement: done; lost before the server; done but unreported; refused by the server. */
  datatype Fate = Done | Lost | Unreported | Refused

  /** On the server: no transaction, one in progress, or one that a refused statement has aborted. */
  datatype Phase = Idle | InTx | Aborted

  /** A statement on the wire, and whether the server refused it. */
  datatype Sent<W> = Sent(stmt: Stmt<W>, refused: bool)

  /** `working` is what the transaction sees, `committed` what everybody else does. */
  datatype Conn<S, W> = Conn(phase: Phase, readOnly: bool, working: S, committed: S, issued: seq<Sent<W>>)

  /**
   * `apply` is what a statement does to the tables, None where a constraint refuses it; `changes` says which statements
   * a read-only transaction refuses; `plan` is the fate of each statement.
   */
  datatype Server<!S, !W> = Server(apply: (S, W) -> Option<S>, changes: W -> bool, plan: nat -> Fate)

  function Pooled<S, W>(tables: S): Conn<S, W> {
    Conn(Idle, false, tables, tables, [])
  }

  /** The server carries out a statement on the tables. */
  predicate Admits<S, W>(c: Conn<S, W>, w: W, server: Server<S, W>) {
    c.phase == InTx && !(c.readOnly && server.changes(w)) && server.apply(c.working, w).Some?
  }

  function Logged<S, W>(c: Conn<S, W>, stmt: Stmt<W>, refused: bool): Conn<S, W> {
    c.(issued := c.issued + [Sent(stmt, refused)])
  }

  predicate TakesEffect(fate: Fate) {
    fate == Done || fate == Unreported
  }

  /** One statement on the wire: the new state, and whether the client sees it succeed. */
  function Executed<S, W>(c: Conn<S, W>, stmt: Stmt<W>, server: Server<S, W>): (Conn<S, W>, bool) {
    var fate := server.plan(|c.issued|);
    if fate == Lost then (Logged(c, stmt, false), false)
    else if fate == Refused then RefusedBy(c, stmt)
    else
      match stmt
      case Begin => (Logged(c, stmt, false).(phase := InTx, readOnly := false, working := c.committed), fate == Done)
      case SetIsolation =>
        if c.phase == InTx then (Logged(c, stmt, false), fate == Done) else RefusedBy(c, stmt)
      case SetReadOnly =>
        if c.phase == InTx then (Logged(c, stmt, false).(readOnly := true), fate == Done) else RefusedBy(c, stmt)
      case Data(w) =>
        if Admits(c, w, server)
        then (Logged(c, stmt, false).(working := server.apply(c.working, w).value), fate == Done)
        else RefusedBy(c, stmt)
      case Commit =>
        (Logged(c, stmt, false).(phase := Idle, committed := if c.phase == InTx then c.working else c.committed),
          fate == Done)
      case Rollback => (Logged(c, stmt, false).(phase := Idle), fate == Done)
  }

  /** A refused statement aborts the transaction it is in; a refused COMMIT ends it without effect. */
  function RefusedBy<S, W>(c: Conn<S, W>, stmt: Stmt<W>): (Conn<S, W>, bool) {
    match stmt
    case Begin | Rollback => (Logged(c, stmt, true), false)
    case Commit => (Logged(c, stmt, true).(phase := Idle), false)
    case _ => (Logged(c, stmt, true).(phase := if c.phase == Idle then Idle else Aborted), false)
  }

  /** What a caller does inside a transaction; a nested call may catch its failure. */
  datatype Work<W> =
    | Return
    | Throw
    | Query(w: W, next: Work<W>)
    | Nested(inner: Work<W>, catches: bool, next: Work<W>)

  /** Nested calls run on the open connection and issue nothing of their own. */
  function Worked<S, W>(c: Conn<S, W>, work: Work<W>, server: Server<S, W>): (Conn<S, W>, bool)
    decreases work
  {
    match work
    case Return => (c, true)
    case Throw => (c, false)
    case Query(w, next) =>
      var (d, ok) := Executed(c, Data(w), server);
      if ok then Worked(d, next, server) else (d, false)
    case Nested(inner, catches, next) =>
      var (d, ok) := Worked(c, inner, server);
      if ok || catches then Worked(d, next, server) else (d, false)
  }

  datatype Options = Options(isolation: bool, readOnly: bool)

  datatype Outcome<S, W> = Outcome(conn: Conn<S, W>, ok: bool, destroyed: bool)

  function Configured<S, W>(c: Conn<S, W>, wanted: bool, option: Stmt<W>, server: Server<S, W>): (Conn<S, W>, bool) {
    if wanted then Executed(c, option, server) else (c, true)
  }

  function RolledBack<S, W>(c: Conn<S, W>, server: Server<S, W>): Outcome<S, W> {
    var (d, ok) := Executed(c, Rollback, server);
    Outcome(d, false, !ok)
  }

  function Body<S, W>(c: Conn<S, W>, work: Work<W>, options: Options, server: Server<S, W>): (Conn<S, W>, bool) {
    var (c1, ok1) := Configured(c, options.isolation, SetIsolation, server);
    if !ok1 then (c1, false)
    else
      var (c2, ok2) := Configured(c1, options.readOnly, SetReadOnly, server);
      if !ok2 then (c2, false) else Worked(c2, work, server)
  }

  /** The connection once BEGIN has been answered. */
  function Begun<S, W>(c: Conn<S, W>, server: Server<S, W>): Conn<S, W> {
    Executed(c, Begin, server).0
  }

  /** The outermost call, from a fresh connection to its release. */
  function Transacted<S, W>(c: Conn<S, W>, work: Work<W>, options: Options, server: Server<S, W>): Outcome<S, W> {
    var (c0, began) := Executed(c, Begin, server);
    if !began then Outcome(c0, false, false)
    else
      var (c1, ok) := Body(c0, work, options, server);
      if !ok then RolledBack(c1, server)
      else
        var (c2, committed) := Executed(c1, Commit, server);
        if committed then Outcome(c2, true, false) else RolledBack(c2, server)
  }

  class PostgresDatabase<!S, !W> {
    var conn: Conn<S, W>      // the connection taken from the pool
    var active: bool          // whether a transaction context is running
    var destroyed: bool
    var released: nat
    const server: Server<S, W>

    constructor (server: Server<S, W>, tables: S)
      ensures this.server == server && conn == Pooled(tables) && !active && released == 0
    {
      this.server := server;
      conn := Pooled(tables);
      active, destroyed, released := false, false, 0;
    }

    method Issue(stmt: Stmt<W>) returns (ok: bool)
      modifies this`conn
      ensures (conn, ok) == Executed(old(conn), stmt, server)
    {
      var (c, done) := Executed(conn, stmt, server);
      conn := c;
      return done;
    }

    method Perform(work: Work<W>) returns (ok: bool)
      requires active
      modifies this`conn
      ensures (conn, ok) == Worked(old(conn), work, server)
      decreases work, 0
    {
      match work {
        case Return => return true;
        case Throw => return false;
        case Query(w, next) =>
          ok := Issue(Data(w));
          if ok { ok := Perform(next); }
        case Nested(inner, catches, next) =>
          ok := NestedTransaction(inner);
          if ok || catches { ok := Perform(next); }
      }
    }

    /** `transaction` when a context is already running. */
    method NestedTransaction(work: Work<W>) returns (ok: bool)
      requires active
      modifies this`conn
      ensures (conn, ok) == Worked(old(conn), work, server)
      decreases work, 1
    {
      ok := Perform(work);
    }

    method Transaction(work: Work<W>, options: Options) returns (ok: bool)
      requires !active
      modifies this
      ensures Outcome(conn, ok, destroyed) == Transacted(old(conn), work, options, server)
      ensures !active && released == old(released) + 1
    {
      hide Worked, Executed;
      destroyed := false;
      var began := Issue(Begin);
      ok := began;
      if ok && options.isolation { ok := Issue(SetIsolation); }
      if ok && options.readOnly { ok := Issue(SetReadOnly); }
      if ok {
        active := true;
        ok := Perform(work);
        active := false;
        if ok { ok := Issue(Commit); }
      }
      if !ok && began {
        var rolledBack := Issue(Rollback);
        if !rolledBack { destroyed := true; }
      }
      released := released + 1;
    }
  }

  // ---- One BEGIN, one end ----

  predicate IsControl<W>(stmt: Stmt<W>) {
    stmt.Begin? || stmt.Commit? || stmt.Rollback?
  }

  function Controls<W>(issued: seq<Sent<W>>): seq<Stmt<W>>
    decreases |issued|
  {
    if issued == [] then []
    else
      var last := issued[|issued| - 1].stmt;
      Controls(issued[..|issued| - 1]) + (if IsControl(last) then [last] else [])
  }

  lemma ExecutedIsLogged<S, W>(c: Conn<S, W>, stmt: Stmt<W>, server: Server<S, W>)
    ensures exists refused ::
              && Executed(c, stmt, server).0.issued == c.issued + [Sent(stmt, refused)]
              && (Executed(c, stmt, server).1 ==> !refused)
  {
    var (d, ok) := Executed(c, stmt, server);
    var fate := server.plan(|c.issued|);
    if fate == Lost { assert d.issued == c.issued + [Sent(stmt, false)]; }
    if fate == Refused { assert d.issued == c.issued + [Sent(stmt, true)]; }
    assert d.issued == c.issued + [Sent(stmt, false)] || d.issued == c.issued + [Sent(stmt, true)];
  }

  lemma ControlsOfOneMore<S, W>(c: Conn<S, W>, stmt: Stmt<W>, server: Server<S, W>)
    ensures var d := Executed(c, stmt, server).0;
            && Controls(d.issued) == Controls(c.issued) + (if IsControl(stmt) then [stmt] else [])
            && |d.issued| == |c.issued| + 1 && d.issued[..|c.issued|] == c.issued && d.issued[|c.issued|].stmt == stmt
  {
    hide Executed;
    ExecutedIsLogged(c, stmt, server);
    var sent := Executed(c, stmt, server).0.issued;
    assert sent[..|c.issued|] == c.issued;
  }

  /** Inside the body nothing is committed, no control statement is issued, and the transaction stays open. */
  predicate BodyKeeps<S(==), W(==)>(c: Conn<S, W>, d: Conn<S, W>) {
    && d.committed == c.committed
    && Controls(d.issued) == Controls(c.issued)
    && c.issued <= d.issued
    && (c.phase != Idle ==> d.phase != Idle)
  }

  lemma StatementKeeps<S, W>(c: Conn<S, W>, stmt: Stmt<W>, server: Server<S, W>)
    requires !IsControl(stmt)
    ensures BodyKeeps(c, Executed(c, stmt, server).0)
  {
    hide Controls;
    ControlsOfOneMore(c, stmt, server);
  }

  lemma {:induction false} WorkKeeps<S, W>(c: Conn<S, W>, work: Work<W>, server: Server<S, W>)
    ensures BodyKeeps(c, Worked(c, work, server).0)
    decreases work
  {
    hide Controls, Executed;
    match work
    case Return =>
    case Throw =>
    case Query(w, next) =>
      StatementKeeps(c, Data(w), server);
      WorkKeeps(Executed(c, Data(w), server).0, next, server);
    case Nested(inner, catches, next) =>
      WorkKeeps(c, inner, server);
      WorkKeeps(Worked(c, inner, server).0, next, server);
  }

  lemma BodyIsQuiet<S, W>(c: Conn<S, W>, work: Work<W>, options: Options, server: Server<S, W>)
    ensures BodyKeeps(c, Body(c, work, options, server).0)
  {
    hide Controls, Worked, Executed;
    var c1 := Configured(c, options.isolation, SetIsolation, server).0;
    StatementKeeps(c, SetIsolation, server);
    StatementKeeps(c1, SetReadOnly, server);
    WorkKeeps(Configured(c1, options.readOnly, SetReadOnly, server).0, work, server);
  }

  /**
   * However deeply calls nest, the outermost issues one BEGIN and one end; only a failed COMMIT is followed by a
   * ROLLBACK.
   */
  lemma OneBeginOneEnd<S, W>(c: Conn<S, W>, work: Work<W>, options: Options, server: Server<S, W>)
    ensures var o := Transacted(c, work, options, server);
            var began := server.plan(|c.issued|) == Done;
            var body := Body(Begun(c, server), work, options, server);
            Controls(o.conn.issued) == Controls(c.issued) + [Begin]
              + (if !began then [] else if !body.1 then [Rollback] else if o.ok then [Commit] else [Commit, Rollback])
  {
    hide Controls, Worked, Body;
    var c0 := Begun(c, server);
    ControlsOfOneMore(c, Begin, server);
    BodyIsQuiet(c0, work, options, server);
    var c1 := Body(c0, work, options, server).0;
    ControlsOfOneMore(c1, Commit, server);
    ControlsOfOneMore(c1, Rollback, server);
    ControlsOfOneMore(Executed(c1, Commit, server).0, Rollback, server);
  }

  // ---- What goes back to the pool ----

  /** A connection returns to the pool with a transaction open exactly when BEGIN took effect but was not reported. */
  lemma ReturnsOpenExactlyWhen<S, W>(c: Conn<S, W>, work: Work<W>, options: Options, server: Server<S, W>)
    requires c.phase == Idle
    ensures var o := Transacted(c, work, options, server);
            !o.destroyed && o.conn.phase != Idle <==> server.plan(|c.issued|) == Unreported
  {
    hide Worked, Body;
    BodyIsQuiet(Begun(c, server), work, options, server);
  }

  /** The last statement on the wire. */
  predicate EndsWith<S(==), W(==)>(c: Conn<S, W>, stmt: Stmt<W>) {
    c.issued != [] && c.issued[|c.issued| - 1].stmt == stmt
  }

  /** A connection is destroyed exactly when the call failed after BEGIN and its ROLLBACK was not reported as done. */
  lemma DestroyedExactlyWhen<S, W>(c: Conn<S, W>, work: Work<W>, options: Options, server: Server<S, W>)
    ensures var o := Transacted(c, work, options, server);
            o.destroyed <==>
              && server.plan(|c.issued|) == Done && !o.ok
              && EndsWith(o.conn, Rollback) && server.plan(|o.conn.issued| - 1) != Done
  {
    hide Worked, Body, Controls;
    var c0 := Begun(c, server);
    var c1 := Body(c0, work, options, server).0;
    var c2 := Executed(c1, Commit, server).0;
    ControlsOfOneMore(c1, Rollback, server);
    ControlsOfOneMore(c2, Rollback, server);
  }

  // ---- All or nothing ----

  /** The writes a body makes when no statement fails and nothing throws. */
  function Writes<W>(work: Work<W>): seq<W>
    decreases work
  {
    match work
    case Return => []
    case Throw => []
    case Query(w, next) => [w] + Writes(next)
    case Nested(inner, _, next) => Writes(inner) + Writes(next)
  }

  predicate Catches<W>(work: Work<W>)
    decreases work
  {
    match work
    case Return => false
    case Throw => false
    case Query(_, next) => Catches(next)
    case Nested(inner, catches, next) => catches || Catches(inner) || Catches(next)
  }

  predicate Throws<W>(work: Work<W>)
    decreases work
  {
    match work
    case Return => false
    case Throw => true
    case Query(_, next) => Throws(next)
    case Nested(inner, _, next) => Throws(inner) || Throws(next)
  }

  /** The tables after every write in turn, or None where a constraint refuses one. */
  function AllApplied<S, W>(server: Server<S, W>, tables: S, writes: seq<W>): Option<S>
    decreases |writes|
  {
    if writes == [] then Some(tables)
    else
      match server.apply(tables, writes[0])
      case None => None
      case Some(next) => AllApplied(server, next, writes[1..])
  }

  lemma {:induction false} AllAppliedAcross<S, W>(server: Server<S, W>, tables: S, a: seq<W>, b: seq<W>)
    ensures var middle := AllApplied(server, tables, a);
            AllApplied(server, tables, a + b) == if middle.Some? then AllApplied(server, middle.value, b) else None
    decreases |a|
  {
    if a == [] {
      assert a + b == b;
    } else {
      assert (a + b)[1..] == a[1..] + b;
      if server.apply(tables, a[0]).Some? { AllAppliedAcross(server, server.apply(tables, a[0]).value, a[1..], b); }
    }
  }

  /** No statement of `writes` is one that a read-only transaction refuses. */
  predicate OnlyReads<S, W>(server: Server<S, W>, writes: seq<W>) {
    forall i :: 0 <= i < |writes| ==> !server.changes(writes[i])
  }

  lemma OnlyReadsAcross<S, W>(server: Server<S, W>, a: seq<W>, b: seq<W>)
    ensures OnlyReads(server, a + b) <==> OnlyReads(server, a) && OnlyReads(server, b)
  {
    forall i | 0 <= i < |a| ensures (a + b)[i] == a[i] {
    }
    forall i | 0 <= i < |b| ensures (a + b)[|a| + i] == b[i] {
    }
  }

  /** A body that catches nothing and succeeds has made all its writes. */
  lemma {:induction false} SuccessWritesAll<S, W>(c: Conn<S, W>, work: Work<W>, server: Server<S, W>)
    requires !Catches(work) && c.phase == InTx && Worked(c, work, server).1
    ensures Worked(c, work, server).0.phase == InTx && !Throws(work)
    ensures Worked(c, work, server).0.readOnly == c.readOnly
    ensures AllApplied(server, c.working, Writes(work)) == Some(Worked(c, work, server).0.working)
    decreases work
  {
    match work
    case Return =>
    case Query(w, next) =>
      SuccessWritesAll(Executed(c, Data(w), server).0, next, server);
      assert Writes(work)[1..] == Writes(next);
    case Nested(inner, _, next) =>
      SuccessWritesAll(c, inner, server);
      SuccessWritesAll(Worked(c, inner, server).0, next, server);
      AllAppliedAcross(server, c.working, Writes(inner), Writes(next));
  }

  /** Where no statement is lost or refused for a reason of its own, only a throw or a constraint can stop a body. */
  lemma {:induction false} HealthyBodySucceeds<S, W>(c: Conn<S, W>, work: Work<W>, server: Server<S, W>)
    requires !Catches(work) && c.phase == InTx && forall i :: server.plan(i) == Done
    ensures Worked(c, work, server).1 <==>
            && !Throws(work) && AllApplied(server, c.working, Writes(work)).Some?
            && (c.readOnly ==> OnlyReads(server, Writes(work)))
    decreases work
  {
    match work
    case Return =>
    case Throw =>
    case Query(w, next) =>
      hide OnlyReads;
      assert Writes(work)[1..] == Writes(next);
      OnlyReadsAcross(server, [w], Writes(next));
      OneRead(server, w);
      if Admits(c, w, server) { HealthyBodySucceeds(Executed(c, Data(w), server).0, next, server); }
    case Nested(inner, _, next) =>
      hide OnlyReads;
      HealthyBodySucceeds(c, inner, server);
      AllAppliedAcross(server, c.working, Writes(inner), Writes(next));
      OnlyReadsAcross(server, Writes(inner), Writes(next));
      if Worked(c, inner, server).1 {
        SuccessWritesAll(c, inner, server);
        HealthyBodySucceeds(Worked(c, inner, server).0, next, server);
      }
  }

  lemma OneRead<S, W>(server: Server<S, W>, w: W)
    ensures OnlyReads(server, [w]) <==> !server.changes(w)
  {
    assert [w][0] == w;
  }

  /** Where COMMIT stands, if it is issued. */
  function CommitFate<S, W>(c: Conn<S, W>, work: Work<W>, options: Options, server: Server<S, W>): Fate {
    server.plan(|Body(Begun(c, server), work, options, server).0.issued|)
  }

  predicate ReachesCommit<S, W>(c: Conn<S, W>, work: Work<W>, options: Options, server: Server<S, W>) {
    server.plan(|c.issued|) == Done && Body(Begun(c, server), work, options, server).1
  }

  predicate TakesEffectAtCommit<S, W>(c: Conn<S, W>, work: Work<W>, options: Options, server: Server<S, W>) {
    ReachesCommit(c, work, options, server) && TakesEffect(CommitFate(c, work, options, server))
  }

  lemma OptionsChangeNoTables<S, W>(c: Conn<S, W>, options: Options, server: Server<S, W>)
    requires c.phase == InTx
    ensures var (c1, ok1) := Configured(c, options.isolation, SetIsolation, server);
            var (c2, ok2) := Configured(c1, options.readOnly, SetReadOnly, server);
            && c2.working == c.working && (ok1 && ok2 ==> c2.phase == InTx)
            && (ok1 && ok2 ==> (c2.readOnly <==> c.readOnly || options.readOnly))
            && ((forall i :: server.plan(i) == Done) ==> ok1 && ok2)
  {
  }

  lemma BodyWritesAll<S, W>(c: Conn<S, W>, work: Work<W>, options: Options, server: Server<S, W>)
    requires !Catches(work) && c.phase == InTx && Body(c, work, options, server).1
    ensures var d := Body(c, work, options, server).0;
            d.phase == InTx && !Throws(work) && AllApplied(server, c.working, Writes(work)) == Some(d.working)
  {
    hide Worked, Writes, Executed, AllApplied;
    var c1 := Configured(c, options.isolation, SetIsolation, server).0;
    OptionsChangeNoTables(c, options, server);
    SuccessWritesAll(Configured(c1, options.readOnly, SetReadOnly, server).0, work, server);
  }

  /**
   * For a body that catches nothing: all of its writes exactly when COMMIT is issued and takes effect, and none
   * otherwise.
   * Success means all; failure means none unless COMMIT took effect unreported.
   */
  lemma AllOrNothing<S, W>(c: Conn<S, W>, work: Work<W>, options: Options, server: Server<S, W>)
    requires c.phase == Idle && !Catches(work)
    ensures var o := Transacted(c, work, options, server);
            var takes := TakesEffectAtCommit(c, work, options, server);
            && (takes ==> !Throws(work) && AllApplied(server, c.committed, Writes(work)) == Some(o.conn.committed))
            && (!takes ==> o.conn.committed == c.committed)
            && (o.ok <==> takes && CommitFate(c, work, options, server) == Done)
  {
    hide Worked, Body, Writes, Controls, AllApplied;
    var c0 := Begun(c, server);
    BodyIsQuiet(c0, work, options, server);
    if ReachesCommit(c, work, options, server) { BodyWritesAll(c0, work, options, server); }
  }

  /**
   * With nothing lost, unreported or refused for a reason of its own, a call succeeds exactly when the body does not
   * throw, its statements all apply, and none of them changes anything if the transaction is read-only.
   */
  lemma HealthySuccess<S, W>(c: Conn<S, W>, work: Work<W>, options: Options, server: Server<S, W>)
    requires c.phase == Idle && !Catches(work) && forall i :: server.plan(i) == Done
    ensures Transacted(c, work, options, server).ok <==>
            && !Throws(work) && AllApplied(server, c.committed, Writes(work)).Some?
            && (options.readOnly ==> OnlyReads(server, Writes(work)))
  {
    hide Worked, Writes, AllApplied, OnlyReads;
    var c0 := Begun(c, server);
    var c1 := Configured(c0, options.isolation, SetIsolation, server).0;
    OptionsChangeNoTables(c0, options, server);
    HealthyBodySucceeds(Configured(c1, options.readOnly, SetReadOnly, server).0, work, server);
  }

  // ---- Read-only transactions ----

  /** What a read-only transaction lets through leaves the tables as they are. */
  ghost predicate ReadsKeepTables<S(!new), W(!new)>(server: Server<S, W>) {
    forall tables: S, w: W ::
      !server.changes(w) && server.apply(tables, w).Some? ==> server.apply(tables, w).value == tables
  }

  lemma {:induction false} ReadOnlyWorkKeepsTables<S(!new), W(!new)>(c: Conn<S, W>, work: Work<W>, server: Server<S, W>)
    requires c.readOnly && ReadsKeepTables(server)
    ensures Worked(c, work, server).0.readOnly && Worked(c, work, server).0.working == c.working
    decreases work
  {
    match work
    case Return =>
    case Throw =>
    case Query(w, next) => ReadOnlyWorkKeepsTables(Executed(c, Data(w), server).0, next, server);
    case Nested(inner, _, next) =>
      ReadOnlyWorkKeepsTables(c, inner, server);
      ReadOnlyWorkKeepsTables(Worked(c, inner, server).0, next, server);
  }

  /** A read-only call changes nothing, whatever its body does and catches and whatever happens to any statement. */
  lemma ReadOnlyChangesNothing<S(!new), W(!new)>(
      c: Conn<S, W>, work: Work<W>, options: Options, server: Server<S, W>)
    requires c.phase == Idle && options.readOnly && ReadsKeepTables(server)
    ensures Transacted(c, work, options, server).conn.committed == c.committed
  {
    hide Body, ReadsKeepTables, Controls;
    var c0 := Begun(c, server);
    BodyIsQuiet(c0, work, options, server);
    if ReachesCommit(c, work, options, server) { ReadOnlyBodyKeepsTables(c0, work, options, server); }
  }

  lemma ReadOnlyBodyKeepsTables<S(!new), W(!new)>(
      c: Conn<S, W>, work: Work<W>, options: Options, server: Server<S, W>)
    requires c.phase == InTx && options.readOnly && ReadsKeepTables(server) && Body(c, work, options, server).1
    ensures Body(c, work, options, server).0.working == c.working
  {
    hide Worked, Executed, ReadsKeepTables;
    var c1 := Configured(c, options.isolation, SetIsolation, server).0;
    OptionsChangeNoTables(c, options, server);
    ReadOnlyWorkKeepsTables(Configured(c1, options.readOnly, SetReadOnly, server).0, work, server);
  }

  // ---- Bodies that catch ----

  predicate SomeRefused<W>(sent: seq<Sent<W>>) {
    exists i :: 0 <= i < |sent| && sent[i].refused
  }

  lemma RefusedAcross<W>(a: seq<Sent<W>>, b: seq<Sent<W>>)
    ensures SomeRefused(a + b) <==> SomeRefused(a) || SomeRefused(b)
  {
    if i :| 0 <= i < |a| && a[i].refused { assert (a + b)[i].refused; }
    if i :| 0 <= i < |b| && b[i].refused { assert (a + b)[|a| + i].refused; }
  }

  /** From `c` to `d` the transaction has been aborted exactly if a statement was refused. */
  predicate AbortsExactlyWhenRefused<S, W(==)>(c: Conn<S, W>, d: Conn<S, W>) {
    && c.issued <= d.issued && d.phase != Idle
    && (d.phase == Aborted <==> c.phase == Aborted || SomeRefused(d.issued[|c.issued|..]))
  }

  lemma RefusalsJoin<S, W>(c: Conn<S, W>, d: Conn<S, W>, e: Conn<S, W>)
    requires AbortsExactlyWhenRefused(c, d) && AbortsExactlyWhenRefused(d, e)
    ensures AbortsExactlyWhenRefused(c, e)
  {
    var x, y := d.issued[|c.issued|..], e.issued[|d.issued|..];
    assert e.issued[|c.issued|..] == x + y;
    RefusedAcross(x, y);
  }

  lemma RefusalAborts<S, W>(c: Conn<S, W>, stmt: Stmt<W>, server: Server<S, W>)
    requires c.phase != Idle && !IsControl(stmt)
    ensures AbortsExactlyWhenRefused(c, Executed(c, stmt, server).0)
  {
    var d := Executed(c, stmt, server).0;
    assert d.issued[|c.issued|..] == [d.issued[|c.issued|]];
  }

  lemma {:induction false} RefusalsAbort<S, W>(c: Conn<S, W>, work: Work<W>, server: Server<S, W>)
    requires c.phase != Idle
    ensures AbortsExactlyWhenRefused(c, Worked(c, work, server).0)
    decreases work
  {
    match work
    case Return => assert c.issued[|c.issued|..] == [];
    case Throw => assert c.issued[|c.issued|..] == [];
    case Query(w, next) =>
      hide Executed, AbortsExactlyWhenRefused;
      var d := Executed(c, Data(w), server).0;
      RefusalAborts(c, Data(w), server);
      StaysOpen(c, d);
      RefusalsAbort(d, next, server);
      RefusalsJoin(c, d, Worked(d, next, server).0);
    case Nested(inner, catches, next) =>
      hide Executed, AbortsExactlyWhenRefused;
      var d := Worked(c, inner, server).0;
      RefusalsAbort(c, inner, server);
      StaysOpen(c, d);
      RefusalsAbort(d, next, server);
      RefusalsJoin(c, d, Worked(d, next, server).0);
  }

  lemma StaysOpen<S, W>(c: Conn<S, W>, d: Conn<S, W>)
    requires AbortsExactlyWhenRefused(c, d)
    ensures d.phase != Idle
  {
  }

  lemma BodyAborts<S, W>(c: Conn<S, W>, work: Work<W>, options: Options, server: Server<S, W>)
    requires c.phase == InTx
    ensures AbortsExactlyWhenRefused(c, Body(c, work, options, server).0)
  {
    hide Executed, Worked, AbortsExactlyWhenRefused;
    var c1 := Configured(c, options.isolation, SetIsolation, server).0;
    var c2 := Configured(c1, options.readOnly, SetReadOnly, server).0;
    NothingIssued(c);
    RefusalAborts(c, SetIsolation, server);
    StaysOpen(c, c1);
    NothingIssued(c1);
    RefusalAborts(c1, SetReadOnly, server);
    StaysOpen(c1, c2);
    RefusalsJoin(c, c1, c2);
    RefusalsAbort(c2, work, server);
    RefusalsJoin(c, c2, Worked(c2, work, server).0);
  }

  lemma NothingIssued<S, W>(c: Conn<S, W>)
    requires c.phase != Idle
    ensures AbortsExactlyWhenRefused(c, c)
  {
    assert c.issued[|c.issued|..] == [];
  }

  /**
   * For any body, caught failures included, and any options: a reported success keeps what the body wrote if and only
   * if the server refused none of its statements. Statements lost before the server do no harm.
   */
  lemma SuccessIsRealExactlyWhenNothingWasRefused<S, W>(
      c: Conn<S, W>, work: Work<W>, options: Options, server: Server<S, W>)
    requires c.phase == Idle && Transacted(c, work, options, server).ok
    ensures var c0 := Begun(c, server);
            var d := Body(c0, work, options, server).0;
            && c0.issued <= d.issued
            && Transacted(c, work, options, server).conn.committed
               == if SomeRefused(d.issued[|c0.issued|..]) then c.committed else d.working
  {
    hide Body, SomeRefused;
    BodyAborts(Begun(c, server), work, options, server);
    BodyIsQuiet(Begun(c, server), work, options, server);
  }

  /** A caller that catches a refusal and goes on is told of success although the server discards everything. */
  lemma CaughtRefusalCommitsNothing<S, W>(c: Conn<S, W>, w: W, server: Server<S, W>)
    requires c.phase == Idle && server.plan(|c.issued|) == Done && server.plan(|c.issued| + 2) == Done
    requires server.plan(|c.issued| + 1) == Refused
             || (server.plan(|c.issued| + 1) == Done && server.apply(c.committed, w).None?)
    ensures var o := Transacted(c, Nested(Query(w, Return), true, Return), Options(false, false), server);
            o.ok && o.conn.committed == c.committed
  {
    var c0 := Begun(c, server);
    assert Worked(c0, Nested(Query(w, Return), true, Return), server)
      == Worked(Executed(c0, Data(w), server).0, Return, server);
  }

  // ---- The trace of a success ----

  function Traced<W>(stmts: seq<Stmt<W>>): seq<Sent<W>> {
    seq(|stmts|, i requires 0 <= i < |stmts| => Sent(stmts[i], false))
  }

  function Statements<W>(writes: seq<W>): seq<Stmt<W>> {
    seq(|writes|, i requires 0 <= i < |writes| => Data(writes[i]))
  }

  lemma DataIsIssued<S, W>(c: Conn<S, W>, w: W, server: Server<S, W>)
    requires c.phase == InTx && Executed(c, Data(w), server).1
    ensures Executed(c, Data(w), server).0.phase == InTx
    ensures Executed(c, Data(w), server).0.issued == c.issued + [Sent(Data(w), false)]
  {
  }

  lemma {:induction false} SuccessIssuesAll<S, W>(c: Conn<S, W>, work: Work<W>, server: Server<S, W>)
    requires !Catches(work) && c.phase == InTx && Worked(c, work, server).1
    ensures Worked(c, work, server).0.issued == c.issued + Traced(Statements(Writes(work)))
    decreases work
  {
    hide Executed, Traced, Statements;
    match work
    case Return => NoTrace<W>();
    case Query(w, next) =>
      var d := Executed(c, Data(w), server).0;
      DataIsIssued(c, w, server);
      SuccessIssuesAll(d, next, server);
      TracesJoin([w], Writes(next));
      OneTrace(w);
      assert d.issued + Traced(Statements(Writes(next))) == c.issued + Traced(Statements([w] + Writes(next)));
    case Nested(inner, _, next) =>
      SuccessWritesAll(c, inner, server);
      SuccessIssuesAll(c, inner, server);
      SuccessIssuesAll(Worked(c, inner, server).0, next, server);
      TracesJoin(Writes(inner), Writes(next));
  }

  lemma NoTrace<W>()
    ensures Traced(Statements<W>([])) == []
  {
  }

  lemma OneTrace<W>(w: W)
    ensures Traced(Statements([w])) == [Sent(Data(w), false)]
  {
    assert Statements([w])[0] == Data(w);
  }

  lemma TracesJoin<W>(a: seq<W>, b: seq<W>)
    ensures Traced(Statements(a + b)) == Traced(Statements(a)) + Traced(Statements(b))
  {
  }

  /** The exact trace of a call that succeeds. */
  lemma TraceOfSuccess<S, W>(c: Conn<S, W>, work: Work<W>, options: Options, server: Server<S, W>)
    requires c.phase == Idle && !Catches(work) && Transacted(c, work, options, server).ok
    ensures Transacted(c, work, options, server).conn.issued
         == c.issued + [Sent(Begin, false)] + (if options.isolation then [Sent(SetIsolation, false)] else [])
            + (if options.readOnly then [Sent(SetReadOnly, false)] else [])
            + Traced(Statements(Writes(work))) + [Sent(Commit, false)]
  {
    hide Worked, Statements, Writes, Traced;
    var c0 := Begun(c, server);
    var c1 := Configured(c0, options.isolation, SetIsolation, server).0;
    var c2 := Configured(c1, options.readOnly, SetReadOnly, server).0;
    SuccessIssuesAll(c2, work, server);
  }
}
