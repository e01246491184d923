/** What the settings service keeps over whole runs. */
module SettingRuns {
  import opened Maybe
  import opened SettingNames
  import opened Settings
  import opened AuditRecorder
  import Uuids
  import JsText

  datatype Call =
    | WriteCall(r: Request, value: Value)
    | RollbackCall(r: Request, target: nat)
    | ApplyCall(report: Report)

  function Next(w: World, call: Call): World {
    match call
    case WriteCall(r, value) => Mutated(w, r, value, WriteOp).0
    case RollbackCall(r, target) => RolledBack(w, r, target).0
    case ApplyCall(p) => Application(w, p).0
  }

  function Run(calls: seq<Call>): World
    decreases |calls|
  {
    if calls == [] then World(map[], [], {}) else Next(Run(calls[..|calls| - 1]), calls[|calls| - 1])
  }

  /** The change entries of one coordinate, in order. */
  function ChangesOf(audit: seq<AuditEntry>, c: Coordinate): seq<Change>
    decreases |audit|
  {
    if audit == [] then []
    else
      var last := audit[|audit| - 1];
      ChangesOf(audit[..|audit| - 1], c) + (if last.Changed? && last.change.coordinate == c then [last.change] else [])
  }

  /** One change entry for each version, in order, saying how it came about. */
  ghost predicate AuditMatches(audit: seq<AuditEntry>, t: Track, c: Coordinate) {
    var changes := ChangesOf(audit, c);
    && |changes| == |t.entries|
    && forall i :: 0 <= i < |changes| ==> changes[i] == Change(c, i + 1, t.entries[i].operation)
  }

  ghost predicate WorldOk(w: World) {
    && (forall c :: TrackOk(TrackAt(w, c), c))
    && (forall c :: AuditMatches(w.audit, TrackAt(w, c), c))
  }

  /** Nothing saved is lost or altered, and application never goes back. */
  predicate Extends(t: Track, u: Track) {
    && |t.entries| <= |u.entries| && u.entries[..|t.entries|] == t.entries
    && (t.applied.Some? ==> u.applied.Some? && t.applied.value <= u.applied.value)
  }

  lemma ChangesOfOneMore(audit: seq<AuditEntry>, e: AuditEntry, c: Coordinate)
    ensures ChangesOf(audit + [e], c)
            == ChangesOf(audit, c) + (if e.Changed? && e.change.coordinate == c then [e.change] else [])
  {
    assert (audit + [e])[..|audit|] == audit;
  }

  /**
   * A write or rollback succeeds exactly when it passes every check, names the current version and can be recorded;
   * a stale version is reported before a refused record, and this is all that a success does.
   */
  lemma MutationAppends(w: World, r: Request, value: Value, operation: Operation)
    requires WorldOk(w)
    ensures var (w', res) := Mutated(w, r, value, operation);
            var checked := Checked(r, value);
            && (res.Err? ==> w' == w)
            && (checked.Err? ==> res == Err(checked.error))
            && (checked.Ok? ==>
                  var c := checked.value.coordinate;
                  var t, u := TrackAt(w, c), TrackAt(w', c);
                  && CoordinateFor(r.definition.key, r.scope, r.scopeRef) == Some(c)
                  && (res.Ok? <==> r.expectedVersion == |t.entries| && Recordable(w, r, c))
                  && (r.expectedVersion != |t.entries| ==> res == Err(VersionConflict(r.expectedVersion, |t.entries|)))
                  && (r.expectedVersion == |t.entries| && !Recordable(w, r, c) ==> res == Err(AuditRefused))
                  && (res.Ok? ==> AppendedBy(w, w', r, value, operation, c, res.value)))
  {
    hide JsText.NonBlank, CoordinateFor, WorldOk, SourceOf, IsImmutable, Recordable, Uuids.IdentityUuid;
  }

  /** The one new version, its application if the setting is hot, and its one audit entry; nothing else. */
  ghost predicate AppendedBy(w: World, w': World, r: Request, value: Value, operation: Operation, c: Coordinate,
      record: Record) {
    var t, u := TrackAt(w, c), TrackAt(w', c);
    && record.coordinate == c && record.version == |t.entries| + 1 && record.value == value
    && u.entries == t.entries + [Entry(record, operation)]
    && u.applied == (if r.definition.behavior == Hot then Some(|u.entries|) else t.applied)
    && w'.audit == w.audit + [Changed(Change(c, record.version, operation))]
    && w'.auditIds == w.auditIds + {AuditId(r.auditDraw)}
    && (forall d :: d != c ==> TrackAt(w', d) == TrackAt(w, d))
  }

  lemma MutationKeepsOk(w: World, r: Request, value: Value, operation: Operation)
    requires WorldOk(w)
    ensures WorldOk(Mutated(w, r, value, operation).0)
  {
    hide Mutated, CoordinateFor, WorldOk, TrackAt, ChangesOf, Checked, Recordable;
    var (w', res) := Mutated(w, r, value, operation);
    MutationAppends(w, r, value, operation);
    if res.Ok? {
      var c := Checked(r, value).value.coordinate;
      forall d ensures TrackOk(TrackAt(w', d), d) && AuditMatches(w'.audit, TrackAt(w', d), d) {
        AtCoordinate(w, d);
        ChangesOfOneMore(w.audit, Changed(Change(c, res.value.version, operation)), d);
      }
      AllCoordinates(w');
    }
  }

  lemma AtCoordinate(w: World, c: Coordinate)
    requires WorldOk(w)
    ensures TrackOk(TrackAt(w, c), c) && AuditMatches(w.audit, TrackAt(w, c), c)
  {
  }

  lemma AllCoordinates(w: World)
    requires forall c :: TrackOk(TrackAt(w, c), c) && AuditMatches(w.audit, TrackAt(w, c), c)
    ensures WorldOk(w)
  {
  }

  /**
   * A report succeeds exactly when it names the current version of a saved setting and can be recorded; it never lowers
   * anything.
   */
  lemma ApplicationKeepsOk(w: World, p: Report)
    requires WorldOk(w)
    ensures var (w', res) := Application(w, p);
            var c := CoordinateFor(p.definition.key, p.scope, p.scopeRef);
            && WorldOk(w')
            && (res.Err? ==> w' == w)
            && (res.Ok? <==>
                  c.Some? && p.version == |TrackAt(w, c.value).entries| > 0 && ReportRecordable(w, p, c.value))
            && (forall d :: Extends(TrackAt(w, d), TrackAt(w', d)))
            && (forall d :: Some(d) != c ==> TrackAt(w', d) == TrackAt(w, d))
            && (res.Ok? ==> TrackAt(w', c.value) == TrackAt(w, c.value).(applied := Some(p.version)))
  {
    hide JsText.NonBlank, CoordinateFor, WorldOk, ChangesOf, ReportRecordable;
    var (w', res) := Application(w, p);
    forall c ensures TrackOk(TrackAt(w', c), c) && AuditMatches(w'.audit, TrackAt(w', c), c)
      && Extends(TrackAt(w, c), TrackAt(w', c)) {
      AtCoordinate(w, c);
      if res.Ok? { ChangesOfOneMore(w.audit, w'.audit[|w.audit|], c); }
    }
    AllCoordinates(w');
  }

  lemma StepKeepsOk(w: World, call: Call)
    requires WorldOk(w)
    ensures WorldOk(Next(w, call)) && forall c :: Extends(TrackAt(w, c), TrackAt(Next(w, call), c))
  {
    hide Mutated, CoordinateFor, WorldOk, TrackAt, Application;
    match call
    case WriteCall(r, value) =>
      MutationKeepsOk(w, r, value, WriteOp);
      MutationExtends(w, r, value, WriteOp);
    case RollbackCall(r, target) =>
      if !RolledBack(w, r, target).1.Err? {
        var entry := FindVersion(TrackAt(w, CoordinateFor(r.definition.key, r.scope, r.scopeRef).value), target).value;
        MutationKeepsOk(w, r, entry.record.value, RollbackOp(target));
        MutationExtends(w, r, entry.record.value, RollbackOp(target));
      } else {
        FailedRollbackLeavesNoTrace(w, r, target);
      }
    case ApplyCall(p) => ApplicationKeepsOk(w, p);
  }

  lemma FailedRollbackLeavesNoTrace(w: World, r: Request, target: nat)
    requires WorldOk(w) && RolledBack(w, r, target).1.Err?
    ensures RolledBack(w, r, target).0 == w
  {
    hide CoordinateFor, WorldOk, TrackAt, Mutated;
    var c := CoordinateFor(r.definition.key, r.scope, r.scopeRef);
    if c.Some? && FindVersion(TrackAt(w, c.value), target).Some? {
      MutationAppends(w, r, FindVersion(TrackAt(w, c.value), target).value.record.value, RollbackOp(target));
    }
  }

  lemma MutationExtends(w: World, r: Request, value: Value, operation: Operation)
    requires WorldOk(w)
    ensures forall c :: Extends(TrackAt(w, c), TrackAt(Mutated(w, r, value, operation).0, c))
  {
    hide Mutated, CoordinateFor, WorldOk, TrackAt, Checked, Recordable;
    var (w', res) := Mutated(w, r, value, operation);
    MutationAppends(w, r, value, operation);
    forall c ensures Extends(TrackAt(w, c), TrackAt(w', c)) {
      AtCoordinate(w, c);
    }
  }

  /** In every reachable state: versions 1..n, applied at most current, one change entry for each version. */
  lemma {:induction false} RunIsOk(calls: seq<Call>)
    ensures WorldOk(Run(calls))
    decreases |calls|
  {
    if calls != [] {
      hide Next;
      RunIsOk(calls[..|calls| - 1]);
      StepKeepsOk(Run(calls[..|calls| - 1]), calls[|calls| - 1]);
    }
  }

  /** History is append-only and application never goes back, whatever happens in between. */
  lemma {:induction false} HistoryIsAppendOnly(calls: seq<Call>, k: nat, l: nat, c: Coordinate)
    requires k <= l <= |calls|
    ensures Extends(TrackAt(Run(calls[..k]), c), TrackAt(Run(calls[..l]), c))
    decreases l - k
  {
    if k < l {
      hide Next, TrackAt, WorldOk;
      HistoryIsAppendOnly(calls, k, l - 1, c);
      assert calls[..l][..l - 1] == calls[..l - 1];
      RunIsOk(calls[..l - 1]);
      StepKeepsOk(Run(calls[..l - 1]), calls[l - 1]);
      var t, u, v := TrackAt(Run(calls[..k]), c), TrackAt(Run(calls[..l - 1]), c), TrackAt(Run(calls[..l]), c);
      assert v.entries[..|t.entries|] == v.entries[..|u.entries|][..|t.entries|];
    }
  }

  /** A rollback appends a version whose value is the target's, and leaves the target in the history. */
  lemma RollbackAppendsTheOldValue(w: World, r: Request, target: nat)
    requires WorldOk(w)
    ensures var (w', res) := RolledBack(w, r, target);
            && (res.Err? ==> w' == w)
            && (res.Ok? ==>
                  var t, u := TrackAt(w, res.value.coordinate), TrackAt(w', res.value.coordinate);
                  && 1 <= target <= |t.entries|
                  && u.entries == t.entries + [Entry(res.value, RollbackOp(target))]
                  && res.value.version == |t.entries| + 1
                  && res.value.value == u.entries[target - 1].record.value)
  {
    hide CoordinateFor, WorldOk, TrackAt, Mutated, Recordable;
    var c := CoordinateFor(r.definition.key, r.scope, r.scopeRef);
    if r.actor.allowed && c.Some? && FindVersion(TrackAt(w, c.value), target).Some? {
      MutationAppends(w, r, FindVersion(TrackAt(w, c.value), target).value.record.value, RollbackOp(target));
    }
  }

  // ---- Hot settings ----

  predicate IsFullyApplied(t: Track) {
    t.entries != [] ==> t.applied == Some(|t.entries|)
  }

  /** What a call that succeeds does at its coordinate: it saves a version, hot or not, or applies the saved one. */
  datatype Effect = NoEffect | SavesHot(at: Coordinate) | SavesOther(at: Coordinate) | Applies(at: Coordinate)

  function EffectOf(w: World, call: Call): Effect {
    match call
    case WriteCall(r, value) => SaveEffect(r, Mutated(w, r, value, WriteOp).1)
    case RollbackCall(r, target) => SaveEffect(r, RolledBack(w, r, target).1)
    case ApplyCall(p) =>
      var c := CoordinateFor(p.definition.key, p.scope, p.scopeRef);
      if Application(w, p).1.Ok? && c.Some? then Applies(c.value) else NoEffect
  }

  function SaveEffect(r: Request, res: Result<Record, Error>): Effect {
    if res.Err? then NoEffect
    else if r.definition.behavior == Hot then SavesHot(res.value.coordinate)
    else SavesOther(res.value.coordinate)
  }

  /** The last successful save of `c` was hot, or was followed by a successful report for `c`; or there was none. */
  predicate AppliedSinceSaved(calls: seq<Call>, c: Coordinate)
    decreases |calls|
  {
    if calls == [] then true
    else
      var front := calls[..|calls| - 1];
      match EffectOf(Run(front), calls[|calls| - 1])
      case SavesHot(d) => d == c || AppliedSinceSaved(front, c)
      case SavesOther(d) => d != c && AppliedSinceSaved(front, c)
      case Applies(d) => d == c || AppliedSinceSaved(front, c)
      case NoEffect => AppliedSinceSaved(front, c)
  }

  lemma SaveEffectOnTracks(w: World, r: Request, value: Value, operation: Operation, c: Coordinate)
    requires WorldOk(w)
    ensures var (w', res) := Mutated(w, r, value, operation);
            match SaveEffect(r, res)
            case SavesHot(d) => if d == c then IsFullyApplied(TrackAt(w', c)) else TrackAt(w', c) == TrackAt(w, c)
            case SavesOther(d) => if d == c then !IsFullyApplied(TrackAt(w', c)) else TrackAt(w', c) == TrackAt(w, c)
            case Applies(_) => false
            case NoEffect => w' == w
  {
    hide Mutated, CoordinateFor, WorldOk, TrackAt, Checked, Recordable;
    MutationAppends(w, r, value, operation);
    AtCoordinate(w, c);
  }

  lemma EffectOnTracks(w: World, call: Call, c: Coordinate)
    requires WorldOk(w)
    ensures var w' := Next(w, call);
            match EffectOf(w, call)
            case SavesHot(d) => if d == c then IsFullyApplied(TrackAt(w', c)) else TrackAt(w', c) == TrackAt(w, c)
            case SavesOther(d) => if d == c then !IsFullyApplied(TrackAt(w', c)) else TrackAt(w', c) == TrackAt(w, c)
            case Applies(d) => if d == c then IsFullyApplied(TrackAt(w', c)) else TrackAt(w', c) == TrackAt(w, c)
            case NoEffect => w' == w
  {
    hide Mutated, CoordinateFor, WorldOk, TrackAt, Application, IsFullyApplied, ReportRecordable;
    match call
    case WriteCall(r, value) => SaveEffectOnTracks(w, r, value, WriteOp, c);
    case RollbackCall(r, target) =>
      var found := CoordinateFor(r.definition.key, r.scope, r.scopeRef);
      if r.actor.allowed && found.Some? && FindVersion(TrackAt(w, found.value), target).Some? {
        SaveEffectOnTracks(w, r, FindVersion(TrackAt(w, found.value), target).value.record.value,
          RollbackOp(target), c);
      }
    case ApplyCall(p) =>
      ApplicationKeepsOk(w, p);
      if Application(w, p).1.Ok? && CoordinateFor(p.definition.key, p.scope, p.scopeRef) == Some(c) {
        AppliedIsFull(w, p, c);
      }
  }

  lemma AppliedIsFull(w: World, p: Report, c: Coordinate)
    requires WorldOk(w) && Application(w, p).1.Ok? && CoordinateFor(p.definition.key, p.scope, p.scopeRef) == Some(c)
    ensures IsFullyApplied(TrackAt(Application(w, p).0, c))
  {
    hide CoordinateFor, WorldOk, TrackAt, Application, ReportRecordable;
    ApplicationKeepsOk(w, p);
  }

  /** A setting is applied as far as it is saved exactly when its last save was hot or has been reported as applied. */
  lemma {:induction false} AppliedExactlySinceSaved(calls: seq<Call>, c: Coordinate)
    ensures IsFullyApplied(TrackAt(Run(calls), c)) <==> AppliedSinceSaved(calls, c)
    decreases |calls|
  {
    if calls != [] {
      hide Next, TrackAt, EffectOf, IsFullyApplied, WorldOk;
      var front := calls[..|calls| - 1];
      AppliedExactlySinceSaved(front, c);
      RunIsOk(front);
      EffectOnTracks(Run(front), calls[|calls| - 1], c);
    }
  }

  /** `call` does not save a version of `c` under a definition that is not hot. */
  predicate KeepsHot(call: Call, c: Coordinate) {
    !call.ApplyCall? && CoordinateFor(call.r.definition.key, call.r.scope, call.r.scopeRef) == Some(c) ==>
      call.r.definition.behavior == Hot
  }

  lemma HotCallSavesHot(w: World, call: Call, c: Coordinate)
    requires WorldOk(w) && KeepsHot(call, c)
    ensures EffectOf(w, call) != SavesOther(c)
  {
    hide Mutated, CoordinateFor, WorldOk, TrackAt, Application, Checked, Recordable;
    match call
    case WriteCall(r, value) => MutationAppends(w, r, value, WriteOp);
    case RollbackCall(r, target) =>
      var found := CoordinateFor(r.definition.key, r.scope, r.scopeRef);
      if r.actor.allowed && found.Some? && FindVersion(TrackAt(w, found.value), target).Some? {
        MutationAppends(w, r, FindVersion(TrackAt(w, found.value), target).value.record.value, RollbackOp(target));
      }
    case ApplyCall(_) =>
  }

  /** A setting that has always been hot is applied as far as it is saved. */
  lemma {:induction false} HotSettingsAreApplied(calls: seq<Call>, c: Coordinate)
    requires forall i :: 0 <= i < |calls| ==> KeepsHot(calls[i], c)
    ensures AppliedSinceSaved(calls, c) && IsFullyApplied(TrackAt(Run(calls), c))
    decreases |calls|
  {
    hide TrackAt, KeepsHot, IsFullyApplied, EffectOf, WorldOk;
    AppliedExactlySinceSaved(calls, c);
    if calls != [] {
      var front := calls[..|calls| - 1];
      HotSettingsAreApplied(front, c);
      RunIsOk(front);
      assert KeepsHot(calls[|calls| - 1], c);
      HotCallSavesHot(Run(front), calls[|calls| - 1], c);
    }
  }

  datatype Status = UNSET | APPLIED | PENDING_RELOAD | PENDING_RESTART | PENDING_DEPLOY

  function ApplicationStatus(behavior: Behavior, saved: Option<nat>, applied: Option<nat>): Status {
    if saved.None? then UNSET
    else if saved == applied then APPLIED
    else match behavior
      case Hot => APPLIED
      case Reload => PENDING_RELOAD
      case Restart => PENDING_RESTART
      case Deploy => PENDING_DEPLOY
  }

  function SavedVersion(t: Track): Option<nat> {
    if Current(t).Some? then Some(Current(t).value.version) else None
  }

  /** What the diagnostic says of `c` after the calls, under a definition with the given behaviour. */
  function Diagnosed(calls: seq<Call>, c: Coordinate, behavior: Behavior): Status {
    var t := TrackAt(Run(calls), c);
    ApplicationStatus(behavior, SavedVersion(t), t.applied)
  }

  /** The diagnostic says APPLIED exactly of what is saved and applied, and UNSET exactly of what is not saved. */
  ghost predicate IsTruthful(calls: seq<Call>, c: Coordinate, behavior: Behavior) {
    var t := TrackAt(Run(calls), c);
    && (Diagnosed(calls, c, behavior) == UNSET <==> t.entries == [])
    && (Diagnosed(calls, c, behavior) == APPLIED <==> t.entries != [] && t.applied == Some(|t.entries|))
  }

  /**
   * After every run: the diagnostic is truthful unless the definition is hot, and then it is truthful if and only if
   * the last save was itself hot or has been reported as applied.
   */
  lemma DiagnosticIsTruthfulExactly(calls: seq<Call>, c: Coordinate, behavior: Behavior)
    ensures IsTruthful(calls, c, behavior) <==> behavior != Hot || AppliedSinceSaved(calls, c)
  {
    hide WorldOk, TrackAt, Run, AppliedSinceSaved;
    RunIsOk(calls);
    AtCoordinate(Run(calls), c);
    AppliedExactlySinceSaved(calls, c);
  }

  const ACCOUNT := "01890000-0000-4000-8000-000000000000"

  /** The first save of a setting that is reloaded, by an account that may. */
  function FirstSave(): Request {
    var definition := Definition("a", Configuration, Reload, _ => true);
    Request(definition, Platform, "", 0, Actor(ACCOUNT, "", true), None, "", ACCOUNT, 0)
  }

  function OneSave(): seq<Call> {
    [WriteCall(FirstSave(), "v")]
  }

  lemma PlainTextIsKept(s: string, max: nat)
    requires IsTrimmed(s) && |s| <= max && forall i :: 0 <= i < |s| ==> s[i] <= '\U{ffff}'
    ensures JsText.NonBlank(s, max) == Some(s)
  {
    JsText.TrimIsNoOp(s);
    LengthOfAscii(s);
  }

  lemma FirstSaveTexts()
    ensures JsText.NonBlank("a", 240) == Some("a") && JsText.NonBlank("runtime-admin", 128) == Some("runtime-admin")
    ensures JsText.NonBlank("a@platform", 256) == Some("a@platform")
  {
    hide JsText.NonBlank;
    PlainTextIsKept("a", 240);
    PlainTextIsKept("runtime-admin", 128);
    PlainTextIsKept("a@platform", 256);
  }

  lemma FirstSaveAccount()
    ensures Uuids.IdentityUuid(ACCOUNT) == Some(ACCOUNT) && JsText.NonBlank(ACCOUNT, 128).Some?
  {
    hide JsText.NonBlank, Uuids.Canonical;
    assert Uuids.IsUuid(ACCOUNT, '8');
    Uuids.CanonicalIsFixed(ACCOUNT, '8');
    PlainTextIsKept(ACCOUNT, 128);
  }

  lemma FirstSaveIsAdmitted()
    ensures Checked(FirstSave(), "v") == Ok(Admitted(Coordinate("a", Platform, ""), ACCOUNT, "runtime-admin"))
    ensures Recordable(World(map[], [], {}), FirstSave(), Coordinate("a", Platform, ""))
  {
    hide JsText.NonBlank, Uuids.IdentityUuid;
    FirstSaveTexts();
    FirstSaveAccount();
    assert CoordinateId(Coordinate("a", Platform, "")) == "a@platform";
  }

  /** Saved under Reload and then diagnosed as hot, a setting is called APPLIED although nothing was ever applied. */
  lemma HotDiagnosticCanLie()
    ensures var c := Coordinate("a", Platform, "");
            && TrackAt(Run(OneSave()), c).applied == None
            && Diagnosed(OneSave(), c, Hot) == APPLIED && !IsTruthful(OneSave(), c, Hot)
  {
    hide Mutated, Checked, Recordable, FirstSave, JsText.NonBlank;
    var c, empty := Coordinate("a", Platform, ""), World(map[], [], {});
    assert OneSave()[..0] == [];
    RunIsOk([]);
    assert Run([]) == empty && TrackAt(empty, c) == EMPTY;
    FirstSaveIsAdmitted();
    FirstSaveIsFirst();
    MutationAppends(empty, FirstSave(), "v", WriteOp);
    assert Run(OneSave()) == Mutated(empty, FirstSave(), "v", WriteOp).0;
  }

  lemma FirstSaveIsFirst()
    ensures FirstSave().expectedVersion == 0 && FirstSave().definition.behavior == Reload
  {
  }
}
