/** Versioned settings: writes, rollbacks and application, with one audit entry for each change. */
module Settings {
  import opened Maybe
  import opened SettingNames
  import opened AuditRecorder
  import JsText
  import Uuids

  type Value = string   // the serialised value
  type Time = int

  datatype Operation = WriteOp | RollbackOp(from: nat)

  datatype Record = Record(coordinate: Coordinate, value: Value, version: nat, savedAt: Time, savedBy: string,
      source: string)

  datatype Entry = Entry(record: Record, operation: Operation)

  datatype Candidate = Candidate(
    coordinate: Coordinate, value: Value, expectedVersion: nat, savedAt: Time, savedBy: string, source: string,
      operation: Operation)

  datatype WriteResult = Written(record: Record) | Conflict(currentVersion: nat)

  datatype ApplyResult = Applied | VersionMismatch | Missing

  // ---- One coordinate of a store ----

  datatype Track = Track(entries: seq<Entry>, applied: Option<nat>)

  const EMPTY := Track([], None)

  function Current(t: Track): Option<Record> {
    if t.entries == [] then None else Some(t.entries[|t.entries| - 1].record)
  }

  function RecordOf(c: Candidate): Record {
    Record(c.coordinate, c.value, c.expectedVersion + 1, c.savedAt, c.savedBy, c.source)
  }

  function CompareAndWrite(t: Track, c: Candidate): (Track, WriteResult) {
    if |t.entries| != c.expectedVersion then (t, Conflict(|t.entries|))
    else (t.(entries := t.entries + [Entry(RecordOf(c), c.operation)]), Written(RecordOf(c)))
  }

  function MarkApplied(t: Track, version: nat): (Track, ApplyResult) {
    if t.entries == [] then (t, Missing)
    else if |t.entries| != version then (t, VersionMismatch)
    else (t.(applied := Some(version)), Applied)
  }

  function FindVersion(t: Track, version: nat): Option<Entry> {
    if 1 <= version <= |t.entries| then Some(t.entries[version - 1]) else None
  }

  /** Versions 1..n, in order, all of this coordinate; whatever is applied has been saved. */
  ghost predicate TrackOk(t: Track, c: Coordinate) {
    && (forall i :: 0 <= i < |t.entries| ==>
       t.entries[i].record.version == i + 1 && t.entries[i].record.coordinate == c)
    && (t.applied.Some? ==> 1 <= t.applied.value <= |t.entries|)
  }

  // ---- The service ----

  datatype Kind = Configuration | Preference | FeatureFlag | SecurityPolicy | SecretReference | Invariant

  datatype Behavior = Hot | Reload | Restart | Deploy

  /** `accepts` is the definition's own validation of a value. */
  datatype Definition = Definition(key: string, kind: Kind, behavior: Behavior, accepts: Value -> bool)

  /** Who asks; `allowed` is the outcome of the permission and assurance checks. */
  datatype Actor = Actor(accountId: string, sessionId: string, allowed: bool)

  datatype Change = Change(coordinate: Coordinate, version: nat, operation: Operation)

  datatype AuditEntry = Changed(change: Change) | MarkedApplied(coordinate: Coordinate, version: nat)

  datatype Error =
    | Forbidden | Immutable | InvalidVersion | InvalidAccount | InvalidSource | InvalidCoordinate | InvalidValue
    | HistoryNotFound | VersionConflict(expected: nat, current: nat) | ApplicationMismatch | AuditRefused

  /** `auditIds` are the ids in use in the audit log, whoever wrote them. */
  datatype World = World(tracks: map<Coordinate, Track>, audit: seq<AuditEntry>, auditIds: set<string>)

  datatype Request = Request(
    definition: Definition, scope: Scope, scopeRef: string, expectedVersion: int, actor: Actor,
    source: Option<string>, correlationId: string, auditDraw: string, now: Time)

  function TrackAt(w: World, c: Coordinate): Track {
    if c in w.tracks then w.tracks[c] else EMPTY
  }

  function SourceOf(r: Request): Option<string> {
    JsText.NonBlank(if r.source.Some? then r.source.value else "runtime-admin", 128)
  }

  predicate IsImmutable(d: Definition) {
    d.kind == Invariant || d.kind == SecretReference
  }

  /** What the checks leave of a request: its coordinate, the acting account and the source. */
  datatype Admitted = Admitted(coordinate: Coordinate, account: string, source: string)

  /** Every check made before the store is touched. */
  function Checked(r: Request, value: Value): Result<Admitted, Error> {
    if !r.actor.allowed then Err(Forbidden)
    else if IsImmutable(r.definition) then Err(Immutable)
    else if r.expectedVersion < 0 then Err(InvalidVersion)
    else if Uuids.IdentityUuid(r.actor.accountId).None? then Err(InvalidAccount)
    else if SourceOf(r).None? then Err(InvalidSource)
    else if CoordinateFor(r.definition.key, r.scope, r.scopeRef).None? then Err(InvalidCoordinate)
    else if !r.definition.accepts(value) then Err(InvalidValue)
    else
      Ok(Admitted(CoordinateFor(r.definition.key, r.scope, r.scopeRef).value,
                  Uuids.IdentityUuid(r.actor.accountId).value, SourceOf(r).value))
  }

  /** The id under which an entry is recorded. */
  function AuditId(draw: string): string {
    if Uuids.IdentityUuid(draw).Some? then Uuids.IdentityUuid(draw).value else ""
  }

  predicate AuditIdIsFree(w: World, draw: string) {
    Uuids.IdentityUuid(draw).Some? && AuditId(draw) !in w.auditIds
  }

  /** The audit recorder's own tests and the key of its table, met when the change has already been written. */
  predicate Recordable(w: World, r: Request, c: Coordinate) {
    && AuditIdIsFree(w, r.auditDraw)
    && JsText.NonBlank(r.actor.accountId, 128).Some? && AcceptsSession(r.actor.sessionId)
    && AcceptsResource(CoordinateId(c))
    && AcceptsCorrelation(r.correlationId)
  }

  function CandidateFor(r: Request, a: Admitted, value: Value, operation: Operation): Candidate
    requires r.expectedVersion >= 0
  {
    Candidate(a.coordinate, value, r.expectedVersion, r.now, a.account, a.source, operation)
  }

  /** A change that cannot be recorded is rolled back. */
  function Mutated(w: World, r: Request, value: Value, operation: Operation): (World, Result<Record, Error>) {
    match Checked(r, value)
    case Err(e) => (w, Err(e))
    case Ok(a) =>
      var c := a.coordinate;
      var (t, result) := CompareAndWrite(TrackAt(w, c), CandidateFor(r, a, value, operation));
      match result
      case Conflict(v) => (w, Err(VersionConflict(r.expectedVersion, v)))
      case Written(record) =>
        if !Recordable(w, r, c) then (w, Err(AuditRefused))
        else
          var applied := if r.definition.behavior == Hot then MarkApplied(t, record.version).0 else t;
          (World(w.tracks[c := applied], w.audit + [Changed(Change(c, record.version, operation))],
                 w.auditIds + {AuditId(r.auditDraw)}),
           Ok(record))
  }

  function RolledBack(w: World, r: Request, target: nat): (World, Result<Record, Error>) {
    if !r.actor.allowed then (w, Err(Forbidden))
    else
      match CoordinateFor(r.definition.key, r.scope, r.scopeRef)
      case None => (w, Err(InvalidCoordinate))
      case Some(c) =>
        match FindVersion(TrackAt(w, c), target)
        case None => (w, Err(HistoryNotFound))
        case Some(entry) => Mutated(w, r, entry.record.value, RollbackOp(target))
  }

  /** A runtime reporting which version it applied. */
  datatype Report = Report(
    definition: Definition, scope: Scope, scopeRef: string, version: nat, systemId: string, correlationId: string,
    auditDraw: string)

  predicate ReportRecordable(w: World, p: Report, c: Coordinate) {
    && AuditIdIsFree(w, p.auditDraw)
    && JsText.NonBlank(p.systemId, 128).Some?
    && AcceptsResource(CoordinateId(c))
    && AcceptsCorrelation(p.correlationId)
  }

  function Application(w: World, p: Report): (World, Result<(), Error>) {
    match CoordinateFor(p.definition.key, p.scope, p.scopeRef)
    case None => (w, Err(InvalidCoordinate))
    case Some(c) =>
      var (t, result) := MarkApplied(TrackAt(w, c), p.version);
      if result != Applied then (w, Err(ApplicationMismatch))
      else if !ReportRecordable(w, p, c) then (w, Err(AuditRefused))
      else
        (World(w.tracks[c := t], w.audit + [MarkedApplied(c, p.version)], w.auditIds + {AuditId(p.auditDraw)}), Ok(()))
  }

  /** The service over its store and audit log; a request that fails leaves no trace. */
  class SettingsRuntimeService {
    var tracks: map<Coordinate, Track>
    var audit: seq<AuditEntry>
    var auditIds: set<string>

    constructor ()
      ensures Now() == World(map[], [], {})
    {
      tracks := map[];
      audit := [];
      auditIds := {};
    }

    function Now(): World
      reads this
    {
      World(tracks, audit, auditIds)
    }

    method Write(r: Request, value: Value) returns (res: Result<Record, Error>)
      modifies this
      ensures (Now(), res) == Mutated(old(Now()), r, value, WriteOp)
    {
      res := Mutate(r, value, WriteOp);
    }

    method Rollback(r: Request, target: nat) returns (res: Result<Record, Error>)
      modifies this
      ensures (Now(), res) == RolledBack(old(Now()), r, target)
    {
      if !r.actor.allowed { return Err(Forbidden); }
      var coordinate := CoordinateFor(r.definition.key, r.scope, r.scopeRef);
      if coordinate.None? { return Err(InvalidCoordinate); }
      var historical := FindVersion(TrackAt(Now(), coordinate.value), target);
      if historical.None? { return Err(HistoryNotFound); }
      res := Mutate(r, historical.value.record.value, RollbackOp(target));
    }

    method MarkVersionApplied(p: Report) returns (res: Result<(), Error>)
      modifies this
      ensures (Now(), res) == Application(old(Now()), p)
    {
      hide AcceptsResource, AcceptsCorrelation, CoordinateFor, CoordinateId;
      var coordinate := CoordinateFor(p.definition.key, p.scope, p.scopeRef);
      if coordinate.None? { return Err(InvalidCoordinate); }
      var c := coordinate.value;
      var (track, result) := MarkApplied(TrackAt(Now(), c), p.version);
      if result != Applied { return Err(ApplicationMismatch); }
      if !AuditIdIsFree(Now(), p.auditDraw) || JsText.NonBlank(p.systemId, 128).None? { return Err(AuditRefused); }
      if !AcceptsResource(CoordinateId(c)) || !AcceptsCorrelation(p.correlationId) {
        return Err(AuditRefused);
      }
      tracks := tracks[c := track];
      audit := audit + [MarkedApplied(c, p.version)];
      auditIds := auditIds + {AuditId(p.auditDraw)};
      return Ok(());
    }

    method Mutate(r: Request, value: Value, operation: Operation) returns (res: Result<Record, Error>)
      modifies this
      ensures (Now(), res) == Mutated(old(Now()), r, value, operation)
    {
      hide Recordable, CoordinateFor, JsText.NonBlank, Uuids.IdentityUuid;
      if !r.actor.allowed { return Err(Forbidden); }
      if IsImmutable(r.definition) { return Err(Immutable); }
      if r.expectedVersion < 0 { return Err(InvalidVersion); }
      var account := Uuids.IdentityUuid(r.actor.accountId);
      if account.None? { return Err(InvalidAccount); }
      var source := SourceOf(r);
      if source.None? { return Err(InvalidSource); }
      var coordinate := CoordinateFor(r.definition.key, r.scope, r.scopeRef);
      if coordinate.None? { return Err(InvalidCoordinate); }
      if !r.definition.accepts(value) { return Err(InvalidValue); }
      var c := coordinate.value;
      var candidate := Candidate(c, value, r.expectedVersion, r.now, account.value, source.value, operation);
      var (track, result) := CompareAndWrite(TrackAt(Now(), c), candidate);
      if result.Conflict? { return Err(VersionConflict(r.expectedVersion, result.currentVersion)); }
      if !Recordable(Now(), r, c) { return Err(AuditRefused); }
      if r.definition.behavior == Hot { track := MarkApplied(track, result.record.version).0; }
      tracks := tracks[c := track];
      audit := audit + [Changed(Change(c, result.record.version, operation))];
      auditIds := auditIds + {AuditId(r.auditDraw)};
      return Ok(result.record);
    }
  }
}
