/** What a caller must bring for a setting to change, and what the diagnostic then says, field by field. */
module SettingRules {
  import opened Maybe
  import opened SettingNames
  import opened Settings
  import opened SettingRuns
  import opened AuditRecorder
  import Uuids
  import JsText

  /** The text has something in it, and not more than `max` code units, without the white space around it. */
  predicate Fits(text: string, max: nat) {
    JsText.Trim(text) != "" && JsText.Length(JsText.Trim(text)) <= max
  }

  lemma CoordinatesAreTrimmed(key: string, scope: Scope, scopeRef: string)
    ensures var c := CoordinateFor(key, scope, scopeRef);
            && (c.Some? <==> Fits(key, 240) && (scopeRef != "" ==> Fits(scopeRef, 240)))
            && (c.Some? ==> c.value.key == JsText.Trim(key) && c.value.scope == scope)
            && (c.Some? ==> c.value.scopeRef == if scopeRef == "" then "" else JsText.Trim(scopeRef))
  {
    hide JsText.Trim, JsText.Length;
  }

  function SourceText(r: Request): string {
    if r.source.Some? then r.source.value else "runtime-admin"
  }

  /** Who asks may, and says who they are. */
  ghost predicate ActorMay(r: Request) {
    && r.actor.allowed && Uuids.IdentityUuid(r.actor.accountId).Some?
    && Fits(r.actor.accountId, 128) && (r.actor.sessionId != "" ==> Fits(r.actor.sessionId, 128))
  }

  /** The setting can be changed at all, is named properly, and takes the value. */
  ghost predicate DefinitionTakes(r: Request, value: Value) {
    && r.definition.kind !in {Invariant, SecretReference} && r.definition.accepts(value)
    && Fits(r.definition.key, 240) && (r.scopeRef != "" ==> Fits(r.scopeRef, 240))
  }

  /** Source, correlation and audit id can be recorded. */
  ghost predicate CanBeTraced(w: World, r: Request) {
    && Fits(SourceText(r), 128) && (r.correlationId != "" ==> Fits(r.correlationId, 128))
    && Uuids.IdentityUuid(r.auditDraw).Some? && Uuids.IdentityUuid(r.auditDraw).value !in w.auditIds
  }

  /** A change succeeds if and only if all of this holds and the version is the current one; nothing else matters. */
  lemma MutationSucceedsExactly(w: World, r: Request, value: Value, operation: Operation)
    requires WorldOk(w)
    ensures Mutated(w, r, value, operation).1.Ok? <==>
            && ActorMay(r) && DefinitionTakes(r, value) && CanBeTraced(w, r)
            && var c := Coordinate(JsText.Trim(r.definition.key), r.scope,
                                   if r.scopeRef == "" then "" else JsText.Trim(r.scopeRef));
               r.expectedVersion == |TrackAt(w, c).entries| && Fits(CoordinateId(c), 256)
  {
    hide JsText.Trim, JsText.Length, Uuids.IdentityUuid, WorldOk, CoordinateId, Mutated, CoordinateFor;
    MutationAppends(w, r, value, operation);
    CoordinatesAreTrimmed(r.definition.key, r.scope, r.scopeRef);
  }

  /** What a successful change records of its request. */
  lemma RecordSaysWhoAndWhy(w: World, r: Request, value: Value, operation: Operation)
    requires Mutated(w, r, value, operation).1.Ok?
    ensures var record := Mutated(w, r, value, operation).1.value;
            && Uuids.IdentityUuid(r.actor.accountId) == Some(record.savedBy)
            && record.source == JsText.Trim(SourceText(r)) && record.savedAt == r.now && record.value == value
            && record.version == r.expectedVersion + 1
  {
    hide JsText.Trim, JsText.Length, Uuids.IdentityUuid, CoordinateId, CoordinateFor, Recordable;
  }

  /** A rollback is refused to whoever may not write, and needs a version of the history. */
  lemma RollbackNeedsHistory(w: World, r: Request, target: nat)
    ensures RolledBack(w, r, target).1.Ok? ==>
              && r.actor.allowed && Fits(r.definition.key, 240)
              && var c := Coordinate(JsText.Trim(r.definition.key), r.scope,
                                     if r.scopeRef == "" then "" else JsText.Trim(r.scopeRef));
                 1 <= target <= |TrackAt(w, c).entries|
  {
    hide JsText.Trim, JsText.Length, Mutated, CoordinateFor;
    CoordinatesAreTrimmed(r.definition.key, r.scope, r.scopeRef);
  }

  /** What the diagnostic says, for each behaviour. */
  lemma DiagnosticSays(calls: seq<Call>, c: Coordinate, behavior: Behavior)
    ensures var t := TrackAt(Run(calls), c);
            Diagnosed(calls, c, behavior)
            == if t.entries == [] then UNSET
               else if t.applied == Some(|t.entries|) || behavior == Hot then APPLIED
               else if behavior == Reload then PENDING_RELOAD
               else if behavior == Restart then PENDING_RESTART
               else PENDING_DEPLOY
  {
    hide WorldOk, TrackAt, Run;
    RunIsOk(calls);
    AtCoordinate(Run(calls), c);
  }
}
