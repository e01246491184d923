/** The two settings stores: Maps keyed by one string, and tables keyed by the whole coordinate. */
module SettingsStores {
  import opened Maybe
  import opened SettingNames
  import opened Settings

  const NUL: char := '\0'
  const MAX_HISTORY := 100

  datatype StoreError = InvalidLimit | TextRefused

  function KeyOf(c: Coordinate): string {
    c.key + [NUL] + (ScopeName(c.scope) + [NUL] + c.scopeRef)
  }

  predicate NulFree(c: Coordinate) {
    NUL !in c.key
  }

  /** A text column takes any text without NUL. */
  predicate IsText(s: string) {
    NUL !in s
  }

  predicate IsStorableAt(c: Coordinate) {
    IsText(c.key) && IsText(c.scopeRef)
  }

  predicate IsStorable(c: Candidate) {
    IsStorableAt(c.coordinate) && IsText(c.savedBy) && IsText(c.source)
  }

  lemma KeyOfIsInjective(c: Coordinate, d: Coordinate)
    requires NulFree(c) && NulFree(d) && KeyOf(c) == KeyOf(d)
    ensures c == d
  {
    ScopeNamesDiffer(c.scope, d.scope);
    ScopeNamesDiffer(d.scope, c.scope);
    hide ScopeName;
    SplitsOnce(c.key, d.key, ScopeName(c.scope) + [NUL] + c.scopeRef, ScopeName(d.scope) + [NUL] + d.scopeRef, NUL);
    SplitsOnce(ScopeName(c.scope), ScopeName(d.scope), c.scopeRef, d.scopeRef, NUL);
  }

  /** The newest `limit` entries, newest first. */
  function NewestFirst(t: Track, limit: nat): (r: seq<Entry>)
    ensures |r| == if limit < |t.entries| then limit else |t.entries|
    ensures forall i :: 0 <= i < |r| ==> r[i] == t.entries[|t.entries| - 1 - i]
  {
    var n := |t.entries|;
    seq(if limit < n then limit else n, i requires 0 <= i < n => t.entries[n - 1 - i])
  }

  function LastN(entries: seq<Entry>, limit: nat): seq<Entry> {
    if limit < |entries| then entries[|entries| - limit..] else entries
  }

  function Reversed(entries: seq<Entry>): (r: seq<Entry>)
    ensures |r| == |entries|
  {
    if entries == [] then [] else Reversed(entries[1..]) + [entries[0]]
  }

  lemma {:induction false} ReversedAt(entries: seq<Entry>, i: nat)
    requires i < |entries|
    ensures Reversed(entries)[i] == entries[|entries| - 1 - i]
  {
    if i < |entries| - 1 { ReversedAt(entries[1..], i); }
  }

  lemma LastReversedIsNewestFirst(t: Track, limit: nat)
    ensures Reversed(LastN(t.entries, limit)) == NewestFirst(t, limit)
  {
    var last := LastN(t.entries, limit);
    forall i | 0 <= i < |last| ensures Reversed(last)[i] == NewestFirst(t, limit)[i] {
      ReversedAt(last, i);
    }
  }

  function FindFirst(entries: seq<Entry>, version: nat): Option<Entry>
    decreases |entries|
  {
    if entries == [] then None
    else if entries[0].record.version == version then Some(entries[0])
    else FindFirst(entries[1..], version)
  }

  lemma {:induction false} FindFirstAmongVersions(entries: seq<Entry>, from: nat, version: nat)
    requires forall i :: 0 <= i < |entries| ==> entries[i].record.version == from + i
    ensures FindFirst(entries, version) == if from <= version < from + |entries| then Some(entries[version - from])
            else None
    decreases |entries|
  {
    if entries != [] { FindFirstAmongVersions(entries[1..], from + 1, version); }
  }

  // ---- In memory ----

  datatype Maps = Maps(current: map<string, Record>, history: map<string, seq<Entry>>, applied: map<string, nat>)

  function TrackAtKey(m: Maps, key: string): Track {
    Track(if key in m.history then m.history[key] else [], if key in m.applied then Some(m.applied[key]) else None)
  }

  ghost predicate MapsOk(m: Maps) {
    && m.current.Keys == m.history.Keys
    && (forall k :: k in m.history ==> m.history[k] != [] && m.current[k] == m.history[k][|m.history[k]| - 1].record)
    && (forall k :: k in m.history ==> Versioned(m.history[k]))
  }

  ghost predicate Versioned(entries: seq<Entry>) {
    forall i :: 0 <= i < |entries| ==> entries[i].record.version == i + 1
  }

  function VersionAtKey(m: Maps, key: string): nat {
    if key in m.current then m.current[key].version else 0
  }

  lemma VersionIsLength(m: Maps, key: string)
    requires MapsOk(m)
    ensures VersionAtKey(m, key) == |TrackAtKey(m, key).entries|
    ensures key in m.current <==> TrackAtKey(m, key).entries != []
  {
    if key in m.history { assert Versioned(m.history[key]); }
  }

  lemma AppendedMapsAreOk(m: Maps, key: string, entry: Entry)
    requires MapsOk(m) && entry.record.version == VersionAtKey(m, key) + 1
    ensures var entries := TrackAtKey(m, key).entries + [entry];
            var m' := Maps(m.current[key := entry.record], m.history[key := entries], m.applied);
            && MapsOk(m')
            && TrackAtKey(m', key) == Track(entries, TrackAtKey(m, key).applied)
            && forall k :: k != key ==> TrackAtKey(m', k) == TrackAtKey(m, k)
  {
    hide Versioned;
    VersionIsLength(m, key);
    StillVersioned(TrackAtKey(m, key).entries, entry);
  }

  lemma StillVersioned(entries: seq<Entry>, entry: Entry)
    ensures Versioned([])
    ensures Versioned(entries) && entry.record.version == |entries| + 1 ==> Versioned(entries + [entry])
  {
  }

  class MemorySettingsValueStore {
    var maps: Maps

    constructor ()
      ensures MapsOk(maps) && forall k :: TrackAtKey(maps, k) == EMPTY
    {
      maps := Maps(map[], map[], map[]);
    }

    method FindCurrent(c: Coordinate) returns (r: Option<Record>)
      requires MapsOk(maps)
      ensures r == Current(TrackAtKey(maps, KeyOf(c)))
    {
      var key := KeyOf(c);
      r := if key in maps.current then Some(maps.current[key]) else None;
    }

    method FindHistoryVersion(c: Coordinate, version: nat) returns (r: Option<Entry>)
      requires MapsOk(maps)
      ensures r == FindVersion(TrackAtKey(maps, KeyOf(c)), version)
    {
      var key := KeyOf(c);
      r := None;
      if key in maps.history {
        r := FindFirst(maps.history[key], version);
        assert Versioned(maps.history[key]);
        FindFirstAmongVersions(maps.history[key], 1, version);
      }
    }

    method ListHistory(c: Coordinate, limit: int) returns (r: Result<seq<Entry>, StoreError>)
      requires MapsOk(maps)
      ensures r == if 1 <= limit <= MAX_HISTORY then Ok(NewestFirst(TrackAtKey(maps, KeyOf(c)), limit))
              else Err(InvalidLimit)
    {
      if limit < 1 || limit > MAX_HISTORY { return Err(InvalidLimit); }
      LastReversedIsNewestFirst(TrackAtKey(maps, KeyOf(c)), limit);
      var entries := if KeyOf(c) in maps.history then maps.history[KeyOf(c)] else [];
      return Ok(Reversed(LastN(entries, limit)));
    }

    method WriteValue(c: Candidate) returns (r: WriteResult)
      requires MapsOk(maps)
      modifies this
      ensures MapsOk(maps)
      ensures (TrackAtKey(maps, KeyOf(c.coordinate)), r)
              == CompareAndWrite(old(TrackAtKey(maps, KeyOf(c.coordinate))), c)
      ensures forall k :: k != KeyOf(c.coordinate) ==> TrackAtKey(maps, k) == old(TrackAtKey(maps, k))
    {
      hide MapsOk, KeyOf;
      var key := KeyOf(c.coordinate);
      var currentVersion := VersionAtKey(maps, key);
      VersionIsLength(maps, key);
      if currentVersion != c.expectedVersion { return Conflict(currentVersion); }
      var record := Record(c.coordinate, c.value, currentVersion + 1, c.savedAt, c.savedBy, c.source);
      AppendedMapsAreOk(maps, key, Entry(record, c.operation));
      var entries := if key in maps.history then maps.history[key] else [];
      maps := maps.(current := maps.current[key := record],
        history := maps.history[key := entries + [Entry(record, c.operation)]]);
      return Written(record);
    }

    method MarkVersionApplied(c: Coordinate, version: nat) returns (r: ApplyResult)
      requires MapsOk(maps)
      modifies this
      ensures MapsOk(maps)
      ensures (TrackAtKey(maps, KeyOf(c)), r) == MarkApplied(old(TrackAtKey(maps, KeyOf(c))), version)
      ensures forall k :: k != KeyOf(c) ==> TrackAtKey(maps, k) == old(TrackAtKey(maps, k))
    {
      hide KeyOf;
      var key := KeyOf(c);
      VersionIsLength(maps, key);
      if key !in maps.current { return Missing; }
      if maps.current[key].version != version { return VersionMismatch; }
      maps := maps.(applied := maps.applied[key := version]);
      return Applied;
    }
  }

  // ---- In SQL ----

  datatype SqlTables = SqlTables(values: map<Coordinate, Record>, rows: map<(Coordinate, nat), Entry>,
      application: map<Coordinate, nat>)

  /** Exactly the history rows 1..version of every value, the last of them its current record. */
  ghost predicate TablesOk(t: SqlTables) {
    && (forall c :: c in t.values ==>
       t.values[c].version >= 1 && (c, t.values[c].version) in t.rows
       && t.rows[(c, t.values[c].version)].record == t.values[c])
    && (forall c, v :: (c, v) in t.rows <==> c in t.values && 1 <= v <= t.values[c].version)
    && (forall c, v :: (c, v) in t.rows ==> t.rows[(c, v)].record.version == v)
  }

  function RowsOf(t: SqlTables, c: Coordinate): (entries: seq<Entry>)
    requires TablesOk(t)
    ensures |entries| == if c in t.values then t.values[c].version else 0
    ensures forall i :: 0 <= i < |entries| ==> (c, i + 1) in t.rows && entries[i] == t.rows[(c, i + 1)]
  {
    if c in t.values then seq(t.values[c].version, i requires 0 <= i < t.values[c].version => t.rows[(c, i + 1)])
      else []
  }

  function TrackIn(t: SqlTables, c: Coordinate): Track
    requires TablesOk(t)
  {
    Track(RowsOf(t, c), if c in t.application then Some(t.application[c]) else None)
  }

  /** ORDER BY version DESC LIMIT. */
  ghost predicate IsPage(t: SqlTables, r: seq<Entry>, c: Coordinate, limit: nat) {
    && |r| <= limit
    && (forall i :: 0 <= i < |r| ==> (c, r[i].record.version) in t.rows && t.rows[(c, r[i].record.version)] == r[i])
    && (forall i, j :: 0 <= i < j < |r| ==> r[i].record.version > r[j].record.version)
    && (forall v :: (c, v) in t.rows && t.rows[(c, v)] !in r ==>
       |r| == limit && forall i :: 0 <= i < |r| ==> r[i].record.version > v)
  }

  lemma NewestFirstIsAPage(t: SqlTables, c: Coordinate, limit: nat)
    requires TablesOk(t)
    ensures IsPage(t, NewestFirst(TrackIn(t, c), limit), c, limit)
  {
    var entries, r := RowsOf(t, c), NewestFirst(TrackIn(t, c), limit);
    var n := |entries|;
    forall i | 0 <= i < |r| ensures r[i].record.version == n - i && (c, n - i) in t.rows && r[i] == t.rows[(c, n - i)] {
      assert r[i] == entries[n - 1 - i];
    }
    forall v | (c, v) in t.rows && n - |r| < v ensures t.rows[(c, v)] in r {
      assert r[n - v] == entries[v - 1];
    }
  }

  lemma AppendedTablesAreOk(t: SqlTables, entry: Entry)
    requires TablesOk(t)
    requires var c := entry.record.coordinate; entry.record.version == |RowsOf(t, c)| + 1
    ensures var c := entry.record.coordinate;
            var u := t.(values := t.values[c := entry.record], rows := t.rows[(c, entry.record.version) := entry]);
            && TablesOk(u)
            && TrackIn(u, c) == Track(RowsOf(t, c) + [entry], TrackIn(t, c).applied)
            && forall d :: d != c ==> TrackIn(u, d) == TrackIn(t, d)
  {
    var c := entry.record.coordinate;
    var u := t.(values := t.values[c := entry.record], rows := t.rows[(c, entry.record.version) := entry]);
    assert TablesOk(u);
    assert RowsOf(u, c) == RowsOf(t, c) + [entry];
    forall d | d != c ensures RowsOf(u, d) == RowsOf(t, d) {
    }
  }

  class PostgresSettingsValueStore {
    var tables: SqlTables

    constructor ()
      ensures TablesOk(tables) && forall c :: TrackIn(tables, c) == EMPTY
    {
      tables := SqlTables(map[], map[], map[]);
    }

    method FindCurrent(c: Coordinate) returns (r: Result<Option<Record>, StoreError>)
      requires TablesOk(tables)
      ensures r == if IsStorableAt(c) then Ok(Current(TrackIn(tables, c))) else Err(TextRefused)
    {
      if !IsStorableAt(c) { return Err(TextRefused); }
      return Ok(if c in tables.values then Some(tables.values[c]) else None);
    }

    method FindHistoryVersion(c: Coordinate, version: nat) returns (r: Result<Option<Entry>, StoreError>)
      requires TablesOk(tables)
      ensures r == if IsStorableAt(c) then Ok(FindVersion(TrackIn(tables, c), version)) else Err(TextRefused)
    {
      if !IsStorableAt(c) { return Err(TextRefused); }
      return Ok(if (c, version) in tables.rows then Some(tables.rows[(c, version)]) else None);
    }

    method ListHistory(c: Coordinate, limit: int) returns (r: Result<seq<Entry>, StoreError>)
      requires TablesOk(tables)
      ensures r == if !(1 <= limit <= MAX_HISTORY) then Err(InvalidLimit)
              else if !IsStorableAt(c) then Err(TextRefused)
              else Ok(NewestFirst(TrackIn(tables, c), limit))
      ensures r.Ok? ==> IsPage(tables, r.value, c, limit)
    {
      if limit < 1 || limit > MAX_HISTORY { return Err(InvalidLimit); }
      if !IsStorableAt(c) { return Err(TextRefused); }
      NewestFirstIsAPage(tables, c, limit);
      return Ok(NewestFirst(TrackIn(tables, c), limit));
    }

    method WriteValue(c: Candidate) returns (r: Result<WriteResult, StoreError>)
      requires TablesOk(tables)
      modifies this
      ensures TablesOk(tables)
      ensures if IsStorable(c) then r.Ok? && (TrackIn(tables, c.coordinate), r.value)
                                             == CompareAndWrite(old(TrackIn(tables, c.coordinate)), c)
              else r == Err(TextRefused) && tables == old(tables)
      ensures forall d :: d != c.coordinate ==> TrackIn(tables, d) == old(TrackIn(tables, d))
    {
      if !IsStorable(c) { return Err(TextRefused); }
      var at := c.coordinate;
      var version := if at in tables.values then tables.values[at].version else 0;
      hide TablesOk, RowsOf;
      var written: Option<Record> := None;
      if c.expectedVersion == 0 {
        if at !in tables.values { written := Some(Record(at, c.value, 1, c.savedAt, c.savedBy, c.source)); }
      } else {
        if at in tables.values && tables.values[at].version == c.expectedVersion {
          written := Some(Record(at, c.value, version + 1, c.savedAt, c.savedBy, c.source));
        }
      }
      if written.None? { ExistingVersionIsPositive(tables, at); return Ok(Conflict(version)); }
      AppendedTablesAreOk(tables, Entry(written.value, c.operation));
      tables := tables.(values := tables.values[at := written.value],
        rows := tables.rows[(at, written.value.version) := Entry(written.value, c.operation)]);
      return Ok(Written(written.value));
    }

    method MarkVersionApplied(c: Coordinate, version: nat) returns (r: Result<ApplyResult, StoreError>)
      requires TablesOk(tables)
      modifies this
      ensures TablesOk(tables)
      ensures if IsStorableAt(c) then r.Ok? && (TrackIn(tables, c), r.value)
                                               == MarkApplied(old(TrackIn(tables, c)), version)
              else r == Err(TextRefused) && tables == old(tables)
      ensures forall d :: d != c ==> TrackIn(tables, d) == old(TrackIn(tables, d))
    {
      if !IsStorableAt(c) { return Err(TextRefused); }
      if c !in tables.values { return Ok(Missing); }
      if tables.values[c].version != version { return Ok(VersionMismatch); }
      tables := tables.(application := tables.application[c := version]);
      return Ok(Applied);
    }
  }

  lemma ExistingVersionIsPositive(t: SqlTables, c: Coordinate)
    requires TablesOk(t)
    ensures c in t.values ==> t.values[c].version >= 1
  {
  }

  // ---- The same answers ----

  datatype StoreCall = WriteOne(candidate: Candidate) | ApplyOne(coordinate: Coordinate, version: nat)

  datatype Answer = WriteAnswer(w: WriteResult) | ApplyAnswer(a: ApplyResult)

  function CoordinateOf(call: StoreCall): Coordinate {
    match call
    case WriteOne(candidate) => candidate.coordinate
    case ApplyOne(coordinate, _) => coordinate
  }

  function Answered(t: Track, call: StoreCall): (Track, Answer) {
    match call
    case WriteOne(candidate) => var (u, w) := CompareAndWrite(t, candidate); (u, WriteAnswer(w))
    case ApplyOne(_, version) => var (u, a) := MarkApplied(t, version); (u, ApplyAnswer(a))
  }

  function AtKey(m: map<string, Track>, key: string): Track {
    if key in m then m[key] else EMPTY
  }

  function AtCoordinate(s: map<Coordinate, Track>, c: Coordinate): Track {
    if c in s then s[c] else EMPTY
  }

  /** The tracks of the memory store, as its methods specify them. */
  function MemoryRun(calls: seq<StoreCall>): map<string, Track>
    decreases |calls|
  {
    if calls == [] then map[]
    else
      var m, call := MemoryRun(calls[..|calls| - 1]), calls[|calls| - 1];
      var key := KeyOf(CoordinateOf(call));
      m[key := Answered(AtKey(m, key), call).0]
  }

  /** The tracks of a store that keeps every coordinate to itself and accepts every text. */
  function CoordinateRun(calls: seq<StoreCall>): map<Coordinate, Track>
    decreases |calls|
  {
    if calls == [] then map[]
    else
      var s, call := CoordinateRun(calls[..|calls| - 1]), calls[|calls| - 1];
      s[CoordinateOf(call) := Answered(AtCoordinate(s, CoordinateOf(call)), call).0]
  }

  predicate Accepts(call: StoreCall) {
    match call
    case WriteOne(candidate) => IsStorable(candidate)
    case ApplyOne(coordinate, _) => IsStorableAt(coordinate)
  }

  /** The tracks of the SQL store, as its methods specify them. */
  function SqlRun(calls: seq<StoreCall>): map<Coordinate, Track>
    decreases |calls|
  {
    if calls == [] then map[]
    else
      var s, call := SqlRun(calls[..|calls| - 1]), calls[|calls| - 1];
      if !Accepts(call) then s
      else s[CoordinateOf(call) := Answered(AtCoordinate(s, CoordinateOf(call)), call).0]
  }

  ghost predicate Separated(coordinates: set<Coordinate>) {
    forall c, d :: c in coordinates && d in coordinates && KeyOf(c) == KeyOf(d) ==> c == d
  }

  predicate Within(calls: seq<StoreCall>, coordinates: set<Coordinate>) {
    forall i :: 0 <= i < |calls| ==> CoordinateOf(calls[i]) in coordinates
  }

  /** Whoever writes is named in texts that a table accepts. */
  predicate AreSigned(calls: seq<StoreCall>) {
    forall i :: 0 <= i < |calls| && calls[i].WriteOne? ==>
      IsText(calls[i].candidate.savedBy) && IsText(calls[i].candidate.source)
  }

  ghost predicate KeptApartAt(calls: seq<StoreCall>, c: Coordinate) {
    AtKey(MemoryRun(calls), KeyOf(c)) == AtCoordinate(CoordinateRun(calls), c)
  }

  ghost predicate AgreeAt(calls: seq<StoreCall>, c: Coordinate) {
    AtKey(MemoryRun(calls), KeyOf(c)) == AtCoordinate(SqlRun(calls), c)
  }

  lemma {:induction false} SeparatedAreKeptApart(calls: seq<StoreCall>, coordinates: set<Coordinate>, c: Coordinate)
    requires Separated(coordinates) && Within(calls, coordinates) && c in coordinates
    ensures KeptApartAt(calls, c)
    decreases |calls|
  {
    if calls != [] {
      hide KeyOf, Answered, CoordinateOf;
      var front, d := calls[..|calls| - 1], CoordinateOf(calls[|calls| - 1]);
      SeparatedAreKeptApart(front, coordinates, c);
      SeparatedAreKeptApart(front, coordinates, d);
    }
  }

  /** The first write of a coordinate, with nothing in it to refuse. */
  function FirstWrite(c: Coordinate): StoreCall {
    WriteOne(Candidate(c, "", 0, 0, "u", "s", WriteOp))
  }

  /** With a shared key the memory store mistakes one coordinate for another. */
  lemma SharedKeyMisleads(c: Coordinate, d: Coordinate)
    requires c != d && KeyOf(c) == KeyOf(d)
    ensures !KeptApartAt([FirstWrite(c)], d)
  {
    hide KeyOf;
    assert [FirstWrite(c)][..0] == [];
    assert MemoryRun([]) == map[] && CoordinateRun([]) == map[];
  }

  /** Over a set of coordinates the memory store never confuses two of them exactly when no two share a key. */
  lemma MemoryKeepsApartExactlyWhenSeparated(coordinates: set<Coordinate>)
    ensures (forall calls, c :: Within(calls, coordinates) && c in coordinates ==> KeptApartAt(calls, c)) <==>
            Separated(coordinates)
  {
    hide KeptApartAt, KeyOf, FirstWrite;
    if Separated(coordinates) {
      forall calls, c | Within(calls, coordinates) && c in coordinates ensures KeptApartAt(calls, c) {
        SeparatedAreKeptApart(calls, coordinates, c);
      }
    } else {
      var c, d :| c in coordinates && d in coordinates && KeyOf(c) == KeyOf(d) && c != d;
      SharedKeyMisleads(c, d);
      FirstWriteIsWithin(c, coordinates);
    }
  }

  lemma FirstWriteIsWithin(c: Coordinate, coordinates: set<Coordinate>)
    requires c in coordinates
    ensures Within([FirstWrite(c)], coordinates) && AreSigned([FirstWrite(c)])
  {
  }

  /** Keys without NUL are separated. */
  lemma NulFreeIsSeparated(coordinates: set<Coordinate>)
    requires forall c :: c in coordinates ==> NulFree(c)
    ensures Separated(coordinates)
  {
    hide KeyOf, NulFree;
    forall c, d | c in coordinates && d in coordinates && KeyOf(c) == KeyOf(d) ensures c == d {
      KeyOfIsInjective(c, d);
    }
  }

  lemma {:induction false} NothingIsRefused(calls: seq<StoreCall>, coordinates: set<Coordinate>)
    requires Within(calls, coordinates) && AreSigned(calls) && forall c :: c in coordinates ==> IsStorableAt(c)
    ensures SqlRun(calls) == CoordinateRun(calls)
    decreases |calls|
  {
    if calls != [] {
      hide Answered;
      NothingIsRefused(calls[..|calls| - 1], coordinates);
      assert CoordinateOf(calls[|calls| - 1]) in coordinates;
    }
  }

  /** What the SQL store refuses the memory store keeps. */
  lemma RefusedWriteTellsThemApart(c: Coordinate)
    requires !IsStorableAt(c)
    ensures !AgreeAt([FirstWrite(c)], c)
  {
    hide KeyOf, IsStorableAt;
    assert [FirstWrite(c)][..0] == [];
    assert MemoryRun([]) == map[] && SqlRun([]) == map[];
  }

  /**
   * Over a set of coordinates both stores always hold the same tracks, so every query and call answers alike, exactly
   * when no coordinate contains NUL: the memory store may confuse such coordinates, and the SQL store refuses them all.
   */
  lemma StoresAgreeExactlyWhenNulFree(coordinates: set<Coordinate>)
    ensures (forall calls, c :: Within(calls, coordinates) && AreSigned(calls) && c in coordinates ==>
              AgreeAt(calls, c)) <==>
            (forall c :: c in coordinates ==> IsStorableAt(c))
  {
    hide KeyOf, Within, AreSigned, AtKey, AtCoordinate, FirstWrite;
    if forall c :: c in coordinates ==> IsStorableAt(c) {
      NulFreeIsSeparated(coordinates);
      forall calls, c | Within(calls, coordinates) && AreSigned(calls) && c in coordinates ensures AgreeAt(calls, c) {
        SeparatedAreKeptApart(calls, coordinates, c);
        NothingIsRefused(calls, coordinates);
      }
    } else {
      var c :| c in coordinates && !IsStorableAt(c);
      RefusedWriteTellsThemApart(c);
      FirstWriteIsWithin(c, coordinates);
    }
  }
}
