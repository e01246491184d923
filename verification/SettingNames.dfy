/** Coordinates of settings, and the resource ids under which their changes are audited. */
module SettingNames {
  import opened Maybe
  import JsText
  import AuditRecorder

  datatype Scope = Platform | Project | Environment | Tenant | User | Emergency

  /** An absent scopeRef is the empty string, as both stores key it. */
  datatype Coordinate = Coordinate(key: string, scope: Scope, scopeRef: string)

  function ScopeName(scope: Scope): string {
    match scope
    case Platform => "platform"
    case Project => "project"
    case Environment => "environment"
    case Tenant => "tenant"
    case User => "user"
    case Emergency => "emergency"
  }

  /** The scope of a coordinate, with its reference if it has one. */
  function Place(scope: Scope, scopeRef: string): string {
    ScopeName(scope) + (if scopeRef != "" then ":" + scopeRef else "")
  }

  /** The resource id under which a change is audited. */
  function CoordinateId(c: Coordinate): string {
    c.key + "@" + Place(c.scope, c.scopeRef)
  }

  function CoordinateFor(key: string, scope: Scope, scopeRef: string): Option<Coordinate> {
    var k := JsText.NonBlank(key, 240);
    if k.None? then None
    else if scopeRef == "" then Some(Coordinate(k.value, scope, ""))
    else
      var r := JsText.NonBlank(scopeRef, 240);
      if r.None? then None else Some(Coordinate(k.value, scope, r.value))
  }

  // ---- Which coordinates share an id ----

  lemma {:induction false} SplitsOnce(a: string, b: string, x: string, y: string, mark: char)
    requires a + [mark] + x == b + [mark] + y && mark !in a && mark !in b
    ensures a == b && x == y
    decreases |a|
  {
    var l, r := a + [mark] + x, b + [mark] + y;
    assert l[0] == if a == [] then mark else a[0];
    assert r[0] == if b == [] then mark else b[0];
    assert (a == [] || a[0] in a) && (b == [] || b[0] in b);
    if a == [] || b == [] {
      assert x == l[1..] && y == r[1..];
    } else {
      assert l[1..] == a[1..] + [mark] + x && r[1..] == b[1..] + [mark] + y;
      SplitsOnce(a[1..], b[1..], x, y, mark);
      assert a == [a[0]] + a[1..] && b == [b[0]] + b[1..];
    }
  }

  lemma ScopeNamesDiffer(s: Scope, t: Scope)
    ensures ScopeName(s) == ScopeName(t) ==> s == t
    ensures ':' !in ScopeName(s) && '\0' !in ScopeName(s) && '@' !in ScopeName(s)
  {
    assert "platform"[1] == 'l' && "project"[1] == 'r' && "environment"[1] == 'n';
    assert "tenant"[1] == 'e' && "user"[1] == 's' && "emergency"[1] == 'm';
  }

  lemma PlacesSplit(s: Scope, t: Scope, a: string, b: string)
    requires Place(s, a) == Place(t, b)
    ensures s == t && a == b
  {
    ScopeNamesDiffer(s, t);
    ScopeNamesDiffer(t, s);
    PlaceHasMark(s, a);
    PlaceHasMark(t, b);
    hide ScopeName, Place;
    if a != "" && b != "" { SplitsOnce(ScopeName(s), ScopeName(t), a, b, ':'); }
  }

  lemma PlaceHasMark(s: Scope, a: string)
    ensures if a != "" then Place(s, a) == ScopeName(s) + [':'] + a && Place(s, a)[|ScopeName(s)|] == ':'
            else Place(s, a) == ScopeName(s)
  {
    hide ScopeName;
  }

  /** `long` is `short` continued as if it named a place with a reference. */
  ghost predicate Continues(long: string, short: string) {
    exists s, x :: ContinuesWith(long, short, s, x)
  }

  predicate ContinuesWith(long: string, short: string, s: Scope, x: string) {
    long == short + "@" + ScopeName(s) + ":" + x && (x == "" || !JsText.IsSpace(x[0]))
  }

  /** The same id under a longer key means that the longer key continues the shorter one. */
  lemma SharedIdContinues(c: Coordinate, d: Coordinate)
    requires IsCoordinate(d) && CoordinateId(c) == CoordinateId(d) && |c.key| > |d.key|
    ensures Continues(c.key, d.key)
  {
    hide ScopeName, Place, JsText.IsSpace, IsCoordinate;
    var p, q := Place(c.scope, c.scopeRef), Place(d.scope, d.scopeRef);
    var id := CoordinateId(c);
    assert id == c.key + "@" + p == d.key + "@" + q;
    assert c.key[..|d.key|] == id[..|d.key|] == d.key;
    assert c.key[|d.key|] == id[|d.key|] == '@';
    var y := c.key[|d.key| + 1..];
    assert c.key == d.key + "@" + y;
    assert q == id[|d.key| + 1..] == y + "@" + p;
    var x := PlaceSplitsAtSign(d.scope, d.scopeRef, y, p);
    PartsAreTrimmed(d);
    assert x != "" ==> x[0] == d.scopeRef[0];
    assert d.key + "@" + (ScopeName(d.scope) + ":" + x) == d.key + "@" + ScopeName(d.scope) + ":" + x;
    assert ContinuesWith(c.key, d.key, d.scope, x);
  }

  /** An at-sign in a place stands in its reference. */
  lemma PlaceSplitsAtSign(s: Scope, a: string, y: string, p: string) returns (x: string)
    requires Place(s, a) == y + "@" + p
    ensures y == ScopeName(s) + ":" + x && a == x + "@" + p
  {
    ScopeNamesDiffer(s, s);
    PlaceHasMark(s, a);
    hide ScopeName, Place;
    var name, place := ScopeName(s), Place(s, a);
    var n := |name|;
    assert place[|y|] == '@';
    assert forall i :: 0 <= i < n ==> place[i] == name[i] && name[i] in name;
    assert y[..n] == place[..n] == name && y[n] == place[n] == ':';
    x := y[n + 1..];
    assert y == name + ":" + x;
    assert place == name + [':'] + (x + "@" + p);
    assert a == place[n + 1..] == x + "@" + p;
  }

  /** A coordinate as the service makes them: of trimmed texts that are short enough. */
  predicate IsCoordinate(c: Coordinate) {
    CoordinateFor(c.key, c.scope, c.scopeRef) == Some(c)
  }

  lemma WhatIsMadeIsACoordinate(key: string, scope: Scope, scopeRef: string)
    ensures var made := CoordinateFor(key, scope, scopeRef); made.Some? ==> IsCoordinate(made.value)
  {
    hide JsText.Trim, JsText.Length;
    if JsText.NonBlank(key, 240).Some? { NonBlankIsFixed(key, 240); }
    if JsText.NonBlank(scopeRef, 240).Some? { NonBlankIsFixed(scopeRef, 240); }
  }

  lemma NonBlankIsFixed(value: string, max: nat)
    requires JsText.NonBlank(value, max).Some?
    ensures var text := JsText.NonBlank(value, max).value; JsText.NonBlank(text, max) == Some(text)
  {
    hide JsText.IsSpace;
    JsText.TrimIsTrimmed(value);
    JsText.TrimIsNoOp(JsText.Trim(value));
  }

  lemma PartsAreTrimmed(c: Coordinate)
    requires IsCoordinate(c)
    ensures IsTrimmed(c.key) && JsText.Length(c.key) <= 240 && (c.scopeRef != "" ==> IsTrimmed(c.scopeRef))
  {
    hide JsText.IsSpace, JsText.Length;
    NonBlankIsTrimmed(c.key, 240);
    if c.scopeRef != "" { NonBlankIsTrimmed(c.scopeRef, 240); }
  }

  /** A key that continues another makes two coordinates with one id. */
  lemma ContinuationCollides(long: string, short: string, s: Scope, x: string)
    requires ContinuesWith(long, short, s, x) && IsKey(long) && IsKey(short)
    ensures var c, d := Coordinate(long, User, ""), Coordinate(short, s, x + "@user");
            IsCoordinate(c) && IsCoordinate(d) && c != d && CoordinateId(c) == CoordinateId(d)
  {
    hide JsText.NonBlank, CoordinateId, ContinuesWith;
    ReferenceFits(long, short, s, x);
    ContinuationSharesId(long, short, s, x);
  }

  lemma ContinuationSharesId(long: string, short: string, s: Scope, x: string)
    requires ContinuesWith(long, short, s, x)
    ensures long != short
    ensures CoordinateId(Coordinate(long, User, "")) == CoordinateId(Coordinate(short, s, x + "@user"))
  {
    assert Place(User, "") == "user";
    hide ScopeName;
    var name := ScopeName(s);
    assert |long| > |short|;
    assert CoordinateId(Coordinate(short, s, x + "@user")) == short + "@" + (name + (":" + (x + "@user")));
    assert CoordinateId(Coordinate(long, User, "")) == long + "@" + "user";
    SameText(short, name, x);
  }

  lemma SameText(short: string, name: string, x: string)
    ensures short + "@" + name + ":" + x + "@" + "user" == short + "@" + (name + (":" + (x + "@user")))
  {
  }

  /** What is left of a key after another key and a scope leaves room for the shortest scope. */
  lemma ReferenceFits(long: string, short: string, s: Scope, x: string)
    requires ContinuesWith(long, short, s, x) && IsKey(long) && IsKey(short)
    ensures JsText.NonBlank(x + "@user", 240) == Some(x + "@user")
  {
    hide JsText.IsSpace, JsText.Length;
    NonBlankIsTrimmed(long, 240);
    NonBlankIsTrimmed(short, 240);
    LengthOfContinued(short, s, x);
    LengthOfBoth(x, "@user");
    LengthOfAscii("@user");
    UserIsNoSpace();
    JsText.TrimIsNoOp(x + "@user");
  }

  lemma UserIsNoSpace()
    ensures !JsText.IsSpace('@') && !JsText.IsSpace("@user"[4])
  {
  }

  lemma LengthOfContinued(short: string, s: Scope, x: string)
    requires short != ""
    ensures JsText.Length(short + "@" + ScopeName(s) + ":" + x) >= JsText.Length(x) + 7
  {
    hide JsText.Length;
    LengthOfBoth(short + "@" + ScopeName(s) + ":", x);
    LengthOfBoth(short + "@" + ScopeName(s), ":");
    LengthOfBoth(short + "@", ScopeName(s));
    LengthOfBoth(short, "@");
    LengthOfMarks();
    LengthOfScope(s);
    LengthIsPositive(short);
  }

  lemma LengthIsPositive(s: string)
    requires s != ""
    ensures JsText.Length(s) >= 1
  {
  }

  /** A key as coordinates carry them. */
  predicate IsKey(key: string) {
    JsText.NonBlank(key, 240) == Some(key)
  }

  ghost predicate IdsSeparate(keys: set<string>) {
    forall c: Coordinate, d: Coordinate ::
      IsCoordinate(c) && IsCoordinate(d) && c.key in keys && d.key in keys && CoordinateId(c) == CoordinateId(d) ==>
      c == d
  }

  /** Over a set of keys, audit ids separate all coordinates if and only if no key continues another. */
  lemma IdsSeparateExactly(keys: set<string>)
    ensures IdsSeparate(keys) <==>
            forall long, short ::
              long in keys && short in keys && IsKey(long) && IsKey(short) ==> !Continues(long, short)
  {
    hide CoordinateId, ContinuesWith, IsCoordinate, IsKey;
    if IdsSeparate(keys) {
      forall long, short | long in keys && short in keys && IsKey(long) && IsKey(short)
        ensures !Continues(long, short)
      {
        forall s, x ensures !ContinuesWith(long, short, s, x) {
          if ContinuesWith(long, short, s, x) { ContinuationCollides(long, short, s, x); }
        }
      }
    }
    if forall long, short ::
        long in keys && short in keys && IsKey(long) && IsKey(short) ==> !Continues(long, short) {
      forall c, d | IsCoordinate(c) && IsCoordinate(d) && c.key in keys && d.key in keys
                    && CoordinateId(c) == CoordinateId(d)
        ensures c == d
      {
        KeyOfCoordinate(c);
        KeyOfCoordinate(d);
        SharedIdMeansSameLength(c, d);
        SameKeyLengthSameCoordinate(c, d);
      }
    }
  }

  lemma KeyOfCoordinate(c: Coordinate)
    requires IsCoordinate(c)
    ensures IsKey(c.key)
  {
    hide JsText.NonBlank;
  }

  lemma SharedIdMeansSameLength(c: Coordinate, d: Coordinate)
    requires IsCoordinate(c) && IsCoordinate(d)
    requires CoordinateId(c) == CoordinateId(d) && !Continues(c.key, d.key) && !Continues(d.key, c.key)
    ensures |c.key| == |d.key|
  {
    hide CoordinateId, Continues, IsCoordinate;
    if |c.key| > |d.key| { SharedIdContinues(c, d); }
    if |d.key| > |c.key| { SharedIdContinues(d, c); }
  }

  lemma SameKeyLengthSameCoordinate(c: Coordinate, d: Coordinate)
    requires CoordinateId(c) == CoordinateId(d) && |c.key| == |d.key|
    ensures c == d
  {
    hide Place;
    var p, q := Place(c.scope, c.scopeRef), Place(d.scope, d.scopeRef);
    var id := CoordinateId(c);
    assert c.key == id[..|c.key|] == d.key;
    assert p == id[|c.key| + 1..] == q;
    PlacesSplit(c.scope, d.scope, c.scopeRef, d.scopeRef);
  }

  /** Keys without an at-sign never continue one another. */
  lemma PlainKeysSeparate(keys: set<string>)
    requires forall key :: key in keys ==> '@' !in key
    ensures IdsSeparate(keys)
  {
    hide IdsSeparate, IsKey;
    IdsSeparateExactly(keys);
    forall long, short | long in keys && short in keys ensures !Continues(long, short) {
      hide ScopeName;
      forall s, x ensures !ContinuesWith(long, short, s, x) {
        var text := short + "@" + ScopeName(s) + ":" + x;
        assert text[|short|] == '@' && text[|short|] in text;
      }
    }
  }

  // ---- Which ids the recorder takes ----

  lemma {:induction false} LengthOfBoth(a: string, b: string)
    ensures JsText.Length(a + b) == JsText.Length(a) + JsText.Length(b)
    decreases |a|
  {
    if a == "" {
      assert a + b == b;
    } else {
      assert (a + b)[1..] == a[1..] + b;
      LengthOfBoth(a[1..], b);
    }
  }

  predicate IsTrimmed(s: string) {
    s != "" && !JsText.IsSpace(s[0]) && !JsText.IsSpace(s[|s| - 1])
  }

  /** The recorder takes the id of a setting if and only if its parts are short enough together. */
  lemma IdIsRecordedExactlyWhenShort(key: string, scope: Scope, scopeRef: string)
    requires CoordinateFor(key, scope, scopeRef).Some?
    ensures var c := CoordinateFor(key, scope, scopeRef).value;
            AuditRecorder.AcceptsResource(CoordinateId(c)) <==>
              JsText.Length(c.key) + 1 + |ScopeName(scope)|
              + (if c.scopeRef == "" then 0 else 1 + JsText.Length(c.scopeRef)) <= 256
  {
    hide JsText.IsSpace, JsText.Length;
    var c := CoordinateFor(key, scope, scopeRef).value;
    NonBlankIsTrimmed(key, 240);
    if scopeRef != "" { NonBlankIsTrimmed(scopeRef, 240); }
    IdIsTrimmed(c);
    JsText.TrimIsNoOp(CoordinateId(c));
    LengthOfId(c);
  }

  lemma NonBlankIsTrimmed(value: string, max: nat)
    requires JsText.NonBlank(value, max).Some?
    ensures IsTrimmed(JsText.NonBlank(value, max).value)
  {
    hide JsText.IsSpace;
    JsText.TrimIsTrimmed(value);
  }

  lemma IdIsTrimmed(c: Coordinate)
    requires IsTrimmed(c.key) && (c.scopeRef != "" ==> IsTrimmed(c.scopeRef))
    ensures IsTrimmed(CoordinateId(c))
  {
    var id := CoordinateId(c);
    assert id[0] == c.key[0];
    assert id[|id| - 1] == Place(c.scope, c.scopeRef)[|Place(c.scope, c.scopeRef)| - 1];
  }

  lemma LengthOfId(c: Coordinate)
    ensures JsText.Length(CoordinateId(c)) == JsText.Length(c.key) + 1 + |ScopeName(c.scope)|
                                              + (if c.scopeRef == "" then 0 else 1 + JsText.Length(c.scopeRef))
  {
    hide JsText.Length, ScopeName;
    LengthOfScope(c.scope);
    LengthOfBoth(c.key + "@", Place(c.scope, c.scopeRef));
    LengthOfBoth(c.key, "@");
    LengthOfMarks();
    if c.scopeRef != "" {
      LengthOfBoth(ScopeName(c.scope), ":" + c.scopeRef);
      LengthOfBoth(":", c.scopeRef);
    } else {
      assert Place(c.scope, c.scopeRef) == ScopeName(c.scope);
    }
  }

  lemma LengthOfMarks()
    ensures JsText.Length("@") == 1 && JsText.Length(":") == 1
  {
    assert JsText.Length("") == 0;
    assert "@"[1..] == "" && ":"[1..] == "";
  }

  lemma {:induction false} LengthOfAscii(s: string)
    requires forall i :: 0 <= i < |s| ==> s[i] <= '\U{ffff}'
    ensures JsText.Length(s) == |s|
    decreases |s|
  {
    if s != "" { LengthOfAscii(s[1..]); }
  }

  lemma LengthOfScope(scope: Scope)
    ensures JsText.Length(ScopeName(scope)) == |ScopeName(scope)|
  {
    LengthOfAscii(ScopeName(scope));
  }
}
