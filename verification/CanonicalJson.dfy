/** JSON values and their sorted-key text, over UTF-16 code units. */
module CanonicalJson {

  newtype CodeUnit = x: int | 0 <= x < 0x1_0000

  type Text = seq<CodeUnit>

  const QUOTE: CodeUnit := 0x22
  const BACKSLASH: CodeUnit := 0x5c
  const COMMA: CodeUnit := 0x2c
  const COLON: CodeUnit := 0x3a
  const OPEN_ARRAY: CodeUnit := 0x5b
  const CLOSE_ARRAY: CodeUnit := 0x5d
  const OPEN_OBJECT: CodeUnit := 0x7b
  const CLOSE_OBJECT: CodeUnit := 0x7d
  const LETTER_U: CodeUnit := 0x75

  const NULL_TEXT: Text := [0x6e, 0x75, 0x6c, 0x6c]
  const TRUE_TEXT: Text := [0x74, 0x72, 0x75, 0x65]
  const FALSE_TEXT: Text := [0x66, 0x61, 0x6c, 0x73, 0x65]

  // ---- Strings ----

  predicate IsHigh(c: CodeUnit) { 0xd800 <= c <= 0xdbff }

  predicate IsLow(c: CodeUnit) { 0xdc00 <= c <= 0xdfff }

  /** A surrogate pair at the front of `s`. */
  predicate StartsWithPair(s: Text) {
    |s| >= 2 && IsHigh(s[0]) && IsLow(s[1])
  }

  function HexDigit(n: int): CodeUnit
    requires 0 <= n < 16
  {
    if n < 10 then (0x30 + n) as CodeUnit else (0x57 + n) as CodeUnit
  }

  function Hex4(c: CodeUnit): Text {
    var n := c as int;
    var n1 := n / 16;
    var n2 := n1 / 16;
    [HexDigit(n2 / 16), HexDigit(n2 % 16), HexDigit(n1 % 16), HexDigit(n % 16)]
  }

  /** The letter of a two-character escape, or 0. */
  function ShortEscape(c: CodeUnit): CodeUnit {
    if c == QUOTE then QUOTE
    else if c == BACKSLASH then BACKSLASH
    else if c == 0x08 then 0x62
    else if c == 0x09 then 0x74
    else if c == 0x0a then 0x6e
    else if c == 0x0c then 0x66
    else if c == 0x0d then 0x72
    else 0
  }

  predicate NeedsHex(c: CodeUnit) {
    c < 0x20 || IsHigh(c) || IsLow(c)
  }

  /** One code unit that is not part of a surrogate pair. */
  function EscapedUnit(c: CodeUnit): Text {
    if ShortEscape(c) != 0 then [BACKSLASH, ShortEscape(c)]
    else if NeedsHex(c) then [BACKSLASH, LETTER_U] + Hex4(c)
    else [c]
  }

  /** How many code units of `s` the first printed group covers. */
  function GroupLength(s: Text): nat
    requires s != []
  {
    if StartsWithPair(s) then 2 else 1
  }

  function Group(s: Text): (g: Text)
    requires s != []
    ensures |g| > 0
  {
    if StartsWithPair(s) then [s[0], s[1]] else EscapedUnit(s[0])
  }

  function Escaped(s: Text): Text
    decreases |s|
  {
    if s == [] then [] else Group(s) + Escaped(s[GroupLength(s)..])
  }

  /** JSON.stringify of a string. */
  function Quoted(s: Text): Text {
    [QUOTE] + Escaped(s) + [QUOTE]
  }

  // ---- Values ----

  predicate IsNumeralUnit(c: CodeUnit) {
    0x30 <= c <= 0x39 || c == 0x2d || c == 0x2b || c == 0x2e || c == 0x65
  }

  /** A number stands for its own text; 0 and -0 share theirs. */
  type Numeral = t: Text | |t| > 0 && (t[0] == 0x2d || 0x30 <= t[0] <= 0x39) && forall c :: c in t ==> IsNumeralUnit(c)
    witness [0x30]

  datatype Member<+T> = Member(key: Text, value: T)

  datatype Json =
    | Null
    | Bool(b: bool)
    | Num(numeral: Numeral)
    | Str(s: Text)
    | Arr(items: seq<Json>)
    | Obj(members: seq<Member<Json>>)

  function Join(parts: seq<Text>): Text
    decreases |parts|
  {
    if parts == [] then []
    else if |parts| == 1 then parts[0]
    else parts[0] + [COMMA] + Join(parts[1..])
  }

  function Print(j: Json): Text
    decreases j, 0
  {
    match j
    case Null => NULL_TEXT
    case Bool(b) => if b then TRUE_TEXT else FALSE_TEXT
    case Num(numeral) => numeral
    case Str(s) => Quoted(s)
    case Arr(items) => [OPEN_ARRAY] + Join(PrintItems(items)) + [CLOSE_ARRAY]
    case Obj(members) => [OPEN_OBJECT] + Join(PrintMembers(members)) + [CLOSE_OBJECT]
  }

  function PrintItems(items: seq<Json>): seq<Text>
    decreases items, 1
  {
    if items == [] then [] else [Print(items[0])] + PrintItems(items[1..])
  }

  function PrintMembers(members: seq<Member<Json>>): seq<Text>
    decreases members, 1
  {
    if members == [] then [] else [PrintMember(members[0])] + PrintMembers(members[1..])
  }

  function PrintMember(m: Member<Json>): Text
    decreases m, 1
  {
    Quoted(m.key) + [COLON] + Print(m.value)
  }

  // ---- Strings are read back in one way ----

  lemma HexDigitIsInjective(m: int, n: int)
    requires 0 <= m < 16 && 0 <= n < 16 && HexDigit(m) == HexDigit(n)
    ensures m == n
  {
  }

  lemma Hex4IsInjective(c: CodeUnit, d: CodeUnit)
    requires Hex4(c) == Hex4(d)
    ensures c == d
  {
    var m, n := c as int, d as int;
    var m1, n1 := m / 16, n / 16;
    var m2, n2 := m1 / 16, n1 / 16;
    assert Hex4(c)[0] == Hex4(d)[0] && Hex4(c)[1] == Hex4(d)[1] && Hex4(c)[2] == Hex4(d)[2] && Hex4(c)[3] == Hex4(d)[3];
    HexDigitIsInjective(m2 / 16, n2 / 16);
    HexDigitIsInjective(m2 % 16, n2 % 16);
    HexDigitIsInjective(m1 % 16, n1 % 16);
    HexDigitIsInjective(m % 16, n % 16);
  }

  lemma ShortEscapeIsInjective(c: CodeUnit, d: CodeUnit)
    ensures ShortEscape(c) != 0 && ShortEscape(c) == ShortEscape(d) ==> c == d
    ensures ShortEscape(c) != LETTER_U
  {
  }

  lemma GroupNeverQuotes(s: Text)
    requires s != []
    ensures Group(s)[0] != QUOTE
  {
  }

  lemma UnitsAreDistinct(c: CodeUnit, d: CodeUnit, x: Text, y: Text)
    requires EscapedUnit(c) + x == EscapedUnit(d) + y
    ensures c == d && x == y
  {
    var u, v := EscapedUnit(c), EscapedUnit(d);
    assert (u + x)[0] == (v + y)[0];
    if |u| >= 2 && |v| >= 2 {
      assert (u + x)[1] == (v + y)[1];
      ShortEscapeIsInjective(c, d);
      ShortEscapeIsInjective(d, c);
      if |u| == 6 && |v| == 6 {
        assert Hex4(c) == (u + x)[2..6] && Hex4(d) == (v + y)[2..6];
        Hex4IsInjective(c, d);
      }
    }
    assert c == d;
    assert x == (u + x)[|u|..] && y == (v + y)[|v|..];
  }

  lemma GroupsAreDistinct(s: Text, t: Text, x: Text, y: Text)
    requires s != [] && t != [] && Group(s) + x == Group(t) + y
    ensures GroupLength(s) == GroupLength(t) && s[..GroupLength(s)] == t[..GroupLength(t)] && x == y
  {
    var g, h := Group(s), Group(t);
    assert (g + x)[0] == (h + y)[0];
    if StartsWithPair(s) || StartsWithPair(t) {
      assert StartsWithPair(s) && StartsWithPair(t);
      assert (g + x)[1] == (h + y)[1];
      assert x == (g + x)[2..] && y == (h + y)[2..];
    } else {
      UnitsAreDistinct(s[0], t[0], x, y);
    }
  }

  /** The rest of a quoted string, with `rest` after its closing quote. */
  function EscapedOnto(s: Text, rest: Text): (r: Text)
    ensures |r| > 0
    decreases |s|
  {
    if s == [] then [QUOTE] + rest else Group(s) + EscapedOnto(s[GroupLength(s)..], rest)
  }

  lemma {:induction false} EscapedOntoMeans(s: Text, rest: Text)
    ensures EscapedOnto(s, rest) == Escaped(s) + [QUOTE] + rest
    decreases |s|
  {
    hide Group;
    if s != [] { EscapedOntoMeans(s[GroupLength(s)..], rest); }
  }

  lemma {:induction false} StringsReadBack(s: Text, t: Text, x: Text, y: Text)
    requires EscapedOnto(s, x) == EscapedOnto(t, y)
    ensures s == t && x == y
    decreases |s|
  {
    hide Group;
    var u, v := EscapedOnto(s, x), EscapedOnto(t, y);
    if s != [] { GroupNeverQuotes(s); assert u[0] == Group(s)[0]; }
    if t != [] { GroupNeverQuotes(t); assert v[0] == Group(t)[0]; }
    if s == [] || t == [] {
      assert x == u[1..] && y == v[1..];
    } else {
      GroupsAreDistinct(s, t, EscapedOnto(s[GroupLength(s)..], x), EscapedOnto(t[GroupLength(t)..], y));
      StringsReadBack(s[GroupLength(s)..], t[GroupLength(t)..], x, y);
      assert s == s[..GroupLength(s)] + s[GroupLength(s)..] && t == t[..GroupLength(t)] + t[GroupLength(t)..];
    }
  }

  // ---- Values are read back in one way ----

  /** The text of `j`, followed by `rest`. */
  function Onto(j: Json, rest: Text): Text
    decreases j, 0
  {
    match j
    case Null => NULL_TEXT + rest
    case Bool(b) => (if b then TRUE_TEXT else FALSE_TEXT) + rest
    case Num(numeral) => numeral + rest
    case Str(s) => [QUOTE] + EscapedOnto(s, rest)
    case Arr(items) => [OPEN_ARRAY] + ItemsOnto(items, [CLOSE_ARRAY] + rest)
    case Obj(members) => [OPEN_OBJECT] + MembersOnto(members, [CLOSE_OBJECT] + rest)
  }

  function ItemsOnto(items: seq<Json>, rest: Text): Text
    decreases items, 1
  {
    if items == [] then rest
    else Onto(items[0], (if |items| == 1 then [] else [COMMA]) + ItemsOnto(items[1..], rest))
  }

  function MembersOnto(members: seq<Member<Json>>, rest: Text): Text
    decreases members, 1
  {
    if members == [] then rest
    else
      [QUOTE] + EscapedOnto(members[0].key, [COLON] +
        Onto(members[0].value, (if |members| == 1 then [] else [COMMA]) + MembersOnto(members[1..], rest)))
  }

  lemma {:induction false} OntoMeans(j: Json, rest: Text)
    ensures Onto(j, rest) == Print(j) + rest
    decreases j, 0
  {
    hide Escaped, EscapedOnto, ItemsOnto, MembersOnto, PrintItems, PrintMembers, Join;
    match j
    case Null =>
    case Bool(_) =>
    case Num(_) =>
    case Str(s) =>
      EscapedOntoMeans(s, rest);
      EnclosedOnto([QUOTE], Escaped(s), [QUOTE], rest);
      EnclosedOnto([], Escaped(s), [QUOTE], rest);
    case Arr(items) =>
      ItemsOntoMeans(items, [CLOSE_ARRAY] + rest);
      EnclosedOnto([OPEN_ARRAY], Join(PrintItems(items)), [CLOSE_ARRAY], rest);
    case Obj(members) =>
      MembersOntoMeans(members, [CLOSE_OBJECT] + rest);
      EnclosedOnto([OPEN_OBJECT], Join(PrintMembers(members)), [CLOSE_OBJECT], rest);
  }

  lemma EnclosedOnto(open: Text, text: Text, close: Text, rest: Text)
    ensures open + (text + (close + rest)) == open + text + close + rest
  {
  }

  lemma {:induction false} ItemsOntoMeans(items: seq<Json>, rest: Text)
    ensures ItemsOnto(items, rest) == Join(PrintItems(items)) + rest
    decreases items, 1
  {
    hide Print, Onto;
    if items != [] {
      ItemsOntoMeans(items[1..], rest);
      OntoMeans(items[0], (if |items| == 1 then [] else [COMMA]) + ItemsOnto(items[1..], rest));
    }
  }

  lemma {:induction false} MembersOntoMeans(members: seq<Member<Json>>, rest: Text)
    ensures MembersOnto(members, rest) == Join(PrintMembers(members)) + rest
    decreases members, 1
  {
    hide PrintMember, Onto, EscapedOnto;
    if members != [] {
      MembersOntoMeans(members[1..], rest);
      MemberOntoMeans(members[0], (if |members| == 1 then [] else [COMMA]) + MembersOnto(members[1..], rest));
    }
  }

  lemma MemberOntoMeans(m: Member<Json>, more: Text)
    ensures [QUOTE] + EscapedOnto(m.key, [COLON] + Onto(m.value, more)) == PrintMember(m) + more
    decreases m, 1
  {
    hide Print, Onto, Escaped, EscapedOnto;
    var e, p := Escaped(m.key), Print(m.value);
    OntoMeans(m.value, more);
    EscapedOntoMeans(m.key, [COLON] + Onto(m.value, more));
    assert [COLON] + (p + more) == [COLON] + p + more;
    assert [QUOTE] + (e + [QUOTE] + ([COLON] + p + more)) == ([QUOTE] + e + [QUOTE] + [COLON] + p) + more;
  }

  /** The first code unit tells the kind of value. */
  function FirstUnit(j: Json): CodeUnit {
    match j
    case Null => 0x6e
    case Bool(b) => if b then 0x74 else 0x66
    case Num(numeral) => numeral[0]
    case Str(_) => QUOTE
    case Arr(_) => OPEN_ARRAY
    case Obj(_) => OPEN_OBJECT
  }

  lemma OntoStarts(j: Json, rest: Text)
    ensures |Onto(j, rest)| > 0 && Onto(j, rest)[0] == FirstUnit(j)
    ensures FirstUnit(j) != CLOSE_ARRAY && FirstUnit(j) != CLOSE_OBJECT && FirstUnit(j) != COMMA
  {
    hide EscapedOnto, ItemsOnto, MembersOnto;
  }

  lemma SameFirstUnitSameKind(a: Json, b: Json)
    requires FirstUnit(a) == FirstUnit(b)
    ensures a.Null? == b.Null? && a.Num? == b.Num? && a.Str? == b.Str? && a.Arr? == b.Arr? && a.Obj? == b.Obj?
    ensures a.Bool? && b.Bool? ==> a == b
  {
  }

  /** What may follow a value: nothing, or a separator that no number contains. */
  predicate Ends(rest: Text) {
    rest == [] || !IsNumeralUnit(rest[0])
  }

  lemma MoreNumeralUnitsDoNotEnd(n: Text, y: Text)
    requires forall c :: c in n ==> IsNumeralUnit(c)
    ensures n != [] ==> !Ends(n + y)
  {
    if n != [] { assert n[0] in n && (n + y)[0] == n[0]; }
  }

  lemma NumeralsReadBack(m: Text, n: Text, x: Text, y: Text)
    requires (forall c :: c in m ==> IsNumeralUnit(c)) && (forall c :: c in n ==> IsNumeralUnit(c))
    requires m + x == n + y && Ends(x) && Ends(y)
    ensures m == n && x == y
  {
    if |m| <= |n| {
      LongerNumeral(m, n, x, y);
    } else {
      LongerNumeral(n, m, y, x);
    }
  }

  lemma LongerNumeral(m: Text, n: Text, x: Text, y: Text)
    requires |m| <= |n| && m + x == n + y && forall c :: c in n ==> IsNumeralUnit(c)
    ensures Ends(x) ==> m == n && x == y
  {
    var more := n[|m|..];
    assert m == (m + x)[..|m|] == (n + y)[..|m|] == n[..|m|];
    assert x == (m + x)[|m|..] == (n + y)[|m|..] == more + y;
    assert forall c :: c in more ==> c in n;
    MoreNumeralUnitsDoNotEnd(more, y);
  }

  lemma TailsAgree(head: Text, x: Text, y: Text)
    requires head + x == head + y
    ensures x == y
  {
    assert x == (head + x)[|head|..] && y == (head + y)[|head|..];
  }

  lemma {:induction false} ValuesReadBack(a: Json, b: Json, x: Text, y: Text)
    requires Onto(a, x) == Onto(b, y) && Ends(x) && Ends(y)
    ensures a == b && x == y
    decreases a, 0
  {
    hide EscapedOnto, ItemsOnto, MembersOnto, FirstUnit;
    OntoStarts(a, x);
    OntoStarts(b, y);
    SameFirstUnitSameKind(a, b);
    match a
    case Null => TailsAgree(NULL_TEXT, x, y);
    case Bool(v) => TailsAgree(if v then TRUE_TEXT else FALSE_TEXT, x, y);
    case Num(n) => NumeralsReadBack(n, b.numeral, x, y);
    case Str(s) =>
      TailsAgree([QUOTE], EscapedOnto(s, x), EscapedOnto(b.s, y));
      StringsReadBack(s, b.s, x, y);
    case Arr(items) =>
      TailsAgree([OPEN_ARRAY], ItemsOnto(items, [CLOSE_ARRAY] + x), ItemsOnto(b.items, [CLOSE_ARRAY] + y));
      ItemsReadBack(items, b.items, x, y);
    case Obj(members) =>
      TailsAgree([OPEN_OBJECT], MembersOnto(members, [CLOSE_OBJECT] + x), MembersOnto(b.members, [CLOSE_OBJECT] + y));
      MembersReadBack(members, b.members, x, y);
  }

  lemma ItemsStart(items: seq<Json>, rest: Text)
    requires items != []
    ensures |ItemsOnto(items, rest)| > 0 && ItemsOnto(items, rest)[0] != CLOSE_ARRAY
  {
    hide Onto, FirstUnit;
    OntoStarts(items[0], (if |items| == 1 then [] else [COMMA]) + ItemsOnto(items[1..], rest));
  }

  lemma MembersStart(members: seq<Member<Json>>, rest: Text)
    requires members != []
    ensures |MembersOnto(members, rest)| > 0 && MembersOnto(members, rest)[0] != CLOSE_OBJECT
  {
    hide Onto, EscapedOnto;
  }

  /** A separator is read back: either both lists end here or both go on. */
  lemma SeparatorsReadBack(one: bool, more: bool, close: CodeUnit, u: Text, v: Text, x: Text, y: Text)
    requires close != COMMA
    requires one ==> u == [close] + x
    requires more ==> v == [close] + y
    requires (if one then [] else [COMMA]) + u == (if more then [] else [COMMA]) + v
    ensures one == more && u == v && (one ==> x == y)
  {
    var l, r := (if one then [] else [COMMA]) + u, (if more then [] else [COMMA]) + v;
    assert l[0] == (if one then close else COMMA) && r[0] == (if more then close else COMMA);
    if one == more {
      TailsAgree(if one then [] else [COMMA], u, v);
      if one { TailsAgree([close], x, y); }
    }
  }

  lemma SeparatorEnds(one: bool, close: CodeUnit, u: Text, x: Text)
    requires !IsNumeralUnit(close) && (one ==> u == [close] + x)
    ensures Ends((if one then [] else [COMMA]) + u)
  {
  }

  lemma {:induction false} ItemsReadBack(xs: seq<Json>, ys: seq<Json>, x: Text, y: Text)
    requires ItemsOnto(xs, [CLOSE_ARRAY] + x) == ItemsOnto(ys, [CLOSE_ARRAY] + y)
    ensures xs == ys && x == y
    decreases xs, 1
  {
    if xs == [] || ys == [] {
      hide Onto;
      if xs != [] { ItemsStart(xs, [CLOSE_ARRAY] + x); }
      if ys != [] { ItemsStart(ys, [CLOSE_ARRAY] + y); }
      TailsAgree([CLOSE_ARRAY], x, y);
    } else {
      hide Onto, Ends;
      var one, more := |xs| == 1, |ys| == 1;
      var u, v := ItemsOnto(xs[1..], [CLOSE_ARRAY] + x), ItemsOnto(ys[1..], [CLOSE_ARRAY] + y);
      SeparatorEnds(one, CLOSE_ARRAY, u, x);
      SeparatorEnds(more, CLOSE_ARRAY, v, y);
      ValuesReadBack(xs[0], ys[0], (if one then [] else [COMMA]) + u, (if more then [] else [COMMA]) + v);
      SeparatorsReadBack(one, more, CLOSE_ARRAY, u, v, x, y);
      ItemsReadBack(xs[1..], ys[1..], x, y);
      assert xs == [xs[0]] + xs[1..] && ys == [ys[0]] + ys[1..];
    }
  }

  lemma {:induction false} MembersReadBack(xs: seq<Member<Json>>, ys: seq<Member<Json>>, x: Text, y: Text)
    requires MembersOnto(xs, [CLOSE_OBJECT] + x) == MembersOnto(ys, [CLOSE_OBJECT] + y)
    ensures xs == ys && x == y
    decreases xs, 1
  {
    if xs == [] || ys == [] {
      hide Onto, EscapedOnto;
      if xs != [] { MembersStart(xs, [CLOSE_OBJECT] + x); }
      if ys != [] { MembersStart(ys, [CLOSE_OBJECT] + y); }
      TailsAgree([CLOSE_OBJECT], x, y);
    } else {
      hide Onto, EscapedOnto, Ends;
      var one, more := |xs| == 1, |ys| == 1;
      var u, v := MembersOnto(xs[1..], [CLOSE_OBJECT] + x), MembersOnto(ys[1..], [CLOSE_OBJECT] + y);
      var p, q := Onto(xs[0].value, (if one then [] else [COMMA]) + u),
        Onto(ys[0].value, (if more then [] else [COMMA]) + v);
      TailsAgree([QUOTE], EscapedOnto(xs[0].key, [COLON] + p), EscapedOnto(ys[0].key, [COLON] + q));
      StringsReadBack(xs[0].key, ys[0].key, [COLON] + p, [COLON] + q);
      TailsAgree([COLON], p, q);
      SeparatorEnds(one, CLOSE_OBJECT, u, x);
      SeparatorEnds(more, CLOSE_OBJECT, v, y);
      ValuesReadBack(xs[0].value, ys[0].value, (if one then [] else [COMMA]) + u, (if more then [] else [COMMA]) + v);
      SeparatorsReadBack(one, more, CLOSE_OBJECT, u, v, x, y);
      MembersReadBack(xs[1..], ys[1..], x, y);
      assert xs == [xs[0]] + xs[1..] && ys == [ys[0]] + ys[1..];
    }
  }

  /** No two values share a text. */
  lemma PrintIsInjective(a: Json, b: Json)
    requires Print(a) == Print(b)
    ensures a == b
  {
    hide Print, Onto;
    OntoMeans(a, []);
    OntoMeans(b, []);
    ValuesReadBack(a, b, [], []);
  }

  // ---- Sorted keys ----

  /** The order of Array.prototype.sort on strings: by code units. */
  predicate Less(a: Text, b: Text)
    decreases |a|
  {
    if b == [] then false
    else if a == [] then true
    else a[0] < b[0] || (a[0] == b[0] && Less(a[1..], b[1..]))
  }

  lemma {:induction false} LessIsTotal(a: Text, b: Text)
    ensures Less(a, b) || Less(b, a) || a == b
    ensures !(Less(a, b) && Less(b, a)) && !Less(a, a)
    decreases |a|
  {
    if a != [] {
      LessIsTotal(a[1..], a[1..]);
      if b != [] {
        LessIsTotal(a[1..], b[1..]);
        assert a == [a[0]] + a[1..] && b == [b[0]] + b[1..];
      }
    }
  }

  lemma {:induction false} LessIsTransitive(a: Text, b: Text, c: Text)
    requires Less(a, b) && Less(b, c)
    ensures Less(a, c)
    decreases |a|
  {
    if a != [] && a[0] == b[0] == c[0] { LessIsTransitive(a[1..], b[1..], c[1..]); }
  }

  ghost predicate DistinctKeys<T>(ms: seq<Member<T>>) {
    forall i, j :: 0 <= i < j < |ms| ==> ms[i].key != ms[j].key
  }

  ghost predicate SortedKeys<T>(ms: seq<Member<T>>) {
    forall i, j :: 0 <= i < j < |ms| ==> Less(ms[i].key, ms[j].key)
  }

  function Inserted<T>(m: Member<T>, ms: seq<Member<T>>): seq<Member<T>>
    decreases |ms|
  {
    if ms == [] then [m]
    else if Less(m.key, ms[0].key) then [m] + ms
    else [ms[0]] + Inserted(m, ms[1..])
  }

  function Sorted<T>(ms: seq<Member<T>>): seq<Member<T>>
    decreases |ms|
  {
    if ms == [] then [] else Inserted(ms[0], Sorted(ms[1..]))
  }

  lemma {:induction false} InsertedHasAll<T(!new)>(m: Member<T>, ms: seq<Member<T>>)
    ensures forall x :: x in Inserted(m, ms) <==> x == m || x in ms
    decreases |ms|
  {
    if ms != [] {
      InsertedHasAll(m, ms[1..]);
      assert ms == [ms[0]] + ms[1..];
    }
  }

  lemma {:induction false} SortedHasAll<T(!new)>(ms: seq<Member<T>>)
    ensures forall x :: x in Sorted(ms) <==> x in ms
    ensures |Sorted(ms)| == |ms|
    decreases |ms|
  {
    if ms != [] {
      SortedHasAll(ms[1..]);
      InsertedHasAll(ms[0], Sorted(ms[1..]));
      InsertedLength(ms[0], Sorted(ms[1..]));
      assert ms == [ms[0]] + ms[1..];
    }
  }

  lemma {:induction false} InsertedLength<T(!new)>(m: Member<T>, ms: seq<Member<T>>)
    ensures |Inserted(m, ms)| == |ms| + 1
    decreases |ms|
  {
    if ms != [] { InsertedLength(m, ms[1..]); }
  }

  lemma {:induction false} InsertedIsSorted<T(!new)>(m: Member<T>, ms: seq<Member<T>>)
    requires SortedKeys(ms) && forall x :: x in ms ==> x.key != m.key
    ensures SortedKeys(Inserted(m, ms))
    decreases |ms|
  {
    if ms != [] {
      hide Less;
      if Less(m.key, ms[0].key) {
        forall k | 0 <= k < |ms| ensures Less(m.key, ms[k].key) {
          if k > 0 { LessIsTransitive(m.key, ms[0].key, ms[k].key); }
        }
      } else {
        InsertedIsSorted(m, ms[1..]);
        InsertedHasAll(m, ms[1..]);
        LessIsTotal(m.key, ms[0].key);
        assert ms[0] in ms;
        assert Less(ms[0].key, m.key);
        forall x | x in Inserted(m, ms[1..]) ensures Less(ms[0].key, x.key) {
          if x != m { LaterIsGreater(ms, x); }
        }
        HeadIsLeast(ms[0], Inserted(m, ms[1..]));
      }
    }
  }

  lemma LaterIsGreater<T(!new)>(ms: seq<Member<T>>, x: Member<T>)
    requires SortedKeys(ms) && ms != [] && x in ms[1..]
    ensures Less(ms[0].key, x.key)
  {
    hide Less;
    var i :| 0 <= i < |ms| - 1 && ms[1..][i] == x;
    assert ms[i + 1] == x;
  }

  lemma HeadIsLeast<T(!new)>(h: Member<T>, ms: seq<Member<T>>)
    requires SortedKeys(ms) && forall x :: x in ms ==> Less(h.key, x.key)
    ensures SortedKeys([h] + ms)
  {
    hide Less;
  }

  lemma {:induction false} SortedIsSorted<T(!new)>(ms: seq<Member<T>>)
    requires DistinctKeys(ms)
    ensures SortedKeys(Sorted(ms))
    decreases |ms|
  {
    if ms != [] {
      SortedIsSorted(ms[1..]);
      SortedHasAll(ms[1..]);
      forall x | x in Sorted(ms[1..]) ensures x.key != ms[0].key {
        assert x in ms[1..];
        var i :| 0 <= i < |ms| - 1 && ms[1..][i] == x;
        assert ms[i + 1] == x;
      }
      InsertedIsSorted(ms[0], Sorted(ms[1..]));
    }
  }

  /** Sorting forgets the order: only the members matter. */
  lemma {:induction false} SortedIsUnique<T(!new)>(a: seq<Member<T>>, b: seq<Member<T>>)
    requires SortedKeys(a) && SortedKeys(b) && forall x :: x in a <==> x in b
    ensures a == b
    decreases |a|
  {
    hide Less;
    assert b == [] || b[0] in b;
    if a != [] {
      assert a[0] in a;
      var j :| 0 <= j < |b| && b[j] == a[0];
      var i :| 0 <= i < |a| && a[i] == b[0];
      LessIsTotal(a[0].key, b[0].key);
      SameMembersBelow(a, b);
      SortedIsUnique(a[1..], b[1..]);
      assert a == [a[0]] + a[1..] && b == [b[0]] + b[1..];
    }
  }

  lemma SameMembersBelow<T(!new)>(a: seq<Member<T>>, b: seq<Member<T>>)
    requires a != [] && b != [] && a[0] == b[0] && SortedKeys(a) && SortedKeys(b)
    requires forall x :: x in a <==> x in b
    ensures forall x :: x in a[1..] <==> x in b[1..]
    ensures SortedKeys(a[1..]) && SortedKeys(b[1..])
  {
    hide Less;
    LessIsTotal(a[0].key, a[0].key);
    assert forall x :: x in a[1..] <==> x in a && x != a[0];
    assert forall x :: x in b[1..] <==> x in b && x != b[0];
  }

  // ---- The canonical text ----

  /** `j` with the keys of every object sorted. */
  function Canon(j: Json): Json
    decreases j, 0
  {
    match j
    case Arr(items) => Arr(CanonItems(items))
    case Obj(members) => Obj(Sorted(CanonMembers(members)))
    case _ => j
  }

  function CanonItems(items: seq<Json>): seq<Json>
    decreases items, 1
  {
    if items == [] then [] else [Canon(items[0])] + CanonItems(items[1..])
  }

  function CanonMembers(members: seq<Member<Json>>): seq<Member<Json>>
    decreases members, 1
  {
    if members == [] then [] else [Member(members[0].key, Canon(members[0].value))] + CanonMembers(members[1..])
  }

  function StableText(j: Json): Text {
    Print(Canon(j))
  }

  /** Objects have each key once, at every depth. */
  ghost predicate WellKeyed(j: Json)
    decreases j
  {
    match j
    case Arr(items) => forall i :: 0 <= i < |items| ==> WellKeyed(items[i])
    case Obj(members) => DistinctKeys(members) && forall i :: 0 <= i < |members| ==> WellKeyed(members[i].value)
    case _ => true
  }

  /** The same JSON value: objects are unordered, arrays are not. */
  ghost predicate Same(a: Json, b: Json)
    decreases a, 0
  {
    match (a, b)
    case (Arr(xs), Arr(ys)) => |xs| == |ys| && forall i :: 0 <= i < |xs| ==> Same(xs[i], ys[i])
    case (Obj(ms), Obj(ns)) =>
      && (forall i :: 0 <= i < |ms| ==> Matched(ms, i, ns))
      && (forall j :: 0 <= j < |ns| ==> MatchedFrom(ms, ns, j))
    case _ => a == b
  }

  /** The `i`-th and `j`-th members have the same key and the same value. */
  ghost predicate Match(ms: seq<Member<Json>>, i: int, ns: seq<Member<Json>>, j: int)
    decreases ms, 0
  {
    0 <= i < |ms| && 0 <= j < |ns| && ms[i].key == ns[j].key && Same(ms[i].value, ns[j].value)
  }

  ghost predicate Matched(ms: seq<Member<Json>>, i: int, ns: seq<Member<Json>>)
    decreases ms, 1
  {
    exists j :: Match(ms, i, ns, j)
  }

  ghost predicate MatchedFrom(ms: seq<Member<Json>>, ns: seq<Member<Json>>, j: int)
    decreases ms, 1
  {
    exists i :: Match(ms, i, ns, j)
  }

  lemma {:induction false} CanonItemsAt(items: seq<Json>)
    ensures |CanonItems(items)| == |items|
    ensures forall i :: 0 <= i < |items| ==> CanonItems(items)[i] == Canon(items[i])
    decreases |items|
  {
    hide Canon;
    if items != [] { CanonItemsAt(items[1..]); }
  }

  lemma {:induction false} CanonMembersAt(members: seq<Member<Json>>)
    ensures |CanonMembers(members)| == |members|
    ensures forall i :: 0 <= i < |members| ==>
            CanonMembers(members)[i] == Member(members[i].key, Canon(members[i].value))
    decreases |members|
  {
    hide Canon;
    if members != [] { CanonMembersAt(members[1..]); }
  }

  lemma CanonMembersAreDistinct(members: seq<Member<Json>>)
    requires DistinctKeys(members)
    ensures DistinctKeys(CanonMembers(members))
  {
    hide Canon, CanonMembers;
    CanonMembersAt(members);
  }

  lemma {:induction false} SameMeansSameCanon(a: Json, b: Json)
    requires WellKeyed(a) && WellKeyed(b)
    ensures Same(a, b) <==> Canon(a) == Canon(b)
    decreases a
  {
    hide CanonItems, CanonMembers, Sorted;
    match a
    case Arr(xs) =>
      if b.Arr? {
        CanonItemsAt(xs);
        CanonItemsAt(b.items);
        forall i | 0 <= i < |xs| && |xs| == |b.items|
          ensures Same(xs[i], b.items[i]) <==> Canon(xs[i]) == Canon(b.items[i]) {
          SameMeansSameCanon(xs[i], b.items[i]);
        }
        ArraysAgree(xs, b.items);
      }
    case Obj(ms) =>
      if b.Obj? {
        forall i, j | 0 <= i < |ms| && 0 <= j < |b.members|
          ensures Match(ms, i, b.members, j) <==>
                  ms[i].key == b.members[j].key && Canon(ms[i].value) == Canon(b.members[j].value)
        {
          SameMeansSameCanon(ms[i].value, b.members[j].value);
        }
        ObjectsAgree(ms, b.members);
      }
    case _ =>
  }

  lemma ArraysAgree(xs: seq<Json>, ys: seq<Json>)
    requires |xs| == |ys| ==> forall i :: 0 <= i < |xs| ==> (Same(xs[i], ys[i]) <==> Canon(xs[i]) == Canon(ys[i]))
    ensures Same(Arr(xs), Arr(ys)) <==> CanonItems(xs) == CanonItems(ys)
  {
    hide CanonItems, Canon;
    CanonItemsAt(xs);
    CanonItemsAt(ys);
    if CanonItems(xs) == CanonItems(ys) {
      forall i | 0 <= i < |xs| ensures Same(xs[i], ys[i]) {
        assert CanonItems(xs)[i] == Canon(xs[i]);
      }
    }
  }

  lemma ObjectsAgree(ms: seq<Member<Json>>, ns: seq<Member<Json>>)
    requires DistinctKeys(ms) && DistinctKeys(ns)
    requires forall i, j :: 0 <= i < |ms| && 0 <= j < |ns| ==>
               (Match(ms, i, ns, j) <==> ms[i].key == ns[j].key && Canon(ms[i].value) == Canon(ns[j].value))
    ensures Same(Obj(ms), Obj(ns)) <==> Sorted(CanonMembers(ms)) == Sorted(CanonMembers(ns))
  {
    hide CanonMembers, Canon, Sorted, Match;
    var cm, cn := CanonMembers(ms), CanonMembers(ns);
    CanonMembersAt(ms);
    CanonMembersAt(ns);
    CanonMembersAreDistinct(ms);
    CanonMembersAreDistinct(ns);
    SortedHasAll(cm);
    SortedHasAll(cn);
    SortedIsSorted(cm);
    SortedIsSorted(cn);
    if Same(Obj(ms), Obj(ns)) {
      SameGivesSameMembers(ms, ns);
      SortedIsUnique(Sorted(cm), Sorted(cn));
    }
    if Sorted(cm) == Sorted(cn) {
      forall x ensures x in cm <==> x in cn {
        assert x in Sorted(cm) <==> x in Sorted(cn);
      }
      SameMembersGiveSame(ms, ns);
    }
  }

  lemma SameGivesSameMembers(ms: seq<Member<Json>>, ns: seq<Member<Json>>)
    requires Same(Obj(ms), Obj(ns))
    requires forall i, j :: 0 <= i < |ms| && 0 <= j < |ns| && Match(ms, i, ns, j) ==>
             Canon(ms[i].value) == Canon(ns[j].value)
    ensures forall x :: x in CanonMembers(ms) <==> x in CanonMembers(ns)
  {
    hide CanonMembers, Canon;
    CanonMembersAt(ms);
    CanonMembersAt(ns);
    forall x | x in CanonMembers(ms) ensures x in CanonMembers(ns) {
      var i :| 0 <= i < |ms| && CanonMembers(ms)[i] == x;
      assert Matched(ms, i, ns);
      var j :| Match(ms, i, ns, j);
      assert CanonMembers(ns)[j] == x;
    }
    forall x | x in CanonMembers(ns) ensures x in CanonMembers(ms) {
      var j :| 0 <= j < |ns| && CanonMembers(ns)[j] == x;
      assert MatchedFrom(ms, ns, j);
      var i :| Match(ms, i, ns, j);
      assert CanonMembers(ms)[i] == x;
    }
  }

  lemma SameMembersGiveSame(ms: seq<Member<Json>>, ns: seq<Member<Json>>)
    requires forall x :: x in CanonMembers(ms) <==> x in CanonMembers(ns)
    requires forall i, j ::
             0 <= i < |ms| && 0 <= j < |ns| && ms[i].key == ns[j].key && Canon(ms[i].value) == Canon(ns[j].value) ==>
             Match(ms, i, ns, j)
    ensures Same(Obj(ms), Obj(ns))
  {
    hide CanonMembers, Canon, Match;
    CanonMembersAt(ms);
    CanonMembersAt(ns);
    forall i | 0 <= i < |ms| ensures Matched(ms, i, ns) {
      assert CanonMembers(ms)[i] in CanonMembers(ns);
      var j :| 0 <= j < |ns| && CanonMembers(ns)[j] == CanonMembers(ms)[i];
      assert Match(ms, i, ns, j);
    }
    forall j | 0 <= j < |ns| ensures MatchedFrom(ms, ns, j) {
      assert CanonMembers(ns)[j] in CanonMembers(ms);
      var i :| 0 <= i < |ms| && CanonMembers(ms)[i] == CanonMembers(ns)[j];
      assert Match(ms, i, ns, j);
    }
  }

  /** Two requests have the same canonical text exactly when they are the same JSON value up to key order. */
  lemma TextDeterminesValue(a: Json, b: Json)
    requires WellKeyed(a) && WellKeyed(b)
    ensures StableText(a) == StableText(b) <==> Same(a, b)
  {
    hide Print, Canon, Same;
    SameMeansSameCanon(a, b);
    if StableText(a) == StableText(b) { PrintIsInjective(Canon(a), Canon(b)); }
  }
}
