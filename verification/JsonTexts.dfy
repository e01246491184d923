/** What the canonical text is for a reader: RFC 8259 strings, and the order of keys. */
module JsonTexts {
  import opened Maybe
  import opened CanonicalJson

  // ---- The order of keys ----

  /** At `n` the texts part: the first ends there, or has the smaller code unit. */
  ghost predicate PartsAt(a: Text, b: Text, n: nat) {
    n <= |a| && n < |b| && a[..n] == b[..n] && (n == |a| || a[n] as int < b[n] as int)
  }

  ghost predicate Precedes(a: Text, b: Text) {
    exists n: nat :: PartsAt(a, b, n)
  }

  lemma {:induction false} LessIsPrecedes(a: Text, b: Text)
    ensures Less(a, b) <==> Precedes(a, b)
    decreases |a|
  {
    if a == [] || b == [] {
      if b != [] { assert PartsAt(a, b, 0); }
    } else {
      LessIsPrecedes(a[1..], b[1..]);
      if a[0] < b[0] { assert PartsAt(a, b, 0); }
      if a[0] == b[0] && Less(a[1..], b[1..]) {
        var n: nat :| PartsAt(a[1..], b[1..], n);
        PartsLater(a, b, n);
      }
      if n: nat :| PartsAt(a, b, n) {
        if n > 0 { PartsEarlier(a, b, n); }
      }
    }
  }

  lemma PartsLater(a: Text, b: Text, n: nat)
    requires a != [] && b != [] && a[0] == b[0] && PartsAt(a[1..], b[1..], n)
    ensures PartsAt(a, b, n + 1)
  {
    assert a[..n + 1] == [a[0]] + a[1..][..n] && b[..n + 1] == [b[0]] + b[1..][..n];
  }

  lemma PartsEarlier(a: Text, b: Text, n: nat)
    requires a != [] && b != [] && n > 0 && PartsAt(a, b, n)
    ensures a[0] == b[0] && PartsAt(a[1..], b[1..], n - 1)
  {
    assert a[0] == a[..n][0] && b[0] == b[..n][0];
    assert a[1..][..n - 1] == a[..n][1..] && b[1..][..n - 1] == b[..n][1..];
  }

  /** The keys of a canonical object ascend by UTF-16 code unit. */
  lemma KeysAscend<T(!new)>(ms: seq<Member<T>>)
    requires DistinctKeys(ms)
    ensures forall i, j :: 0 <= i < j < |Sorted(ms)| ==> Precedes(Sorted(ms)[i].key, Sorted(ms)[j].key)
  {
    hide Sorted, Precedes, Less;
    SortedIsSorted(ms);
    forall i, j | 0 <= i < j < |Sorted(ms)| ensures Precedes(Sorted(ms)[i].key, Sorted(ms)[j].key) {
      LessIsPrecedes(Sorted(ms)[i].key, Sorted(ms)[j].key);
    }
  }

  // ---- Strings, as section 7 of RFC 8259 has them read ----

  function HexValue(c: CodeUnit): Option<int> {
    if 0x30 <= c <= 0x39 then Some(c as int - 0x30)
    else if 0x61 <= c <= 0x66 then Some(c as int - 0x61 + 10)
    else if 0x41 <= c <= 0x46 then Some(c as int - 0x41 + 10)
    else None
  }

  /** What the letter after a backslash stands for; u is read apart. */
  function EscapeMeans(letter: CodeUnit): Option<CodeUnit> {
    if letter == 0x22 || letter == 0x5c || letter == 0x2f then Some(letter)
    else if letter == 0x62 then Some(0x08)
    else if letter == 0x66 then Some(0x0c)
    else if letter == 0x6e then Some(0x0a)
    else if letter == 0x72 then Some(0x0d)
    else if letter == 0x74 then Some(0x09)
    else None
  }

  function FourHex(t: Text): (n: Option<int>)
    requires |t| >= 4
    ensures n.Some? ==> 0 <= n.value < 0x1_0000
  {
    match (HexValue(t[0]), HexValue(t[1]), HexValue(t[2]), HexValue(t[3]))
    case (Some(a), Some(b), Some(c), Some(d)) =>
      assert 0 <= a < 16 && 0 <= b < 16 && 0 <= c < 16 && 0 <= d < 16;
      Some(((a * 16 + b) * 16 + c) * 16 + d)
    case _ => None
  }

  /** One character of a string and what follows it. */
  function ReadUnit(t: Text): Option<(CodeUnit, Text)>
    requires t != []
  {
    if t[0] == 0x22 || t[0] < 0x20 then None
    else if t[0] != 0x5c then Some((t[0], t[1..]))
    else if |t| < 2 then None
    else if t[1] == 0x75 then
      if |t| < 6 || FourHex(t[2..6]).None? then None else Some((FourHex(t[2..6]).value as CodeUnit, t[6..]))
    else if EscapeMeans(t[1]).None? then None
    else Some((EscapeMeans(t[1]).value, t[2..]))
  }

  /** The content of a string between its quotation marks. */
  function ReadString(t: Text): Option<Text>
    decreases |t|
  {
    if t == [] then Some([])
    else
      match ReadUnit(t)
      case None => None
      case Some((unit, rest)) =>
        match ReadString(rest)
        case None => None
        case Some(units) => Some([unit] + units)
  }

  lemma HexIsRead(n: int)
    requires 0 <= n < 16
    ensures HexValue(HexDigit(n)) == Some(n)
  {
  }

  lemma Hex4IsRead(c: CodeUnit)
    ensures FourHex(Hex4(c)) == Some(c as int)
  {
    hide HexValue, HexDigit;
    var n := c as int;
    HexIsRead(n / 16 / 16 / 16);
    HexIsRead(n / 16 / 16 % 16);
    HexIsRead(n / 16 % 16);
    HexIsRead(n % 16);
  }

  lemma EscapedUnitIsRead(c: CodeUnit, rest: Text)
    ensures ReadUnit(EscapedUnit(c) + rest) == Some((c, rest))
  {
    hide FourHex, Hex4;
    var t := EscapedUnit(c) + rest;
    if ShortEscape(c) != 0 {
      assert t[2..] == rest;
    } else if NeedsHex(c) {
      Hex4IsRead(c);
      Hex4HasFour(c);
      assert t[2..6] == Hex4(c) && t[6..] == rest;
    } else {
      assert t[1..] == rest;
    }
  }

  lemma Hex4HasFour(c: CodeUnit)
    ensures |Hex4(c)| == 4
  {
  }

  lemma PairIsRead(s: Text, rest: Text)
    requires StartsWithPair(s)
    ensures ReadString([s[0], s[1]] + rest)
            == if ReadString(rest).None? then None else Some([s[0], s[1]] + ReadString(rest).value)
  {
    var t := [s[0], s[1]] + rest;
    assert t[1..] == [s[1]] + rest && t[1..][1..] == rest;
    assert ReadUnit(t) == Some((s[0], t[1..])) && ReadUnit(t[1..]) == Some((s[1], rest));
    if ReadString(rest).Some? {
      assert [s[0]] + ([s[1]] + ReadString(rest).value) == [s[0], s[1]] + ReadString(rest).value;
    }
  }

  /** Any conforming reader gets back the string, lone surrogates included. */
  lemma {:induction false} WrittenStringIsRead(s: Text)
    ensures ReadString(Escaped(s)) == Some(s)
    decreases |s|
  {
    hide EscapedUnit, ReadUnit;
    if s != [] {
      var rest := s[GroupLength(s)..];
      WrittenStringIsRead(rest);
      if StartsWithPair(s) {
        PairIsRead(s, Escaped(rest));
        assert s == s[..2] + rest && s[..2] == [s[0], s[1]];
      } else {
        EscapedUnitIsRead(s[0], Escaped(rest));
        assert s == s[..1] + rest && s[..1] == [s[0]];
      }
    }
  }

  // ---- One text in full ----

  function Units(s: string): Text
    requires forall i :: 0 <= i < |s| ==> s[i] <= '\U{7f}'
  {
    seq(|s|, i requires 0 <= i < |s| => s[i] as CodeUnit)
  }

  const ONE: Numeral := [0x31]

  lemma OneMoreItem(x: Json, rest: seq<Json>)
    ensures CanonItems([x] + rest) == [Canon(x)] + CanonItems(rest)
    ensures PrintItems([x] + rest) == [Print(x)] + PrintItems(rest)
  {
    assert ([x] + rest)[1..] == rest;
  }

  lemma OneMorePart(x: Text, rest: seq<Text>)
    ensures Join([x] + rest) == if rest == [] then x else x + [COMMA] + Join(rest)
  {
    assert ([x] + rest)[1..] == rest;
  }

  lemma LettersEscape()
    ensures Escaped([0x61]) == [0x61] && Escaped([0x62]) == [0x62] && Escaped([0x78]) == [0x78]
  {
    assert Escaped([]) == [];
  }

  lemma NothingInside()
    ensures CanonItems([]) == [] && PrintItems([]) == [] && CanonMembers([]) == [] && PrintMembers([]) == []
    ensures Join([]) == []
  {
  }

  lemma Scalars()
    ensures forall j: Json :: !j.Arr? && !j.Obj? ==> Canon(j) == j
    ensures Print(Num(ONE)) == ONE == [0x31] && Print(Null) == NULL_TEXT
    ensures Print(Bool(true)) == TRUE_TEXT && Print(Bool(false)) == FALSE_TEXT
    ensures forall s :: Print(Str(s)) == [QUOTE] + Escaped(s) + [QUOTE]
  {
    hide Escaped;
  }

  /** [1, null, true, false, "x"] */
  function FiveItems(): seq<Json> {
    [Num(ONE)] + ([Null] + ([Bool(true)] + ([Bool(false)] + ([Str([0x78])] + []))))
  }

  lemma FiveItemsInFull()
    ensures CanonItems(FiveItems()) == FiveItems()
    ensures Join(PrintItems(FiveItems())) == Units("1,null,true,false,\"x\"")
  {
    Scalars();
    LettersEscape();
    NothingInside();
    hide *;
    var e: seq<Json> := [Str([0x78])] + [];
    OneMoreItem(Str([0x78]), []);
    var d := [Bool(false)] + e;
    OneMoreItem(Bool(false), e);
    var c := [Bool(true)] + d;
    OneMoreItem(Bool(true), d);
    var b := [Null] + c;
    OneMoreItem(Null, c);
    OneMoreItem(Num(ONE), b);
    TheFive();
    var x: Text := [0x22, 0x78, 0x22];
    OneMorePart(x, []);
    OneMorePart(FALSE_TEXT, [x] + []);
    OneMorePart(TRUE_TEXT, [FALSE_TEXT] + ([x] + []));
    OneMorePart(NULL_TEXT, [TRUE_TEXT] + ([FALSE_TEXT] + ([x] + [])));
    OneMorePart([0x31], [NULL_TEXT] + ([TRUE_TEXT] + ([FALSE_TEXT] + ([x] + []))));
    FiveTexts(x);
  }

  lemma TheFive()
    ensures FiveItems() == [Num(ONE)] + ([Null] + ([Bool(true)] + ([Bool(false)] + ([Str([0x78])] + []))))
  {
  }

  lemma FiveTexts(x: Text)
    requires x == [0x22, 0x78, 0x22]
    ensures [0x31] + [COMMA] + (NULL_TEXT + [COMMA] + (TRUE_TEXT + [COMMA] + (FALSE_TEXT + [COMMA] + x)))
         == Units("1,null,true,false,\"x\"")
    ensures [QUOTE] + [0x78] + [QUOTE] == x
  {
  }

  lemma OneMoreMember(m: Member<Json>, rest: seq<Member<Json>>)
    ensures CanonMembers([m] + rest) == [Member(m.key, Canon(m.value))] + CanonMembers(rest)
    ensures PrintMembers([m] + rest) == [PrintMember(m)] + PrintMembers(rest)
    ensures Sorted([m] + rest) == Inserted(m, Sorted(rest))
  {
    assert ([m] + rest)[1..] == rest;
  }

  lemma TwoMembers(a: Member<Json>, b: Member<Json>)
    requires Less(a.key, b.key) && !Less(b.key, a.key) && Canon(a.value) == a.value && Canon(b.value) == b.value
    ensures Canon(Obj([b] + ([a] + []))) == Obj([a] + ([b] + []))
    ensures Join(PrintMembers([a] + ([b] + []))) == PrintMember(a) + [COMMA] + PrintMember(b)
  {
    NothingInside();
    hide Less, PrintMember, CanonMembers, PrintMembers, Join;
    OneMoreMember(a, []);
    OneMoreMember(b, [a] + []);
    OneMoreMember(b, []);
    OneMoreMember(a, [b] + []);
    assert Inserted(a, []) == [a];
    assert [a][1..] == [];
    assert Inserted(b, [a]) == [a] + Inserted(b, []) == [a, b];
    OneMorePart(PrintMember(b), []);
    OneMorePart(PrintMember(a), [PrintMember(b)] + []);
  }

  /** {"b": [1, null, true, false, "x"], "a": {}} in canonical form. */
  lemma OneTextInFull()
    ensures var a, b := Member([0x61], Obj([])), Member([0x62], Arr(FiveItems()));
            StableText(Obj([b] + ([a] + [])))
              == Units("{\"a\":{},\"b\":[") + Units("1,null,true,false,\"x\"") + Units("]}")
  {
    hide *;
    var a, b := Member([0x61], Obj([])), Member([0x62], Arr(FiveItems()));
    FiveItemsInFull();
    KeysInOrder();
    ContainersAreCanonical(FiveItems());
    TwoMembers(a, b);
    PrintedObject([b] + ([a] + []), [a] + ([b] + []));
    EmptyMember();
    ArrayMember(FiveItems());
    WholeText(Units("1,null,true,false,\"x\""));
  }

  lemma KeysInOrder()
    ensures Less([0x61], [0x62]) && !Less([0x62], [0x61])
  {
  }

  lemma ContainersAreCanonical(items: seq<Json>)
    requires CanonItems(items) == items
    ensures Canon(Arr(items)) == Arr(items) && Canon(Obj([])) == Obj([])
  {
    NothingInside();
  }

  lemma PrintedObject(ms: seq<Member<Json>>, canonical: seq<Member<Json>>)
    requires Canon(Obj(ms)) == Obj(canonical)
    ensures StableText(Obj(ms)) == [OPEN_OBJECT] + Join(PrintMembers(canonical)) + [CLOSE_OBJECT]
  {
    hide PrintMembers, Join, Canon;
  }

  lemma EmptyMember()
    ensures PrintMember(Member([0x61], Obj([]))) == Units("\"a\":{}")
  {
    LettersEscape();
    NothingInside();
    hide Escaped, PrintMembers, Join;
  }

  lemma ArrayMember(items: seq<Json>)
    ensures PrintMember(Member([0x62], Arr(items)))
         == [0x22, 0x62, 0x22, 0x3a, 0x5b] + Join(PrintItems(items)) + [0x5d]
  {
    LettersEscape();
    hide Escaped, PrintItems, Join;
  }

  lemma Brackets()
    ensures [OPEN_OBJECT] + Units("\"a\":{}") + [COMMA] + [0x22, 0x62, 0x22, 0x3a, 0x5b]
         == Units("{\"a\":{},\"b\":[")
    ensures [0x5d, CLOSE_OBJECT] == Units("]}")
  {
  }

  lemma WholeText(items: Text)
    ensures [OPEN_OBJECT] + (Units("\"a\":{}") + [COMMA] + ([0x22, 0x62, 0x22, 0x3a, 0x5b] + items + [0x5d]))
            + [CLOSE_OBJECT]
         == Units("{\"a\":{},\"b\":[") + items + Units("]}")
  {
    Brackets();
    hide Units;
    TextsJoin([OPEN_OBJECT], Units("\"a\":{}"), [COMMA], [0x22, 0x62, 0x22, 0x3a, 0x5b], items, [0x5d], [CLOSE_OBJECT]);
  }

  lemma TextsJoin(p: Text, a: Text, q: Text, c: Text, b: Text, r: Text, s: Text)
    ensures p + (a + q + (c + b + r)) + s == p + a + q + c + b + (r + s)
  {
  }

  // ---- What is escaped, and what is not ----

  /**
   * Every surrogate has its other half next to it: a high one is followed by a low one, a low one follows a high one.
   */
  ghost predicate IsWellFormed(t: Text) {
    && (forall i :: 0 <= i < |t| && 0xd800 <= t[i] <= 0xdbff ==> i + 1 < |t| && 0xdc00 <= t[i + 1] <= 0xdfff)
    && (forall i :: 0 <= i < |t| && 0xdc00 <= t[i] <= 0xdfff ==> i > 0 && 0xd800 <= t[i - 1] <= 0xdbff)
  }

  lemma GroupsAreWellFormed(s: Text)
    requires s != []
    ensures IsWellFormed(Group(s))
  {
    if !StartsWithPair(s) { HexIsAscii(s[0]); }
  }

  lemma HexIsAscii(c: CodeUnit)
    ensures forall i :: 0 <= i < 4 ==> Hex4(c)[i] < 0x80
  {
  }

  lemma WellFormedJoin(a: Text, b: Text)
    requires IsWellFormed(a) && IsWellFormed(b)
    ensures IsWellFormed(a + b)
  {
  }

  /** The text of any string can be encoded in UTF-8: lone surrogates are escaped. */
  lemma {:induction false} WrittenStringIsWellFormed(s: Text)
    ensures IsWellFormed(Escaped(s))
    decreases |s|
  {
    hide Group;
    if s != [] {
      GroupsAreWellFormed(s);
      WrittenStringIsWellFormed(s[GroupLength(s)..]);
      WellFormedJoin(Group(s), Escaped(s[GroupLength(s)..]));
    }
  }

  /** A character that need not be escaped stands for itself, and so does a surrogate pair. */
  lemma NothingElseIsEscaped(c: CodeUnit, high: CodeUnit, low: CodeUnit)
    requires c >= 0x20 && c != 0x22 && c != 0x5c && !(0xd800 <= c <= 0xdfff)
    requires 0xd800 <= high <= 0xdbff && 0xdc00 <= low <= 0xdfff
    ensures Escaped([c]) == [c] && Escaped([high, low]) == [high, low]
  {
    assert Escaped([]) == [];
    assert [c][1..] == [] && [high, low][2..] == [];
  }

  /** A control character has its short escape if RFC 8259 names one, and four hexadecimal digits if not. */
  lemma ControlsAreEscaped(c: CodeUnit)
    requires c < 0x20
    ensures Escaped([c]) == (if c == 0x08 then Units("\\b") else if c == 0x09 then Units("\\t")
                             else if c == 0x0a then Units("\\n") else if c == 0x0c then Units("\\f")
                             else if c == 0x0d then Units("\\r") else Units("\\u00") + Hex4(c)[2..])
  {
    assert Escaped([]) == [] && [c][1..] == [];
    assert Hex4(c)[..2] == [0x30, 0x30];
    assert Hex4(c) == Hex4(c)[..2] + Hex4(c)[2..];
  }

  /** Numbers are written with these characters. */
  lemma NumeralCharacters(c: CodeUnit)
    ensures IsNumeralUnit(c) <==> c in Units("0123456789-+.e")
  {
    var all := Units("0123456789-+.e");
    if 0x30 <= c <= 0x39 { assert all[c as int - 0x30] == c; }
    assert all[10] == 0x2d && all[11] == 0x2b && all[12] == 0x2e && all[13] == 0x65;
  }
}
