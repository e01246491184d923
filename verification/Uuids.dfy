/** The two UUID validators: the one that mints identity ids and the stricter one of the outbox. */
module Uuids {
  import opened Maybe
  import JsText

  predicate IsLowerHex(c: char) {
    '0' <= c <= '9' || 'a' <= c <= 'f'
  }

  function Lower(c: char): char {
    if 'A' <= c <= 'F' then (c as int + 32) as char else c
  }

  function Lowered(s: string): string {
    seq(|s|, i requires 0 <= i < |s| => Lower(s[i]))
  }

  /** The canonical shape, with a version nibble from 1 up to `last` and a variant nibble of 8, 9, a or b. */
  predicate IsUuid(s: string, last: char) {
    && |s| == 36
    && (forall i :: 0 <= i < 36 ==> if i == 8 || i == 13 || i == 18 || i == 23 then s[i] == '-' else IsLowerHex(s[i]))
    && '1' <= s[14] <= last
    && s[19] in "89ab"
  }

  function Canonical(value: string, last: char): Option<string> {
    var lower := Lowered(JsText.Trim(value));
    if IsUuid(lower, last) then Some(lower) else None
  }

  /** requireUuid of the foundation, which identity applies to the ids it mints. */
  function IdentityUuid(value: string): Option<string> {
    Canonical(value, '8')
  }

  /** requireUuid of the outbox, which knows versions 1 to 5 only. */
  function OutboxUuid(value: string): Option<string> {
    Canonical(value, '5')
  }

  /** `value` is `uuid` in letters of either case, with white space around it. */
  ghost predicate Spells(value: string, uuid: string) {
    exists before, word, after ::
      JsText.Surrounded(value, before, word, after) && Lowered(word) == uuid
  }

  /** A value is read as a UUID if and only if it spells it. */
  lemma ReadExactlyWhenSpelled(value: string, uuid: string, last: char)
    requires IsUuid(uuid, last)
    ensures Canonical(value, last) == Some(uuid) <==> Spells(value, uuid)
  {
    if Canonical(value, last) == Some(uuid) {
      var before, after := JsText.TrimSurrounds(value);
      assert JsText.Surrounded(value, before, JsText.Trim(value), after);
    }
    forall before, word, after | JsText.Surrounded(value, before, word, after) && Lowered(word) == uuid
      ensures JsText.Trim(value) == word
    {
      assert Lower(word[0]) == uuid[0] && Lower(word[|word| - 1]) == uuid[|uuid| - 1];
      JsText.TrimOfSurrounded(value, before, word, after);
    }
  }

  /** A value is refused if and only if it spells no UUID of an admitted version. */
  lemma RefusedExactlyWhenNothingIsSpelled(value: string, last: char)
    ensures Canonical(value, last) == None <==> forall uuid :: IsUuid(uuid, last) ==> !Spells(value, uuid)
  {
    hide Spells, IsUuid;
    forall uuid | IsUuid(uuid, last) ensures Canonical(value, last) == Some(uuid) <==> Spells(value, uuid) {
      ReadExactlyWhenSpelled(value, uuid, last);
    }
  }

  /**
   * The outbox refuses an id that identity accepts exactly when its version is 6, 7 or 8; otherwise both read it alike.
   */
  lemma OutboxRefusesNewVersions(value: string)
    requires IdentityUuid(value).Some?
    ensures OutboxUuid(value) == if '6' <= IdentityUuid(value).value[14] <= '8' then None else IdentityUuid(value)
  {
  }

  lemma OutboxReadsOnlyWhatIdentityReads(value: string)
    ensures OutboxUuid(value).Some? ==> IdentityUuid(value) == OutboxUuid(value)
  {
  }

  /** Reading a canonical id again changes nothing. */
  lemma CanonicalIsFixed(uuid: string, last: char)
    requires IsUuid(uuid, last)
    ensures Canonical(uuid, last) == Some(uuid)
  {
    assert Lowered(uuid) == uuid;
    assert uuid == "" + uuid + "";
    assert JsText.Surrounded(uuid, "", uuid, "");
    ReadExactlyWhenSpelled(uuid, uuid, last);
  }

  /** A version 7 id, which identity can mint and the outbox refuses. */
  lemma VersionSevenIsRefused()
    ensures var id := "01890000-0000-7000-8000-000000000000"; IdentityUuid(id) == Some(id) && OutboxUuid(id) == None
  {
    var id := "01890000-0000-7000-8000-000000000000";
    assert IsUuid(id, '8');
    CanonicalIsFixed(id, '8');
    OutboxRefusesNewVersions(id);
  }

  // ---- What a UUID looks like ----

  lemma LowerOfHex(i: nat)
    requires i < 6
    ensures Lower("ABCDEF"[i]) == "abcdef"[i] == Lower("abcdef"[i])
  {
  }

  lemma OtherCharactersStay(c: char)
    ensures Lower(c) != c ==> c in "ABCDEF"
  {
    if 'A' <= c <= 'F' { assert "ABCDEF"[(c - 'A') as int] == c; }
  }

  /** Five groups of hexadecimal digits: a version opens the third, one of 8, 9, a and b the fourth. */
  ghost predicate IsGrouped(s: string, a: string, b: string, c: string, d: string, e: string, versions: string) {
    && s == a + "-" + b + "-" + c + "-" + d + "-" + e
    && |a| == 8 && |b| == 4 && |c| == 4 && |d| == 4 && |e| == 12
    && (forall x :: x in a + b + c + d + e ==> x in "0123456789abcdef")
    && c[0] in versions && d[0] in "89ab"
  }

  lemma HexDigits(x: char)
    ensures x in "0123456789abcdef" <==> IsLowerHex(x)
  {
    if IsLowerHex(x) {
      var i := if x <= '9' then (x - '0') as int else (x - 'a') as int + 10;
      assert "0123456789abcdef"[i] == x;
    }
  }

  lemma Versions(x: char)
    ensures x in "12345678" <==> '1' <= x <= '8'
    ensures x in "12345" <==> '1' <= x <= '5'
  {
    if '1' <= x <= '8' {
      var i := (x - '1') as int;
      assert "12345678"[i] == x;
      if i < 5 { assert "12345"[i] == x; }
    }
  }

  lemma UuidIsGrouped(s: string, last: char, versions: string)
    requires IsUuid(s, last) && forall x :: x in versions <==> '1' <= x <= last
    ensures IsGrouped(s, s[..8], s[9..13], s[14..18], s[19..23], s[24..], versions)
  {
    var a, b, c, d, e := s[..8], s[9..13], s[14..18], s[19..23], s[24..];
    assert s == a + [s[8]] + b + [s[13]] + c + [s[18]] + d + [s[23]] + e;
    forall x | x in a + b + c + d + e ensures x in "0123456789abcdef" {
      HexDigits(x);
    }
  }

  lemma GroupedIsUuid(s: string, a: string, b: string, c: string, d: string, e: string, last: char, versions: string)
    requires IsGrouped(s, a, b, c, d, e, versions) && forall x :: x in versions <==> '1' <= x <= last
    ensures IsUuid(s, last)
  {
    hide IsLowerHex;
    var all := a + b + c + d + e;
    forall i | 0 <= i < |all| ensures IsLowerHex(all[i]) { HexDigits(all[i]); }
    assert s[8] == s[13] == s[18] == s[23] == '-' && s[14] == c[0] && s[19] == d[0];
    forall i | 0 <= i < 36 && i != 8 && i != 13 && i != 18 && i != 23 ensures IsLowerHex(s[i]) {
      var k := if i < 8 then i else if i < 13 then i - 1 else if i < 18 then i - 2 else if i < 23 then i - 3 else i - 4;
      assert all[k] == s[i];
    }
  }

  /** Both validators accept exactly the five groups, each with its own versions. */
  lemma UuidsAreFiveGroups(s: string)
    ensures IsUuid(s, '8') <==> exists a, b, c, d, e :: IsGrouped(s, a, b, c, d, e, "12345678")
    ensures IsUuid(s, '5') <==> exists a, b, c, d, e :: IsGrouped(s, a, b, c, d, e, "12345")
  {
    hide IsUuid, IsGrouped;
    forall x: char ensures (x in "12345678" <==> '1' <= x <= '8') && (x in "12345" <==> '1' <= x <= '5') {
      Versions(x);
    }
    if IsUuid(s, '8') { UuidIsGrouped(s, '8', "12345678"); }
    if IsUuid(s, '5') { UuidIsGrouped(s, '5', "12345"); }
    forall a, b, c, d, e | IsGrouped(s, a, b, c, d, e, "12345678") ensures IsUuid(s, '8') {
      GroupedIsUuid(s, a, b, c, d, e, '8', "12345678");
    }
    forall a, b, c, d, e | IsGrouped(s, a, b, c, d, e, "12345") ensures IsUuid(s, '5') {
      GroupedIsUuid(s, a, b, c, d, e, '5', "12345");
    }
  }
}
