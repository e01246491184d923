/** The few string operations of ECMAScript that the validators rely on. */
module JsText {
  import opened Maybe

  /** WhiteSpace and LineTerminator code points, which String.prototype.trim removes. */
  predicate IsSpace(c: char) {
    || '\U{9}' <= c <= '\U{d}' || c == ' ' || c == '\U{a0}' || c == '\U{1680}'
    || '\U{2000}' <= c <= '\U{200a}' || c == '\U{2028}' || c == '\U{2029}'
    || c == '\U{202f}' || c == '\U{205f}' || c == '\U{3000}' || c == '\U{feff}'
  }

  function TrimStart(s: string): string {
    if s != "" && IsSpace(s[0]) then TrimStart(s[1..]) else s
  }

  function TrimEnd(s: string): string {
    if s != "" && IsSpace(s[|s| - 1]) then TrimEnd(s[..|s| - 1]) else s
  }

  function Trim(s: string): string {
    TrimEnd(TrimStart(s))
  }

  /** String.prototype.length counts UTF-16 code units. */
  function Length(s: string): nat {
    if s == "" then 0 else (if s[0] <= '\U{ffff}' then 1 else 2) + Length(s[1..])
  }

  /** requireNonBlank: trimmed, not empty, and not longer than `max` code units. */
  function NonBlank(value: string, max: nat): Option<string> {
    var normalized := Trim(value);
    if normalized == "" || Length(normalized) > max then None else Some(normalized)
  }

  lemma TrimIsNoOp(s: string)
    requires s != "" && !IsSpace(s[0]) && !IsSpace(s[|s| - 1])
    ensures Trim(s) == s
  {
  }

  predicate AllSpace(s: string) {
    forall i :: 0 <= i < |s| ==> IsSpace(s[i])
  }

  /** `s` is `word` with white space around it. */
  predicate Surrounded(s: string, before: string, word: string, after: string) {
    s == before + word + after && AllSpace(before) && AllSpace(after)
  }

  lemma {:induction false} TrimStartSplits(s: string) returns (before: string)
    ensures AllSpace(before) && s == before + TrimStart(s) && (TrimStart(s) != "" ==> !IsSpace(TrimStart(s)[0]))
    decreases |s|
  {
    hide IsSpace;
    before := "";
    if s != "" && IsSpace(s[0]) {
      before := TrimStartSplits(s[1..]);
      before := [s[0]] + before;
    }
  }

  lemma {:induction false} TrimEndSplits(s: string) returns (after: string)
    ensures AllSpace(after) && s == TrimEnd(s) + after
    ensures TrimEnd(s) != "" ==> !IsSpace(TrimEnd(s)[|TrimEnd(s)| - 1])
    decreases |s|
  {
    hide IsSpace;
    after := "";
    if s != "" && IsSpace(s[|s| - 1]) {
      after := TrimEndSplits(s[..|s| - 1]);
      after := after + [s[|s| - 1]];
    }
  }

  lemma TrimSurrounds(s: string) returns (before: string, after: string)
    ensures Surrounded(s, before, Trim(s), after)
  {
    hide IsSpace, AllSpace;
    before := TrimStartSplits(s);
    after := TrimEndSplits(TrimStart(s));
  }

  lemma {:induction false} TrimStartOf(before: string, rest: string)
    requires AllSpace(before) && rest != "" && !IsSpace(rest[0])
    ensures TrimStart(before + rest) == rest
    decreases |before|
  {
    hide IsSpace;
    if before == "" {
      assert before + rest == rest;
    } else {
      assert (before + rest)[1..] == before[1..] + rest;
      TrimStartOf(before[1..], rest);
    }
  }

  lemma {:induction false} TrimEndOf(rest: string, after: string)
    requires AllSpace(after) && rest != "" && !IsSpace(rest[|rest| - 1])
    ensures TrimEnd(rest + after) == rest
    decreases |after|
  {
    hide IsSpace;
    if after == "" {
      assert rest + after == rest;
    } else {
      assert (rest + after)[..|rest + after| - 1] == rest + after[..|after| - 1];
      TrimEndOf(rest, after[..|after| - 1]);
    }
  }

  /** A word without white space at its ends is what trimming leaves. */
  lemma TrimOfSurrounded(s: string, before: string, word: string, after: string)
    requires Surrounded(s, before, word, after) && word != "" && !IsSpace(word[0]) && !IsSpace(word[|word| - 1])
    ensures Trim(s) == word
  {
    hide IsSpace, AllSpace, TrimStart, TrimEnd;
    assert s == before + (word + after);
    TrimStartOf(before, word + after);
    TrimEndOf(word, after);
  }

  /** What trimming leaves has no white space at its ends. */
  lemma TrimIsTrimmed(s: string)
    ensures Trim(s) != "" ==> !IsSpace(Trim(s)[0]) && !IsSpace(Trim(s)[|Trim(s)| - 1])
  {
    hide IsSpace, AllSpace, TrimStart, TrimEnd;
    var before := TrimStartSplits(s);
    var after := TrimEndSplits(TrimStart(s));
    assert Trim(s) != "" ==> Trim(s)[0] == TrimStart(s)[0];
  }

  /** The white space of ECMAScript by code points: tab to carriage return, the space separators, line ends and BOM. */
  lemma SpacesByCodePoint(c: char)
    ensures IsSpace(c) <==>
            (c as int) in [9, 10, 11, 12, 13, 32, 160, 5760, 8192, 8193, 8194, 8195, 8196, 8197, 8198, 8199, 8200, 8201,
                           8202, 8232, 8233, 8239, 8287, 12288, 65279]
  {
  }
}
