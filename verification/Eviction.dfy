/** The oldest-entry branch that the throttle and the rate limiter share. */
module Eviction {
  import opened Maybe
  import opened JsMaps

  predicate MakesRoom<V>(m: JsMap<string, V>, key: string, capacity: nat) {
    key !in m.at && |m.keys| >= capacity
  }

  /** The key that the branch removes, if it is reached and removes one: an empty key counts as none. */
  function Victim<V>(swept: JsMap<string, V>, capacity: nat): (v: Option<string>)
    requires swept.Valid()
    ensures v.Some? ==> v.value in swept.at
  {
    if |swept.keys| < capacity || swept.keys == [] || swept.keys[0] == "" then None else Some(swept.keys[0])
  }

  function WithoutVictim<V>(swept: JsMap<string, V>, capacity: nat): (r: JsMap<string, V>)
    requires swept.Valid()
    ensures r.Valid()
  {
    var v := Victim(swept, capacity);
    if v.Some? then swept.Remove(v.value) else swept
  }

  /** A full table loses its first entry, unless that has the empty key, and nothing else. */
  lemma OnlyTheFirstGoes<V>(swept: JsMap<string, V>, capacity: nat)
    requires swept.Valid()
    ensures var r := WithoutVictim(swept, capacity);
            if |swept.keys| >= capacity && swept.keys != [] && swept.keys[0] != ""
            then r.keys == swept.keys[1..] && r.at == swept.at - {swept.keys[0]}
            else r == swept
  {
    if swept.keys != [] { assert swept.keys[0] in swept.at && IndexOf(swept.keys, swept.keys[0]) == 0; }
  }

  // ---- Who came first ----

  ghost predicate OldestFirst(keys: seq<string>, born: string -> int) {
    forall i, j :: 0 <= i < j < |keys| ==> born(keys[i]) < born(keys[j])
  }

  lemma {:induction false} KeptOldestFirst(keys: seq<string>, alive: set<string>, born: string -> int)
    requires OldestFirst(keys, born)
    ensures OldestFirst(Kept(keys, alive), born)
    decreases |keys|
  {
    if keys != [] {
      var front, last := keys[..|keys| - 1], keys[|keys| - 1];
      KeptOldestFirst(front, alive, born);
      KeptMembers(front, alive);
      var kept := Kept(front, alive);
      forall i | 0 <= i < |kept| ensures born(kept[i]) < born(last) {
        assert kept[i] in kept;
        var j :| 0 <= j < |front| && front[j] == kept[i];
        assert keys[j] == front[j];
      }
    }
  }

  lemma {:induction false} KeptAgrees(keys: seq<string>, a: set<string>, b: set<string>)
    requires forall k :: k in keys ==> (k in a <==> k in b)
    ensures Kept(keys, a) == Kept(keys, b)
    decreases |keys|
  {
    if keys != [] { KeptAgrees(keys[..|keys| - 1], a, b); }
  }

  /** The first key is the one born before all others. */
  lemma FirstIsOldest(keys: seq<string>, born: string -> int, q: string)
    requires OldestFirst(keys, born) && q in keys
    ensures keys[0] == q <==> forall k :: k in keys && k != q ==> born(q) < born(k)
  {
    var i :| 0 <= i < |keys| && keys[i] == q;
    if i > 0 { assert keys[0] in keys && born(keys[0]) < born(q); }
    forall k | k in keys && k != q && i == 0 ensures born(q) < born(k) {
      var j :| 0 <= j < |keys| && keys[j] == k;
    }
  }

  lemma {:induction false} KeysAreCounted<V>(keys: seq<string>, m: map<string, V>)
    requires forall i, j :: 0 <= i < j < |keys| ==> keys[i] != keys[j]
    requires forall k :: k in keys <==> k in m
    ensures |keys| == |m.Keys|
    decreases |keys|
  {
    if keys != [] {
      var front, last := keys[..|keys| - 1], keys[|keys| - 1];
      assert keys == front + [last];
      assert last !in front;
      KeysAreCounted(front, m - {last});
      assert m.Keys == (m - {last}).Keys + {last};
    } else {
      assert m.Keys == {};
    }
  }
}
