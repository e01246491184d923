/** A JavaScript Map: it iterates over its keys in the order in which they were first inserted. */
module JsMaps {

  datatype JsMap<K(==,!new), V> = JsMap(keys: seq<K>, at: map<K, V>) {

    ghost predicate Valid() {
      && (forall i, j :: 0 <= i < j < |keys| ==> keys[i] != keys[j])
      && (forall k :: k in keys <==> k in at)
    }

    function Put(k: K, v: V): (m: JsMap<K, V>)
      requires Valid()
      ensures m.Valid() && m.at == at[k := v]
      ensures k in at ==> m.keys == keys
      ensures k !in at ==> m.keys == keys + [k]
    {
      if k in at then JsMap(keys, at[k := v]) else JsMap(keys + [k], at[k := v])
    }

    function Remove(k: K): (m: JsMap<K, V>)
      requires Valid()
      ensures m.Valid() && m.at == at - {k}
      ensures |m.keys| == |keys| - (if k in at then 1 else 0)
    {
      if k !in at then this
      else
        var i := IndexOf(keys, k);
        JsMap(keys[..i] + keys[i + 1..], at - {k})
    }
  }

  function IndexOf<K(==)>(keys: seq<K>, k: K): (i: nat)
    requires k in keys
    ensures i < |keys| && keys[i] == k
  {
    if keys[0] == k then 0 else 1 + IndexOf(keys[1..], k)
  }

  /** The keys that are still in `alive`, in their order. */
  function Kept<K(==)>(keys: seq<K>, alive: set<K>): seq<K>
    decreases |keys|
  {
    if keys == [] then []
    else Kept(keys[..|keys| - 1], alive) + (if keys[|keys| - 1] in alive then [keys[|keys| - 1]] else [])
  }

  lemma {:induction false} AllKept<K>(keys: seq<K>, alive: set<K>)
    requires forall k :: k in keys ==> k in alive
    ensures Kept(keys, alive) == keys
    decreases |keys|
  {
    if keys != [] { AllKept(keys[..|keys| - 1], alive); }
  }

  lemma {:induction false} KeptTwice<K>(keys: seq<K>, a: set<K>, b: set<K>)
    requires b <= a
    ensures Kept(Kept(keys, a), b) == Kept(keys, b)
    decreases |keys|
  {
    if keys != [] {
      var front, last := keys[..|keys| - 1], keys[|keys| - 1];
      KeptTwice(front, a, b);
      if last in a {
        assert (Kept(front, a) + [last])[..|Kept(front, a)|] == Kept(front, a);
      } else {
        assert Kept(keys, a) == Kept(front, a);
      }
    }
  }

  lemma {:induction false} KeptAcross<K>(left: seq<K>, right: seq<K>, alive: set<K>)
    ensures Kept(left + right, alive) == Kept(left, alive) + Kept(right, alive)
    decreases |right|
  {
    if right == [] {
      assert left + right == left;
    } else {
      assert (left + right)[..|left + right| - 1] == left + right[..|right| - 1];
      KeptAcross(left, right[..|right| - 1], alive);
    }
  }

  /** Removing a key leaves the order of the others alone. */
  lemma RemovalKeepsOrder<K(!new), V>(m: JsMap<K, V>, k: K)
    requires m.Valid()
    ensures m.Remove(k).keys == Kept(m.keys, m.Remove(k).at.Keys)
  {
    var alive := m.Remove(k).at.Keys;
    if k !in m.at {
      AllKept(m.keys, alive);
    } else {
      CutOne(m.keys, IndexOf(m.keys, k), alive);
    }
  }

  lemma CutOne<K>(keys: seq<K>, i: nat, alive: set<K>)
    requires i < |keys| && keys[i] !in alive
    requires forall j :: 0 <= j < |keys| && j != i ==> keys[j] in alive
    ensures Kept(keys, alive) == keys[..i] + keys[i + 1..]
  {
    hide Kept;
    var left, right := keys[..i], keys[i + 1..];
    AllKept(left, alive);
    AllKept(right, alive);
    KeptSnoc(left, keys[i], alive);
    KeptAcross(left + [keys[i]], right, alive);
    assert keys == (left + [keys[i]]) + right;
  }

  lemma KeptSnoc<K>(keys: seq<K>, k: K, alive: set<K>)
    ensures Kept(keys + [k], alive) == Kept(keys, alive) + (if k in alive then [k] else [])
  {
    assert (keys + [k])[..|keys|] == keys;
  }

  lemma {:induction false} KeptMembers<K>(keys: seq<K>, alive: set<K>)
    ensures forall k :: k in Kept(keys, alive) <==> k in keys && k in alive
    ensures (forall i, j :: 0 <= i < j < |keys| ==> keys[i] != keys[j])
        ==> (forall i, j :: 0 <= i < j < |Kept(keys, alive)| ==> Kept(keys, alive)[i] != Kept(keys, alive)[j])
    decreases |keys|
  {
    if keys != [] {
      var front, last := keys[..|keys| - 1], keys[|keys| - 1];
      KeptMembers(front, alive);
      assert keys == front + [last];
      assert forall i :: 0 <= i < |front| ==> front[i] == keys[i];
    }
  }

  /** What is left when every key outside `alive` is removed. */
  function Restricted<K(!new), V>(m: JsMap<K, V>, alive: set<K>): (r: JsMap<K, V>)
    requires m.Valid() && alive <= m.at.Keys
    ensures r.Valid() && r.at.Keys == alive && |r.keys| <= |m.keys|
  {
    KeptMembers(m.keys, alive);
    KeptIsNoLonger(m.keys, alive);
    JsMap(Kept(m.keys, alive), map k | k in alive :: m.at[k])
  }

  lemma {:induction false} KeptIsNoLonger<K>(keys: seq<K>, alive: set<K>)
    ensures |Kept(keys, alive)| <= |keys|
    decreases |keys|
  {
    if keys != [] { KeptIsNoLonger(keys[..|keys| - 1], alive); }
  }
}
