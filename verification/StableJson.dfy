/** Hashing a request walks a heap graph; this is the walk, its cycle detection and what its text stands for. */
module StableJson {
  import opened Maybe
  import opened CanonicalJson

  type Ref = nat

  datatype Value =
    | NullValue
    | BoolValue(b: bool)
    | NumValue(numeral: Numeral)
    | StrValue(s: Text)
    | NotFinite               // NaN and the infinities
    | NotJson                 // undefined, bigint, symbol or function
    | At(ref: Ref)

  /** Arrays are dense; `plain` says whether the prototype is Object.prototype or null. */
  datatype Node = ArrayNode(items: seq<Value>) | ObjectNode(plain: bool, members: seq<Member<Value>>)

  type Heap = map<Ref, Node>

  datatype Error = Circular | NotFiniteNumber | NotJsonValue | NotPlainObject

  function Values(members: seq<Member<Value>>): (r: seq<Value>)
    ensures |r| == |members|
  {
    seq(|members|, i requires 0 <= i < |members| => members[i].value)
  }

  function Children(node: Node): seq<Value> {
    match node
    case ArrayNode(items) => items
    case ObjectNode(_, members) => Values(members)
  }

  predicate InHeap(heap: Heap, v: Value) {
    v.At? ==> v.ref in heap
  }

  predicate AllInHeap(heap: Heap, vs: seq<Value>) {
    forall v :: v in vs ==> InHeap(heap, v)
  }

  ghost predicate Closed(heap: Heap) {
    forall r :: r in heap ==> AllInHeap(heap, Children(heap[r]))
  }

  // ---- The walk ----

  /** What will be visited in a node, in order: an object's members by sorted key. */
  function Visited(node: Node): seq<Value> {
    match node
    case ArrayNode(items) => items
    case ObjectNode(_, members) => Values(Sorted(members))
  }

  function Labelled(members: seq<Member<Value>>, texts: seq<Text>): seq<Text>
    requires |members| == |texts|
  {
    seq(|members|, i requires 0 <= i < |members| => Quoted(members[i].key) + [COLON] + texts[i])
  }

  function Assembled(node: Node, texts: seq<Text>): Text
    requires |texts| == |Visited(node)|
  {
    match node
    case ArrayNode(_) => [OPEN_ARRAY] + Join(texts) + [CLOSE_ARRAY]
    case ObjectNode(_, members) => [OPEN_OBJECT] + Join(Labelled(Sorted(members), texts)) + [CLOSE_OBJECT]
  }

  lemma SeenGrows(heap: Heap, seen: set<Ref>, r: Ref)
    requires r in heap && r !in seen
    ensures |heap.Keys - (seen + {r})| < |heap.Keys - seen|
  {
    assert heap.Keys - (seen + {r}) == (heap.Keys - seen) - {r};
  }

  lemma VisitedAreChildren(heap: Heap, r: Ref)
    requires Closed(heap) && r in heap
    ensures forall v :: v in Visited(heap[r]) <==> v in Children(heap[r])
    ensures AllInHeap(heap, Visited(heap[r]))
  {
    if heap[r].ObjectNode? {
      var members := heap[r].members;
      SortedHasAll(members);
      forall v | v in Values(Sorted(members)) ensures v in Values(members) {
        var i :| 0 <= i < |members| && Values(Sorted(members))[i] == v;
        assert Sorted(members)[i] in members;
        var k :| 0 <= k < |members| && members[k] == Sorted(members)[i];
        assert Values(members)[k] == v;
      }
      forall v | v in Values(members) ensures v in Values(Sorted(members)) {
        var k :| 0 <= k < |members| && Values(members)[k] == v;
        assert members[k] in Sorted(members);
        var i :| 0 <= i < |members| && Sorted(members)[i] == members[k];
        assert Values(Sorted(members))[i] == v;
      }
    }
  }

  function Stable(heap: Heap, v: Value, seen: set<Ref>): Result<Text, Error>
    requires Closed(heap) && InHeap(heap, v)
    decreases |heap.Keys - seen|, 0, 0
  {
    match v
    case NullValue => Ok(NULL_TEXT)
    case BoolValue(b) => Ok(if b then TRUE_TEXT else FALSE_TEXT)
    case NumValue(numeral) => Ok(numeral)
    case StrValue(s) => Ok(Quoted(s))
    case NotFinite => Err(NotFiniteNumber)
    case NotJson => Err(NotJsonValue)
    case At(r) =>
      if r in seen then Err(Circular)
      else if heap[r].ObjectNode? && !heap[r].plain then Err(NotPlainObject)
      else
        SeenGrows(heap, seen, r);
        VisitedAreChildren(heap, r);
        match StableItems(heap, Visited(heap[r]), seen + {r})
        case Ok(texts) => Ok(Assembled(heap[r], texts))
        case Err(e) => Err(e)
  }

  /** The first failure wins. */
  function StableItems(heap: Heap, vs: seq<Value>, seen: set<Ref>): (r: Result<seq<Text>, Error>)
    requires Closed(heap) && AllInHeap(heap, vs)
    ensures r.Ok? ==> |r.value| == |vs|
    decreases |heap.Keys - seen|, 1, |vs|
  {
    if vs == [] then Ok([])
    else
      match Stable(heap, vs[0], seen)
      case Err(e) => Err(e)
      case Ok(text) =>
        match StableItems(heap, vs[1..], seen)
        case Err(e) => Err(e)
        case Ok(texts) => Ok([text] + texts)
  }

  /** The WeakSet of the nodes on the current path. */
  class Seen {
    var refs: set<Ref>

    constructor ()
      ensures refs == {}
    {
      refs := {};
    }
  }

  function Prepended(texts: seq<Text>, rest: Result<seq<Text>, Error>): Result<seq<Text>, Error> {
    match rest
    case Ok(more) => Ok(texts + more)
    case Err(e) => Err(e)
  }

  lemma OneItemMore(heap: Heap, vs: seq<Value>, i: nat, texts: seq<Text>, seen: set<Ref>)
    requires Closed(heap) && AllInHeap(heap, vs) && i < |vs|
    requires AllInHeap(heap, vs[i..]) && AllInHeap(heap, vs[i + 1..])
    ensures InHeap(heap, vs[i])
    ensures var r := Stable(heap, vs[i], seen);
            (Prepended(texts, StableItems(heap, vs[i..], seen))
             == if r.Ok? then Prepended(texts + [r.value], StableItems(heap, vs[i + 1..], seen)) else Err(r.error))
  {
    hide Stable;
    assert vs[i] in vs;
    assert vs[i..][1..] == vs[i + 1..];
    assert forall more: seq<Text>, t: Text :: texts + ([t] + more) == texts + [t] + more;
  }

  method StableJson(heap: Heap, v: Value, seen: Seen) returns (r: Result<Text, Error>)
    requires Closed(heap) && InHeap(heap, v)
    modifies seen
    ensures seen.refs == old(seen.refs)
    ensures r == Stable(heap, v, old(seen.refs))
    decreases |heap.Keys - seen.refs|, 0
  {
    hide StableItems, Assembled, Visited;
    match v {
      case NullValue => return Ok(NULL_TEXT);
      case BoolValue(b) => return Ok(if b then TRUE_TEXT else FALSE_TEXT);
      case NumValue(numeral) => return Ok(numeral);
      case StrValue(s) => return Ok(Quoted(s));
      case NotFinite => return Err(NotFiniteNumber);
      case NotJson => return Err(NotJsonValue);
      case At(ref) =>
        if ref in seen.refs { return Err(Circular); }
        SeenGrows(heap, seen.refs, ref);
        VisitedAreChildren(heap, ref);
        seen.refs := seen.refs + {ref};
        r := StableNode(heap, ref, seen);
        seen.refs := seen.refs - {ref};
    }
  }

  lemma WalkEnds(heap: Heap, vs: seq<Value>, texts: seq<Text>, seen: set<Ref>)
    requires Closed(heap) && AllInHeap(heap, vs)
    ensures vs[0..] == vs && Prepended([], StableItems(heap, vs, seen)) == StableItems(heap, vs, seen)
    ensures AllInHeap(heap, vs[|vs|..]) && Prepended(texts, StableItems(heap, vs[|vs|..], seen)) == Ok(texts)
  {
    hide Stable;
    assert vs[|vs|..] == [];
    assert texts + [] == texts;
    var all := StableItems(heap, vs, seen);
    if all.Ok? { assert [] + all.value == all.value; }
  }

  lemma RestInHeap(heap: Heap, vs: seq<Value>, i: nat)
    requires AllInHeap(heap, vs) && i <= |vs|
    ensures AllInHeap(heap, vs[i..])
  {
    forall v | v in vs[i..] ensures v in vs {
    }
  }

  /** The guarded body: the array or the object whose reference has just been added to `seen`. */
  method StableNode(heap: Heap, ref: Ref, seen: Seen) returns (r: Result<Text, Error>)
    requires Closed(heap) && ref in heap && AllInHeap(heap, Visited(heap[ref]))
    modifies seen
    ensures seen.refs == old(seen.refs)
    ensures r == if heap[ref].ObjectNode? && !heap[ref].plain then Err(NotPlainObject)
                 else match StableItems(heap, Visited(heap[ref]), old(seen.refs))
                      case Ok(texts) => Ok(Assembled(heap[ref], texts))
                      case Err(e) => Err(e)
    decreases |heap.Keys - seen.refs|, 2
  {
    hide StableItems, Labelled;
    match heap[ref] {
      case ArrayNode(items) =>
        var texts := StableAll(heap, items, seen);
        if texts.Err? { return Err(texts.error); }
        return Ok([OPEN_ARRAY] + Join(texts.value) + [CLOSE_ARRAY]);
      case ObjectNode(plain, members) =>
        if !plain { return Err(NotPlainObject); }
        var sorted := Sorted(members);
        var texts := StableAll(heap, Values(sorted), seen);
        if texts.Err? { return Err(texts.error); }
        return Ok([OPEN_OBJECT] + Join(Labelled(sorted, texts.value)) + [CLOSE_OBJECT]);
    }
  }

  /** Array.prototype.map over the walk, left to right. */
  method StableAll(heap: Heap, vs: seq<Value>, seen: Seen) returns (r: Result<seq<Text>, Error>)
    requires Closed(heap) && AllInHeap(heap, vs)
    modifies seen
    ensures seen.refs == old(seen.refs)
    ensures r == StableItems(heap, vs, old(seen.refs))
    decreases |heap.Keys - seen.refs|, 1
  {
    hide Stable, StableItems, Prepended;
    ghost var refs := seen.refs;
    var texts := [];
    WalkEnds(heap, vs, texts, refs);
    for i := 0 to |vs|
      invariant seen.refs == refs && AllInHeap(heap, vs[i..])
      invariant Prepended(texts, StableItems(heap, vs[i..], refs)) == StableItems(heap, vs, refs)
    {
      RestInHeap(heap, vs, i + 1);
      OneItemMore(heap, vs, i, texts, refs);
      var text := StableJson(heap, vs[i], seen);
      if text.Err? { return Err(text.error); }
      texts := texts + [text.value];
    }
    WalkEnds(heap, vs, texts, refs);
    return Ok(texts);
  }

  // ---- What the text stands for ----

  /** `j` is the tree unfolding of `v`. */
  ghost predicate Represents(heap: Heap, v: Value, j: Json)
    decreases j
  {
    match v
    case NullValue => j == Null
    case BoolValue(b) => j == Bool(b)
    case NumValue(numeral) => j == Num(numeral)
    case StrValue(s) => j == Str(s)
    case NotFinite => false
    case NotJson => false
    case At(r) =>
      r in heap &&
      match heap[r]
      case ArrayNode(items) =>
        j.Arr? && |j.items| == |items| && forall i :: 0 <= i < |items| ==> Represents(heap, items[i], j.items[i])
      case ObjectNode(plain, members) =>
        && plain && j.Obj? && |j.members| == |members|
        && forall i :: 0 <= i < |members| ==>
           j.members[i].key == members[i].key && Represents(heap, members[i].value, j.members[i].value)
  }

  lemma {:induction false} RepresentationIsUnique(heap: Heap, v: Value, j: Json, k: Json)
    requires Represents(heap, v, j) && Represents(heap, v, k)
    ensures j == k
    decreases j
  {
    if v.At? {
      match heap[v.ref]
      case ArrayNode(items) =>
        forall i | 0 <= i < |items| ensures j.items[i] == k.items[i] {
          RepresentationIsUnique(heap, items[i], j.items[i], k.items[i]);
        }
      case ObjectNode(_, members) =>
        forall i | 0 <= i < |members| ensures j.members[i] == k.members[i] {
          RepresentationIsUnique(heap, members[i].value, j.members[i].value, k.members[i].value);
        }
    }
  }

  lemma {:induction false} ItemsSucceedTogether(heap: Heap, vs: seq<Value>, seen: set<Ref>)
    requires Closed(heap) && AllInHeap(heap, vs)
    ensures StableItems(heap, vs, seen).Ok? ==>
              forall i :: 0 <= i < |vs| ==>
                vs[i] in vs && Stable(heap, vs[i], seen) == Ok(StableItems(heap, vs, seen).value[i])
    decreases |vs|
  {
    hide Stable;
    if vs != [] { ItemsSucceedTogether(heap, vs[1..], seen); }
  }

  lemma {:induction false} ItemsAllSucceed(heap: Heap, vs: seq<Value>, seen: set<Ref>)
    requires Closed(heap) && AllInHeap(heap, vs)
    requires forall v :: v in vs ==> Stable(heap, v, seen).Ok?
    ensures StableItems(heap, vs, seen).Ok?
    decreases |vs|
  {
    hide Stable;
    if vs != [] {
      RestInHeap(heap, vs, 1);
      ItemsAllSucceed(heap, vs[1..], seen);
    }
  }

  /** A failure comes from one of the items. */
  lemma {:induction false} FailingItem(heap: Heap, vs: seq<Value>, seen: set<Ref>) returns (v: Value)
    requires Closed(heap) && AllInHeap(heap, vs)
    requires StableItems(heap, vs, seen).Err?
    ensures v in vs && Stable(heap, v, seen) == Err(StableItems(heap, vs, seen).error)
    decreases |vs|
  {
    hide Stable;
    if Stable(heap, vs[0], seen).Err? {
      v := vs[0];
    } else {
      RestInHeap(heap, vs, 1);
      v := FailingItem(heap, vs[1..], seen);
    }
  }

  lemma {:induction false} PrintItemsAt(items: seq<Json>)
    ensures |PrintItems(items)| == |items| && forall i :: 0 <= i < |items| ==> PrintItems(items)[i] == Print(items[i])
    decreases |items|
  {
    hide Print;
    if items != [] { PrintItemsAt(items[1..]); }
  }

  lemma {:induction false} PrintMembersAt(members: seq<Member<Json>>)
    ensures |PrintMembers(members)| == |members|
    ensures forall i :: 0 <= i < |members| ==>
            PrintMembers(members)[i] == Quoted(members[i].key) + [COLON] + Print(members[i].value)
    decreases |members|
  {
    hide Print;
    if members != [] { PrintMembersAt(members[1..]); }
  }

  /** Both lists have at `i` what the others have at `k`. */
  ghost predicate From(a: seq<Member<Value>>, b: seq<Member<Json>>, i: int, ms: seq<Member<Value>>,
      ns: seq<Member<Json>>, k: int) {
    && 0 <= i < |a| && i < |b| && 0 <= k < |ms| && k < |ns|
    && a[i] == ms[k] && b[i] == ns[k]
  }

  ghost predicate FromSome(a: seq<Member<Value>>, b: seq<Member<Json>>, i: int, ms: seq<Member<Value>>,
      ns: seq<Member<Json>>) {
    exists k :: From(a, b, i, ms, ns, k)
  }

  ghost predicate SameKeys(ms: seq<Member<Value>>, ns: seq<Member<Json>>) {
    |ms| == |ns| && forall k :: 0 <= k < |ms| ==> ms[k].key == ns[k].key
  }

  lemma {:induction false} InsertedTogether(m: Member<Value>, n: Member<Json>, ms: seq<Member<Value>>,
      ns: seq<Member<Json>>, i: nat)
    requires SameKeys(ms, ns) && m.key == n.key
    ensures |Inserted(m, ms)| == |Inserted(n, ns)| == |ms| + 1
    ensures i <= |ms| ==> FromSome(Inserted(m, ms), Inserted(n, ns), i, [m] + ms, [n] + ns)
    decreases |ms|
  {
    hide Less;
    if ms == [] || Less(m.key, ms[0].key) {
      assert Inserted(m, ms) == [m] + ms && Inserted(n, ns) == [n] + ns;
      assert i <= |ms| ==> From([m] + ms, [n] + ns, i, [m] + ms, [n] + ns, i);
    } else {
      InsertedTogether(m, n, ms[1..], ns[1..], if i == 0 then 0 else i - 1);
      if i == 0 {
        assert From(Inserted(m, ms), Inserted(n, ns), 0, [m] + ms, [n] + ns, 1);
      } else if i <= |ms| {
        var k :| From(Inserted(m, ms[1..]), Inserted(n, ns[1..]), i - 1, [m] + ms[1..], [n] + ns[1..], k);
        assert From(Inserted(m, ms), Inserted(n, ns), i, [m] + ms, [n] + ns, if k == 0 then 0 else k + 1);
      }
    }
  }

  /** Lists with the same keys are sorted alike. */
  lemma {:induction false} SortedTogether(ms: seq<Member<Value>>, ns: seq<Member<Json>>)
    requires SameKeys(ms, ns)
    ensures SameKeys(Sorted(ms), Sorted(ns)) && |Sorted(ms)| == |ms|
    ensures forall i :: 0 <= i < |ms| ==> FromSome(Sorted(ms), Sorted(ns), i, ms, ns)
    decreases |ms|
  {
    hide Inserted;
    if ms != [] {
      SortedTogether(ms[1..], ns[1..]);
      var a, b := Sorted(ms[1..]), Sorted(ns[1..]);
      InsertedTogether(ms[0], ns[0], a, b, 0);
      forall i | 0 <= i < |ms| ensures FromSome(Sorted(ms), Sorted(ns), i, ms, ns) {
        InsertedTogether(ms[0], ns[0], a, b, i);
        InsertionComesFrom(ms, ns, a, b, i);
      }
      forall i | 0 <= i < |ms| ensures Sorted(ms)[i].key == Sorted(ns)[i].key {
        assert FromSome(Sorted(ms), Sorted(ns), i, ms, ns);
      }
    }
  }

  lemma InsertionComesFrom(ms: seq<Member<Value>>, ns: seq<Member<Json>>, a: seq<Member<Value>>, b: seq<Member<Json>>,
      i: nat)
    requires ms != [] && |ms| == |ns| && |a| == |b| == |ms| - 1
    requires forall k :: 0 <= k < |a| ==> FromSome(a, b, k, ms[1..], ns[1..])
    requires FromSome(Inserted(ms[0], a), Inserted(ns[0], b), i, [ms[0]] + a, [ns[0]] + b)
    ensures FromSome(Inserted(ms[0], a), Inserted(ns[0], b), i, ms, ns)
  {
    hide Inserted;
    var u, v := Inserted(ms[0], a), Inserted(ns[0], b);
    var k :| From(u, v, i, [ms[0]] + a, [ns[0]] + b, k);
    if k == 0 {
      assert From(u, v, i, ms, ns, 0);
    } else {
      assert FromSome(a, b, k - 1, ms[1..], ns[1..]);
      var l :| From(a, b, k - 1, ms[1..], ns[1..], l);
      assert From(u, v, i, ms, ns, l + 1);
    }
  }

  // ---- Soundness: what succeeds is the text of the tree unfolding ----

  lemma {:induction false} Sound(heap: Heap, v: Value, seen: set<Ref>) returns (j: Json)
    requires Closed(heap) && InHeap(heap, v) && Stable(heap, v, seen).Ok?
    ensures Represents(heap, v, j) && StableText(j) == Stable(heap, v, seen).value
    decreases |heap.Keys - seen|, 1, 0
  {
    match v
    case NullValue => j := Null;
    case BoolValue(b) => j := Bool(b);
    case NumValue(numeral) => j := Num(numeral);
    case StrValue(s) => j := Str(s);
    case At(r) => j := SoundNode(heap, r, seen);
  }

  lemma {:induction false} SoundNode(heap: Heap, r: Ref, seen: set<Ref>) returns (j: Json)
    requires Closed(heap) && r in heap && Stable(heap, At(r), seen).Ok?
    ensures Represents(heap, At(r), j) && StableText(j) == Stable(heap, At(r), seen).value
    decreases |heap.Keys - seen|, 0, 0
  {
    hide Stable, StableItems, StableText, Assembled;
    NodeSucceeds(heap, r, seen);
    SeenGrows(heap, seen, r);
    match heap[r]
    case ArrayNode(items) =>
      var js := SoundAll(heap, items, seen + {r});
      j := Arr(js);
      ArrayText(heap, r, seen, js);
    case ObjectNode(_, members) =>
      var js := SoundAll(heap, Values(members), seen + {r});
      j := Obj(seq(|members|, i requires 0 <= i < |members| => Member(members[i].key, js[i])));
      ObjectText(heap, r, seen, j.members);
  }

  lemma NodeSucceeds(heap: Heap, r: Ref, seen: set<Ref>)
    requires Closed(heap) && r in heap && Stable(heap, At(r), seen).Ok?
    ensures r !in seen && (heap[r].ObjectNode? ==> heap[r].plain)
    ensures AllInHeap(heap, Visited(heap[r])) && AllInHeap(heap, Children(heap[r]))
    ensures StableItems(heap, Visited(heap[r]), seen + {r}).Ok?
    ensures Stable(heap, At(r), seen).value == Assembled(heap[r], StableItems(heap, Visited(heap[r]), seen + {r}).value)
    ensures forall v :: v in Children(heap[r]) ==> Stable(heap, v, seen + {r}).Ok?
  {
    hide Assembled, Visited, Children;
    VisitedAreChildren(heap, r);
    ItemsSucceedTogether(heap, Visited(heap[r]), seen + {r});
  }

  lemma {:induction false} SoundAll(heap: Heap, vs: seq<Value>, seen: set<Ref>) returns (js: seq<Json>)
    requires Closed(heap) && AllInHeap(heap, vs) && forall v :: v in vs ==> Stable(heap, v, seen).Ok?
    ensures |js| == |vs|
    ensures forall i :: 0 <= i < |vs| ==>
              vs[i] in vs && Represents(heap, vs[i], js[i]) && StableText(js[i]) == Stable(heap, vs[i], seen).value
    decreases |heap.Keys - seen|, 2, |vs|
  {
    hide Stable, Represents, StableText;
    js := [];
    if vs != [] {
      var j := Sound(heap, vs[0], seen);
      RestInHeap(heap, vs, 1);
      var more := SoundAll(heap, vs[1..], seen);
      js := [j] + more;
      forall i | 0 <= i < |vs|
        ensures vs[i] in vs && Represents(heap, vs[i], js[i]) && StableText(js[i]) == Stable(heap, vs[i], seen).value {
        if i > 0 { assert vs[i] == vs[1..][i - 1] && js[i] == more[i - 1]; }
      }
    }
  }

  lemma ArrayText(heap: Heap, r: Ref, seen: set<Ref>, js: seq<Json>)
    requires Closed(heap) && r in heap && heap[r].ArrayNode? && AllInHeap(heap, heap[r].items)
             && |js| == |heap[r].items|
    requires StableItems(heap, heap[r].items, seen + {r}).Ok?
    requires forall i :: 0 <= i < |js| ==> heap[r].items[i] in heap[r].items
    requires forall i :: 0 <= i < |js| ==> Stable(heap, heap[r].items[i], seen + {r}) == Ok(StableText(js[i]))
    ensures StableText(Arr(js)) == Assembled(heap[r], StableItems(heap, heap[r].items, seen + {r}).value)
  {
    hide Stable, StableItems, Join;
    ItemsSucceedTogether(heap, heap[r].items, seen + {r});
    CanonItemsAt(js);
    PrintItemsAt(CanonItems(js));
    assert PrintItems(CanonItems(js)) == StableItems(heap, heap[r].items, seen + {r}).value;
  }

  lemma ObjectText(heap: Heap, r: Ref, seen: set<Ref>, js: seq<Member<Json>>)
    requires Closed(heap) && r in heap && heap[r].ObjectNode? && AllInHeap(heap, Visited(heap[r]))
             && AllInHeap(heap, Children(heap[r]))
    requires SameKeys(heap[r].members, js)
    requires StableItems(heap, Visited(heap[r]), seen + {r}).Ok?
    requires forall i :: 0 <= i < |js| ==> heap[r].members[i].value in Children(heap[r])
    requires forall i :: 0 <= i < |js| ==>
             Stable(heap, heap[r].members[i].value, seen + {r}) == Ok(StableText(js[i].value))
    ensures StableText(Obj(js)) == Assembled(heap[r], StableItems(heap, Visited(heap[r]), seen + {r}).value)
  {
    hide Stable, StableItems, Join, Sorted, Print, Canon, CanonMembers, PrintMembers;
    var members, cs := heap[r].members, CanonMembers(js);
    var texts := StableItems(heap, Visited(heap[r]), seen + {r}).value;
    ItemsSucceedTogether(heap, Visited(heap[r]), seen + {r});
    CanonMembersAt(js);
    SortedTogether(members, cs);
    PrintMembersAt(Sorted(cs));
    forall i | 0 <= i < |members|
      ensures PrintMembers(Sorted(cs))[i] == Labelled(Sorted(members), texts)[i]
    {
      assert FromSome(Sorted(members), Sorted(cs), i, members, cs);
      var k :| From(Sorted(members), Sorted(cs), i, members, cs, k);
      assert Visited(heap[r])[i] == members[k].value;
    }
    assert PrintMembers(Sorted(cs)) == Labelled(Sorted(members), texts);
    ObjectPrints(js);
  }

  lemma ObjectPrints(js: seq<Member<Json>>)
    ensures StableText(Obj(js)) == [OPEN_OBJECT] + Join(PrintMembers(Sorted(CanonMembers(js)))) + [CLOSE_OBJECT]
  {
    hide Join, PrintMembers, Sorted, CanonMembers;
  }

  // ---- Completeness: whatever has a tree unfolding succeeds ----

  function Depth(j: Json): nat
    decreases j, 0
  {
    match j
    case Arr(items) => 1 + ItemsDepth(items)
    case Obj(members) => 1 + MembersDepth(members)
    case _ => 0
  }

  function ItemsDepth(items: seq<Json>): nat
    decreases items, 1
  {
    if items == [] then 0
    else if Depth(items[0]) > ItemsDepth(items[1..]) then Depth(items[0])
    else ItemsDepth(items[1..])
  }

  function MembersDepth(members: seq<Member<Json>>): nat
    decreases members, 1
  {
    if members == [] then 0
    else if Depth(members[0].value) > MembersDepth(members[1..]) then Depth(members[0].value)
    else MembersDepth(members[1..])
  }

  lemma {:induction false} ItemIsShallower(items: seq<Json>, i: nat)
    requires i < |items|
    ensures Depth(items[i]) < Depth(Arr(items))
    decreases |items|
  {
    if i > 0 { ItemIsShallower(items[1..], i - 1); }
  }

  lemma {:induction false} MemberIsShallower(members: seq<Member<Json>>, i: nat)
    requires i < |members|
    ensures Depth(members[i].value) < Depth(Obj(members))
    decreases |members|
  {
    if i > 0 { MemberIsShallower(members[1..], i - 1); }
  }

  /** Every child of a represented node is represented, by something strictly shallower. */
  lemma ChildIsRepresented(heap: Heap, r: Ref, v: Value, j: Json) returns (k: Json)
    requires Represents(heap, At(r), j) && v in Children(heap[r])
    ensures k < j && Represents(heap, v, k) && Depth(k) < Depth(j)
  {
    hide Depth;
    match heap[r]
    case ArrayNode(items) =>
      var i :| 0 <= i < |items| && items[i] == v;
      k := j.items[i];
      ItemIsShallower(j.items, i);
    case ObjectNode(_, members) =>
      var i :| 0 <= i < |members| && Values(members)[i] == v;
      k := j.members[i].value;
      MemberIsShallower(j.members, i);
  }

  /** The nodes in `seen` are deeper than `d`. */
  ghost predicate AllDeeper(heap: Heap, seen: set<Ref>, d: nat) {
    forall r :: r in seen ==> Deeper(heap, r, d)
  }

  ghost predicate Deeper(heap: Heap, r: Ref, d: nat) {
    exists j :: Represents(heap, At(r), j) && Depth(j) > d
  }

  lemma {:induction false} Complete(heap: Heap, v: Value, seen: set<Ref>, j: Json)
    requires Closed(heap) && InHeap(heap, v) && Represents(heap, v, j) && AllDeeper(heap, seen, Depth(j))
    ensures Stable(heap, v, seen).Ok?
    decreases j
  {
    if v.At? {
      hide Depth, Visited, Children, Deeper;
      var r := v.ref;
      NotItsOwnAncestor(heap, r, seen, j);
      VisitedAreChildren(heap, r);
      forall c | c in Visited(heap[r]) ensures Stable(heap, c, seen + {r}).Ok? {
        var k := ChildIsRepresented(heap, r, c, j);
        DeeperStill(heap, r, seen, j, k);
        Complete(heap, c, seen + {r}, k);
      }
      hide Stable;
      ItemsAllSucceed(heap, Visited(heap[r]), seen + {r});
      NodeIsPlain(heap, r, j);
      StableOfNode(heap, r, seen);
    }
  }

  lemma NodeIsPlain(heap: Heap, r: Ref, j: Json)
    requires Represents(heap, At(r), j)
    ensures r in heap && (heap[r].ObjectNode? ==> heap[r].plain)
  {
  }

  lemma StableOfNode(heap: Heap, r: Ref, seen: set<Ref>)
    requires Closed(heap) && r in heap && r !in seen && (heap[r].ObjectNode? ==> heap[r].plain)
    ensures AllInHeap(heap, Visited(heap[r]))
    ensures Stable(heap, At(r), seen).Ok? <==> StableItems(heap, Visited(heap[r]), seen + {r}).Ok?
    ensures Stable(heap, At(r), seen).Err? ==>
            Stable(heap, At(r), seen).error == StableItems(heap, Visited(heap[r]), seen + {r}).error
  {
    hide Visited, Assembled;
    VisitedAreChildren(heap, r);
  }

  lemma NotItsOwnAncestor(heap: Heap, r: Ref, seen: set<Ref>, j: Json)
    requires Represents(heap, At(r), j) && AllDeeper(heap, seen, Depth(j))
    ensures r !in seen
  {
    hide Depth, Represents;
    if r in seen {
      assert Deeper(heap, r, Depth(j));
      var k :| Represents(heap, At(r), k) && Depth(k) > Depth(j);
      RepresentationIsUnique(heap, At(r), j, k);
    }
  }

  lemma DeeperStill(heap: Heap, r: Ref, seen: set<Ref>, j: Json, k: Json)
    requires AllDeeper(heap, seen, Depth(j)) && Represents(heap, At(r), j) && Depth(k) < Depth(j)
    ensures AllDeeper(heap, seen + {r}, Depth(k))
  {
    hide Depth, Represents;
    forall q | q in seen + {r} ensures Deeper(heap, q, Depth(k)) {
      if q in seen {
        assert Deeper(heap, q, Depth(j));
        var i :| Represents(heap, At(q), i) && Depth(i) > Depth(j);
      }
    }
  }

  /**
   * A request is accepted exactly when it has a finite tree unfolding, shared nodes included, and its text is that
   * tree's.
   */
  lemma AcceptedExactlyWhenRepresented(heap: Heap, v: Value)
    requires Closed(heap) && InHeap(heap, v)
    ensures Stable(heap, v, {}).Ok? <==> exists j :: Represents(heap, v, j)
    ensures forall j :: Represents(heap, v, j) ==> Stable(heap, v, {}) == Ok(StableText(j))
  {
    hide Stable, Represents, StableText, Depth;
    forall j | Represents(heap, v, j) ensures Stable(heap, v, {}) == Ok(StableText(j)) {
      Complete(heap, v, {}, j);
      var k := Sound(heap, v, {});
      RepresentationIsUnique(heap, v, j, k);
    }
    if Stable(heap, v, {}).Ok? {
      var j := Sound(heap, v, {});
      assert Represents(heap, v, j);
    }
  }

  ghost predicate KeysAreDistinct(heap: Heap) {
    forall r :: r in heap && heap[r].ObjectNode? ==> DistinctKeys(heap[r].members)
  }

  lemma {:induction false} UnfoldingIsWellKeyed(heap: Heap, v: Value, j: Json)
    requires KeysAreDistinct(heap) && Represents(heap, v, j)
    ensures WellKeyed(j)
    decreases j
  {
    if v.At? {
      match heap[v.ref]
      case ArrayNode(items) =>
        forall i | 0 <= i < |items| ensures WellKeyed(j.items[i]) { UnfoldingIsWellKeyed(heap, items[i], j.items[i]); }
      case ObjectNode(_, members) =>
        forall i | 0 <= i < |members| ensures WellKeyed(j.members[i].value) {
          UnfoldingIsWellKeyed(heap, members[i].value, j.members[i].value);
        }
    }
  }

  /** Two accepted requests hash the same text exactly when they are the same JSON value. */
  lemma SameTextSameRequest(h1: Heap, v1: Value, j1: Json, h2: Heap, v2: Value, j2: Json)
    requires Closed(h1) && InHeap(h1, v1) && KeysAreDistinct(h1) && Represents(h1, v1, j1)
    requires Closed(h2) && InHeap(h2, v2) && KeysAreDistinct(h2) && Represents(h2, v2, j2)
    ensures Stable(h1, v1, {}) == Stable(h2, v2, {}) <==> Same(j1, j2)
  {
    hide Stable, Represents, StableText, Same, WellKeyed;
    AcceptedExactlyWhenRepresented(h1, v1);
    AcceptedExactlyWhenRepresented(h2, v2);
    UnfoldingIsWellKeyed(h1, v1, j1);
    UnfoldingIsWellKeyed(h2, v2, j2);
    TextDeterminesValue(j1, j2);
  }

  // ---- Cycles ----

  /** `path` follows references from `v`. */
  ghost predicate Walk(heap: Heap, v: Value, path: seq<Ref>) {
    && |path| > 0 && v == At(path[0])
    && (forall i :: 0 <= i < |path| ==> path[i] in heap)
    && (forall i :: 0 <= i < |path| - 1 ==> At(path[i + 1]) in Children(heap[path[i]]))
  }

  /** The last node of the walk is in `seen`, or has been passed before. */
  ghost predicate ComesBack(path: seq<Ref>, seen: set<Ref>) {
    |path| > 0 &&
    (path[|path| - 1] in seen || exists m :: 0 <= m < |path| - 1 && path[m] == path[|path| - 1])
  }

  ghost predicate CycleReachable(heap: Heap, v: Value) {
    exists path :: Walk(heap, v, path) && ComesBack(path, {})
  }

  /** Only plain objects, arrays and JSON-compatible leaves. */
  ghost predicate AllJson(heap: Heap, v: Value) {
    && !v.NotFinite? && !v.NotJson?
    && (forall r :: r in heap && heap[r].ObjectNode? ==> heap[r].plain)
    && (forall r, c :: r in heap && c in Children(heap[r]) ==> !c.NotFinite? && !c.NotJson?)
  }

  lemma WalkGrows(heap: Heap, r: Ref, c: Value, path: seq<Ref>, seen: set<Ref>)
    requires r in heap && c in Children(heap[r]) && Walk(heap, c, path) && ComesBack(path, seen + {r})
    ensures Walk(heap, At(r), [r] + path) && ComesBack([r] + path, seen)
  {
    hide Children;
    var longer := [r] + path;
    assert longer[|longer| - 1] == path[|path| - 1];
    if path[|path| - 1] !in seen {
      if path[|path| - 1] == r {
        assert longer[0] == longer[|longer| - 1];
      } else {
        var m :| 0 <= m < |path| - 1 && path[m] == path[|path| - 1];
        assert longer[m + 1] == longer[|longer| - 1];
      }
    }
  }

  lemma {:induction false} FailureHasAWalk(heap: Heap, v: Value, seen: set<Ref>) returns (path: seq<Ref>)
    requires Closed(heap) && InHeap(heap, v) && AllJson(heap, v) && Stable(heap, v, seen).Err?
    ensures Stable(heap, v, seen) == Err(Circular)
    ensures Walk(heap, v, path) && ComesBack(path, seen)
    decreases |heap.Keys - seen|
  {
    var r := v.ref;
    if r in seen {
      path := [r];
    } else {
      hide Stable, Visited, Children;
      SeenGrows(heap, seen, r);
      VisitedAreChildren(heap, r);
      StableOfNode(heap, r, seen);
      var c := FailingItem(heap, Visited(heap[r]), seen + {r});
      var rest := FailureHasAWalk(heap, c, seen + {r});
      path := [r] + rest;
      WalkGrows(heap, r, c, rest, seen);
    }
  }

  /** Along a walk, what represents each node gets strictly shallower. */
  lemma {:induction false} WalkDescends(heap: Heap, v: Value, path: seq<Ref>, j: Json) returns (k: Json)
    requires Walk(heap, v, path) && Represents(heap, v, j)
    ensures Represents(heap, At(path[|path| - 1]), k) && Depth(k) + |path| - 1 <= Depth(j)
    decreases |path|
  {
    hide Depth, Represents, Children;
    if |path| == 1 {
      k := j;
    } else {
      var next := ChildIsRepresented(heap, path[0], At(path[1]), j);
      k := WalkDescends(heap, At(path[1]), path[1..], next);
    }
  }

  lemma WalkSplits(heap: Heap, v: Value, path: seq<Ref>, m: nat)
    requires Walk(heap, v, path) && m < |path|
    ensures Walk(heap, v, path[..m + 1]) && Walk(heap, At(path[m]), path[m..])
  {
    hide Children;
    var tail := path[m..];
    forall i | 0 <= i < |tail| - 1 ensures At(tail[i + 1]) in Children(heap[tail[i]]) {
      assert tail[i] == path[m + i] && tail[i + 1] == path[m + i + 1];
    }
  }

  lemma RepresentedMeansNoCycle(heap: Heap, v: Value, j: Json, path: seq<Ref>)
    requires Represents(heap, v, j) && Walk(heap, v, path)
    ensures !ComesBack(path, {})
  {
    hide Depth, Represents, Walk;
    forall m | 0 <= m < |path| - 1 ensures path[m] != path[|path| - 1] {
      WalkSplits(heap, v, path, m);
      var k := WalkDescends(heap, v, path[..m + 1], j);
      var l := WalkDescends(heap, At(path[m]), path[m..], k);
      if path[m] == path[|path| - 1] { RepresentationIsUnique(heap, At(path[m]), k, l); }
    }
  }

  /** On JSON-compatible graphs the only failure is a reachable cycle, and it always fails. */
  lemma FailsExactlyOnCycles(heap: Heap, v: Value)
    requires Closed(heap) && InHeap(heap, v) && AllJson(heap, v)
    ensures Stable(heap, v, {}) == Err(Circular) <==> CycleReachable(heap, v)
    ensures Stable(heap, v, {}).Ok? <==> !CycleReachable(heap, v)
  {
    hide Stable, Walk, ComesBack, AllJson, Represents;
    if Stable(heap, v, {}).Err? {
      var path := FailureHasAWalk(heap, v, {});
    } else {
      AcceptedExactlyWhenRepresented(heap, v);
      var j :| Represents(heap, v, j);
      forall path | Walk(heap, v, path) ensures !ComesBack(path, {}) { RepresentedMeansNoCycle(heap, v, j, path); }
    }
  }
}
