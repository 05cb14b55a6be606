/** Whole runs of the operations on a table in memory. */
module HashRuns {
  import opened Bits
  import opened StableSort
  import opened Lists
  import opened Buckets
  import opened AppOrders
  import opened BucketSides
  import opened KeyMaps
  import opened HashTables
  import opened HashProperties

  // ---------------------------------------------------------------- runs on a table

  /** The element an operation gives the table or takes from it. */
  ghost function ElemOf(op: Op): set<Elem> {
    if op.Sort? then {} else {op.e}
  }

  ghost function ElemsOf(ops: seq<Op>): set<Elem> {
    if ops == [] then {} else ElemsOf(ops[..|ops| - 1]) + ElemOf(ops[|ops| - 1])
  }

  lemma WithoutIsRemoveAt(s: seq<Elem>, e: Elem, k: nat)
    requires DistinctKeys(s) && k < |s| && s[k] == e
    ensures Without(s, e) == RemoveAt(s, k)
  {
    var j := WithoutOne(s, e);
  }

  lemma NodesAfter(s: seq<Elem>, op: Op)
    requires Enabled(s, op)
    ensures Nodes(After(s, op)) <= Nodes(s) + ElemOf(op)
  {
    hide InsertAt, UpperBound, Passes, Without, RemoveAt;
    match op
    case Add(e) =>
    case AddInOrder(cmp, e) => InsertMembers(s, UpperBound(cmp, s, e), e);
    case Delete(e) =>
      var k := WithoutOne(s, e);
      var r := RemoveAt(s, k);
      forall i | 0 <= i < |r| ensures r[i] in s {
        assert r[i] == s[if i < k then i else i + 1];
      }
    case Sort(cmp) => PassesNodes(cmp, s, 1);
  }

  /** One operation of a careful caller: the table is left with the order and the map that the
      operation stands for. */
  method Apply(t: HashTable, op: Op)
    requires t.Valid() && DistinctKeys(t.items) && Careful(MapOf(t.items), op)
    modifies t, t.buckets, Nodes(t.items), ElemOf(op)
    ensures t.Valid() && t.items == After(old(t.items), op)
    ensures DistinctKeys(t.items) && MapOf(t.items) == Changed(MapOf(old(t.items)), op)
    ensures Nodes(t.items) <= Nodes(old(t.items)) + ElemOf(op)
    ensures t.buckets == old(t.buckets) || t.buckets == null || fresh(t.buckets)
  {
    hide HashTable.Valid, DistinctKeys, MapOf, Careful, Changed, Without, Spread, Flatten, Tallied, InsertAt, UpperBound;
    StepOnMap(t.items, op);
    NodesAfter(t.items, op);
    match op
    case Add(e) => t.Add(e);
    case AddInOrder(cmp, e) =>
      ghost var k := t.AddInOrder(cmp, e);
    case Delete(e) =>
      ghost var was := t.items;
      ghost var k, j := t.Delete(e);
      WithoutIsRemoveAt(was, e, k);
    case Sort(cmp) =>
      ghost var calls := t.Sort(cmp);
  }

  lemma ElemsOfStep(ops: seq<Op>, i: nat)
    requires i < |ops|
    ensures ElemsOf(ops[..i + 1]) == ElemsOf(ops[..i]) + ElemOf(ops[i]) && ElemsOf(ops[..i + 1]) <= ElemsOf(ops)
    ensures OrderAfter(ops[..i + 1]) == After(OrderAfter(ops[..i]), ops[i])
    ensures MapAfter(ops[..i + 1]) == Changed(MapAfter(ops[..i]), ops[i])
  {
    hide After, Changed, ElemOf;
    assert ops[..i + 1][..i] == ops[..i];
    ElemsOfPrefix(ops, i + 1);
  }

  lemma {:induction false} ElemsOfPrefix(ops: seq<Op>, i: nat)
    requires i <= |ops|
    ensures ElemsOf(ops[..i]) <= ElemsOf(ops)
    decreases |ops| - i
  {
    hide ElemOf;
    if i < |ops| {
      ElemsOfPrefix(ops, i + 1);
      assert ops[..i + 1][..i] == ops[..i];
    } else {
      assert ops[..i] == ops;
    }
  }

  /** Every run of a careful caller on an empty table: whatever the operations, and however
      often the buckets are doubled on the way, the table ends valid, with the order of the
      run and the keys of the finite map. */
  method Run(t: HashTable, ops: seq<Op>)
    requires t.Valid() && t.items == [] && CarefulRun(ops)
    modifies t, t.buckets, ElemsOf(ops)
    ensures t.Valid() && t.items == OrderAfter(ops)
    ensures DistinctKeys(t.items) && MapOf(t.items) == MapAfter(ops)
  {
    hide HashTable.Valid, DistinctKeys, MapOf, Careful, After, Changed, ElemOf;
    NothingRun(ops);
    for i := 0 to |ops|
      invariant t.Valid() && t.items == OrderAfter(ops[..i]) && DistinctKeys(t.items)
      invariant MapOf(t.items) == MapAfter(ops[..i]) && Nodes(t.items) <= ElemsOf(ops[..i])
      invariant t.buckets == old(t.buckets) || t.buckets == null || fresh(t.buckets)
    {
      ElemsOfStep(ops, i);
      Apply(t, ops[i]);
    }
    assert ops[..|ops|] == ops;
  }

  lemma NothingRun(ops: seq<Op>)
    ensures OrderAfter(ops[..0]) == [] && MapAfter(ops[..0]) == MapOf([]) && ElemsOf(ops[..0]) == {}
    ensures DistinctKeys([]) && Nodes([]) == {}
  {
  }

  // ---------------------------------------------------------------- a key held ten times

  /** The elements as they lie on a chain they were pushed on one by one. */
  ghost predicate Stacked(chain: seq<Elem>, s: seq<Elem>) {
    |chain| == |s| && forall i :: 0 <= i < |s| ==> chain[i] == s[|s| - 1 - i]
  }

  lemma StackedEnds(chain: seq<Elem>, s: seq<Elem>, key: seq<bv8>)
    requires Stacked(chain, s) && s != [] && forall i :: 0 <= i < |s| ==> s[i].key == key
    ensures FirstMatch(chain, key) == s[|s| - 1] && LastMatch(chain, key) == s[0]
  {
    assert chain[0].key == key && chain[|chain| - 1].key == key;
  }

  /** A table of 32 buckets with no raised threshold that holds elements of one key only. */
  ghost predicate OneKey(t: HashTable, key: seq<bv8>)
    reads t, t.buckets
  {
    && (forall i :: 0 <= i < |t.items| ==> t.items[i].key == key)
    && (t.head == null <==> t.items == [])
    && (t.head != null ==>
      && t.buckets != null && t.numBuckets == t.buckets.Length == |t.chains| == 32 && !t.noexpand
      && (forall b :: 0 <= b < 32 ==> t.buckets[b].expandMult == 0)
      && Stacked(t.chains[t.hash(key) % 32], t.items))
  }

  lemma TableFacts(t: HashTable, key: seq<bv8>)
    requires t.Valid()
    ensures t.items != [] ==> t.head != null
    ensures t.head != null ==> t.items != [] && t.buckets != null && t.buckets.Length == |t.chains| && Placed(t.hash, t.chains)
    ensures t.head != null ==> t.numBuckets == |t.chains|
    ensures t.head != null ==> forall b :: 0 <= b < |t.chains| ==> Nodes(t.chains[b]) <= Nodes(t.items)
  {
    hide BucketLinked, And;
  }

  lemma StackedLength(chain: seq<Elem>, s: seq<Elem>)
    requires Stacked(chain, s)
    ensures |chain| == |s|
  {
  }

  lemma StackedMore(chain: seq<Elem>, s: seq<Elem>, e: Elem)
    requires Stacked(chain, s)
    ensures Stacked([e] + chain, s + [e])
  {
  }

  /** Adding one more element of the key, short of the threshold. */
  method AddOfKey(t: HashTable, key: seq<bv8>)
    requires t.Valid() && OneKey(t, key) && |t.items| + 1 < 10
    modifies t, t.buckets, Nodes(t.items)
    ensures t.Valid() && OneKey(t, key) && |t.items| == |old(t.items)| + 1
    ensures forall x :: x in t.items ==> x in old(t.items) || fresh(x)
    ensures t.buckets == old(t.buckets) || fresh(t.buckets)
  {
    hide HashTable.Valid, MapOf, DistinctKeys, Stacked, Spread, Flatten, Tallied;
    TableFacts(t, key);
    var e := new Elem(key, 0);
    ghost var b := t.hash(key) % 32;
    ghost var chain := if t.head == null then [] else t.chains[b];
    StackedMore(chain, t.items, e);
    StackedLength(chain, t.items);
    t.Add(e);
    TableFacts(t, key);
    assert t.chains[b] == [e] + chain;
  }

  /** The chains with the tenth element pushed, before they are redistributed. */
  lemma TenthPushed(t: HashTable, key: seq<bv8>, e: Elem, pushed: seq<seq<Elem>>)
    requires t.Valid() && OneKey(t, key) && t.head != null && e.key == key && e !in t.items
    requires var b := t.hash(key) % 32; pushed == t.chains[b := [e] + t.chains[b]]
    ensures var after := Spread(t.hash, Flatten(pushed), 64);
      FirstMatch(after[t.hash(key) % 64], key) == t.items[0]
  {
    hide HashTable.Valid, And, Stacked, Spread, Flatten, Placed, FirstMatch, LastMatch;
    TableFacts(t, key);
    PowersUpTo64();
    ToBktIsRemainder(t.hash(key), 32, 5);
    var b := t.hash(key) % 32;
    StackedMore(t.chains[b], t.items, e);
    PlacedPush(t.hash, t.chains, b, e, Nodes(t.items));
    StackedEnds(pushed[b], t.items + [e], key);
    LookupAcrossExpansion(t.hash, pushed, 5, key);
  }

  lemma PowersUpTo64()
    ensures Pow2(5) == 32 && Pow2(6) == 64
  {
    assert Pow2(2) == 4;
    assert Pow2(4) == 16;
  }

  /** The tenth element of the key makes the table double. */
  method TenthOfKey(t: HashTable, key: seq<bv8>)
    requires t.Valid() && OneKey(t, key) && |t.items| + 1 == 10
    modifies t, t.buckets, Nodes(t.items)
    ensures t.Valid() && t.head != null && |t.items| == |old(t.items)| + 1
    ensures t.items[..|t.items| - 1] == old(t.items) && t.items[|t.items| - 1].key == key
    ensures t.numBuckets == |t.chains| == 64 && FirstMatch(t.chains[t.hash(key) % 64], key) == t.items[0]
  {
    hide HashTable.Valid, MapOf, DistinctKeys, Stacked, Spread, Flatten, FirstMatch, Tallied;
    TableFacts(t, key);
    var e := new Elem(key, 0);
    ghost var b := t.hash(key) % 32;
    ghost var pushed := t.chains[b := [e] + t.chains[b]];
    TenthPushed(t, key, e, pushed);
    StackedLength(t.chains[b], t.items);
    t.Add(e);
    TableFacts(t, key);
  }

  lemma NothingOfKey(t: HashTable, key: seq<bv8>)
    requires t.Valid() && t.items == []
    ensures OneKey(t, key)
  {
    TableFacts(t, key);
  }

  lemma OneKeyMeans(t: HashTable, key: seq<bv8>)
    requires OneKey(t, key)
    ensures forall i :: 0 <= i < |t.items| ==> t.items[i].key == key
  {
  }

  lemma NewestIsFound(t: HashTable, key: seq<bv8>)
    requires OneKey(t, key) && t.items != []
    ensures t.head != null && t.numBuckets == |t.chains| == 32
    ensures FirstMatch(t.chains[t.hash(key) % 32], key) == t.items[|t.items| - 1]
  {
    hide FirstMatch;
    StackedEnds(t.chains[t.hash(key) % 32], t.items, key);
  }

  lemma ItemsDistinct(t: HashTable)
    requires t.Valid()
    ensures Distinct(t.items)
  {
  }

  /** A lookup that changes although nothing was deleted or sorted: nine elements of one key
      are added, and the newest is found; the tenth makes the table double, and from then on
      the oldest is found. */
  method TenOfAKey(hash: HashFunction, key: seq<bv8>)
      returns (t: HashTable, before: Elem?, after: Elem?)
    ensures t.Valid() && t.hash == hash && |t.items| == 10
    ensures forall i :: 0 <= i < 10 ==> t.items[i].key == key
    ensures before == t.items[8] && after == t.items[0] && before != after
  {
    hide HashTable.Valid, OneKey, MapOf, DistinctKeys, FirstMatch;
    t := new HashTable(hash);
    NothingOfKey(t, key);
    for i := 0 to 9
      invariant t.Valid() && OneKey(t, key) && t.hash == hash && |t.items| == i
      invariant fresh(t) && (forall x :: x in t.items ==> fresh(x)) && (t.buckets == null || fresh(t.buckets))
    {
      AddOfKey(t, key);
    }
    before := t.Find(key);
    NewestIsFound(t, key);
    ghost var nine := t.items;
    OneKeyMeans(t, key);
    TenthOfKey(t, key);
    assert forall i :: 0 <= i < 9 ==> t.items[i] == nine[i];
    after := t.Find(key);
    ItemsDistinct(t);
  }
}
