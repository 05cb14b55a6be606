/** Properties of the hash table that span its operations. */
module HashProperties {
  import opened Bits
  import opened StableSort
  import opened Lists
  import opened Buckets
  import opened AppOrders
  import opened BucketSides
  import opened KeyMaps
  import opened InOrder

  // ---------------------------------------------------------------- order and lookups

  /** Sorting and inserting in order never change what a lookup finds. */
  lemma OrderIsInvisible(s: seq<Elem>, r: seq<Elem>)
    requires DistinctKeys(s) && multiset(r) == multiset(s)
    ensures DistinctKeys(r) && MapOf(r) == MapOf(s)
  {
    hide MapOf;
    assert forall e :: e in r <==> e in multiset(r);
    assert forall e :: e in s <==> e in multiset(s);
    KeysDistinctMultiset(s, r);
    MapsAgree(s, r);
  }

  lemma KeysDistinctMultiset(s: seq<Elem>, r: seq<Elem>)
    requires DistinctKeys(s) && multiset(r) == multiset(s)
    ensures DistinctKeys(r)
  {
    forall i, j | 0 <= i < j < |r| ensures r[i].key != r[j].key {
      if r[i] == r[j] {
        assert r == r[..i] + [r[i]] + r[i + 1..j] + [r[j]] + r[j + 1..];
        assert multiset(r)[r[i]] >= 2;
        OnceOnly(s, r[i]);
      } else {
        assert r[i] in multiset(s) && r[j] in multiset(s);
      }
    }
  }

  lemma {:induction false} OnceOnly(s: seq<Elem>, e: Elem)
    requires DistinctKeys(s)
    ensures multiset(s)[e] <= 1
  {
    if s != [] {
      OnceOnly(s[1..], e);
      assert s == [s[0]] + s[1..];
      if e == s[0] {
        assert e !in s[1..];
      }
    }
  }

  // ---------------------------------------------------------------- lookups across an expansion

  /** The last element of a chain with the given key. */
  function LastMatch(c: seq<Elem>, key: seq<bv8>): Elem? {
    if c == [] then null
    else if c[|c| - 1].key == key then c[|c| - 1]
    else LastMatch(c[..|c| - 1], key)
  }

  ghost predicate AtMostOne(c: seq<Elem>, key: seq<bv8>) {
    forall i, j :: 0 <= i < j < |c| ==> c[i].key != key || c[j].key != key
  }

  lemma {:induction false} LastMatchMeaning(c: seq<Elem>, key: seq<bv8>) returns (k: int)
    ensures -1 <= k < |c| && LastMatch(c, key) == (if k == -1 then null else c[k])
    ensures (k >= 0 ==> c[k].key == key) && forall i :: k < i < |c| ==> c[i].key != key
  {
    if c == [] {
      k := -1;
    } else if c[|c| - 1].key == key {
      k := |c| - 1;
    } else {
      k := LastMatchMeaning(c[..|c| - 1], key);
    }
  }

  lemma {:induction false} FirstMatchMeaning(c: seq<Elem>, key: seq<bv8>) returns (k: nat)
    ensures k <= |c| && FirstMatch(c, key) == (if k == |c| then null else c[k])
    ensures (k < |c| ==> c[k].key == key) && forall i :: 0 <= i < k ==> c[i].key != key
  {
    if c == [] || c[0].key == key {
      k := 0;
    } else {
      var j := FirstMatchMeaning(c[1..], key);
      k := j + 1;
      forall i | 0 <= i < k ensures c[i].key != key {
        assert i > 0 ==> c[i] == c[1..][i - 1];
      }
    }
  }

  /** The first and the last element with a key are the same exactly if there is at most one. */
  lemma FirstIsLast(c: seq<Elem>, key: seq<bv8>)
    requires Distinct(c)
    ensures FirstMatch(c, key) == LastMatch(c, key) <==> AtMostOne(c, key)
  {
    hide FirstMatch, LastMatch;
    var i := FirstMatchMeaning(c, key);
    var j := LastMatchMeaning(c, key);
  }

  /** Pushing the elements of a chain one by one onto new chains turns the last match into the
      first. */
  lemma {:induction false} DistTurnsMatches(hash: HashFunction, c: seq<Elem>, key: seq<bv8>, n: nat)
    requires n > 0
    ensures FirstMatch(Dist(hash, c, ToBkt(hash(key), n), n), key) == LastMatch(c, key)
  {
    hide ToBkt;
    if c != [] {
      var c', x, b := c[..|c| - 1], c[|c| - 1], ToBkt(hash(key), n);
      DistTurnsMatches(hash, c', key, n);
      var d := Dist(hash, c', b, n);
      assert ([x] + d)[1..] == d && [] + d == d;
    }
  }

  lemma MaskedLookup(hash: HashFunction, chains: seq<seq<Elem>>, k: nat, key: seq<bv8>)
    requires Placed(hash, chains) && |chains| == Pow2(k)
    ensures var n := |chains|;
      var before, after := ToBkt(hash(key), n), ToBkt(hash(key), 2 * n);
      && before < n && after < 2 * n
      && FirstMatch(Spread(hash, Flatten(chains), 2 * n)[after], key) == LastMatch(chains[before], key)
  {
    hide And, Flatten, Dist, FirstMatch, LastMatch;
    var n := |chains|;
    var before, after := ToBkt(hash(key), n), ToBkt(hash(key), 2 * n);
    ToBktInRange(hash(key), n, k);
    ToBktInRange(hash(key), 2 * n, k + 1);
    ToBktDoubled(hash(key), n, k);
    Redistribution(hash, chains, k, after);
    DistIsReversedKept(hash, chains[before], after, 2 * n);
    DistTurnsMatches(hash, chains[before], key, 2 * n);
  }

  /** What an expansion does to lookups, for every table and every key: the element that was
      the last with the key in its chain is found from now on. It is the one found before
      exactly if the chain held the key at most once. */
  lemma LookupAcrossExpansion(hash: HashFunction, chains: seq<seq<Elem>>, k: nat, key: seq<bv8>)
    requires Placed(hash, chains) && |chains| == Pow2(k)
    ensures var n := |chains|;
      var before, after := hash(key) % n, hash(key) % (2 * n);
      && 0 <= before < n && 0 <= after < 2 * n
      && var found := FirstMatch(Spread(hash, Flatten(chains), 2 * n)[after], key);
        && found == LastMatch(chains[before], key)
        && (found == FirstMatch(chains[before], key) <==> AtMostOne(chains[before], key))
  {
    hide ToBkt, Flatten, Spread, FirstMatch, LastMatch, AtMostOne;
    MaskedLookup(hash, chains, k, key);
    ToBktIsRemainder(hash(key), |chains|, k);
    ToBktIsRemainder(hash(key), 2 * |chains|, k + 1);
    FirstIsLast(chains[ToBkt(hash(key), |chains|)], key);
  }

  // ---------------------------------------------------------------- every run

  /** What a program may do with a table. */
  datatype Op = Add(e: Elem) | AddInOrder(cmp: Compare, e: Elem) | Delete(e: Elem) | Sort(cmp: Compare)

  ghost function Without(s: seq<Elem>, e: Elem): seq<Elem> {
    if s == [] then [] else if s[0] == e then s[1..] else [s[0]] + Without(s[1..], e)
  }

  /** The application order after an operation, as the methods of HashTable ensure it. */
  ghost function After(s: seq<Elem>, op: Op): seq<Elem> {
    match op
    case Add(e) => s + [e]
    case AddInOrder(cmp, e) => InsertAt(s, UpperBound(cmp, s, e), e)
    case Delete(e) => Without(s, e)
    case Sort(cmp) => Passes(cmp, s, 1)
  }

  ghost function OrderAfter(ops: seq<Op>): seq<Elem> {
    if ops == [] then [] else After(OrderAfter(ops[..|ops| - 1]), ops[|ops| - 1])
  }

  /** The same on the finite map, where order plays no part. */
  ghost function Changed(m: map<seq<bv8>, Elem>, op: Op): map<seq<bv8>, Elem> {
    match op
    case Add(e) => m[e.key := e]
    case AddInOrder(_, e) => m[e.key := e]
    case Delete(e) => m - {e.key}
    case Sort(_) => m
  }

  ghost function MapAfter(ops: seq<Op>): map<seq<bv8>, Elem> {
    if ops == [] then map[] else Changed(MapAfter(ops[..|ops| - 1]), ops[|ops| - 1])
  }

  /** What HASH_ADD and HASH_DELETE leave to their caller: only absent keys are added, and
      only present elements are deleted. */
  ghost predicate Careful(m: map<seq<bv8>, Elem>, op: Op) {
    match op
    case Add(e) => e.key !in m
    case AddInOrder(_, e) => e.key !in m
    case Delete(e) => Lookup(m, e.key) == e
    case Sort(_) => true
  }

  ghost predicate CarefulRun(ops: seq<Op>) {
    forall i :: 0 <= i < |ops| ==> Careful(MapAfter(ops[..i]), ops[i])
  }

  /** What the methods require of the element they are given. */
  ghost predicate Enabled(s: seq<Elem>, op: Op) {
    match op
    case Add(e) => e !in s
    case AddInOrder(_, e) => e !in s
    case Delete(e) => e in s
    case Sort(_) => true
  }

  /** A caller who is careful about keys meets every precondition of the table, and however
      the run goes, the table holds distinct keys and stands for the map. */
  lemma {:induction false} EveryRunIsAMap(ops: seq<Op>)
    requires CarefulRun(ops)
    ensures DistinctKeys(OrderAfter(ops)) && MapOf(OrderAfter(ops)) == MapAfter(ops)
    ensures ops != [] ==> Enabled(OrderAfter(ops[..|ops| - 1]), ops[|ops| - 1])
  {
    hide After, Changed, Careful, Enabled;
    if ops != [] {
      var before := ops[..|ops| - 1];
      forall i | 0 <= i < |before| ensures Careful(MapAfter(before[..i]), before[i]) {
        assert before[..i] == ops[..i];
      }
      EveryRunIsAMap(before);
      StepOnMap(OrderAfter(before), ops[|ops| - 1]);
    }
  }

  lemma StepOnMap(s: seq<Elem>, op: Op)
    requires DistinctKeys(s) && Careful(MapOf(s), op)
    ensures Enabled(s, op)
    ensures DistinctKeys(After(s, op)) && MapOf(After(s, op)) == Changed(MapOf(s), op)
  {
    hide MapOf, DistinctKeys, Passes, InsertAt, UpperBound, Without;
    match op
    case Add(e) =>
      MapOfMeaning(s, e.key);
      MapWith(s, e);
    case AddInOrder(cmp, e) =>
      MapOfMeaning(s, e.key);
      MapWith(s, e);
      InsertElements(s, e, UpperBound(cmp, s, e));
      OrderIsInvisible(s + [e], After(s, op));
    case Delete(e) =>
      MapOfMeaning(s, e.key);
      var k := WithoutOne(s, e);
      MapWithout(s, k);
    case Sort(cmp) =>
      PassesElements(cmp, s, 1);
      OrderIsInvisible(s, After(s, op));
  }

  /** The order after each operation, in plain terms; k is where e comes in or goes out. */
  lemma AfterMeans(s: seq<Elem>, op: Op) returns (k: nat)
    requires Enabled(s, op)
    ensures k <= |s|
    ensures op.Add? ==> After(s, op) == s + [op.e]
    ensures op.AddInOrder? ==> After(s, op) == s[..k] + [op.e] + s[k..]
    ensures op.AddInOrder? ==> (forall i :: 0 <= i < k ==> op.cmp(s[i], op.e) <= 0) && (k < |s| ==> op.cmp(s[k], op.e) > 0)
    ensures op.Delete? ==> k < |s| && s[k] == op.e && After(s, op) == s[..k] + s[k + 1..]
    ensures op.Sort? ==> multiset(After(s, op)) == multiset(s)
    ensures op.Sort? && Preorder(op.cmp, Nodes(s)) ==> IsStableSort(op.cmp, s, After(s, op))
  {
    hide Passes, InsertAt, UpperBound, Without, RemoveAt, Preorder, IsStableSort;
    k := 0;
    match op
    case Add(e) =>
    case AddInOrder(cmp, e) =>
      k := UpperBound(cmp, s, e);
      InsertedInOrder(cmp, s, e, k);
    case Delete(e) =>
      k := WithoutOne(s, e);
      RemovedAt(s, k);
    case Sort(cmp) =>
      PassesElements(cmp, s, 1);
      if Preorder(cmp, Nodes(s)) {
        MergeSortCorrect(cmp, s);
      }
  }

  lemma {:induction false} WithoutOne(s: seq<Elem>, e: Elem) returns (k: nat)
    requires e in s
    ensures k < |s| && s[k] == e && Without(s, e) == RemoveAt(s, k)
  {
    if s[0] == e {
      k := 0;
    } else {
      var j := WithoutOne(s[1..], e);
      k := j + 1;
      assert RemoveAt(s, k) == [s[0]] + RemoveAt(s[1..], j);
    }
  }
}
