/** HASH_FSCK, the integrity check that uthash.h carries for its developers. */
module Integrity {
  import opened Bits
  import opened Lists
  import opened Buckets
  import opened AppOrders
  import opened BucketSides
  import opened HashTables

  // ---------------------------------------------------------------- the two structures agree

  lemma {:induction false} ChainsDistinct(hash: HashFunction, chains: seq<seq<Elem>>, i: nat, all: set<Elem>)
    requires Placed(hash, chains) && i <= |chains|
    requires forall b :: 0 <= b < |chains| ==> Nodes(chains[b]) <= all
    ensures Distinct(Flatten(chains[..i]))
  {
    hide Flatten, Placed;
    if i == 0 {
      FlattenPrefix(chains, 0);
    } else {
      ChainsDistinct(hash, chains, i - 1, all);
      ChainsApart(hash, chains, i - 1, all);
      FlattenPrefix(chains, i - 1);
      DistinctAppend(Flatten(chains[..i - 1]), chains[i - 1]);
    }
  }

  lemma {:induction false} OnceEach(s: seq<Elem>)
    requires Distinct(s)
    ensures multiset(s) == multiset(Nodes(s))
  {
    if s != [] {
      OnceEach(s[1..]);
      assert s == [s[0]] + s[1..];
      assert Nodes(s) == {s[0]} + Nodes(s[1..]) && s[0] !in s[1..];
    }
  }

  /** The chains together hold every element of the application order exactly once. */
  lemma ChainsHoldTheItems(hash: HashFunction, buckets: seq<Bucket>, chains: seq<seq<Elem>>, log2: nat, s: seq<Elem>)
    requires BucketSide(hash, buckets, chains, log2, s) && Distinct(s)
    ensures multiset(Flatten(chains)) == multiset(s) && |Flatten(chains)| == |s|
  {
    hide Flatten, BucketLinked, Distinct, BucketOf;
    var flat := Flatten(chains);
    ChainsDistinct(hash, chains, |chains|, Nodes(s));
    assert chains[..|chains|] == chains;
    forall e ensures e in flat <==> e in s {
      SameOccurrence(hash, buckets, chains, log2, s, e);
    }
    assert Nodes(flat) == Nodes(s);
    OnceEach(flat);
    OnceEach(s);
    assert |multiset(flat)| == |flat|;
  }

  lemma SameOccurrence(hash: HashFunction, buckets: seq<Bucket>, chains: seq<seq<Elem>>, log2: nat, s: seq<Elem>, e: Elem)
    requires BucketSide(hash, buckets, chains, log2, s)
    ensures e in Flatten(chains) <==> e in s
  {
    hide BucketLinked, BucketOf, Placed;
    FlattenMember(chains, e);
    if e in Flatten(chains) {
      var b :| 0 <= b < |chains| && e in chains[b];
      assert e in Nodes(chains[b]);
    }
  }

  // ---------------------------------------------------------------- the check

  /** Following hhNext from the bucket visits the chain. */
  ghost predicate ChainWalkable(bucket: Bucket, c: seq<Elem>)
    reads c`hhNext
  {
    bucket.hhHead == At(c, 0) && forall i :: 0 <= i < |c| ==> c[i].hhNext == At(c, i + 1)
  }

  /** What the check demands of a chain. */
  ghost predicate ChainSound(bucket: Bucket, c: seq<Elem>)
    reads c`hhPrev
  {
    bucket.count == |c| && forall i :: 0 <= i < |c| ==> c[i].hhPrev == At(c, i - 1)
  }

  ghost predicate ChainsWalkable(buckets: seq<Bucket>, chains: seq<seq<Elem>>, all: set<Elem>)
    reads all`hhNext
  {
    && |buckets| == |chains|
    && forall b :: 0 <= b < |chains| ==> Nodes(chains[b]) <= all && ChainWalkable(buckets[b], chains[b])
  }

  ghost predicate ChainsSound(buckets: seq<Bucket>, chains: seq<seq<Elem>>, all: set<Elem>)
    reads all`hhPrev
  {
    && |buckets| == |chains|
    && forall b :: 0 <= b < |chains| ==> Nodes(chains[b]) <= all && ChainSound(buckets[b], chains[b])
  }

  ghost predicate OrderSound(s: seq<Elem>)
    reads s`prev
  {
    forall i :: 0 <= i < |s| ==> s[i].prev == At(s, i - 1)
  }

  /** The demands in plain terms. */
  lemma SoundMeans(buckets: seq<Bucket>, chains: seq<seq<Elem>>, all: set<Elem>, s: seq<Elem>)
    requires ChainsWalkable(buckets, chains, all)
    ensures ChainsSound(buckets, chains, all) <==> forall b :: 0 <= b < |chains| ==>
      (var c := chains[b];
      && buckets[b].count == |c| && (c != [] ==> c[0].hhPrev == null)
      && forall i :: 0 < i < |c| ==> c[i].hhPrev == c[i - 1])
    ensures OrderSound(s) <==> (s != [] ==> s[0].prev == null) && forall i :: 0 < i < |s| ==> s[i].prev == s[i - 1]
  {
  }

  /** Walks one chain, comparing its back links and its bucket's count. */
  method CheckChain(bucket: Bucket, ghost c: seq<Elem>) returns (ok: bool, n: nat)
    requires ChainWalkable(bucket, c)
    ensures ok <==> ChainSound(bucket, c)
    ensures ok ==> n == |c|
  {
    n := 0;
    var prev: Elem? := null;
    var e := bucket.hhHead;
    while e != null
      invariant n <= |c| && e == At(c, n) && prev == At(c, n - 1)
      invariant forall i :: 0 <= i < n ==> c[i].hhPrev == At(c, i - 1)
      decreases |c| - n
    {
      if prev != e.hhPrev {
        return false, n;
      }
      n := n + 1;
      prev := e;
      e := e.hhNext;
    }
    ok := bucket.count == n;
  }

  method CheckBuckets(t: HashTable, ghost all: set<Elem>) returns (ok: bool)
    requires t.buckets != null && t.numBuckets == t.buckets.Length && ChainsWalkable(t.buckets[..], t.chains, all)
    ensures ok <==> ChainsSound(t.buckets[..], t.chains, all) && |Flatten(t.chains)| == t.numItems
  {
    hide ChainWalkable, ChainSound, Flatten;
    var count := 0;
    FlattenPrefix(t.chains, 0);
    for b := 0 to t.numBuckets
      invariant count == |Flatten(t.chains[..b])|
      invariant forall i :: 0 <= i < b ==> ChainSound(t.buckets[i], t.chains[i])
    {
      FlattenPrefix(t.chains, b);
      var good, n := CheckChain(t.buckets[b], t.chains[b]);
      if !good {
        return false;
      }
      count := count + n;
    }
    assert t.chains[..|t.chains|] == t.chains;
    ok := count == t.numItems;
  }

  method CheckOrder(t: HashTable) returns (ok: bool)
    requires t.head == At(t.items, 0) && NextLinked(t.items, 0, |t.items|)
    ensures ok <==> OrderSound(t.items) && |t.items| == t.numItems
  {
    var count := 0;
    var prev: Elem? := null;
    var e := t.head;
    while e != null
      invariant count <= |t.items| && e == At(t.items, count) && prev == At(t.items, count - 1)
      invariant forall i :: 0 <= i < count ==> t.items[i].prev == At(t.items, i - 1)
      decreases |t.items| - count
    {
      count := count + 1;
      if prev != e.prev {
        return false;
      }
      prev := e;
      e := e.next;
    }
    ok := count == t.numItems;
  }

  /** HASH_FSCK, on a table whose forward links lead through its chains and its order: it
      passes exactly when the back links, the bucket counts and both item counts are right. */
  method Fsck(t: HashTable, ghost all: set<Elem>) returns (ok: bool)
    requires t.head != null ==> t.buckets != null && t.numBuckets == t.buckets.Length
    requires t.head != null ==> ChainsWalkable(t.buckets[..], t.chains, all)
    requires t.head != null ==> t.head == At(t.items, 0) && NextLinked(t.items, 0, |t.items|)
    ensures ok <==> (t.head == null || (ChainsSound(t.buckets[..], t.chains, all) && OrderSound(t.items)
      && |Flatten(t.chains)| == t.numItems && |t.items| == t.numItems))
  {
    hide ChainsWalkable, ChainsSound, OrderSound, Flatten;
    ok := true;
    if t.head != null {
      var buckets := CheckBuckets(t, all);
      var order := CheckOrder(t);
      ok := buckets && order;
    }
  }

  /** Every table the operations leave behind passes. The check does not look at the tail, at
      the bucket an element is in, or at whether both structures hold the same elements;
      validity covers those too. */
  lemma ValidPasses(t: HashTable)
    requires t.Valid() && t.head != null
    ensures t.buckets != null && t.numBuckets == t.buckets.Length
    ensures ChainsWalkable(t.buckets[..], t.chains, Nodes(t.items)) && ChainsSound(t.buckets[..], t.chains, Nodes(t.items))
    ensures t.head == At(t.items, 0) && NextLinked(t.items, 0, |t.items|) && OrderSound(t.items)
    ensures |Flatten(t.chains)| == t.numItems && |t.items| == t.numItems
  {
    hide Flatten;
    ChainsHoldTheItems(t.hash, t.buckets[..], t.chains, t.log2NumBuckets, t.items);
  }

  // ---------------------------------------------------------------- validity in plain terms

  /** The head and tail pointers and the doubly linked order of a valid table. */
  lemma ValidOrderMeans(t: HashTable)
    requires t.Valid()
    ensures t.head == null <==> t.items == []
    ensures t.items != [] ==> (var last := |t.items| - 1;
      && t.head == t.items[0] && t.tail == t.items[last] && t.numItems == |t.items|
      && t.items[0].prev == null && t.items[last].next == null)
    ensures forall i :: 0 <= i < |t.items| - 1 ==> t.items[i].next == t.items[i + 1]
    ensures forall i :: 0 < i < |t.items| ==> t.items[i].prev == t.items[i - 1]
    ensures forall i, j :: 0 <= i < j < |t.items| ==> t.items[i] != t.items[j]
  {
    hide BucketSide;
  }

  /** Where the elements of a valid table are: each on the chain whose number is the remainder
      of its hash value, and nothing else on any chain. */
  lemma ValidPlacementMeans(t: HashTable)
    requires t.Valid() && t.head != null
    ensures t.buckets != null && t.numBuckets == t.buckets.Length == |t.chains| == Pow2(t.log2NumBuckets)
    ensures forall e :: e in t.items ==> e.hashv == t.hash(e.key) && 0 <= t.hash(e.key) % t.numBuckets < t.numBuckets
    ensures forall e :: e in t.items ==> e in t.chains[t.hash(e.key) % t.numBuckets]
    ensures forall b, e :: 0 <= b < t.numBuckets && e in t.chains[b] ==> e in t.items && t.hash(e.key) % t.numBuckets == b
  {
    hide BucketSide;
    SideSizes(t.hash, t.buckets[..], t.chains, t.log2NumBuckets, t.items);
    forall e | e in t.items
      ensures e.hashv == t.hash(e.key) && 0 <= t.hash(e.key) % t.numBuckets < t.numBuckets
      ensures e in t.chains[t.hash(e.key) % t.numBuckets]
    {
      ChainOfItem(t.hash, t.buckets[..], t.chains, t.log2NumBuckets, t.items, e);
    }
    forall b, e | 0 <= b < t.numBuckets && e in t.chains[b]
      ensures e in t.items && t.hash(e.key) % t.numBuckets == b
    {
      ItemOfChain(t.hash, t.buckets[..], t.chains, t.log2NumBuckets, t.items, b, e);
    }
  }

  lemma ChainOfItem(hash: HashFunction, buckets: seq<Bucket>, chains: seq<seq<Elem>>, log2: nat, s: seq<Elem>, e: Elem)
    requires BucketSide(hash, buckets, chains, log2, s) && e in s
    ensures e.hashv == hash(e.key) && |chains| == |buckets| > 0 && 0 <= hash(e.key) % |buckets| < |buckets|
    ensures e in chains[hash(e.key) % |buckets|]
  {
    hide And, BucketLinked, Pow2, BucketOf, Placed;
    BucketIsRemainder(hash, e, |buckets|, log2);
  }

  lemma ItemOfChain(hash: HashFunction, buckets: seq<Bucket>, chains: seq<seq<Elem>>, log2: nat, s: seq<Elem>,
      b: nat, e: Elem)
    requires BucketSide(hash, buckets, chains, log2, s) && b < |chains| && e in chains[b]
    ensures e in s && |buckets| > 0 && hash(e.key) % |buckets| == b
  {
    hide And, BucketLinked, Pow2, BucketOf, Covers;
    BucketIsRemainder(hash, e, |buckets|, log2);
    assert e in Nodes(chains[b]);
  }

  lemma SideSizes(hash: HashFunction, buckets: seq<Bucket>, chains: seq<seq<Elem>>, log2: nat, s: seq<Elem>)
    requires BucketSide(hash, buckets, chains, log2, s)
    ensures |buckets| == |chains| == Pow2(log2) && |buckets| > 0
  {
  }

  /** The links, the head and the count of each bucket of a valid table. */
  lemma ValidChainMeans(t: HashTable, b: nat)
    requires t.Valid() && t.head != null && b < t.numBuckets
    ensures t.buckets != null && b < t.buckets.Length && b < |t.chains|
    ensures var c, bucket := t.chains[b], t.buckets[b];
      && bucket.count == |c| && bucket.hhHead == (if c == [] then null else c[0])
      && (c != [] ==> c[0].hhPrev == null && c[|c| - 1].hhNext == null)
      && (forall i :: 0 <= i < |c| - 1 ==> c[i].hhNext == c[i + 1])
      && (forall i :: 0 < i < |c| ==> c[i].hhPrev == c[i - 1])
      && (forall i, j :: 0 <= i < j < |c| ==> c[i] != c[j])
  {
    hide And, Pow2, Covers, AppOrder;
  }
}
