/** The bucket side of a uthash table: what every operation relies on and re-establishes about
    the chains. */
module BucketSides {
  import opened Bits
  import opened Lists
  import opened Buckets

  const INITIAL_NUM_BUCKETS: nat := 32

  const INITIAL_NUM_BUCKETS_LOG2: nat := 5

  const BKT_CAPACITY_THRESH: nat := 10

  /** The bucket side of the table holds exactly the elements of s. */
  ghost predicate BucketSide(hash: HashFunction, buckets: seq<Bucket>, chains: seq<seq<Elem>>, log2: nat, s: seq<Elem>)
    reads s`hhPrev, s`hhNext, s`hashv
  {
    && |buckets| == Pow2(log2)
    && AllLinked(buckets, chains, Nodes(s)) && Placed(hash, chains) && Covers(hash, chains, s)
    && forall i :: 0 <= i < |s| ==> s[i].hashv == hash(s[i].key)
  }

  /** Every element of s is in the chain its key selects. */
  ghost predicate Covers(hash: HashFunction, chains: seq<seq<Elem>>, s: seq<Elem>)
    requires chains != []
  {
    forall i :: 0 <= i < |s| ==>
      var b := BucketOf(hash, s[i], |chains|);
      b < |chains| && s[i] in chains[b]
  }

  /** The bucket side depends on which elements there are, not on their order. */
  lemma SameMembers(hash: HashFunction, buckets: seq<Bucket>, chains: seq<seq<Elem>>, log2: nat, s: seq<Elem>, r: seq<Elem>)
    requires BucketSide(hash, buckets, chains, log2, s) && Nodes(r) == Nodes(s)
    ensures BucketSide(hash, buckets, chains, log2, r)
  {
    hide And, Pow2, BucketLinked, Placed;
    forall i | 0 <= i < |r| ensures r[i] in s {
      assert r[i] in Nodes(r);
    }
  }

  lemma EmptySide(hash: HashFunction, buckets: seq<Bucket>, chains: seq<seq<Elem>>)
    requires |buckets| == |chains| == INITIAL_NUM_BUCKETS
    requires forall b :: 0 <= b < |buckets| ==> buckets[b] == Bucket(null, 0, 0) && chains[b] == []
    ensures BucketSide(hash, buckets, chains, INITIAL_NUM_BUCKETS_LOG2, [])
  {
    assert Pow2(2) == 4;
    assert Pow2(4) == 16;
  }

  // ---------------------------------------------------------------- adding and removing

  lemma BeforePush(hash: HashFunction, buckets: seq<Bucket>, chains: seq<seq<Elem>>, log2: nat, s: seq<Elem>, e: Elem)
    requires BucketSide(hash, buckets, chains, log2, s)
    ensures AllLinked(buckets, chains, Nodes(s)) && Placed(hash, chains) && |chains| == |buckets|
    ensures BucketOf(hash, e, |chains|) < |chains|
  {
    hide And;
    ToBktInRange(hash(e.key), |chains|, log2);
  }

  lemma CountIsLength(buckets: seq<Bucket>, chains: seq<seq<Elem>>, all: set<Elem>, b: nat)
    requires AllLinked(buckets, chains, all) && b < |chains|
    ensures |buckets| == |chains| && buckets[b].count == |chains[b]|
  {
  }

  lemma AfterPush(hash: HashFunction, buckets: seq<Bucket>, chains: seq<seq<Elem>>, log2: nat, s: seq<Elem>, e: Elem, b: nat)
    requires |buckets| == |chains| == Pow2(log2) && b < |chains| && b == BucketOf(hash, e, |chains|)
    requires Covers(hash, chains, s)
    requires AllLinked(buckets, chains[b := [e] + chains[b]], Nodes(s) + {e})
    requires Placed(hash, chains[b := [e] + chains[b]])
    requires e.hashv == hash(e.key) && forall i :: 0 <= i < |s| ==> s[i].hashv == hash(s[i].key)
    ensures BucketSide(hash, buckets, chains[b := [e] + chains[b]], log2, s + [e])
  {
    hide And, BucketLinked, Placed;
    assert Nodes(s + [e]) == Nodes(s) + {e};
  }

  lemma BeforeRemove(hash: HashFunction, buckets: seq<Bucket>, chains: seq<seq<Elem>>, log2: nat, s: seq<Elem>,
      k: nat, b: nat) returns (j: nat)
    requires BucketSide(hash, buckets, chains, log2, s) && k < |s| && b == ToBkt(s[k].hashv, |buckets|)
    ensures AllLinked(buckets, chains, Nodes(s)) && Placed(hash, chains) && |chains| == |buckets|
    ensures b < |chains| && j < |chains[b]| && chains[b][j] == s[k]
  {
    hide And;
    assert s[k] in chains[BucketOf(hash, s[k], |chains|)];
    j :| 0 <= j < |chains[b]| && chains[b][j] == s[k];
  }

  lemma AfterRemove(hash: HashFunction, buckets: seq<Bucket>, chains: seq<seq<Elem>>, log2: nat, s: seq<Elem>,
      k: nat, b: nat, j: nat)
    requires |buckets| == |chains| == Pow2(log2) && Distinct(s) && k < |s|
    requires b < |chains| && j < |chains[b]| && chains[b][j] == s[k] && Placed(hash, chains) && Covers(hash, chains, s)
    requires AllLinked(buckets, chains[b := RemoveAt(chains[b], j)], Nodes(s) - {s[k]})
    requires Placed(hash, chains[b := RemoveAt(chains[b], j)])
    requires forall i :: 0 <= i < |s| ==> s[i].hashv == hash(s[i].key)
    ensures BucketSide(hash, buckets, chains[b := RemoveAt(chains[b], j)], log2, RemoveAt(s, k))
  {
    hide And, RemoveAt, BucketLinked, Placed, Distinct;
    PlacedRemove(hash, chains, b, j, RemoveAt(chains[b], j));
    RemovedMembers(s, k, RemoveAt(s, k));
  }

  lemma RemovedMembers(s: seq<Elem>, k: nat, r: seq<Elem>)
    requires Distinct(s) && k < |s| && r == RemoveAt(s, k)
    ensures forall e :: e in r <==> e in s && e != s[k]
    ensures Nodes(r) == Nodes(s) - {s[k]}
  {
    hide RemoveAt;
    forall i | 0 <= i < |r| ensures r[i] in s && r[i] != s[k] {
      assert r[i] == s[if i < k then i else i + 1];
    }
    forall e | e in s && e != s[k] ensures e in r {
      var i :| 0 <= i < |s| && s[i] == e;
      assert e == r[if i < k then i else i - 1];
    }
  }

  // ---------------------------------------------------------------- searching a chain

  /** The first element of a chain with the given key. */
  function FirstMatch(c: seq<Elem>, key: seq<bv8>): Elem? {
    if c == [] then null else if c[0].key == key then c[0] else FirstMatch(c[1..], key)
  }

  lemma {:induction false} MatchMeaning(c: seq<Elem>, key: seq<bv8>)
    ensures FirstMatch(c, key) == null <==> forall e :: e in c ==> e.key != key
    ensures FirstMatch(c, key) != null ==> FirstMatch(c, key) in c && FirstMatch(c, key).key == key
  {
    if c != [] {
      MatchMeaning(c[1..], key);
      assert c == [c[0]] + c[1..];
    }
  }

  lemma FoundMatch(c: seq<Elem>, i: nat, key: seq<bv8>)
    requires i < |c| && c[i].key == key
    ensures FirstMatch(c[i..], key) == c[i]
  {
  }

  lemma NoMatchLeft(c: seq<Elem>, key: seq<bv8>)
    ensures FirstMatch(c[|c|..], key) == null
  {
  }

  lemma NextMatch(c: seq<Elem>, i: nat, key: seq<bv8>)
    requires i < |c| && c[i].key != key
    ensures FirstMatch(c[i..], key) == FirstMatch(c[i + 1..], key)
  {
    assert c[i..][1..] == c[i + 1..];
  }

  lemma BeforeSearch(hash: HashFunction, buckets: seq<Bucket>, chains: seq<seq<Elem>>, log2: nat, s: seq<Elem>,
      key: seq<bv8>, b: nat)
    requires BucketSide(hash, buckets, chains, log2, s) && b == ToBkt(hash(key), |buckets|)
    ensures b < |chains| == |buckets| && BucketLinked(buckets[b], chains[b])
    ensures forall e :: e in chains[b] ==> e in s && e.hashv == hash(e.key)
    ensures forall e :: e in s && e.key == key ==> e in chains[b]
  {
    hide And;
    ToBktInRange(hash(key), |buckets|, log2);
    assert forall e :: e in chains[b] ==> e in Nodes(chains[b]);
  }

  // ---------------------------------------------------------------- expanding

  /** The ideal chain length after the expansion, in its shift-and-mask form. */
  lemma IdealChain(numItems: nat, n: nat, log2: nat)
    requires n == Pow2(log2)
    ensures Shr(numItems, log2 + 1) + (if And(numItems, n * 2 - 1) != 0 then 1 else 0) == (numItems + 2 * n - 1) / (2 * n)
    ensures numItems > 0 ==> (numItems + 2 * n - 1) / (2 * n) > 0
  {
    hide And, Shr;
    ShiftMaskCeil(numItems, log2 + 1);
    if numItems > 0 {
      CeilPositive(numItems, 2 * n);
    }
  }

  lemma CeilPositive(a: nat, d: nat)
    requires d > 0 && a > 0
    ensures CeilDiv(a, d) > 0
  {
    assert (a + d - 1) / d >= 1;
  }

  lemma HalfIsShift(a: nat)
    ensures Shr(a, 1) == a / 2
  {
    assert Shr(a / 2, 0) == a / 2;
  }

  lemma BeforeExpand(hash: HashFunction, buckets: seq<Bucket>, chains: seq<seq<Elem>>, log2: nat, s: seq<Elem>)
    requires BucketSide(hash, buckets, chains, log2, s)
    ensures |chains| == |buckets| == Pow2(log2) && forall b :: 0 <= b < |chains| ==> Nodes(chains[b]) <= Nodes(s)
    ensures forall b :: 0 <= b < |chains| ==> Hashed(hash, chains[b], 2 * |buckets|)
  {
    hide And;
    forall b | 0 <= b < |chains| ensures Hashed(hash, chains[b], 2 * |buckets|) {
      forall i | 0 <= i < |chains[b]|
        ensures chains[b][i].hashv == hash(chains[b][i].key) && BucketOf(hash, chains[b][i], 2 * |buckets|) < 2 * |buckets|
      {
        assert chains[b][i] in Nodes(chains[b]);
        ToBktInRange(hash(chains[b][i].key), 2 * |buckets|, log2 + 1);
      }
    }
  }

  lemma AfterExpand(hash: HashFunction, buckets: seq<Bucket>, chains: seq<seq<Elem>>, log2: nat, s: seq<Elem>,
      ideal: nat, nonideal: nat)
    requires |chains| == Pow2(log2) && |buckets| == 2 * |chains| && Placed(hash, chains) && Covers(hash, chains, s)
    requires forall b :: 0 <= b < |chains| ==> Nodes(chains[b]) <= Nodes(s)
    requires Moved(hash, buckets, Flatten(chains), ideal, nonideal)
    requires forall i :: 0 <= i < |s| ==> s[i].hashv == hash(s[i].key)
    ensures BucketSide(hash, buckets, Spread(hash, Flatten(chains), |buckets|), log2 + 1, s)
    ensures Tallied(buckets, ideal, nonideal)
  {
    hide And, Flatten, Dist, Tallied, Placed;
    var flat, n := Flatten(chains), |buckets|;
    forall e | e in flat ensures e in Nodes(s) {
      FlattenMember(chains, e);
      var b :| 0 <= b < |chains| && e in chains[b];
      assert e in Nodes(chains[b]);
    }
    forall i | 0 <= i < |s|
      ensures var b := BucketOf(hash, s[i], n); b < n && s[i] in Spread(hash, flat, n)[b]
    {
      var b := BucketOf(hash, s[i], n);
      FlattenMember(chains, s[i]);
      ToBktInRange(hash(s[i].key), n, log2 + 1);
      DistMember(hash, flat, b, n, s[i]);
    }
  }
}
