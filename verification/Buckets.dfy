/** Bucket chains of uthash.h: which bucket an element belongs to, the chains threaded
    through hhPrev and hhNext, and the redistribution into twice as many buckets. */
module Buckets {
  import opened Bits
  import opened Lists
  import opened Sequences

  /** UT_hash_bucket. */
  datatype Bucket = Bucket(hhHead: Elem?, count: nat, expandMult: nat)

  /** HASH_FUNCTION, which a program may choose. */
  type HashFunction = seq<bv8> -> nat

  // ---------------------------------------------------------------- which bucket

  /** HASH_TO_BKT: masks the hash value with the bucket count less one. */
  function ToBkt(hashv: nat, numBkts: nat): nat
    requires numBkts > 0
  {
    And(hashv, numBkts - 1)
  }

  function BucketOf(hash: HashFunction, e: Elem, numBkts: nat): nat
    requires numBkts > 0
  {
    ToBkt(hash(e.key), numBkts)
  }

  lemma ToBktInRange(hashv: nat, n: nat, k: nat)
    requires n == Pow2(k)
    ensures ToBkt(hashv, n) < n
  {
    MaskIsRemainder(hashv, k);
  }

  /** A bucket number is the remainder of the hash value. */
  lemma ToBktIsRemainder(hashv: nat, n: nat, k: nat)
    requires n == Pow2(k)
    ensures ToBkt(hashv, n) == hashv % n
  {
    hide And;
    MaskIsRemainder(hashv, k);
  }

  /** Doubling the table leaves an element where it was or moves it up by the old size. */
  lemma ToBktDoubled(hashv: nat, n: nat, k: nat)
    requires n == Pow2(k)
    ensures ToBkt(hashv, 2 * n) == ToBkt(hashv, n) || ToBkt(hashv, 2 * n) == ToBkt(hashv, n) + n
  {
    hide And;
    MaskIsRemainder(hashv, k);
    MaskIsRemainder(hashv, k + 1);
    DoubledRemainder(hashv, n, 2 * n);
  }

  // ---------------------------------------------------------------- chains in memory

  /** The bucket's record describes the chain, and the chain is linked both ways. */
  ghost predicate BucketLinked(bucket: Bucket, chain: seq<Elem>)
    reads chain`hhPrev, chain`hhNext
  {
    && bucket.hhHead == At(chain, 0) && bucket.count == |chain|
    && forall i :: 0 <= i < |chain| ==> chain[i].hhPrev == At(chain, i - 1) && chain[i].hhNext == At(chain, i + 1)
  }

  ghost predicate AllLinked(buckets: seq<Bucket>, chains: seq<seq<Elem>>, all: set<Elem>)
    reads all`hhPrev, all`hhNext
  {
    && |buckets| == |chains|
    && forall b :: 0 <= b < |chains| ==> Nodes(chains[b]) <= all && BucketLinked(buckets[b], chains[b])
  }

  /** Every element of a chain belongs to that chain's bucket, and occurs there once. */
  ghost predicate Placed(hash: HashFunction, chains: seq<seq<Elem>>) {
    && chains != []
    && (forall b :: 0 <= b < |chains| ==> Distinct(chains[b]))
    && (forall b, i :: 0 <= b < |chains| && 0 <= i < |chains[b]| ==> BucketOf(hash, chains[b][i], |chains|) == b)
  }

  /** Puts x in front of a chain: the linking part of HASH_ADD_TO_BKT. */
  method PushFront(buckets: array<Bucket>, b: nat, x: Elem, ghost chain: seq<Elem>)
    requires b < buckets.Length && BucketLinked(buckets[b], chain) && Distinct(chain) && x !in chain
    modifies buckets, {x}`hhPrev, {x}`hhNext, Nodes(chain)`hhPrev
    ensures buckets[..] == old(buckets[..])[b := buckets[b]]
    ensures BucketLinked(buckets[b], [x] + chain) && buckets[b].expandMult == old(buckets[b].expandMult)
  {
    var bucket := buckets[b];
    x.hhNext := bucket.hhHead;
    x.hhPrev := null;
    if bucket.hhHead != null {
      bucket.hhHead.hhPrev := x;
    }
    buckets[b] := Bucket(x, bucket.count + 1, bucket.expandMult);
  }

  method PushInto(hash: HashFunction, buckets: array<Bucket>, b: nat, x: Elem,
      ghost chains: seq<seq<Elem>>, ghost all: set<Elem>)
    requires AllLinked(buckets[..], chains, all) && Placed(hash, chains) && x !in all
    requires b < |chains| && b == BucketOf(hash, x, |chains|)
    modifies buckets, ({x} + all)`hhPrev, {x}`hhNext
    ensures buckets[..] == old(buckets[..])[b := buckets[b]]
    ensures buckets[b].expandMult == old(buckets[b].expandMult) && buckets[b].count == old(buckets[b].count) + 1
    ensures AllLinked(buckets[..], chains[b := [x] + chains[b]], all + {x})
    ensures Placed(hash, chains[b := [x] + chains[b]])
  {
    hide BucketOf;
    PlacedPush(hash, chains, b, x, all);
    PushFront(buckets, b, x, chains[b]);
  }

  lemma PlacedPush(hash: HashFunction, chains: seq<seq<Elem>>, b: nat, x: Elem, all: set<Elem>)
    requires Placed(hash, chains) && b < |chains| && b == BucketOf(hash, x, |chains|)
    requires x !in all && forall b' :: 0 <= b' < |chains| ==> Nodes(chains[b']) <= all
    ensures x !in chains[b] && Placed(hash, chains[b := [x] + chains[b]])
    ensures forall b', e :: 0 <= b' < |chains| && b' != b && e in chains[b'] ==> e !in chains[b] && e != x
  {
    hide ToBkt;
    assert forall b' :: 0 <= b' < |chains| ==> x !in chains[b'];
  }

  /** The chain's links as they should be once element k is bypassed. */
  ghost predicate Bypassed(chain: seq<Elem>, k: nat)
    reads chain`hhPrev, chain`hhNext
  {
    && (forall j :: 0 <= j < |chain| && j != k && j != k + 1 ==> chain[j].hhPrev == At(chain, j - 1))
    && (forall j :: 0 <= j < |chain| && j != k && j + 1 != k ==> chain[j].hhNext == At(chain, j + 1))
    && (k + 1 < |chain| ==> chain[k + 1].hhPrev == At(chain, k - 1))
    && (0 < k <= |chain| ==> chain[k - 1].hhNext == At(chain, k + 1))
  }

  lemma BypassedIsLinked(bucket: Bucket, chain: seq<Elem>, k: nat)
    requires k < |chain| && Bypassed(chain, k)
    requires bucket.count == |chain| - 1 && bucket.hhHead == At(chain, if k == 0 then 1 else 0)
    ensures BucketLinked(bucket, RemoveAt(chain, k))
  {
    var r := RemoveAt(chain, k);
    forall i | 0 <= i < |r| ensures r[i].hhPrev == At(r, i - 1) && r[i].hhNext == At(r, i + 1) {
      if i < k {
        assert r[i] == chain[i] && (i > 0 ==> r[i - 1] == chain[i - 1]);
        assert i + 1 < |r| ==> r[i + 1] == chain[if i + 1 < k then i + 1 else i + 2];
      } else {
        var j := i + 1;
        assert r[i] == chain[j] && (j + 1 < |chain| ==> r[i + 1] == chain[j + 1]);
        assert i > 0 ==> r[i - 1] == chain[if i == k then k - 1 else i];
      }
    }
  }

  /** HASH_DEL_IN_BKT: takes element number k out of its chain. */
  method DelFromChain(buckets: array<Bucket>, b: nat, x: Elem, ghost chain: seq<Elem>, ghost k: nat)
    requires b < buckets.Length && BucketLinked(buckets[b], chain) && Distinct(chain)
    requires k < |chain| && x == chain[k]
    modifies buckets, Nodes(chain)`hhPrev, Nodes(chain)`hhNext
    ensures buckets[..] == old(buckets[..])[b := buckets[b]]
    ensures BucketLinked(buckets[b], RemoveAt(chain, k)) && buckets[b].expandMult == old(buckets[b].expandMult)
  {
    hide RemoveAt;
    assert At(chain, k - 1) != null ==> At(chain, k - 1) in Nodes(chain);
    assert At(chain, k + 1) != null ==> At(chain, k + 1) in Nodes(chain);
    var bucket := buckets[b].(count := buckets[b].count - 1);
    if bucket.hhHead == x {
      bucket := bucket.(hhHead := x.hhNext);
    }
    buckets[b] := bucket;
    if x.hhPrev != null {
      x.hhPrev.hhNext := x.hhNext;
    }
    if x.hhNext != null {
      x.hhNext.hhPrev := x.hhPrev;
    }
    assert forall j :: 0 <= j < |chain| && j != k && j != k + 1 ==> chain[j].hhPrev == At(chain, j - 1);
    assert forall j :: 0 <= j < |chain| && j != k && j + 1 != k ==> chain[j].hhNext == At(chain, j + 1);
    BypassedIsLinked(bucket, chain, k);
  }

  lemma PlacedRemove(hash: HashFunction, chains: seq<seq<Elem>>, b: nat, k: nat, rest: seq<Elem>)
    requires Placed(hash, chains) && b < |chains| && k < |chains[b]| && rest == RemoveAt(chains[b], k)
    ensures Placed(hash, chains[b := rest])
    ensures forall e :: e in rest <==> e in chains[b] && e != chains[b][k]
    ensures forall b', e :: 0 <= b' < |chains| && b' != b && e in chains[b'] ==> e !in chains[b]
  {
    hide ToBkt, RemoveAt;
    forall e | e in chains[b] && e != chains[b][k] ensures e in rest {
      var i :| 0 <= i < |chains[b]| && chains[b][i] == e;
      assert e == rest[if i < k then i else i - 1];
    }
  }

  method DelFromBucket(hash: HashFunction, buckets: array<Bucket>, b: nat, x: Elem,
      ghost chains: seq<seq<Elem>>, ghost k: nat, ghost all: set<Elem>)
    requires AllLinked(buckets[..], chains, all) && Placed(hash, chains)
    requires b < |chains| && k < |chains[b]| && x == chains[b][k]
    modifies buckets, all`hhPrev, all`hhNext
    ensures AllLinked(buckets[..], chains[b := RemoveAt(chains[b], k)], all - {x})
    ensures Placed(hash, chains[b := RemoveAt(chains[b], k)])
    ensures forall i :: 0 <= i < buckets.Length ==> buckets[i].expandMult == old(buckets[..])[i].expandMult
  {
    hide BucketOf, RemoveAt, Placed, BucketLinked;
    assert Nodes(chains[b]) <= all;
    PlacedRemove(hash, chains, b, k, RemoveAt(chains[b], k));
    PlacedDistinct(hash, chains, b);
    ghost var rest := RemoveAt(chains[b], k);
    forall b' | 0 <= b' < |chains| && b' != b ensures Nodes(chains[b']) !! Nodes(chains[b]) {
    }
    DelFromChain(buckets, b, x, chains[b], k);
    forall b' | 0 <= b' < |chains|
      ensures Nodes(chains[b := rest][b']) <= all - {x} && BucketLinked(buckets[b'], chains[b := rest][b'])
    {
      if b' != b {
        assert BucketLinked(buckets[b'], chains[b']) && x in Nodes(chains[b]);
      }
    }
  }

  lemma PlacedDistinct(hash: HashFunction, chains: seq<seq<Elem>>, b: nat)
    requires Placed(hash, chains) && b < |chains|
    ensures Distinct(chains[b])
  {
  }

  // ---------------------------------------------------------------- redistribution

  /** What is left of c, taken from its front and pushed one by one, in bucket b of n. */
  ghost function Dist(hash: HashFunction, c: seq<Elem>, b: nat, n: nat): seq<Elem>
    requires n > 0
  {
    if c == [] then []
    else
      var x := c[|c| - 1];
      (if BucketOf(hash, x, n) == b then [x] else []) + Dist(hash, c[..|c| - 1], b, n)
  }

  ghost function Spread(hash: HashFunction, c: seq<Elem>, n: nat): (chains: seq<seq<Elem>>)
    requires n > 0
    ensures |chains| == n
  {
    seq(n, b requires 0 <= b < n => Dist(hash, c, b, n))
  }

  lemma SpreadPush(hash: HashFunction, c: seq<Elem>, x: Elem, b: nat, n: nat)
    requires n > 0 && b == BucketOf(hash, x, n) && b < n
    ensures Spread(hash, c + [x], n) == Spread(hash, c, n)[b := [x] + Spread(hash, c, n)[b]]
  {
    hide BucketOf;
    assert (c + [x])[..|c|] == c;
    forall b' | 0 <= b' < n
      ensures Spread(hash, c + [x], n)[b'] == Spread(hash, c, n)[b := [x] + Spread(hash, c, n)[b]][b']
    {
      assert [] + Dist(hash, c, b', n) == Dist(hash, c, b', n);
    }
  }

  /** How far a chain exceeds the ideal length. */
  function Over(count: nat, ideal: nat): nat {
    if count > ideal then count - ideal else 0
  }

  /** The number of elements whose position in their chain is beyond the ideal length. */
  function Excess(buckets: seq<Bucket>, ideal: nat): nat {
    if buckets == [] then 0 else Over(buckets[0].count, ideal) + Excess(buckets[1..], ideal)
  }

  lemma {:induction false} ExcessUpdate(buckets: seq<Bucket>, ideal: nat, b: nat, bucket: Bucket)
    requires b < |buckets|
    ensures Excess(buckets[b := bucket], ideal) + Over(buckets[b].count, ideal)
      == Excess(buckets, ideal) + Over(bucket.count, ideal)
  {
    if b > 0 {
      ExcessUpdate(buckets[1..], ideal, b - 1, bucket);
      assert buckets[b := bucket][1..] == buckets[1..][b - 1 := bucket];
    } else {
      assert buckets[b := bucket][1..] == buckets[1..];
    }
  }

  /** expand_mult of an overfull bucket: the least multiple of the ideal length in which the
      chain fits, but for one element too many, where it is one, and for the ideal length one,
      where it is the number of elements too many. */
  predicate MultFits(bucket: Bucket, ideal: nat) {
    if bucket.count <= ideal then bucket.expandMult == 0
    else if ideal == 1 || bucket.count == ideal + 1 then bucket.expandMult == bucket.count - ideal
    else
      && bucket.expandMult > 0
      && (bucket.expandMult - 1) * ideal < bucket.count <= bucket.expandMult * ideal
  }

  ghost predicate Tallied(buckets: seq<Bucket>, ideal: nat, nonideal: nat) {
    && nonideal == Excess(buckets, ideal)
    && forall b :: 0 <= b < |buckets| ==> MultFits(buckets[b], ideal)
  }

  /** The tally in plain terms: how many elements lie beyond the ideal length of their chain,
      and what each multiplier is. */
  lemma TalliedMeans(buckets: seq<Bucket>, ideal: nat, nonideal: nat)
    requires Tallied(buckets, ideal, nonideal)
    ensures nonideal == |set b, i | 0 <= b < |buckets| && ideal <= i < buckets[b].count :: (b, i)|
    ensures forall b :: 0 <= b < |buckets| && buckets[b].count <= ideal ==> buckets[b].expandMult == 0
    ensures forall b :: 0 <= b < |buckets| && buckets[b].count > ideal && (ideal == 1 || buckets[b].count == ideal + 1) ==>
      buckets[b].expandMult == buckets[b].count - ideal
    ensures forall b :: 0 <= b < |buckets| && buckets[b].count > ideal + 1 && ideal > 1 ==>
      (buckets[b].expandMult - 1) * ideal < buckets[b].count <= buckets[b].expandMult * ideal
  {
    hide Excess;
    ExcessIsSize(buckets, ideal, |buckets|);
    assert buckets[..|buckets|] == buckets;
    assert Beyond(buckets, ideal, |buckets|) == set b, i | 0 <= b < |buckets| && ideal <= i < buckets[b].count :: (b, i);
  }

  /** The places beyond the ideal length in the first m chains, and in one of them. */
  ghost function Beyond(buckets: seq<Bucket>, ideal: nat, m: nat): set<(int, int)>
    requires m <= |buckets|
  {
    set b, i | 0 <= b < m && ideal <= i < buckets[b].count :: (b, i)
  }

  ghost function Row(b: int, lo: nat, hi: nat): set<(int, int)> {
    set i {:trigger (b, i)} | lo <= i < hi :: (b, i)
  }

  lemma BeyondLast(buckets: seq<Bucket>, ideal: nat, m: nat)
    requires 0 < m <= |buckets|
    ensures Beyond(buckets, ideal, m) == Beyond(buckets, ideal, m - 1) + Row(m - 1, ideal, buckets[m - 1].count)
    ensures Beyond(buckets, ideal, m - 1) !! Row(m - 1, ideal, buckets[m - 1].count)
  {
  }

  lemma {:induction false} ExcessIsSize(buckets: seq<Bucket>, ideal: nat, m: nat)
    requires m <= |buckets|
    ensures Excess(buckets[..m], ideal) == |Beyond(buckets, ideal, m)|
  {
    hide Beyond, Row, Over;
    if m == 0 {
      NoneBeyond(buckets, ideal);
    } else {
      ExcessIsSize(buckets, ideal, m - 1);
      RowSize(m - 1, ideal, buckets[m - 1].count);
      BeyondLast(buckets, ideal, m);
      assert buckets[..m] == buckets[..m - 1] + [buckets[m - 1]];
      ExcessLast(buckets[..m - 1], buckets[m - 1], ideal);
    }
  }

  lemma NoneBeyond(buckets: seq<Bucket>, ideal: nat)
    ensures Beyond(buckets, ideal, 0) == {}
  {
  }

  lemma {:induction false} ExcessLast(buckets: seq<Bucket>, last: Bucket, ideal: nat)
    ensures Excess(buckets + [last], ideal) == Excess(buckets, ideal) + Over(last.count, ideal)
  {
    if buckets != [] {
      assert (buckets + [last])[1..] == buckets[1..] + [last];
      ExcessLast(buckets[1..], last, ideal);
    }
  }

  lemma {:induction false} RowSize(b: int, lo: nat, hi: nat)
    ensures |Row(b, lo, hi)| == Over(hi, lo)
  {
    if hi <= lo {
      assert Row(b, lo, hi) == {};
    } else {
      RowSize(b, lo, hi - 1);
      assert Row(b, lo, hi) == Row(b, lo, hi - 1) + {(b, hi - 1)};
    }
  }

  /** Counting one more element into a bucket: expand_mult grows when the multiple it stands
      for is outgrown. */
  function Counted(bucket: Bucket, ideal: nat): Bucket {
    if bucket.count > ideal && bucket.count > bucket.expandMult * ideal
    then bucket.(expandMult := bucket.expandMult + 1) else bucket
  }

  lemma CountedFits(before: Bucket, after: Bucket, ideal: nat)
    requires ideal > 0 && MultFits(before, ideal)
    requires after.count == before.count + 1 && after.expandMult == before.expandMult
    ensures MultFits(Counted(after, ideal), ideal)
  {
    assert (before.expandMult + 1) * ideal == before.expandMult * ideal + ideal;
  }

  lemma TallyPush(before: seq<Bucket>, after: seq<Bucket>, b: nat, ideal: nat, nonideal: nat)
    requires ideal > 0 && b < |before| && Tallied(before, ideal, nonideal)
    requires |after| == |before| && after[b].count == before[b].count + 1 && after[b].expandMult == before[b].expandMult
    requires after == before[b := after[b]]
    ensures Tallied(after[b := Counted(after[b], ideal)], ideal, if after[b].count > ideal then nonideal + 1 else nonideal)
  {
    hide MultFits, Excess;
    var bucket := Counted(after[b], ideal);
    assert after[b := bucket] == before[b := bucket];
    ExcessUpdate(before, ideal, b, bucket);
    CountedFits(before[b], after[b], ideal);
  }

  /** The doubled table part way through: the elements of done are in their new buckets. */
  ghost predicate Moved(hash: HashFunction, buckets: seq<Bucket>, done: seq<Elem>, ideal: nat, nonideal: nat)
    requires buckets != []
    reads done`hhPrev, done`hhNext
  {
    && AllLinked(buckets, Spread(hash, done, |buckets|), Nodes(done))
    && Placed(hash, Spread(hash, done, |buckets|))
    && Tallied(buckets, ideal, nonideal)
  }

  /** The innermost statements of HASH_EXPAND_BUCKETS: one element moves to its new bucket. */
  method MoveOne(hash: HashFunction, buckets: array<Bucket>, x: Elem, ideal: nat, nonideal0: nat, ghost done: seq<Elem>)
      returns (nonideal: nat)
    requires buckets.Length > 0 && ideal > 0 && Moved(hash, buckets[..], done, ideal, nonideal0)
    requires x !in done && x.hashv == hash(x.key) && BucketOf(hash, x, buckets.Length) < buckets.Length
    modifies buckets, Nodes(done + [x])`hhPrev, {x}`hhNext
    ensures Moved(hash, buckets[..], done + [x], ideal, nonideal)
  {
    hide Excess, Dist, MultFits, And, BucketLinked, Placed;
    nonideal := nonideal0;
    var b := ToBkt(x.hashv, buckets.Length);
    ghost var before, n := buckets[..], buckets.Length;
    SpreadPush(hash, done, x, b, n);
    assert Nodes(done + [x]) == Nodes(done) + {x};
    PushInto(hash, buckets, b, x, Spread(hash, done, n), Nodes(done));
    ghost var after := buckets[..];
    TallyPush(before, after, b, ideal, nonideal0);
    if buckets[b].count > ideal {
      nonideal := nonideal + 1;
      if buckets[b].count > buckets[b].expandMult * ideal {
        buckets[b] := buckets[b].(expandMult := buckets[b].expandMult + 1);
      }
    }
    assert buckets[..] == after[b := Counted(after[b], ideal)];
    CountedLinked(after, Spread(hash, done, n)[b := [x] + Spread(hash, done, n)[b]], Nodes(done + [x]), b, ideal);
  }

  lemma CountedLinked(buckets: seq<Bucket>, chains: seq<seq<Elem>>, all: set<Elem>, b: nat, ideal: nat)
    requires AllLinked(buckets, chains, all) && b < |buckets|
    ensures AllLinked(buckets[b := Counted(buckets[b], ideal)], chains, all)
  {
  }

  ghost predicate ChainFrom(c: seq<Elem>, t: nat)
    reads c`hhNext
  {
    forall i :: t <= i < |c| ==> c[i].hhNext == At(c, i + 1)
  }

  /** Every element carries its own hash value and has a bucket among n. */
  ghost predicate Hashed(hash: HashFunction, c: seq<Elem>, n: nat)
    requires n > 0
    reads c`hashv
  {
    forall i :: 0 <= i < |c| ==> c[i].hashv == hash(c[i].key) && BucketOf(hash, c[i], n) < n
  }

  /** The while loop of HASH_EXPAND_BUCKETS: the whole of one old chain moves. */
  method MoveChain(hash: HashFunction, buckets: array<Bucket>, first: Elem?, ideal: nat, nonideal0: nat,
      ghost c: seq<Elem>, ghost done0: seq<Elem>) returns (nonideal: nat)
    requires buckets.Length > 0 && ideal > 0 && Moved(hash, buckets[..], done0, ideal, nonideal0)
    requires first == At(c, 0) && ChainFrom(c, 0) && Distinct(c) && Hashed(hash, c, buckets.Length)
    requires Nodes(c) !! Nodes(done0)
    modifies buckets, Nodes(done0 + c)`hhPrev, Nodes(done0 + c)`hhNext
    ensures Moved(hash, buckets[..], done0 + c, ideal, nonideal)
  {
    hide Moved, Distinct, BucketOf;
    nonideal := nonideal0;
    var thh := first;
    ghost var t, done := 0, done0;
    assert done0 + c[..0] == done0;
    while thh != null
      invariant t <= |c| && thh == At(c, t) && ChainFrom(c, t)
      invariant done == done0 + c[..t] && Moved(hash, buckets[..], done, ideal, nonideal)
      decreases |c| - t
    {
      var next := thh.hhNext;
      NotYetMoved(c, done0, t);
      nonideal := MoveOne(hash, buckets, thh, ideal, nonideal, done);
      done, t, thh := done + [thh], t + 1, next;
    }
    assert c[..t] == c;
  }

  lemma NotYetMoved(c: seq<Elem>, done: seq<Elem>, t: nat)
    requires t < |c| && Distinct(c) && Nodes(c) !! Nodes(done)
    ensures done + c[..t] + [c[t]] == done + c[..t + 1]
    ensures c[t] !in done + c[..t] && Nodes(done + c[..t + 1]) <= Nodes(done + c)
    ensures forall i :: t < i < |c| ==> c[i] !in Nodes(done + c[..t + 1])
  {
    assert c[t] in Nodes(c);
    forall i | t < i < |c| ensures c[i] !in Nodes(done + c[..t + 1]) {
      assert c[i] in Nodes(c);
    }
  }

  // ---------------------------------------------------------------- all old chains

  ghost function Flatten(chains: seq<seq<Elem>>): seq<Elem> {
    if chains == [] then [] else Flatten(chains[..|chains| - 1]) + chains[|chains| - 1]
  }

  lemma {:induction false} FlattenMember(chains: seq<seq<Elem>>, e: Elem)
    ensures e in Flatten(chains) <==> exists b :: 0 <= b < |chains| && e in chains[b]
  {
    if chains != [] {
      var m := |chains| - 1;
      FlattenMember(chains[..m], e);
      if e in Flatten(chains[..m]) {
        var b :| 0 <= b < m && e in chains[..m][b];
        assert e in chains[b];
      }
      if b :| 0 <= b < |chains| && e in chains[b] {
        if b < m {
          assert e in chains[..m][b];
        }
      }
    }
  }

  lemma BucketsBefore(hash: HashFunction, chains: seq<seq<Elem>>, i: nat, e: Elem)
    requires Placed(hash, chains) && i <= |chains| && e in Flatten(chains[..i])
    ensures BucketOf(hash, e, |chains|) < i
  {
    FlattenMember(chains[..i], e);
    var b :| 0 <= b < i && e in chains[..i][b];
    assert e in chains[b];
  }

  /** Chain i and the ones before it share no element with the later ones, nor with each other. */
  lemma ChainsApart(hash: HashFunction, chains: seq<seq<Elem>>, i: nat, all: set<Elem>)
    requires Placed(hash, chains) && i < |chains|
    requires forall b :: 0 <= b < |chains| ==> Nodes(chains[b]) <= all
    ensures Distinct(chains[i]) && Nodes(chains[i]) !! Nodes(Flatten(chains[..i]))
    ensures Nodes(Flatten(chains[..i]) + chains[i]) <= all
    ensures forall j :: i < j < |chains| ==> Nodes(chains[j]) !! Nodes(Flatten(chains[..i]) + chains[i])
  {
    hide BucketOf, Flatten;
    forall e | e in Flatten(chains[..i]) ensures BucketOf(hash, e, |chains|) < i && e in all {
      BucketsBefore(hash, chains, i, e);
      FlattenMember(chains[..i], e);
      var b :| 0 <= b < i && e in chains[..i][b];
      assert e in Nodes(chains[b]);
    }
    assert forall e :: e in chains[i] ==> e in Nodes(chains[i]);
    forall j, e | i <= j < |chains| && e in chains[j] ensures BucketOf(hash, e, |chains|) == j {
    }
  }

  method ExpandInto(hash: HashFunction, old0: array<Bucket>, buckets: array<Bucket>, ideal: nat,
      ghost chains: seq<seq<Elem>>, ghost all: set<Elem>) returns (nonideal: nat)
    requires buckets.Length == 2 * old0.Length > 0 && buckets != old0 && ideal > 0
    requires AllLinked(old0[..], chains, all) && Placed(hash, chains)
    requires forall b :: 0 <= b < |chains| ==> Hashed(hash, chains[b], buckets.Length)
    requires forall b :: 0 <= b < buckets.Length ==> buckets[b] == Bucket(null, 0, 0)
    modifies buckets, all`hhPrev, all`hhNext
    ensures Moved(hash, buckets[..], Flatten(chains), ideal, nonideal)
  {
    hide Flatten, Moved, BucketLinked, Placed, Hashed, Distinct, ChainFrom;
    nonideal := 0;
    NothingMoved(hash, buckets[..], ideal);
    FlattenPrefix(chains, 0);
    for i := 0 to old0.Length
      invariant old0[..] == old(old0[..])
      invariant Moved(hash, buckets[..], Flatten(chains[..i]), ideal, nonideal)
      invariant forall j :: i <= j < |chains| ==> BucketLinked(old0[j], chains[j])
    {
      ChainsApart(hash, chains, i, all);
      ChainOfBucket(old0[i], chains[i]);
      FlattenPrefix(chains, i);
      nonideal := MoveChain(hash, buckets, old0[i].hhHead, ideal, nonideal, chains[i], Flatten(chains[..i]));
    }
    assert chains[..|chains|] == chains;
  }

  lemma FlattenPrefix(chains: seq<seq<Elem>>, i: nat)
    ensures i == 0 ==> Flatten(chains[..i]) == []
    ensures i < |chains| ==> Flatten(chains[..i + 1]) == Flatten(chains[..i]) + chains[i]
  {
    if i < |chains| {
      assert chains[..i + 1][..i] == chains[..i];
    }
  }

  lemma ChainOfBucket(bucket: Bucket, chain: seq<Elem>)
    requires BucketLinked(bucket, chain)
    ensures bucket.hhHead == At(chain, 0) && ChainFrom(chain, 0)
  {
  }

  lemma NothingMoved(hash: HashFunction, buckets: seq<Bucket>, ideal: nat)
    requires buckets != [] && forall b :: 0 <= b < |buckets| ==> buckets[b] == Bucket(null, 0, 0)
    ensures Moved(hash, buckets, [], ideal, 0)
  {
    EmptyExcess(buckets, ideal);
  }

  lemma {:induction false} EmptyExcess(buckets: seq<Bucket>, ideal: nat)
    requires forall b :: 0 <= b < |buckets| ==> buckets[b].count == 0
    ensures Excess(buckets, ideal) == 0
  {
    if buckets != [] {
      EmptyExcess(buckets[1..], ideal);
    }
  }

  // ---------------------------------------------------------------- what redistribution does

  /** The elements of c that belong to bucket b of n, in order. */
  ghost function Kept(hash: HashFunction, c: seq<Elem>, b: nat, n: nat): seq<Elem>
    requires n > 0
  {
    if c == [] then []
    else
      var x := c[|c| - 1];
      Kept(hash, c[..|c| - 1], b, n) + (if BucketOf(hash, x, n) == b then [x] else [])
  }

  lemma {:induction false} DistIsReversedKept(hash: HashFunction, c: seq<Elem>, b: nat, n: nat)
    requires n > 0
    ensures Dist(hash, c, b, n) == Reverse(Kept(hash, c, b, n))
  {
    hide BucketOf;
    if c != [] {
      var c', x := c[..|c| - 1], c[|c| - 1];
      DistIsReversedKept(hash, c', b, n);
      if BucketOf(hash, x, n) == b {
        ReverseAppend(Kept(hash, c', b, n), x);
      } else {
        assert Kept(hash, c', b, n) + [] == Kept(hash, c', b, n);
        assert [] + Dist(hash, c', b, n) == Dist(hash, c', b, n);
      }
    }
  }

  lemma {:induction false} DistMember(hash: HashFunction, c: seq<Elem>, b: nat, n: nat, e: Elem)
    requires n > 0
    ensures e in Dist(hash, c, b, n) <==> e in c && BucketOf(hash, e, n) == b
  {
    hide BucketOf;
    if c != [] {
      var c', x := c[..|c| - 1], c[|c| - 1];
      DistMember(hash, c', b, n, e);
      assert c == c' + [x];
    }
  }

  lemma {:induction false} DistAppend(hash: HashFunction, a: seq<Elem>, c: seq<Elem>, b: nat, n: nat)
    requires n > 0
    ensures Dist(hash, a + c, b, n) == Dist(hash, c, b, n) + Dist(hash, a, b, n)
  {
    hide BucketOf;
    if c == [] {
      assert a + c == a;
    } else {
      var c', x := c[..|c| - 1], c[|c| - 1];
      DistAppend(hash, a, c', b, n);
      assert (a + c)[..|a + c| - 1] == a + c' && (a + c)[|a + c| - 1] == x;
      Regroup(if BucketOf(hash, x, n) == b then [x] else [], Dist(hash, c', b, n), Dist(hash, a, b, n));
    }
  }

  lemma {:induction false} DistNothing(hash: HashFunction, c: seq<Elem>, b: nat, n: nat)
    requires n > 0 && forall i :: 0 <= i < |c| ==> BucketOf(hash, c[i], n) != b
    ensures Dist(hash, c, b, n) == []
  {
    hide BucketOf;
    if c != [] {
      DistNothing(hash, c[..|c| - 1], b, n);
    }
  }

  /** Old bucket `from` is the only one that feeds new bucket b. */
  lemma {:induction false} DistFlatten(hash: HashFunction, chains: seq<seq<Elem>>, i: nat, b: nat, from: nat, n: nat)
    requires n > 0 && i <= |chains|
    requires forall j, x :: 0 <= j < |chains| && j != from && 0 <= x < |chains[j]| ==> BucketOf(hash, chains[j][x], n) != b
    ensures Dist(hash, Flatten(chains[..i]), b, n) == if from < i then Dist(hash, chains[from], b, n) else []
  {
    hide BucketOf, Dist, Flatten;
    if i == 0 {
      FlattenPrefix(chains, 0);
      DistNothing(hash, [], b, n);
    } else {
      FlattenPrefix(chains, i - 1);
      DistFlatten(hash, chains, i - 1, b, from, n);
      DistAppend(hash, Flatten(chains[..i - 1]), chains[i - 1], b, n);
      if i - 1 != from {
        DistNothing(hash, chains[i - 1], b, n);
      }
    }
  }

  /** HASH_EXPAND_BUCKETS on the chains: new buckets k and k + n get their elements from old
      bucket k alone, and each new chain is that chain filtered by the new mask and reversed. */
  lemma Redistribution(hash: HashFunction, chains: seq<seq<Elem>>, k: nat, b: nat)
    requires Placed(hash, chains) && |chains| == Pow2(k) && b < 2 * |chains|
    ensures var n := |chains|;
      Spread(hash, Flatten(chains), 2 * n)[b]
        == Reverse(Kept(hash, chains[if b < n then b else b - n], b, 2 * n))
  {
    var n := |chains|;
    var from := if b < n then b else b - n;
    forall j, x | 0 <= j < n && j != from && 0 <= x < |chains[j]| ensures BucketOf(hash, chains[j][x], 2 * n) != b {
      assert BucketOf(hash, chains[j][x], n) == j;
      ToBktDoubled(hash(chains[j][x].key), n, k);
    }
    DistFlatten(hash, chains, n, b, from, 2 * n);
    assert chains[..n] == chains;
    DistIsReversedKept(hash, chains[from], b, 2 * n);
  }

  /** The positions in c of the elements kept. */
  lemma {:induction false} KeptPositions(hash: HashFunction, c: seq<Elem>, b: nat, n: nat) returns (at: seq<nat>)
    requires n > 0
    ensures |at| == |Kept(hash, c, b, n)| && forall i :: 0 <= i < |at| ==> at[i] < |c| && Kept(hash, c, b, n)[i] == c[at[i]]
    ensures forall i, j :: 0 <= i < j < |at| ==> at[i] < at[j]
  {
    if c == [] {
      at := [];
    } else {
      at := KeptPositions(hash, c[..|c| - 1], b, n);
      KeptLast(hash, c, b, n);
      hide Kept, BucketOf;
      if BucketOf(hash, c[|c| - 1], n) == b {
        at := at + [|c| - 1];
      }
    }
  }

  lemma KeptLast(hash: HashFunction, c: seq<Elem>, b: nat, n: nat)
    requires n > 0 && c != []
    ensures var c', x := c[..|c| - 1], c[|c| - 1];
      Kept(hash, c, b, n) == if BucketOf(hash, x, n) == b then Kept(hash, c', b, n) + [x] else Kept(hash, c', b, n)
  {
    hide BucketOf;
    assert Kept(hash, c[..|c| - 1], b, n) + [] == Kept(hash, c[..|c| - 1], b, n);
  }

  /** The same in plain terms: new chain b holds the elements of old chain b modulo n whose
      hash value is b modulo 2 * n, in the opposite order; `at` says where each was. */
  lemma RedistributedChain(hash: HashFunction, chains: seq<seq<Elem>>, k: nat, b: nat) returns (at: seq<nat>)
    requires Placed(hash, chains) && |chains| == Pow2(k) && b < 2 * |chains|
    ensures var n := |chains|;
      var was, now := chains[if b < n then b else b - n], Spread(hash, Flatten(chains), 2 * n)[b];
      && (forall e :: e in now <==> e in was && hash(e.key) % (2 * n) == b)
      && |at| == |now| && (forall i :: 0 <= i < |at| ==> at[i] < |was| && now[i] == was[at[i]])
      && (forall i, j :: 0 <= i < j < |at| ==> at[i] > at[j])
  {
    hide Kept, Dist, Flatten, Placed, And, BucketOf;
    var n := |chains|;
    var was, now := chains[if b < n then b else b - n], Spread(hash, Flatten(chains), 2 * n)[b];
    Redistribution(hash, chains, k, b);
    DistIsReversedKept(hash, was, b, 2 * n);
    forall e ensures e in now <==> e in was && hash(e.key) % (2 * n) == b {
      DistMember(hash, was, b, 2 * n, e);
      BucketIsRemainder(hash, e, 2 * n, k + 1);
    }
    at := KeptPositions(hash, was, b, 2 * n);
    at := Reverse(at);
  }

  lemma BucketIsRemainder(hash: HashFunction, e: Elem, n: nat, k: nat)
    requires n == Pow2(k)
    ensures BucketOf(hash, e, n) == hash(e.key) % n
  {
    hide And;
    MaskIsRemainder(hash(e.key), k);
  }
}
