/** The hash table of uthash.h: every element lies on the application-order list and on the
    chain of the bucket its hash value selects. */
module HashTables {
  import opened Bits
  import opened StableSort
  import opened Lists
  import opened Buckets
  import opened AppOrders
  import opened BucketSides
  import opened KeyMaps

  /** UT_hash_table together with the variable that points at its first element; a null head
      means that there is no table. */
  class HashTable {
    const hash: HashFunction
    var head: Elem?
    var tail: Elem?
    var buckets: array?<Bucket>
    var numBuckets: nat
    var log2NumBuckets: nat
    var numItems: nat
    var idealChainMaxlen: nat
    var nonidealItems: nat
    var ineffExpands: nat
    var noexpand: bool
    ghost var items: seq<Elem>         // in application order
    ghost var chains: seq<seq<Elem>>   // bucket by bucket

    ghost predicate Valid()
      reads this, buckets, items
    {
      if head == null then items == []
      else
        && AppOrder(items, head, tail) && numItems == |items| && BucketsValid(items)
    }

    ghost predicate BucketsValid(s: seq<Elem>)
      reads `buckets, `numBuckets, `log2NumBuckets, `chains, buckets, s`hhPrev, s`hhNext, s`hashv
    {
      && buckets != null && numBuckets == buckets.Length
      && BucketSide(hash, buckets[..], chains, log2NumBuckets, s)
    }

    constructor (hash: HashFunction)
      ensures Valid() && items == [] && this.hash == hash && buckets == null
    {
      this.hash := hash;
      head, tail, buckets := null, null, null;
      numBuckets, log2NumBuckets, numItems := 0, 0, 0;
      idealChainMaxlen, nonidealItems, ineffExpands, noexpand := 0, 0, 0, false;
      items, chains := [], [];
    }

    /** HASH_MAKE_TABLE: a fresh table of 32 empty buckets. */
    method MakeTable(e: Elem)
      modifies this
      ensures BucketsValid([]) && fresh(buckets)
      ensures numItems == 0 && tail == e && head == old(head) && items == old(items)
      ensures numBuckets == |chains| == 32 && log2NumBuckets == 5
      ensures buckets.Length == 32 && forall b :: 0 <= b < 32 ==> chains[b] == [] && buckets[b] == Bucket(null, 0, 0)
      ensures idealChainMaxlen == nonidealItems == ineffExpands == 0 && !noexpand
    {
      hide Pow2, BucketSide;
      var empty := new Bucket[INITIAL_NUM_BUCKETS](_ => Bucket(null, 0, 0));
      tail, buckets := e, empty;
      numBuckets, log2NumBuckets := INITIAL_NUM_BUCKETS, INITIAL_NUM_BUCKETS_LOG2;
      numItems, idealChainMaxlen, nonidealItems, ineffExpands, noexpand := 0, 0, 0, 0, false;
      chains := seq(INITIAL_NUM_BUCKETS, _ => []);
      EmptySide(hash, empty[..], chains);
    }

    /** HASH_EXPAND_BUCKETS: doubles the buckets and moves every element to its new one. */
    method Expand(ghost s: seq<Elem>)
      requires BucketsValid(s) && s != [] && numItems == |s|
      modifies `buckets, `numBuckets, `log2NumBuckets, `idealChainMaxlen, `nonidealItems,
        `ineffExpands, `noexpand, `chains, Nodes(s)`hhPrev, Nodes(s)`hhNext
      ensures BucketsValid(s) && fresh(buckets)
      ensures numBuckets == 2 * old(numBuckets) && log2NumBuckets == old(log2NumBuckets) + 1
      ensures chains == Spread(hash, Flatten(old(chains)), numBuckets)
      ensures numBuckets > 0 && idealChainMaxlen == (numItems + numBuckets - 1) / numBuckets
      ensures Tallied(buckets[..], idealChainMaxlen, nonidealItems)
      ensures ineffExpands == if nonidealItems > numItems / 2 then old(ineffExpands) + 1 else 0
      ensures noexpand == (old(noexpand) || ineffExpands > 1)
    {
      hide And, Shr, Pow2, Moved, Hashed, CeilDiv, BucketOf, AllLinked, Placed, Covers, Spread, Flatten, Tallied;
      var newBuckets := new Bucket[2 * numBuckets](_ => Bucket(null, 0, 0));
      IdealChain(numItems, numBuckets, log2NumBuckets);
      var ideal := Shr(numItems, log2NumBuckets + 1) + (if And(numItems, numBuckets * 2 - 1) != 0 then 1 else 0);
      BeforeExpand(hash, buckets[..], chains, log2NumBuckets, s);
      var nonideal := ExpandInto(hash, buckets, newBuckets, ideal, chains, Nodes(s));
      AfterExpand(hash, newBuckets[..], chains, log2NumBuckets, s, ideal, nonideal);
      Adopt(newBuckets, ideal, nonideal);
    }

    /** The closing statements of HASH_EXPAND_BUCKETS: the new buckets replace the old, and
        after two expansions in a row that helped too little there will be no more. */
    method Adopt(newBuckets: array<Bucket>, ideal: nat, nonideal: nat)
      requires numBuckets > 0
      modifies `buckets, `numBuckets, `log2NumBuckets, `idealChainMaxlen, `nonidealItems,
        `ineffExpands, `noexpand, `chains
      ensures buckets == newBuckets && idealChainMaxlen == ideal && nonidealItems == nonideal
      ensures numBuckets == 2 * old(numBuckets) && log2NumBuckets == old(log2NumBuckets) + 1
      ensures chains == Spread(hash, Flatten(old(chains)), 2 * old(numBuckets))
      ensures ineffExpands == if nonideal > numItems / 2 then old(ineffExpands) + 1 else 0
      ensures noexpand == (old(noexpand) || ineffExpands > 1)
    {
      hide Spread, Flatten;
      chains := Spread(hash, Flatten(chains), 2 * numBuckets);
      idealChainMaxlen, nonidealItems := ideal, nonideal;
      numBuckets := numBuckets * 2;
      log2NumBuckets := log2NumBuckets + 1;
      buckets := newBuckets;
      HalfIsShift(numItems);
      ineffExpands := if nonidealItems > Shr(numItems, 1) then ineffExpands + 1 else 0;
      if ineffExpands > 1 {
        noexpand := true;
      }
    }

    // -------------------------------------------------------------- adding

    /** HASH_APPEND_LIST. */
    method AppendList(e: Elem)
      requires AppOrder(items, head, tail) && items != [] && e !in items
      modifies `tail, {e}`prev, {e}`next, Nodes(items)`next
      ensures AppOrder(items + [e], head, tail)
    {
      hide AppOrder;
      HeadOfOrder(items, head, tail);
      LinkAfter(tail, e, items, head);
      tail := e;
    }

    /** HASH_ADD_TO_TABLE with HASH_ADD_TO_BKT: the element goes to the front of its chain,
        and a chain that has grown too long makes the table expand. */
    method AddToTable(e: Elem, ghost s: seq<Elem>)
      requires BucketsValid(s) && numItems == |s| && e !in s && e.hashv == hash(e.key)
      modifies buckets, `numItems, `buckets, `numBuckets, `log2NumBuckets, `idealChainMaxlen, `nonidealItems,
        `ineffExpands, `noexpand, `chains, Nodes(s + [e])`hhPrev, Nodes(s + [e])`hhNext
      ensures BucketsValid(s + [e]) && numItems == |s| + 1
      ensures buckets == old(buckets) || fresh(buckets)
      // whether the table doubles
      ensures old(numBuckets) > 0 && hash(e.key) % old(numBuckets) < |old(chains)| == |old(buckets[..])|
      ensures (var b := hash(e.key) % old(numBuckets);
        numBuckets != old(numBuckets) <==>
          (!old(noexpand) && |old(chains)[b]| + 1 >= 10 * (old(buckets[..])[b].expandMult + 1)))
      // if it does not, only the one chain changes
      ensures numBuckets == old(numBuckets) ==> (var b := hash(e.key) % numBuckets;
        buckets == old(buckets) && chains == old(chains)[b := [e] + old(chains)[b]])
      ensures numBuckets == old(numBuckets) ==>
        forall i :: 0 <= i < numBuckets ==> buckets[i].expandMult == old(buckets[..])[i].expandMult
      ensures numBuckets == old(numBuckets) ==> (
        && log2NumBuckets == old(log2NumBuckets) && idealChainMaxlen == old(idealChainMaxlen)
        && nonidealItems == old(nonidealItems)
        && ineffExpands == old(ineffExpands) && noexpand == old(noexpand))
      // if it does, the statistics are those of the doubled table
      ensures numBuckets != old(numBuckets) ==> (
        && var b := hash(e.key) % old(numBuckets);
        && chains == Spread(hash, Flatten(old(chains)[b := [e] + old(chains)[b]]), numBuckets)
        && numBuckets == 2 * old(numBuckets) && log2NumBuckets == old(log2NumBuckets) + 1 && fresh(buckets)
        && idealChainMaxlen == (numItems + numBuckets - 1) / numBuckets
        && Tallied(buckets[..], idealChainMaxlen, nonidealItems)
        && ineffExpands == (if nonidealItems > numItems / 2 then old(ineffExpands) + 1 else 0)
        && noexpand == (old(noexpand) || ineffExpands > 1))
    {
      hide BucketsValid, ToBkt, Spread, Flatten, Tallied, Distinct;
      numItems := numItems + 1;
      var b := PushToBucket(e, s);
      if buckets[b].count >= (buckets[b].expandMult + 1) * BKT_CAPACITY_THRESH && !noexpand {
        Expand(s + [e]);
      }
    }

    /** The linking half of HASH_ADD_TO_BKT. */
    method PushToBucket(e: Elem, ghost s: seq<Elem>) returns (b: nat)
      requires BucketsValid(s) && e !in s && e.hashv == hash(e.key)
      modifies buckets, `chains, Nodes(s + [e])`hhPrev, Nodes(s + [e])`hhNext
      ensures BucketsValid(s + [e]) && buckets != null && numBuckets == |chains| == buckets.Length
      ensures b == ToBkt(e.hashv, |chains|) == hash(e.key) % numBuckets && b < |chains| == |old(chains)|
      ensures chains == old(chains)[b := [e] + old(chains)[b]] && buckets[b].count == |chains[b]|
      ensures buckets[b].expandMult == old(buckets[ToBkt(e.hashv, numBuckets)]).expandMult
      ensures buckets[..] == old(buckets[..])[b := buckets[b]]
    {
      hide And, Pow2, AllLinked, Placed, Covers, Distinct;
      b := ToBkt(e.hashv, numBuckets);
      BeforePush(hash, buckets[..], chains, log2NumBuckets, s, e);
      PushInto(hash, buckets, b, e, chains, Nodes(s));
      AfterPush(hash, buckets[..], chains, log2NumBuckets, s, e, b);
      chains := chains[b := [e] + chains[b]];
      CountIsLength(buckets[..], chains, Nodes(s) + {e}, b);
      ToBktIsRemainder(hash(e.key), numBuckets, log2NumBuckets);
    }

    lemma HasBuckets(s: seq<Elem>)
      ensures BucketsValid(s) ==> buckets != null && numBuckets == buckets.Length == |chains|
    {
    }

    lemma HeadIsThere()
      requires Valid()
      ensures head == null <==> items == []
      ensures head != null ==> buckets != null && numBuckets == buckets.Length == |chains|
    {
      hide BucketsValid, AppOrder;
      HeadOfOrder(items, head, tail);
      HasBuckets(items);
    }

    /** The first half of HASH_ADD_KEYPTR_BYHASHVALUE: e joins the application order, in a
        new table if there was none. */
    method LinkLast(e: Elem)
      requires Valid() && e !in items
      modifies this, Nodes(items)`next, e
      ensures BucketsValid(items) && AppOrder(items + [e], head, tail) && numItems == |items|
      ensures items == old(items) && head != null && e.hashv == hash(e.key)
      ensures old(head) == null ==> fresh(buckets)
      ensures old(head) == null ==> numBuckets == |chains| == |buckets[..]| == 32 && log2NumBuckets == 5
      ensures old(head) == null ==> forall b :: 0 <= b < 32 ==> chains[b] == [] && buckets[b] == Bucket(null, 0, 0)
      ensures old(head) == null ==> idealChainMaxlen == nonidealItems == ineffExpands == 0 && !noexpand
      ensures old(head) != null ==> chains == old(chains) && buckets == old(buckets) && buckets != null
      ensures old(head) != null ==> buckets[..] == old(buckets[..])
      ensures old(head) != null ==> numBuckets == old(numBuckets) && log2NumBuckets == old(log2NumBuckets)
      ensures old(head) != null ==> idealChainMaxlen == old(idealChainMaxlen) && nonidealItems == old(nonidealItems)
      ensures old(head) != null ==> ineffExpands == old(ineffExpands) && noexpand == old(noexpand)
    {
      hide BucketsValid, AppOrder;
      HeadOfOrder(items, head, tail);
      e.hashv := hash(e.key);
      HasBuckets(items);
      if head == null {
        e.next := null;
        e.prev := null;
        MakeTable(e);
        head := e;
        assert items + [e] == [e];
        SingleOrder(e);
      } else {
        AppendList(e);
      }
    }

    /** HASH_ADD: the caller's duty is that e is not in the table already. */
    method Add(e: Elem)
      requires Valid() && e !in items
      modifies this, buckets, Nodes(items), e
      ensures Valid() && items == old(items) + [e]
      ensures MapOf(items) == MapOf(old(items))[e.key := e]
      ensures DistinctKeys(old(items)) && e.key !in MapOf(old(items)) ==> DistinctKeys(items)
      ensures buckets == old(buckets) || fresh(buckets)
      // a first element makes a table of 32 buckets
      ensures old(head) == null ==> fresh(buckets) && numBuckets == |chains| == |buckets[..]| == 32 && log2NumBuckets == 5
      ensures old(head) == null ==>
        forall i :: 0 <= i < 32 ==> chains[i] == (if i == hash(e.key) % 32 then [e] else []) && buckets[i].expandMult == 0
      ensures old(head) == null ==> idealChainMaxlen == nonidealItems == ineffExpands == 0 && !noexpand
      // whether the table doubles
      ensures old(head) != null ==>
        old(numBuckets) > 0 && hash(e.key) % old(numBuckets) < |old(chains)| == |old(buckets[..])|
      ensures old(head) != null ==> (var b := hash(e.key) % old(numBuckets);
        numBuckets != old(numBuckets) <==>
          (!old(noexpand) && |old(chains)[b]| + 1 >= 10 * (old(buckets[..])[b].expandMult + 1)))
      // if it does not, only the one chain changes
      ensures old(head) != null && numBuckets == old(numBuckets) ==> (var b := hash(e.key) % numBuckets;
        buckets == old(buckets) && chains == old(chains)[b := [e] + old(chains)[b]])
      ensures old(head) != null && numBuckets == old(numBuckets) ==>
        forall i :: 0 <= i < numBuckets ==> buckets[i].expandMult == old(buckets[..])[i].expandMult
      ensures old(head) != null && numBuckets == old(numBuckets) ==> (
        && log2NumBuckets == old(log2NumBuckets) && idealChainMaxlen == old(idealChainMaxlen)
        && nonidealItems == old(nonidealItems)
        && ineffExpands == old(ineffExpands) && noexpand == old(noexpand))
      // if it does, the statistics are those of the doubled table
      ensures old(head) != null && numBuckets != old(numBuckets) ==> (
        && var b := hash(e.key) % old(numBuckets);
        && chains == Spread(hash, Flatten(old(chains)[b := [e] + old(chains)[b]]), numBuckets)
        && numBuckets == 2 * old(numBuckets) && log2NumBuckets == old(log2NumBuckets) + 1 && fresh(buckets)
        && idealChainMaxlen == (numItems + numBuckets - 1) / numBuckets
        && Tallied(buckets[..], idealChainMaxlen, nonidealItems)
        && ineffExpands == (if nonidealItems > numItems / 2 then old(ineffExpands) + 1 else 0)
        && noexpand == (old(noexpand) || ineffExpands > 1))
    {
      hide Valid, BucketsValid, AppOrder, MapOf, DistinctKeys, Tallied, Spread, Flatten, Distinct;
      MapWith(items, e);
      LinkLast(e);
      AddToTable(e, items);
      Reorder(items + [e], items + [e]);
    }

    /** HASH_ADD_KEYPTR_BYHASHVALUE_INORDER: e goes before the first element that compares
        greater, so after all that compare equal. */
    method AddInOrder(cmp: Compare, e: Elem) returns (ghost k: nat)
      requires Valid() && e !in items
      modifies this, buckets, Nodes(items), e
      ensures Valid() && k <= |old(items)| && items == old(items)[..k] + [e] + old(items)[k..]
      ensures forall i :: 0 <= i < k ==> cmp(old(items)[i], e) <= 0
      ensures k < |old(items)| ==> cmp(old(items)[k], e) > 0
      ensures items == InsertAt(old(items), UpperBound(cmp, old(items), e), e)
      ensures buckets == old(buckets) || fresh(buckets)
      // a first element makes a table of 32 buckets
      ensures old(head) == null ==> fresh(buckets) && numBuckets == |chains| == |buckets[..]| == 32 && log2NumBuckets == 5
      ensures old(head) == null ==>
        forall i :: 0 <= i < 32 ==> chains[i] == (if i == hash(e.key) % 32 then [e] else []) && buckets[i].expandMult == 0
      ensures old(head) == null ==> idealChainMaxlen == nonidealItems == ineffExpands == 0 && !noexpand
      // whether the table doubles
      ensures old(head) != null ==>
        old(numBuckets) > 0 && hash(e.key) % old(numBuckets) < |old(chains)| == |old(buckets[..])|
      ensures old(head) != null ==> (var b := hash(e.key) % old(numBuckets);
        numBuckets != old(numBuckets) <==>
          (!old(noexpand) && |old(chains)[b]| + 1 >= 10 * (old(buckets[..])[b].expandMult + 1)))
      // if it does not, only the one chain changes
      ensures old(head) != null && numBuckets == old(numBuckets) ==> (var b := hash(e.key) % numBuckets;
        buckets == old(buckets) && chains == old(chains)[b := [e] + old(chains)[b]])
      ensures old(head) != null && numBuckets == old(numBuckets) ==>
        forall i :: 0 <= i < numBuckets ==> buckets[i].expandMult == old(buckets[..])[i].expandMult
      ensures old(head) != null && numBuckets == old(numBuckets) ==> (
        && log2NumBuckets == old(log2NumBuckets) && idealChainMaxlen == old(idealChainMaxlen)
        && nonidealItems == old(nonidealItems)
        && ineffExpands == old(ineffExpands) && noexpand == old(noexpand))
      // if it does, the statistics are those of the doubled table
      ensures old(head) != null && numBuckets != old(numBuckets) ==> (
        && var b := hash(e.key) % old(numBuckets);
        && chains == Spread(hash, Flatten(old(chains)[b := [e] + old(chains)[b]]), numBuckets)
        && numBuckets == 2 * old(numBuckets) && log2NumBuckets == old(log2NumBuckets) + 1 && fresh(buckets)
        && idealChainMaxlen == (numItems + numBuckets - 1) / numBuckets
        && Tallied(buckets[..], idealChainMaxlen, nonidealItems)
        && ineffExpands == (if nonidealItems > numItems / 2 then old(ineffExpands) + 1 else 0)
        && noexpand == (old(noexpand) || ineffExpands > 1))
    {
      hide BucketsValid, AppOrder, UpperBound, InsertAt, Tallied, Spread, Flatten, MapOf, DistinctKeys;
      k := UpperBound(cmp, items, e);
      ghost var r := InsertAt(items, k, e);
      InsertedInOrder(cmp, items, e, k);
      if head == null {
        InsertIntoNothing(cmp, items, e);
        Add(e);
      } else {
        InsertMembers(items, k, e);
        LinkInOrder(cmp, e, k, r);
        AddToTable(e, items);
        Reorder(items + [e], r);
      }
    }

    /** The table's elements are now known to be linked in the order r. */
    ghost method Reorder(s: seq<Elem>, r: seq<Elem>)
      requires BucketsValid(s) && Nodes(r) == Nodes(s)
      requires AppOrder(r, head, tail) && head != null && numItems == |r|
      modifies `items
      ensures Valid() && items == r
    {
      hide BucketSide, AppOrder;
      SameMembers(hash, buckets[..], chains, log2NumBuckets, s, r);
      items := r;
    }

    method LinkInOrder(cmp: Compare, e: Elem, ghost k: nat, ghost r: seq<Elem>)
      requires Valid() && head != null && e !in items
      requires k == UpperBound(cmp, items, e) && r == InsertAt(items, k, e)
      modifies `head, `tail, Nodes(items)`prev, Nodes(items)`next, e
      ensures BucketsValid(items) && AppOrder(r, head, tail) && numItems == |items|
      ensures head != null && e.hashv == hash(e.key) && buckets != null && buckets[..] == old(buckets[..])
    {
      hide BucketsValid, UpperBound, InsertAt, AppOrder, NextLinked;
      e.hashv := hash(e.key);
      HasBuckets(items);
      OrderIsLinked(items, head, tail);
      var iter := FindPlace(cmp, head, e, items);
      if iter != null {
        InsertBefore(iter, e, k, r);
      } else {
        InsertAtEnd(items, e);
        AppendList(e);
        HeadOfOrder(r, head, tail);
      }
    }

    method InsertBefore(iter: Elem, e: Elem, ghost k: nat, ghost r: seq<Elem>)
      requires AppOrder(items, head, tail) && k < |items| && iter == items[k] && e !in items
      requires r == InsertAt(items, k, e)
      modifies `head, {e}`prev, {e}`next, Nodes(items)`prev, Nodes(items)`next
      ensures AppOrder(r, head, tail) && head != null
    {
      hide InsertAt, AppOrder, InsertedLinks, Distinct;
      Neighbours(items, head, tail, k);
      var before := iter.prev;
      Splice(iter, e, items, k, head, tail);
      if before == null {
        head := e;
      }
      assert head == if k == 0 then e else items[0];
      InsertedOrder(items, k, e, head, tail);
    }

    // -------------------------------------------------------------- deleting

    /** The patch-up of the application order in HASH_DELETE_HH. */
    method Unlink(e: Elem, ghost k: nat, ghost rest: seq<Elem>)
      requires AppOrder(items, head, tail) && k < |items| && e == items[k] && |items| > 1
      requires rest == RemoveAt(items, k)
      modifies `head, `tail, Nodes(items)`prev, Nodes(items)`next
      ensures AppOrder(rest, head, tail) && head != null
    {
      hide RemoveAt, AppOrder, BypassedLinks, Distinct;
      Neighbours(items, head, tail, k);
      if e == tail {
        tail := e.prev;
      }
      if e.prev == null {
        head := e.next;
      }
      assert head == At(items, if k == 0 then 1 else 0);
      assert tail == At(items, if k == |items| - 1 then |items| - 2 else |items| - 1);
      Bypass(e, items, k, old(head), old(tail));
      BypassedOrder(items, k, head, tail);
    }

    method RemoveFromTable(e: Elem, ghost s: seq<Elem>, ghost k: nat) returns (ghost j: nat)
      requires BucketsValid(s) && numItems == |s| && k < |s| && e == s[k] && Distinct(s)
      modifies buckets, `numItems, `chains, Nodes(s)`hhPrev, Nodes(s)`hhNext
      ensures BucketsValid(RemoveAt(s, k)) && numItems == |s| - 1
      ensures numBuckets == buckets.Length == |chains| == |old(chains)| && numBuckets > 0
      ensures var b := hash(e.key) % numBuckets; 0 <= b < numBuckets && j < |old(chains)[b]| && old(chains)[b][j] == e
      ensures var b := hash(e.key) % numBuckets;
        chains == old(chains)[b := old(chains)[b][..j] + old(chains)[b][j + 1..]]
      ensures forall i :: 0 <= i < numBuckets ==> buckets[i].expandMult == old(buckets[..])[i].expandMult
    {
      hide And, Pow2, AllLinked, Placed, RemoveAt, Distinct, BucketOf;
      var b := ToBkt(e.hashv, numBuckets);
      ToBktIsRemainder(e.hashv, numBuckets, log2NumBuckets);
      j := BeforeRemove(hash, buckets[..], chains, log2NumBuckets, s, k, b);
      DelFromBucket(hash, buckets, b, e, chains, j, Nodes(s));
      AfterRemove(hash, buckets[..], chains, log2NumBuckets, s, k, b, j);
      RemovedAt(chains[b], j);
      chains := chains[b := RemoveAt(chains[b], j)];
      numItems := numItems - 1;
    }

    /** HASH_DELETE_HH for a table that keeps other elements. */
    method DeleteOne(e: Elem, ghost k: nat, ghost rest: seq<Elem>) returns (ghost j: nat)
      requires Valid() && k < |items| && e == items[k] && |items| > 1 && rest == RemoveAt(items, k)
      modifies buckets, `head, `tail, `numItems, `chains,
        Nodes(items)`prev, Nodes(items)`next, Nodes(items)`hhPrev, Nodes(items)`hhNext
      ensures BucketsValid(rest) && numItems == |rest| && AppOrder(rest, head, tail) && head != null
      ensures buckets != null && numBuckets == buckets.Length == |chains| == |old(chains)| && numBuckets > 0
      ensures var b := hash(e.key) % numBuckets; 0 <= b < numBuckets && j < |old(chains)[b]| && old(chains)[b][j] == e
      ensures var b := hash(e.key) % numBuckets;
        chains == old(chains)[b := old(chains)[b][..j] + old(chains)[b][j + 1..]]
      ensures forall i :: 0 <= i < numBuckets ==> buckets[i].expandMult == old(buckets[..])[i].expandMult
    {
      hide BucketsValid, RemoveAt, AppOrder;
      SingleElement(items, head, tail, k);
      HasBuckets(items);
      Unlink(e, k, rest);
      j := RemoveFromTable(e, items, k);
    }

    /** HASH_DELETE; deleting the last element frees the table. Returns where e was in the
        order, and on its chain. */
    method Delete(e: Elem) returns (ghost k: nat, ghost j: nat)
      requires Valid() && e in items
      modifies this, buckets, Nodes(items)`prev, Nodes(items)`next, Nodes(items)`hhPrev, Nodes(items)`hhNext
      ensures Valid() && k < |old(items)| && old(items)[k] == e && items == old(items)[..k] + old(items)[k + 1..]
      ensures items == RemoveAt(old(items), k)
      ensures DistinctKeys(old(items)) ==> DistinctKeys(items) && MapOf(items) == MapOf(old(items)) - {e.key}
      ensures |old(items)| == 1 ==> head == null && buckets == null
      ensures |old(items)| > 1 ==> head != null && buckets == old(buckets) && buckets != null
      // the others keep their chains, and the table its size and statistics
      ensures |old(items)| > 1 ==> old(numBuckets) == numBuckets == |buckets[..]| == |chains| == |old(chains)|
      ensures |old(items)| > 1 ==> numBuckets > 0 && (var b := hash(e.key) % numBuckets;
        && 0 <= b < numBuckets && j < |old(chains)[b]| && old(chains)[b][j] == e
        && chains == old(chains)[b := old(chains)[b][..j] + old(chains)[b][j + 1..]])
      ensures |old(items)| > 1 ==>
        forall i :: 0 <= i < numBuckets ==> buckets[i].expandMult == old(buckets[..])[i].expandMult
      ensures log2NumBuckets == old(log2NumBuckets) && idealChainMaxlen == old(idealChainMaxlen)
      ensures nonidealItems == old(nonidealItems) && ineffExpands == old(ineffExpands) && noexpand == old(noexpand)
    {
      hide BucketsValid, RemoveAt, AppOrder, MapOf, DistinctKeys;
      k :| 0 <= k < |items| && items[k] == e;
      if DistinctKeys(items) {
        MapWithout(items, k);
      }
      SingleElement(items, head, tail, k);
      RemovedAt(items, k);
      if e.prev == null && e.next == null {
        buckets := null;
        head := null;
        items := RemoveAt(items, k);
        assert items == [];
        j := 0;
      } else {
        j := DeleteOne(e, k, RemoveAt(items, k));
        items := RemoveAt(items, k);
      }
    }

    // -------------------------------------------------------------- finding

    /** HASH_FIND: the first element of the key's chain that has the key. */
    method Find(key: seq<bv8>) returns (out: Elem?)
      requires Valid()
      ensures out == null <==> forall e :: e in items ==> e.key != key
      ensures out != null ==> out in items && out.key == key
      ensures DistinctKeys(items) ==> out == Lookup(MapOf(items), key)
      ensures head != null ==> (numBuckets > 0 && var b := hash(key) % numBuckets;
        0 <= b < |chains| && out == FirstMatch(chains[b], key))
    {
      hide And, FirstMatch, MapOf, DistinctKeys;
      out := null;
      if head != null {
        var hashv := hash(key);
        var b := ToBkt(hashv, numBuckets);
        ToBktIsRemainder(hashv, numBuckets, log2NumBuckets);
        out := FindInBucket(key, hashv, b);
      }
      if DistinctKeys(items) {
        LookupIs(items, key, out);
      }
    }

    /** HASH_FIND_IN_BKT. */
    method FindInBucket(key: seq<bv8>, hashv: nat, b: nat) returns (out: Elem?)
      requires BucketsValid(items) && hashv == hash(key) && b == ToBkt(hashv, numBuckets)
      ensures b < |chains| && out == FirstMatch(chains[b], key)
      ensures out == null <==> forall e :: e in items ==> e.key != key
      ensures out != null ==> out in items && out.key == key
    {
      hide And, Pow2, FirstMatch, BucketSide;
      BeforeSearch(hash, buckets[..], chains, log2NumBuckets, items, key, b);
      out := buckets[b].hhHead;
      ghost var c, i := chains[b], 0;
      assert c[0..] == c;
      while out != null
        invariant i <= |c| && out == At(c, i) && FirstMatch(c[i..], key) == FirstMatch(c, key)
        decreases |c| - i
      {
        if out.hashv == hashv && |out.key| == |key| {
          if out.key == key {
            FoundMatch(c, i, key);
            break;
          }
        }
        NextMatch(c, i, key);
        out := out.hhNext;
        i := i + 1;
      }
      NoMatchLeft(c, key);
      MatchMeaning(c, key);
    }

    // -------------------------------------------------------------- replacing

    /** HASH_REPLACE: an element with e's key, if there is one, makes room for e, which goes
        last in the order. */
    method Replace(e: Elem) returns (replaced: Elem?, ghost rest: seq<Elem>)
      requires Valid() && (e in items ==> DistinctKeys(items))
      modifies this, buckets, Nodes(items), e
      ensures Valid() && items == rest + [e]
      ensures replaced == null ==> rest == old(items) && forall x :: x in rest ==> x.key != e.key
      ensures replaced != null ==> replaced.key == e.key
      ensures replaced != null ==>
        exists k: nat :: k < |old(items)| && old(items)[k] == replaced && rest == RemoveAt(old(items), k)
      ensures DistinctKeys(old(items)) ==> DistinctKeys(items) && replaced == Lookup(MapOf(old(items)), e.key)
      ensures DistinctKeys(old(items)) ==> MapOf(items) == MapOf(old(items))[e.key := e]
      // alone in the table, e starts one of 32 buckets
      ensures rest == [] ==> fresh(buckets) && numBuckets == |chains| == |buckets[..]| == 32 && log2NumBuckets == 5
      ensures rest == [] ==>
        forall i :: 0 <= i < 32 ==> chains[i] == (if i == hash(e.key) % 32 then [e] else []) && buckets[i].expandMult == 0
      ensures rest == [] ==> idealChainMaxlen == nonidealItems == ineffExpands == 0 && !noexpand
      // whether the table doubles
      ensures rest != [] ==> old(numBuckets) > 0 && hash(e.key) % old(numBuckets) < |old(chains)| == |old(buckets[..])|
      ensures rest != [] ==> (var b := hash(e.key) % old(numBuckets);
        numBuckets != old(numBuckets) <==> (!old(noexpand) &&
          |old(chains)[b]| + (if replaced == null then 1 else 0) >= 10 * (old(buckets[..])[b].expandMult + 1)))
      // if it does not, it keeps its size, thresholds and statistics
      ensures rest != [] && numBuckets == old(numBuckets) ==> (
        && buckets == old(buckets)
        && (forall i :: 0 <= i < numBuckets ==> buckets[i].expandMult == old(buckets[..])[i].expandMult)
        && log2NumBuckets == old(log2NumBuckets) && idealChainMaxlen == old(idealChainMaxlen)
        && nonidealItems == old(nonidealItems)
        && ineffExpands == old(ineffExpands) && noexpand == old(noexpand))
      // if it does, the statistics are those of the doubled table
      ensures rest != [] && numBuckets != old(numBuckets) ==> (
        && numBuckets == 2 * old(numBuckets) && log2NumBuckets == old(log2NumBuckets) + 1 && fresh(buckets)
        && idealChainMaxlen == (numItems + numBuckets - 1) / numBuckets
        && Tallied(buckets[..], idealChainMaxlen, nonidealItems)
        && ineffExpands == (if nonidealItems > numItems / 2 then old(ineffExpands) + 1 else 0)
        && noexpand == (old(noexpand) || ineffExpands > 1))
    {
      hide Valid, RemoveAt, MapOf, Spread, Flatten, Tallied;
      HeadIsThere();
      ghost var was := items;
      replaced := Find(e.key);
      if replaced != null {
        ghost var k, _ := Delete(replaced);
        if DistinctKeys(was) {
          KeysWithout(was, k, items);
          assert MapOf(was)[e.key := e] == (MapOf(was) - {e.key})[e.key := e];
        }
        StillNotIn(was, k, items, e);
      }
      HeadIsThere();
      rest := items;
      MapOfMeaning(items, e.key);
      Add(e);
    }

    // -------------------------------------------------------------- sorting

    /** HASH_SRT: relinks the application order; the buckets are not touched. */
    method Sort(cmp: Compare) returns (ghost calls: nat)
      requires Valid()
      modifies `head, `tail, `items, Nodes(items)`prev, Nodes(items)`next
      ensures Valid() && items == Passes(cmp, old(items), 1)
      ensures Preorder(cmp, Nodes(old(items))) ==> IsStableSort(cmp, old(items), items)
      ensures calls <= CeilLog2(|items|) * |items|
    {
      hide BucketsValid, Passes, CeilLog2, AppOrder, Preorder, IsStableSort;
      if Preorder(cmp, Nodes(items)) {
        MergeSortCorrect(cmp, items);
      }
      calls := 0;
      HeadOfOrder(items, head, tail);
      PassesOfNothing(cmp, items);
      if head != null {
        OrderIsLinked(items, head, tail);
        ghost var r := Passes(cmp, items, 1);
        PassesNodes(cmp, items, 1);
        head, tail, calls := SortList(cmp, head, items);
        HeadOfOrder(r, head, tail);
        Reorder(items, r);
      }
    }
  }
}
