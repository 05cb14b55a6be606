/** The application order of a uthash table: appending, inserting, removing and sorting by
    relinking prev and next. */
module AppOrders {
  import opened Bits
  import opened StableSort
  import opened Lists

  /** The application-order list: linked both ways with null at both ends. */
  ghost predicate AppOrder(s: seq<Elem>, head: Elem?, tail: Elem?)
    reads s`prev, s`next
  {
    && Distinct(s) && head == At(s, 0) && tail == At(s, |s| - 1)
    && (forall i :: 0 <= i < |s| ==> s[i].prev == At(s, i - 1))
    && (forall i :: 0 <= i < |s| ==> s[i].next == At(s, i + 1))
  }

  lemma HeadOfOrder(s: seq<Elem>, head: Elem?, tail: Elem?)
    ensures AppOrder(s, head, tail) ==> head == At(s, 0) && tail == At(s, |s| - 1)
  {
  }

  lemma OrderIsLinked(s: seq<Elem>, head: Elem?, tail: Elem?)
    requires AppOrder(s, head, tail)
    ensures Distinct(s) && NextLinked(s, 0, |s|) && head == At(s, 0)
  {
  }

  lemma SingleOrder(e: Elem)
    requires e.prev == null && e.next == null
    ensures AppOrder([e], e, e)
  {
  }

  lemma Neighbours(s: seq<Elem>, head: Elem?, tail: Elem?, k: nat)
    requires AppOrder(s, head, tail) && k < |s|
    ensures s[k].prev == At(s, k - 1) && s[k].next == At(s, k + 1) && (s[k] == tail <==> k == |s| - 1)
    ensures Distinct(s) && head == s[0] && tail == s[|s| - 1]
  {
  }

  lemma NeighbourNodes(s: seq<Elem>, k: nat)
    requires k < |s|
    ensures s[k] in Nodes(s) && At(s, k) == s[k]
    ensures At(s, k - 1) == if k == 0 then null else s[k - 1]
    ensures At(s, k + 1) == if k + 1 == |s| then null else s[k + 1]
    ensures (k > 0 ==> s[k - 1] in Nodes(s)) && (k + 1 < |s| ==> s[k + 1] in Nodes(s))
  {
  }

  lemma SingleElement(s: seq<Elem>, head: Elem?, tail: Elem?, k: nat)
    requires AppOrder(s, head, tail) && k < |s|
    ensures (s[k].prev == null && s[k].next == null <==> |s| == 1) && Distinct(s)
  {
  }

  // ---------------------------------------------------------------- appending

  lemma AppendedOrder(s: seq<Elem>, e: Elem, head: Elem?)
    requires Distinct(s) && s != [] && e !in s && head == s[0]
    requires forall i :: 0 <= i < |s| ==> s[i].prev == At(s, i - 1)
    requires forall i :: 0 <= i < |s| - 1 ==> s[i].next == At(s, i + 1)
    requires s[|s| - 1].next == e && e.prev == s[|s| - 1] && e.next == null
    ensures AppOrder(s + [e], head, e)
  {
    var r := s + [e];
    forall i | 0 <= i < |r| ensures r[i].prev == At(r, i - 1) && r[i].next == At(r, i + 1) {
      if i < |s| {
        assert r[i] == s[i] && (i > 0 ==> r[i - 1] == s[i - 1]);
        assert i + 1 < |s| ==> r[i + 1] == s[i + 1];
      }
    }
  }

  /** e is linked in after the last element. */
  method LinkAfter(tail: Elem, e: Elem, ghost s: seq<Elem>, ghost head: Elem?)
    requires AppOrder(s, head, tail) && s != [] && e !in s
    modifies {e}`prev, {e}`next, Nodes(s)`next
    ensures AppOrder(s + [e], head, e)
  {
    NeighbourNodes(s, |s| - 1);
    hide At;
    assert head == s[0] && tail == s[|s| - 1];
    e.next := null;
    e.prev := tail;
    tail.next := e;
    AppendedOrder(s, e, head);
  }

  // ---------------------------------------------------------------- removing

  /** The links of the application order once element k is bypassed. */
  ghost predicate BypassedLinks(s: seq<Elem>, k: nat)
    reads s`prev, s`next
  {
    && (forall j :: 0 <= j < |s| && j != k && j != k + 1 ==> s[j].prev == At(s, j - 1))
    && (forall j :: 0 <= j < |s| && j != k && j + 1 != k ==> s[j].next == At(s, j + 1))
    && (k + 1 < |s| ==> s[k + 1].prev == At(s, k - 1))
    && (0 < k <= |s| ==> s[k - 1].next == At(s, k + 1))
  }

  lemma BypassedOrder(s: seq<Elem>, k: nat, head: Elem?, tail: Elem?)
    requires k < |s| && Distinct(s) && |s| > 1 && BypassedLinks(s, k)
    requires head == At(s, if k == 0 then 1 else 0)
    requires tail == At(s, if k == |s| - 1 then |s| - 2 else |s| - 1)
    ensures AppOrder(RemoveAt(s, k), head, tail)
  {
    var r := RemoveAt(s, k);
    RemoveAtDistinct(s, k);
    hide Distinct;
    forall i | 0 <= i < |r| ensures r[i].prev == At(r, i - 1) && r[i].next == At(r, i + 1) {
      if i < k {
        assert r[i] == s[i] && (i > 0 ==> r[i - 1] == s[i - 1]);
        assert i + 1 < |r| ==> r[i + 1] == s[if i + 1 < k then i + 1 else i + 2];
      } else {
        var j := i + 1;
        assert r[i] == s[j] && (j + 1 < |s| ==> r[i + 1] == s[j + 1]);
        assert i > 0 ==> r[i - 1] == s[if i == k then k - 1 else i];
      }
    }
  }

  lemma RemoveAtDistinct(s: seq<Elem>, k: nat)
    requires Distinct(s) && k < |s|
    ensures Distinct(RemoveAt(s, k))
  {
  }

  /** The neighbours of e are linked to each other. */
  method Bypass(e: Elem, ghost s: seq<Elem>, ghost k: nat, ghost head: Elem?, ghost tail: Elem?)
    requires AppOrder(s, head, tail) && k < |s| && e == s[k]
    modifies Nodes(s)`prev, Nodes(s)`next
    ensures BypassedLinks(s, k)
  {
    hide At;
    NeighbourNodes(s, k);
    if e.prev != null {
      e.prev.next := e.next;
    }
    if e.next != null {
      e.next.prev := e.prev;
    }
  }

  // ---------------------------------------------------------------- inserting in order

  function InsertAt<T>(s: seq<T>, k: nat, e: T): (r: seq<T>)
    requires k <= |s|
    ensures |r| == |s| + 1 && r[k] == e
    ensures forall i :: 0 <= i < k ==> r[i] == s[i]
    ensures forall i :: k < i < |r| ==> r[i] == s[i - 1]
  {
    s[..k] + [e] + s[k..]
  }

  /** The index of the first element that compares greater than e. */
  function UpperBound(cmp: Compare, s: seq<Elem>, e: Elem): (k: nat)
    ensures k <= |s|
  {
    if s == [] || cmp(s[0], e) > 0 then 0 else 1 + UpperBound(cmp, s[1..], e)
  }

  lemma {:induction false} UpperBoundMeaning(cmp: Compare, s: seq<Elem>, e: Elem)
    ensures forall i :: 0 <= i < UpperBound(cmp, s, e) ==> cmp(s[i], e) <= 0
    ensures UpperBound(cmp, s, e) < |s| ==> cmp(s[UpperBound(cmp, s, e)], e) > 0
  {
    if s != [] && cmp(s[0], e) <= 0 {
      UpperBoundMeaning(cmp, s[1..], e);
      forall i | 0 <= i < UpperBound(cmp, s, e) ensures cmp(s[i], e) <= 0 {
        assert i > 0 ==> s[i] == s[1..][i - 1];
      }
    }
  }

  lemma InsertedInOrder(cmp: Compare, s: seq<Elem>, e: Elem, k: nat)
    requires k == UpperBound(cmp, s, e)
    ensures k <= |s| && InsertAt(s, k, e) == s[..k] + [e] + s[k..]
    ensures forall i :: 0 <= i < k ==> cmp(s[i], e) <= 0
    ensures k < |s| ==> cmp(s[k], e) > 0
  {
    UpperBoundMeaning(cmp, s, e);
  }

  lemma UpperBoundStart(cmp: Compare, s: seq<Elem>, e: Elem)
    ensures UpperBound(cmp, s, e) >= 0
  {
  }

  lemma UpperBoundStep(cmp: Compare, s: seq<Elem>, e: Elem, k: nat)
    requires k < |s| && UpperBound(cmp, s, e) >= k
    ensures if cmp(s[k], e) > 0 then UpperBound(cmp, s, e) == k else UpperBound(cmp, s, e) > k
  {
    UpperBoundMeaning(cmp, s, e);
  }

  /** HASH_AKBI_INNER_LOOP: the first element that compares greater than e, if any. */
  method FindPlace(cmp: Compare, head: Elem, e: Elem, ghost s: seq<Elem>) returns (iter: Elem?)
    requires s != [] && head == s[0] && NextLinked(s, 0, |s|)
    ensures iter == At(s, UpperBound(cmp, s, e))
  {
    hide UpperBound;
    iter := head;
    ghost var k := 0;
    UpperBoundStart(cmp, s, e);
    while iter != null
      invariant k <= |s| && iter == At(s, k) && UpperBound(cmp, s, e) >= k
      decreases |s| - k
    {
      UpperBoundStep(cmp, s, e, k);
      if cmp(iter, e) > 0 {
        break;
      }
      iter := iter.next;
      k := k + 1;
    }
  }

  lemma InsertIntoNothing(cmp: Compare, s: seq<Elem>, e: Elem)
    ensures s == [] ==> InsertAt(s, UpperBound(cmp, s, e), e) == s + [e]
  {
  }

  lemma InsertAtEnd(s: seq<Elem>, e: Elem)
    ensures InsertAt(s, |s|, e) == s + [e]
  {
  }

  lemma InsertMembers(s: seq<Elem>, k: nat, e: Elem)
    requires k <= |s|
    ensures Nodes(InsertAt(s, k, e)) == Nodes(s + [e])
  {
    hide InsertAt;
    var r := InsertAt(s, k, e);
    forall x | x in s ensures x in r {
      var i :| 0 <= i < |s| && s[i] == x;
      assert r[if i < k then i else i + 1] == x;
    }
    assert r[k] == e;
  }

  ghost predicate InsertedLinks(s: seq<Elem>, k: nat, e: Elem)
    requires k < |s|
    reads s`prev, s`next, e
  {
    && e.prev == At(s, k - 1) && e.next == s[k] && s[k].prev == e && (k > 0 ==> s[k - 1].next == e)
    && (forall j :: 0 <= j < |s| && j != k ==> s[j].prev == At(s, j - 1))
    && (forall j :: 0 <= j < |s| && j + 1 != k ==> s[j].next == At(s, j + 1))
  }

  lemma InsertedOrder(s: seq<Elem>, k: nat, e: Elem, head: Elem?, tail: Elem?)
    requires k < |s| && Distinct(s) && e !in s && InsertedLinks(s, k, e)
    requires head == (if k == 0 then e else s[0]) && tail == s[|s| - 1]
    ensures AppOrder(InsertAt(s, k, e), head, tail)
  {
    var r := InsertAt(s, k, e);
    InsertDistinct(s, k, e);
    hide Distinct, InsertAt, InsertedLinks;
    forall i: nat | i < |r| ensures r[i].prev == At(r, i - 1) && r[i].next == At(r, i + 1) {
      InsertedLink(s, k, e, i);
    }
  }

  lemma InsertedLink(s: seq<Elem>, k: nat, e: Elem, i: nat)
    requires k < |s| && InsertedLinks(s, k, e) && i <= |s|
    ensures var r := InsertAt(s, k, e); r[i].prev == At(r, i - 1) && r[i].next == At(r, i + 1)
  {
    hide InsertAt;
    var r := InsertAt(s, k, e);
    if i < k {
      assert r[i] == s[i] && (i > 0 ==> r[i - 1] == s[i - 1]);
      assert i + 1 < k ==> r[i + 1] == s[i + 1];
    } else if i == k {
      assert r[i + 1] == s[i] && (i > 0 ==> r[i - 1] == s[i - 1]);
    } else {
      var j := i - 1;
      assert r[i] == s[j] && (j + 1 < |s| ==> r[i + 1] == s[j + 1]);
      assert j > k ==> r[i - 1] == s[j - 1];
    }
  }

  lemma InsertDistinct(s: seq<Elem>, k: nat, e: Elem)
    requires Distinct(s) && e !in s && k <= |s|
    ensures Distinct(InsertAt(s, k, e))
  {
  }

  /** e is linked in between iter and the element before it. */
  method Splice(iter: Elem, e: Elem, ghost s: seq<Elem>, ghost k: nat, ghost head: Elem?, ghost tail: Elem?)
    requires AppOrder(s, head, tail) && k < |s| && iter == s[k] && e !in s
    modifies {e}`prev, {e}`next, Nodes(s)`prev, Nodes(s)`next
    ensures InsertedLinks(s, k, e)
  {
    hide At;
    NeighbourNodes(s, k);
    e.next := iter;
    e.prev := iter.prev;
    if e.prev != null {
      e.prev.next := e;
    }
    iter.prev := e;
  }

  // ---------------------------------------------------------------- sorting

  /** A pass of HASH_SRT: the merges, then the tail is ended. */
  method HashPass(cmp: Compare, list0: Elem, insize: nat, ghost s: seq<Elem>, ghost r: seq<Elem>)
      returns (list: Elem?, tail: Elem?, nmerges: nat, ghost calls: nat)
    requires insize > 0 && s != [] && Distinct(s) && NextLinked(s, 0, |s|) && list0 == s[0]
    requires r == Pass(cmp, s, insize)
    modifies Nodes(s)`prev, Nodes(s)`next
    ensures AppOrder(r, list, tail)
    ensures nmerges <= 1 <==> |s| <= 2 * insize
    ensures calls <= |s| && (|s| <= insize ==> calls == 0)
  {
    hide Pass, Output, AppOrder;
    PassNodes(cmp, s, insize);
    list, tail, nmerges, calls := MergePass(cmp, list0, insize, s);
    EndOrder(list, tail, r);
  }

  method EndOrder(list: Elem?, tail: Elem?, ghost r: seq<Elem>)
    requires Output(r, list, tail) && r != []
    modifies Nodes(r)`next
    ensures AppOrder(r, list, tail)
  {
    assert tail == r[|r| - 1] && r[|r| - 1] in Nodes(r);
    tail.next := null;
  }

  /** The loop of HASH_SRT over run sizes 1, 2, 4, ... */
  method SortList(cmp: Compare, list0: Elem, ghost s: seq<Elem>)
      returns (list: Elem?, tail: Elem?, ghost calls: nat)
    requires s != [] && Distinct(s) && NextLinked(s, 0, |s|) && list0 == s[0]
    modifies Nodes(s)`prev, Nodes(s)`next
    ensures AppOrder(Passes(cmp, s, 1), list, tail)
    ensures calls <= CeilLog2(|s|) * |s|
  {
    hide Pass, Passes, Pow2, CeilLog2, AppOrder;
    list, tail, calls := list0, null, 0;
    var insize, looping := 1, true;
    ghost var cur, passes := s, 0;
    PowStep(0);
    while looping
      invariant |cur| == |s| && Nodes(cur) == Nodes(s)
      invariant looping ==> Distinct(cur) && NextLinked(cur, 0, |cur|) && list == cur[0]
      invariant insize > 0 && insize == Pow2(passes)
      invariant looping ==> Passes(cmp, cur, insize) == Passes(cmp, s, 1) && (passes > 0 ==> insize < |s|)
      invariant looping ==> calls <= passes * |s|
      invariant !looping ==> AppOrder(cur, list, tail) && cur == Passes(cmp, s, 1) && calls <= CeilLog2(|s|) * |s|
      decreases looping, |s| - insize
    {
      ghost var r := Pass(cmp, cur, insize);
      PassNodes(cmp, cur, insize);
      PassesStep(cmp, cur, insize);
      PowStep(passes);
      var nmerges;
      ghost var more;
      list, tail, nmerges, more := HashPass(cmp, list, insize, cur, r);
      OrderIsLinked(r, list, tail);
      CallsBound(calls, more, passes, insize, |s|);
      cur := r;
      calls, passes := calls + more, passes + 1;
      if nmerges <= 1 {
        looping := false;
      }
      insize := 2 * insize;
    }
  }

  lemma PassesOfNothing(cmp: Compare, s: seq<Elem>)
    ensures s == [] ==> Passes(cmp, s, 1) == []
  {
  }

  lemma PassesNodes(cmp: Compare, s: seq<Elem>, k: nat)
    requires k > 0
    ensures Nodes(Passes(cmp, s, k)) == Nodes(s)
  {
    PassesElements(cmp, s, k);
    var r := Passes(cmp, s, k);
    assert forall e :: e in r <==> e in multiset(r);
    assert forall e :: e in s <==> e in multiset(s);
  }
}
