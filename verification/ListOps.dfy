/** The other doubly linked list operations of utlist.h that relink nodes in place. */
module ListOps {
  import opened Sequences
  import opened Lists
  import opened AppOrders

  // ---------------------------------------------------------------- node by node

  /** The links of node i of a doubly linked list. */
  ghost predicate DlNode(r: seq<Elem>, i: nat)
    requires i < |r|
    reads r`prev, r`next
  {
    r[i].next == At(r, i + 1) && r[i].prev == At(r, if i == 0 then |r| - 1 else i - 1)
  }

  lemma ShapeByNodes(head: Elem?, r: seq<Elem>)
    requires Distinct(r) && head == At(r, 0) && forall i: nat :: i < |r| ==> DlNode(r, i)
    ensures DlShape(head, r)
  {
    hide Distinct;
    forall i | 0 <= i < |r| ensures r[i].next == At(r, i + 1) && r[i].prev == At(r, if i == 0 then |r| - 1 else i - 1) {
      assert DlNode(r, i);
    }
  }

  // ---------------------------------------------------------------- DL_REVERSE

  /** The nodes before number i have had their links turned round, the rest are as they were. */
  ghost predicate Turned(s: seq<Elem>, i: nat)
    reads s`prev, s`next
  {
    && Distinct(s)
    && (forall k :: 0 <= k < i && k < |s| ==> s[k].prev == At(s, k + 1))
    && (forall k :: 0 <= k < i && k < |s| ==> s[k].next == At(s, if k == 0 then |s| - 1 else k - 1))
    && (forall k :: i <= k < |s| ==> s[k].prev == At(s, if k == 0 then |s| - 1 else k - 1))
    && (forall k :: i <= k < |s| ==> s[k].next == At(s, k + 1))
  }

  /** DL_REVERSE. */
  method ReverseList(head0: Elem?, ghost s: seq<Elem>) returns (head: Elem?)
    requires DlShape(head0, s)
    modifies Nodes(s)`prev, Nodes(s)`next
    ensures DlShape(head, Reverse(s))
  {
    hide Reverse;
    head := head0;
    if head != null && head.next != null {
      assert |s| > 1;
      var tail := head;
      var curr: Elem? := head;
      var prev: Elem? := null;
      ghost var i := 0;
      while curr != null
        invariant i <= |s| && curr == At(s, i) && Turned(s, i)
        invariant i > 0 ==> prev == At(s, if i == 1 then |s| - 1 else i - 2)
        decreases |s| - i
      {
        prev := TurnRound(curr, s, i);
        curr := curr.prev;
        i := i + 1;
      }
      head := prev.prev;
      EndReversed(tail, head, s);
    } else {
      ShortReversed(head, s);
    }
  }

  lemma ShortReversed(head: Elem?, s: seq<Elem>)
    requires DlShape(head, s) && |s| <= 1
    ensures DlShape(head, Reverse(s))
  {
    assert Reverse(s) == s;
  }

  /** The body of its loop. */
  method TurnRound(curr: Elem, ghost s: seq<Elem>, ghost i: nat) returns (prev: Elem?)
    requires Turned(s, i) && i < |s| && curr == s[i]
    modifies Nodes(s)`prev, Nodes(s)`next
    ensures Turned(s, i + 1) && curr.prev == At(s, i + 1) && prev == At(s, if i == 0 then |s| - 1 else i - 1)
  {
    hide At;
    assert s[i] in Nodes(s);
    prev := curr.prev;
    curr.prev := curr.next;
    curr.next := prev;
  }

  /** All links once the list is turned round and its ends are put right. */
  ghost predicate EndsTurned(s: seq<Elem>)
    reads s`prev, s`next
  {
    && (forall k :: 0 <= k < |s| ==> s[k].prev == At(s, if k == |s| - 1 then 0 else k + 1))
    && (forall k :: 0 <= k < |s| ==> s[k].next == At(s, k - 1))
  }

  /** What follows its loop. */
  method EndReversed(tail: Elem, head: Elem, ghost s: seq<Elem>)
    requires Turned(s, |s|) && |s| > 1 && tail == s[0] && head == s[|s| - 1]
    modifies Nodes(s)`prev, Nodes(s)`next
    ensures DlShape(head, Reverse(s))
  {
    hide At;
    Ends(s);
    assert At(s, -1) == null by { OutOfRange(s); }
    tail.next := null;
    head.prev := tail;
    ReversedShape(s);
  }

  lemma OutOfRange(s: seq<Elem>)
    ensures At(s, -1) == null
  {
  }

  lemma ReversedShape(s: seq<Elem>)
    requires Distinct(s) && |s| > 1 && EndsTurned(s)
    ensures DlShape(s[|s| - 1], Reverse(s))
  {
    var r := Reverse(s);
    assert Distinct(r);
    hide Distinct, Reverse;
    AtReversed(s, 0);
    forall i: nat | i < |r| ensures DlNode(r, i) {
      ReversedNode(s, i);
    }
    ShapeByNodes(s[|s| - 1], r);
  }

  lemma ReversedNode(s: seq<Elem>, i: nat)
    requires EndsTurned(s) && i < |s|
    ensures DlNode(Reverse(s), i)
  {
    hide Reverse, At;
    var n, k := |s|, |s| - 1 - i;
    ReverseAt(s, k);
    AtReversed(s, i + 1);
    AtReversed(s, if i == 0 then n - 1 else i - 1);
  }

  lemma AtReversed(s: seq<Elem>, i: int)
    ensures At(Reverse(s), i) == At(s, |s| - 1 - i)
  {
  }

  // ---------------------------------------------------------------- DL_CONCAT

  /** DL_CONCAT. */
  method Concat(head1: Elem?, head2: Elem?, ghost s: seq<Elem>, ghost t: seq<Elem>) returns (head: Elem?)
    requires DlShape(head1, s) && DlShape(head2, t) && Nodes(s) !! Nodes(t)
    modifies Nodes(s)`prev, Nodes(s)`next, Nodes(t)`prev
    ensures DlShape(head, s + t)
  {
    hide DlShape;
    EmptyShape(head1, s);
    EmptyShape(head2, t);
    assert s + [] == s && [] + t == t;
    head := head1;
    if head2 != null {
      if head1 != null {
        Join(head1, head2, s, t);
        JoinedShape(s, t);
      } else {
        head := head2;
      }
    }
  }

  lemma EmptyShape(head: Elem?, s: seq<Elem>)
    requires DlShape(head, s)
    ensures head == At(s, 0) && Distinct(s)
  {
  }

  /** All links of s and t once they are one list. */
  ghost predicate Joined(s: seq<Elem>, t: seq<Elem>)
    requires s != [] && t != []
    reads s`prev, s`next, t`prev, t`next
  {
    && (forall i :: 0 <= i < |s| ==> s[i].next == if i == |s| - 1 then t[0] else At(s, i + 1))
    && (forall i :: 0 <= i < |s| ==> s[i].prev == if i == 0 then t[|t| - 1] else At(s, i - 1))
    && (forall j :: 0 <= j < |t| ==> t[j].next == At(t, j + 1))
    && (forall j :: 0 <= j < |t| ==> t[j].prev == if j == 0 then s[|s| - 1] else At(t, j - 1))
  }

  method Join(head1: Elem, head2: Elem, ghost s: seq<Elem>, ghost t: seq<Elem>)
    requires s != [] && t != [] && DlShape(head1, s) && DlShape(head2, t) && Nodes(s) !! Nodes(t)
    modifies Nodes(s)`prev, Nodes(s)`next, Nodes(t)`prev
    ensures Joined(s, t)
  {
    hide At;
    Ends(s);
    Ends(t);
    assert forall j :: 0 <= j < |t| ==> t[j] in Nodes(t);
    var tmp := head2.prev;
    head2.prev := head1.prev;
    head1.prev.next := head2;
    head1.prev := tmp;
  }

  lemma Ends(s: seq<Elem>)
    requires s != []
    ensures At(s, 0) == s[0] && At(s, |s| - 1) == s[|s| - 1] && s[0] in Nodes(s) && s[|s| - 1] in Nodes(s)
  {
  }

  lemma JoinedShape(s: seq<Elem>, t: seq<Elem>)
    requires s != [] && t != [] && Distinct(s) && Distinct(t) && Nodes(s) !! Nodes(t) && Joined(s, t)
    ensures DlShape(s[0], s + t)
  {
    DistinctAppend(s, t);
    hide Distinct;
    var r := s + t;
    forall i: nat | i < |r| ensures DlNode(r, i) {
      JoinedNode(s, t, i);
    }
    ShapeByNodes(s[0], r);
  }

  lemma JoinedNode(s: seq<Elem>, t: seq<Elem>, i: nat)
    requires s != [] && t != [] && Joined(s, t)
    requires i < |s + t|
    ensures DlNode(s + t, i)
  {
    var r := s + t;
    if i < |s| {
      assert r[i] == s[i] && (i > 0 ==> r[i - 1] == s[i - 1]);
      assert r[i + 1] == if i + 1 < |s| then s[i + 1] else t[0];
    } else {
      var j := i - |s|;
      assert r[i] == t[j] && (j + 1 < |t| ==> r[i + 1] == t[j + 1]);
      assert r[i - 1] == if j == 0 then s[|s| - 1] else t[j - 1];
    }
  }

  // ---------------------------------------------------------------- DL_DELETE

  /** The links once element k, one of several, is bypassed: `first` and `last` are what is
      left at the ends. */
  ghost predicate DlBypassed(s: seq<Elem>, k: nat, first: nat, last: nat)
    reads s`prev, s`next
  {
    && (forall j :: 0 <= j < |s| && j != k && j != k + 1 && j != first ==> s[j].prev == At(s, j - 1))
    && (forall j :: 0 <= j < |s| && j != k && j + 1 != k ==> s[j].next == At(s, j + 1))
    && (0 < k && k + 1 < |s| ==> s[k + 1].prev == At(s, k - 1))
    && (0 < k <= |s| ==> s[k - 1].next == At(s, k + 1))
    && (first < |s| ==> s[first].prev == At(s, last))
  }

  /** DL_DELETE. */
  method Delete(head0: Elem, del: Elem, ghost s: seq<Elem>, ghost k: nat) returns (head: Elem?)
    requires DlShape(head0, s) && k < |s| && del == s[k]
    modifies Nodes(s)`prev, Nodes(s)`next
    ensures DlShape(head, RemoveAt(s, k))
  {
    hide DlShape, RemoveAt;
    SingleNode(head0, s, k);
    head := head0;
    if del.prev == del {
      head := null;
    } else {
      head := DlBypass(head, del, s, k);
      BypassedShape(s, k, head, if k == 0 then 1 else 0, if k == |s| - 1 then |s| - 2 else |s| - 1);
    }
  }

  lemma SingleNode(head: Elem, s: seq<Elem>, k: nat)
    requires DlShape(head, s) && k < |s|
    ensures (s[k].prev == s[k] <==> |s| == 1) && (|s| == 1 ==> DlShape(null, RemoveAt(s, k))) && Distinct(s)
  {
  }

  method DlBypass(head0: Elem, del: Elem, ghost s: seq<Elem>, ghost k: nat) returns (head: Elem?)
    requires DlShape(head0, s) && k < |s| && del == s[k] && |s| > 1
    modifies Nodes(s)`prev, Nodes(s)`next
    ensures DlBypassed(s, k, if k == 0 then 1 else 0, if k == |s| - 1 then |s| - 2 else |s| - 1)
    ensures head == s[if k == 0 then 1 else 0]
  {
    hide At;
    NeighbourNodes(s, k);
    Ends(s);
    head := head0;
    if del == head {
      del.next.prev := del.prev;
      head := del.next;
    } else {
      del.prev.next := del.next;
      if del.next != null {
        del.next.prev := del.prev;
      } else {
        head.prev := del.prev;
      }
    }
  }

  lemma BypassedShape(s: seq<Elem>, k: nat, head: Elem?, first: nat, last: nat)
    requires k < |s| && |s| > 1 && Distinct(s) && DlBypassed(s, k, first, last)
    requires first == (if k == 0 then 1 else 0) && last == (if k == |s| - 1 then |s| - 2 else |s| - 1)
    requires head == s[first]
    ensures DlShape(head, RemoveAt(s, k))
  {
    var r := RemoveAt(s, k);
    RemoveAtDistinct(s, k);
    hide Distinct, RemoveAt;
    forall i: nat | i < |r| ensures DlNode(r, i) {
      BypassedNode(s, k, first, last, i);
    }
    ShapeByNodes(head, r);
  }

  lemma BypassedNode(s: seq<Elem>, k: nat, first: nat, last: nat, i: nat)
    requires k < |s| && |s| > 1 && DlBypassed(s, k, first, last)
    requires first == (if k == 0 then 1 else 0) && last == (if k == |s| - 1 then |s| - 2 else |s| - 1)
    requires i < |RemoveAt(s, k)|
    ensures DlNode(RemoveAt(s, k), i)
  {
    hide RemoveAt;
    var r := RemoveAt(s, k);
    if i < k {
      assert r[i] == s[i] && (i > 0 ==> r[i - 1] == s[i - 1]);
      assert i + 1 < |r| ==> r[i + 1] == s[if i + 1 < k then i + 1 else i + 2];
    } else {
      var j := i + 1;
      assert r[i] == s[j] && (j + 1 < |s| ==> r[i + 1] == s[j + 1]);
      assert i > 0 ==> r[i - 1] == s[if i == k then k - 1 else i];
    }
  }

  // ---------------------------------------------------------------- DL_INSERT_INORDER

  /** The index of the first element that does not compare less than e. */
  function LowerBound(cmp: Compare, s: seq<Elem>, e: Elem): (k: nat)
    ensures k <= |s|
  {
    if s == [] || cmp(s[0], e) >= 0 then 0 else 1 + LowerBound(cmp, s[1..], e)
  }

  lemma {:induction false} LowerBoundMeaning(cmp: Compare, s: seq<Elem>, e: Elem)
    ensures forall i :: 0 <= i < LowerBound(cmp, s, e) ==> cmp(s[i], e) < 0
    ensures LowerBound(cmp, s, e) < |s| ==> cmp(s[LowerBound(cmp, s, e)], e) >= 0
  {
    if s != [] && cmp(s[0], e) < 0 {
      LowerBoundMeaning(cmp, s[1..], e);
      forall i | 0 <= i < LowerBound(cmp, s, e) ensures cmp(s[i], e) < 0 {
        assert i > 0 ==> s[i] == s[1..][i - 1];
      }
    }
  }

  lemma LowerBoundStep(cmp: Compare, s: seq<Elem>, e: Elem, k: nat)
    requires k < |s| && LowerBound(cmp, s, e) >= k
    ensures if cmp(s[k], e) >= 0 then LowerBound(cmp, s, e) == k else LowerBound(cmp, s, e) > k
  {
    LowerBoundMeaning(cmp, s, e);
  }

  /** DL_LOWER_BOUND: the element before the place for e, or NULL if that is the front. */
  method FindBefore(cmp: Compare, head: Elem, e: Elem, ghost s: seq<Elem>) returns (elt: Elem?)
    requires s != [] && head == s[0] && NextLinked(s, 0, |s|)
    ensures elt == At(s, LowerBound(cmp, s, e) - 1)
  {
    hide LowerBound;
    LowerBoundStep(cmp, s, e, 0);
    if cmp(head, e) >= 0 {
      return null;
    }
    elt := head;
    ghost var k := 1;
    while elt.next != null
      invariant 1 <= k <= |s| && elt == s[k - 1] && LowerBound(cmp, s, e) >= k
      decreases |s| - k
    {
      LowerBoundStep(cmp, s, e, k);
      if cmp(elt.next, e) >= 0 {
        break;
      }
      elt := elt.next;
      k := k + 1;
    }
  }

  /** All links once e is in between elements k - 1 and k. */
  ghost predicate DlInserted(s: seq<Elem>, k: nat, e: Elem)
    requires s != []
    reads s`prev, s`next, e
  {
    && (forall j :: 0 <= j < |s| ==> s[j].next == if j + 1 == k then e else At(s, j + 1))
    && (forall j :: 0 < j < |s| ==> s[j].prev == if j == k then e else At(s, j - 1))
    && s[0].prev == (if k == 0 || k == |s| then e else At(s, |s| - 1))
    && e.next == At(s, k) && e.prev == At(s, if k == 0 then |s| - 1 else k - 1)
  }

  /** DL_APPEND_ELEM. */
  method AppendAfter(head: Elem, el: Elem, add: Elem, ghost s: seq<Elem>, ghost k: nat)
    requires DlShape(head, s) && 0 < k <= |s| && el == s[k - 1] && add !in s
    modifies {add}`prev, {add}`next, Nodes(s)`prev, Nodes(s)`next
    ensures DlInserted(s, k, add)
  {
    hide At;
    NeighbourNodes(s, k - 1);
    Ends(s);
    add.next := el.next;
    add.prev := el;
    el.next := add;
    if add.next != null {
      add.next.prev := add;
    } else {
      head.prev := add;
    }
  }

  /** DL_PREPEND. */
  method Prepend(head: Elem, add: Elem, ghost s: seq<Elem>)
    requires DlShape(head, s) && s != [] && add !in s
    modifies {add}`prev, {add}`next, Nodes(s)`prev
    ensures DlInserted(s, 0, add)
  {
    hide At;
    Ends(s);
    add.next := head;
    add.prev := head.prev;
    head.prev := add;
  }

  lemma InsertedShape(s: seq<Elem>, k: nat, e: Elem)
    requires s != [] && k <= |s| && Distinct(s) && e !in s && DlInserted(s, k, e)
    ensures DlShape(if k == 0 then e else s[0], InsertAt(s, k, e))
  {
    var r := InsertAt(s, k, e);
    InsertDistinct(s, k, e);
    hide Distinct, InsertAt;
    forall i: nat | i < |r| ensures DlNode(r, i) {
      InsertedNode(s, k, e, i);
    }
    ShapeByNodes(if k == 0 then e else s[0], r);
  }

  lemma InsertedNode(s: seq<Elem>, k: nat, e: Elem, i: nat)
    requires s != [] && k <= |s| && DlInserted(s, k, e)
    requires i < |InsertAt(s, k, e)|
    ensures DlNode(InsertAt(s, k, e), i)
  {
    hide InsertAt;
    var r := InsertAt(s, k, e);
    if i < k {
      assert r[i] == s[i] && (i > 0 ==> r[i - 1] == s[i - 1]);
      assert r[i + 1] == if i + 1 < k then s[i + 1] else e;
    } else if i == k {
      assert (i < |s| ==> r[i + 1] == s[i]) && (i > 0 ==> r[i - 1] == s[i - 1]);
    } else {
      var j := i - 1;
      assert r[i] == s[j] && (j + 1 < |s| ==> r[i + 1] == s[j + 1]);
      assert r[i - 1] == if j > k then s[j - 1] else e;
    }
  }

  /** DL_INSERT_INORDER: e goes before the first element that does not compare less, so before
      all that compare equal. */
  method InsertInOrder(cmp: Compare, head0: Elem?, add: Elem, ghost s: seq<Elem>) returns (head: Elem)
    requires DlShape(head0, s) && add !in s
    modifies {add}`prev, {add}`next, Nodes(s)`prev, Nodes(s)`next
    ensures DlShape(head, InsertAt(s, LowerBound(cmp, s, add), add))
  {
    hide DlShape, LowerBound, InsertAt;
    EmptyShape(head0, s);
    if head0 == null {
      head := add;
      head.prev := head;
      head.next := null;
      SingleShape(cmp, add);
    } else {
      DlHead(head0, s);
      ghost var k := LowerBound(cmp, s, add);
      head := head0;
      var tmp := FindBefore(cmp, head, add, s);
      if tmp != null {
        AppendAfter(head, tmp, add, s, k);
      } else {
        Prepend(head, add, s);
        head := add;
      }
      InsertedShape(s, k, add);
    }
  }

  lemma SingleShape(cmp: Compare, e: Elem)
    requires e.prev == e && e.next == null
    ensures DlShape(e, InsertAt([], LowerBound(cmp, [], e), e))
  {
  }
}
