/** Inserting into a sorted list, as HASH_ADD_INORDER and DL_INSERT_INORDER do, is stable sorting;
    the two differ in where they leave an element that compares equal. */
module InOrder {
  import opened StableSort
  import opened Lists
  import opened AppOrders
  import opened ListOps

  // ---------------------------------------------------------------- after the equal ones

  /** Into a sorted table, inserting in order does what appending and then sorting would do. */
  lemma InsertInOrderIsStableSort(cmp: Compare, s: seq<Elem>, e: Elem)
    requires Preorder(cmp, Nodes(s + [e])) && Sorted(cmp, s)
    ensures InsertAt(s, UpperBound(cmp, s, e), e) == Passes(cmp, s + [e], 1)
  {
    var k := UpperBound(cmp, s, e);
    var r := InsertAt(s, k, e);
    InsertIsStable(cmp, s, e, k);
    assert (set x | x in s + [e]) == Nodes(s + [e]);
    MergeSortCorrect(cmp, s + [e]);
    StableSortUnique(cmp, s + [e], r, Passes(cmp, s + [e], 1));
  }

  lemma InsertElements(s: seq<Elem>, e: Elem, k: nat)
    requires k <= |s|
    ensures multiset(InsertAt(s, k, e)) == multiset(s + [e])
  {
    assert s == s[..k] + s[k..];
  }

  lemma InsertIsStable(cmp: Compare, s: seq<Elem>, e: Elem, k: nat)
    requires Preorder(cmp, Nodes(s + [e])) && Sorted(cmp, s) && k == UpperBound(cmp, s, e)
    ensures IsStableSort(cmp, s + [e], InsertAt(s, k, e))
  {
    hide Preorder, Sorted, InsertAt, UpperBound, Class;
    InsertElements(s, e, k);
    SortedInsert(cmp, s, e, k);
    forall x | x in s + [e] ensures Class(cmp, x, InsertAt(s, k, e)) == Class(cmp, x, s + [e]) {
      ClassInsert(cmp, s, e, k, x);
    }
  }

  lemma AboveStaysAbove(cmp: Compare, s: seq<Elem>, e: Elem, k: nat)
    requires Preorder(cmp, Nodes(s + [e])) && Sorted(cmp, s) && k == UpperBound(cmp, s, e)
    ensures forall i :: k <= i < |s| ==> cmp(e, s[i]) <= 0 && cmp(s[i], e) > 0
  {
    UpperBoundMeaning(cmp, s, e);
    assert e in Nodes(s + [e]) && forall i :: 0 <= i < |s| ==> s[i] in Nodes(s + [e]);
    forall i | k <= i < |s| ensures cmp(e, s[i]) <= 0 && cmp(s[i], e) > 0 {
      assert cmp(s[k], s[i]) <= 0 || i == k;
    }
  }

  lemma SortedInsert(cmp: Compare, s: seq<Elem>, e: Elem, k: nat)
    requires Preorder(cmp, Nodes(s + [e])) && Sorted(cmp, s) && k == UpperBound(cmp, s, e)
    ensures Sorted(cmp, InsertAt(s, k, e))
  {
    hide Preorder, UpperBound, InsertAt;
    UpperBoundMeaning(cmp, s, e);
    AboveStaysAbove(cmp, s, e, k);
    var r := InsertAt(s, k, e);
    forall i, j | 0 <= i < j < |r| ensures cmp(r[i], r[j]) <= 0 {
      assert i != k ==> r[i] == s[if i < k then i else i - 1];
      assert j != k ==> r[j] == s[if j < k then j else j - 1];
    }
  }

  lemma ClassInsert(cmp: Compare, s: seq<Elem>, e: Elem, k: nat, x: Elem)
    requires Preorder(cmp, Nodes(s + [e])) && Sorted(cmp, s) && k == UpperBound(cmp, s, e) && x in Nodes(s + [e])
    ensures Class(cmp, x, InsertAt(s, k, e)) == Class(cmp, x, s + [e])
  {
    hide Class, Preorder, UpperBound, Sorted;
    var a, b := s[..k], s[k..];
    NothingAfter(cmp, s, e, k, x);
    ClassAppend(cmp, x, a + [e], b);
    ClassAppend(cmp, x, a, [e]);
    ClassAppend(cmp, x, a + b, [e]);
    ClassAppend(cmp, x, a, b);
    ClassSingle(cmp, x, e);
    assert a + b == s;
    assert Class(cmp, x, [e]) == [] || Class(cmp, x, b) == [];
  }

  lemma AboveIsNotEquivalent(cmp: Compare, D: set<Elem>, x: Elem, e: Elem, y: Elem)
    requires Preorder(cmp, D) && x in D && e in D && y in D
    requires Equivalent(cmp, x, e) && cmp(y, e) > 0
    ensures !Equivalent(cmp, x, y)
  {
    assert cmp(y, x) <= 0 && cmp(x, e) <= 0 ==> cmp(y, e) <= 0;
  }

  /** The elements after the insertion point are equivalent to nothing that e is equivalent to. */
  lemma NothingAfter(cmp: Compare, s: seq<Elem>, e: Elem, k: nat, x: Elem)
    requires Preorder(cmp, Nodes(s + [e])) && Sorted(cmp, s) && k == UpperBound(cmp, s, e) && x in Nodes(s + [e])
    ensures Equivalent(cmp, x, e) ==> Class(cmp, x, s[k..]) == []
  {
    hide UpperBound, Class, Sorted, Preorder, Equivalent;
    AboveStaysAbove(cmp, s, e, k);
    var b := s[k..];
    if Equivalent(cmp, x, e) {
      forall i | 0 <= i < |b| ensures !Equivalent(cmp, x, b[i]) {
        assert b[i] == s[k + i];
        AboveIsNotEquivalent(cmp, Nodes(s + [e]), x, e, s[k + i]);
      }
      ClassEmpty(cmp, x, b);
    }
  }

  lemma ClassSingle(cmp: Compare, x: Elem, e: Elem)
    ensures Class(cmp, x, [e]) == if Equivalent(cmp, x, e) then [e] else []
  {
  }

  // ---------------------------------------------------------------- before the equal ones

  /** A comparison function whose sign turns round with its arguments. */
  ghost predicate Antisymmetric(cmp: Compare, D: set<Elem>) {
    forall x, y :: x in D && y in D ==> (cmp(x, y) < 0 <==> cmp(y, x) > 0)
  }

  /** Into a sorted list, DL_INSERT_INORDER does what prepending and then sorting would do. */
  lemma InsertBeforeEqualsIsStableSort(cmp: Compare, s: seq<Elem>, e: Elem)
    requires Preorder(cmp, Nodes([e] + s)) && Antisymmetric(cmp, Nodes([e] + s)) && Sorted(cmp, s)
    ensures InsertAt(s, LowerBound(cmp, s, e), e) == Passes(cmp, [e] + s, 1)
  {
    var k := LowerBound(cmp, s, e);
    var r := InsertAt(s, k, e);
    hide Preorder, Antisymmetric, Sorted, InsertAt, LowerBound, Class, Passes;
    PrependElements(s, e, k);
    BelowStaysBelow(cmp, s, e, k);
    SortedLower(cmp, s, e, k);
    forall x | x in [e] + s ensures Class(cmp, x, r) == Class(cmp, x, [e] + s) {
      ClassLower(cmp, s, e, k, x);
    }
    assert (set x | x in [e] + s) == Nodes([e] + s);
    MergeSortCorrect(cmp, [e] + s);
    StableSortUnique(cmp, [e] + s, r, Passes(cmp, [e] + s, 1));
  }

  lemma PrependElements(s: seq<Elem>, e: Elem, k: nat)
    requires k <= |s|
    ensures multiset(InsertAt(s, k, e)) == multiset([e] + s)
  {
    assert s == s[..k] + s[k..];
  }

  lemma BelowStaysBelow(cmp: Compare, s: seq<Elem>, e: Elem, k: nat)
    requires Preorder(cmp, Nodes([e] + s)) && Antisymmetric(cmp, Nodes([e] + s)) && Sorted(cmp, s)
    requires k == LowerBound(cmp, s, e)
    ensures forall i :: 0 <= i < k ==> cmp(s[i], e) <= 0 && cmp(e, s[i]) > 0
    ensures forall i :: k <= i < |s| ==> cmp(e, s[i]) <= 0
  {
    LowerBoundMeaning(cmp, s, e);
    assert e in Nodes([e] + s) && forall i :: 0 <= i < |s| ==> s[i] in Nodes([e] + s);
    forall i | k <= i < |s| ensures cmp(e, s[i]) <= 0 {
      assert cmp(s[k], s[i]) <= 0 || i == k;
      assert cmp(e, s[k]) <= 0;
    }
  }

  lemma SortedLower(cmp: Compare, s: seq<Elem>, e: Elem, k: nat)
    requires Sorted(cmp, s) && k <= |s|
    requires forall i :: 0 <= i < k ==> cmp(s[i], e) <= 0
    requires forall i :: k <= i < |s| ==> cmp(e, s[i]) <= 0
    ensures Sorted(cmp, InsertAt(s, k, e))
  {
    hide InsertAt;
    var r := InsertAt(s, k, e);
    forall i, j | 0 <= i < j < |r| ensures cmp(r[i], r[j]) <= 0 {
      assert i != k ==> r[i] == s[if i < k then i else i - 1];
      assert j != k ==> r[j] == s[if j < k then j else j - 1];
    }
  }

  lemma NothingBefore(cmp: Compare, s: seq<Elem>, e: Elem, k: nat, x: Elem)
    requires Preorder(cmp, Nodes([e] + s)) && x in Nodes([e] + s) && k <= |s|
    requires forall i :: 0 <= i < k ==> cmp(e, s[i]) > 0
    ensures Equivalent(cmp, x, e) ==> Class(cmp, x, s[..k]) == []
  {
    hide Class, Preorder, Equivalent;
    if Equivalent(cmp, x, e) {
      forall i | 0 <= i < k ensures !Equivalent(cmp, x, s[..k][i]) {
        BelowIsNotEquivalent(cmp, Nodes([e] + s), x, e, s[i]);
      }
      ClassEmpty(cmp, x, s[..k]);
    }
  }

  lemma BelowIsNotEquivalent(cmp: Compare, D: set<Elem>, x: Elem, e: Elem, y: Elem)
    requires Preorder(cmp, D) && x in D && e in D && y in D
    requires Equivalent(cmp, x, e) && cmp(e, y) > 0
    ensures !Equivalent(cmp, x, y)
  {
    assert cmp(e, x) <= 0 && cmp(x, y) <= 0 ==> cmp(e, y) <= 0;
  }

  lemma ClassLower(cmp: Compare, s: seq<Elem>, e: Elem, k: nat, x: Elem)
    requires Preorder(cmp, Nodes([e] + s)) && x in Nodes([e] + s) && k <= |s|
    requires forall i :: 0 <= i < k ==> cmp(e, s[i]) > 0
    ensures Class(cmp, x, InsertAt(s, k, e)) == Class(cmp, x, [e] + s)
  {
    hide Class, Preorder;
    var a, b := s[..k], s[k..];
    NothingBefore(cmp, s, e, k, x);
    ClassAppend(cmp, x, a + [e], b);
    ClassAppend(cmp, x, a, [e]);
    ClassAppend(cmp, x, [e], a + b);
    ClassAppend(cmp, x, a, b);
    ClassSingle(cmp, x, e);
    assert a + b == s;
    assert Class(cmp, x, [e]) == [] || Class(cmp, x, a) == [];
  }
}
