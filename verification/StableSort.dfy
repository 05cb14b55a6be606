/** What the merge sorts of utlist.h and uthash.h compute: bottom-up passes of stable
    merges, and why the outcome is the one stable sorted arrangement of the input. */
module StableSort {

  // ---------------------------------------------------------------- the algorithm on sequences

  function Min(a: nat, b: nat): nat { if a < b then a else b }

  /** On ties the element of the first run goes first. */
  function Merge<T>(cmp: (T, T) -> int, a: seq<T>, b: seq<T>): (r: seq<T>)
    ensures |r| == |a| + |b|
  {
    if a == [] then b
    else if b == [] then a
    else if cmp(a[0], b[0]) <= 0 then [a[0]] + Merge(cmp, a[1..], b)
    else [b[0]] + Merge(cmp, a, b[1..])
  }

  /** One pass: merge the runs of length k pairwise. */
  function Pass<T>(cmp: (T, T) -> int, s: seq<T>, k: nat): (r: seq<T>)
    requires k > 0
    ensures |r| == |s|
  {
    if s == [] then []
    else
      var m, e := Min(k, |s|), Min(2 * k, |s|);
      Merge(cmp, s[..m], s[m..e]) + Pass(cmp, s[e..], k)
  }

  /** All passes, from runs of length k until a single merge covers the list. */
  function Passes<T>(cmp: (T, T) -> int, s: seq<T>, k: nat): (r: seq<T>)
    requires k > 0
    ensures |r| == |s|
    decreases |s| - k
  {
    if |s| <= 2 * k then Pass(cmp, s, k) else Passes(cmp, Pass(cmp, s, k), 2 * k)
  }

  // ---------------------------------------------------------------- the specification

  /** cmp orders D totally: what a comparison function must do for a sort to make sense. */
  ghost predicate Preorder<T>(cmp: (T, T) -> int, D: set<T>) {
    && (forall x, y :: x in D && y in D ==> cmp(x, y) <= 0 || cmp(y, x) <= 0)
    && (forall x, y, z :: x in D && y in D && z in D && cmp(x, y) <= 0 && cmp(y, z) <= 0 ==> cmp(x, z) <= 0)
  }

  ghost predicate Sorted<T>(cmp: (T, T) -> int, s: seq<T>) {
    forall i, j :: 0 <= i < j < |s| ==> cmp(s[i], s[j]) <= 0
  }

  predicate Equivalent<T>(cmp: (T, T) -> int, x: T, y: T) {
    cmp(x, y) <= 0 && cmp(y, x) <= 0
  }

  /** The elements of s that compare equal to x, in the order s has them. */
  function Class<T>(cmp: (T, T) -> int, x: T, s: seq<T>): seq<T> {
    if s == [] then []
    else (if Equivalent(cmp, x, s[0]) then [s[0]] else []) + Class(cmp, x, s[1..])
  }

  ghost predicate Within<T>(s: seq<T>, D: set<T>) {
    forall i :: 0 <= i < |s| ==> s[i] in D
  }

  /** r holds the elements of s, sorted, and equal elements keep the order they have in s. */
  ghost predicate IsStableSort<T>(cmp: (T, T) -> int, s: seq<T>, r: seq<T>) {
    && multiset(r) == multiset(s)
    && Sorted(cmp, r)
    && forall x :: x in s ==> Class(cmp, x, r) == Class(cmp, x, s)
  }

  // ---------------------------------------------------------------- classes

  lemma {:induction false} ClassAppend<T>(cmp: (T, T) -> int, x: T, a: seq<T>, b: seq<T>)
    ensures Class(cmp, x, a + b) == Class(cmp, x, a) + Class(cmp, x, b)
  {
    hide Equivalent;
    if a == [] {
      assert a + b == b;
    } else {
      ClassAppend(cmp, x, a[1..], b);
      var first := if Equivalent(cmp, x, a[0]) then [a[0]] else [];
      assert (a + b)[0] == a[0] && (a + b)[1..] == a[1..] + b;
      assert first + (Class(cmp, x, a[1..]) + Class(cmp, x, b)) == (first + Class(cmp, x, a[1..])) + Class(cmp, x, b);
    }
  }

  lemma {:induction false} ClassEmpty<T>(cmp: (T, T) -> int, x: T, s: seq<T>)
    requires forall i :: 0 <= i < |s| ==> !Equivalent(cmp, x, s[i])
    ensures Class(cmp, x, s) == []
  {
    if s != [] {
      ClassEmpty(cmp, x, s[1..]);
    }
  }

  // ---------------------------------------------------------------- merging

  lemma MultisetCons<T>(s: seq<T>)
    requires s != []
    ensures multiset(s) == multiset{s[0]} + multiset(s[1..])
  {
    assert s == [s[0]] + s[1..];
  }

  lemma {:induction false} MergeElements<T>(cmp: (T, T) -> int, a: seq<T>, b: seq<T>)
    ensures multiset(Merge(cmp, a, b)) == multiset(a) + multiset(b)
  {
    if a != [] && b != [] {
      var r := Merge(cmp, a, b);
      MultisetCons(r);
      if cmp(a[0], b[0]) <= 0 {
        MultisetCons(a);
        assert r[1..] == Merge(cmp, a[1..], b);
        MergeElements(cmp, a[1..], b);
      } else {
        MultisetCons(b);
        assert r[1..] == Merge(cmp, a, b[1..]);
        MergeElements(cmp, a, b[1..]);
      }
    }
  }

  lemma SortedCons<T>(cmp: (T, T) -> int, x: T, s: seq<T>)
    requires Sorted(cmp, s) && forall y :: y in s ==> cmp(x, y) <= 0
    ensures Sorted(cmp, [x] + s)
  {
  }

  lemma {:induction false} MergeSorted<T>(cmp: (T, T) -> int, a: seq<T>, b: seq<T>, D: set<T>)
    requires Preorder(cmp, D) && Within(a, D) && Within(b, D)
    requires Sorted(cmp, a) && Sorted(cmp, b)
    ensures Sorted(cmp, Merge(cmp, a, b))
  {
    if a != [] && b != [] {
      if cmp(a[0], b[0]) <= 0 {
        MergeSorted(cmp, a[1..], b, D);
        var r := Merge(cmp, a[1..], b);
        forall y | y in r ensures cmp(a[0], y) <= 0 {
          MergeElements(cmp, a[1..], b);
          assert y in multiset(r);
          assert y in a[1..] || y in b;
        }
        SortedCons(cmp, a[0], r);
      } else {
        MergeSorted(cmp, a, b[1..], D);
        var r := Merge(cmp, a, b[1..]);
        forall y | y in r ensures cmp(b[0], y) <= 0 {
          MergeElements(cmp, a, b[1..]);
          assert y in multiset(r);
          assert y in a || y in b[1..];
        }
        SortedCons(cmp, b[0], r);
      }
    }
  }

  lemma ClassCons<T>(cmp: (T, T) -> int, x: T, s: seq<T>)
    requires s != []
    ensures Class(cmp, x, s) == Class(cmp, x, [s[0]]) + Class(cmp, x, s[1..])
    ensures !Equivalent(cmp, x, s[0]) ==> Class(cmp, x, [s[0]]) == []
  {
    ClassAppend(cmp, x, [s[0]], s[1..]);
    assert s == [s[0]] + s[1..];
  }

  lemma NothingBelow<T>(cmp: (T, T) -> int, a: seq<T>, b: T, x: T, D: set<T>)
    requires Preorder(cmp, D) && Within(a, D) && b in D && x in D
    requires Sorted(cmp, a) && a != [] && cmp(a[0], b) > 0 && Equivalent(cmp, x, b)
    ensures Class(cmp, x, a) == []
  {
    forall i | 0 <= i < |a| ensures !Equivalent(cmp, x, a[i]) {
      assert cmp(a[0], a[i]) <= 0 || i == 0;
    }
    ClassEmpty(cmp, x, a);
  }

  lemma {:induction false} MergeStable<T>(cmp: (T, T) -> int, a: seq<T>, b: seq<T>, x: T, D: set<T>)
    requires Preorder(cmp, D) && Within(a, D) && Within(b, D) && x in D
    requires Sorted(cmp, a)
    ensures Class(cmp, x, Merge(cmp, a, b)) == Class(cmp, x, a) + Class(cmp, x, b)
  {
    hide Preorder, Equivalent, Class, Merge, Sorted;
    if a == [] || b == [] {
      MergeOne(cmp, a, b, x);
    } else if cmp(a[0], b[0]) <= 0 {
      MergeTakes(cmp, a, b);
      SortedTail(cmp, a);
      MergeStable(cmp, a[1..], b, x, D);
      ClassCons(cmp, x, Merge(cmp, a, b));
      ClassCons(cmp, x, a);
    } else {
      MergeTakes(cmp, a, b);
      MergeStable(cmp, a, b[1..], x, D);
      ClassCons(cmp, x, Merge(cmp, a, b));
      ClassCons(cmp, x, b);
      if Equivalent(cmp, x, b[0]) {
        NothingBelow(cmp, a, b[0], x, D);
      }
    }
  }

  lemma MergeOne<T>(cmp: (T, T) -> int, a: seq<T>, b: seq<T>, x: T)
    requires a == [] || b == []
    ensures Class(cmp, x, Merge(cmp, a, b)) == Class(cmp, x, a) + Class(cmp, x, b)
  {
  }

  lemma MergeTakes<T>(cmp: (T, T) -> int, a: seq<T>, b: seq<T>)
    requires a != [] && b != []
    ensures var r := Merge(cmp, a, b);
      if cmp(a[0], b[0]) <= 0 then r[0] == a[0] && r[1..] == Merge(cmp, a[1..], b)
      else r[0] == b[0] && r[1..] == Merge(cmp, a, b[1..])
  {
  }

  lemma SortedTail<T>(cmp: (T, T) -> int, s: seq<T>)
    requires Sorted(cmp, s) && s != []
    ensures Sorted(cmp, s[1..])
  {
  }

  // ---------------------------------------------------------------- passes

  /** Cut into pieces of length k (the last may be shorter), every piece is sorted. */
  ghost predicate RunsSorted<T>(cmp: (T, T) -> int, s: seq<T>, k: nat)
    requires k > 0
  {
    s == [] || (Sorted(cmp, s[..Min(k, |s|)]) && RunsSorted(cmp, s[Min(k, |s|)..], k))
  }

  lemma {:induction false} SingletonRuns<T>(cmp: (T, T) -> int, s: seq<T>)
    ensures RunsSorted(cmp, s, 1)
  {
    if s != [] {
      SingletonRuns(cmp, s[1..]);
    }
  }

  lemma {:induction false} PassElements<T>(cmp: (T, T) -> int, s: seq<T>, k: nat)
    requires k > 0
    ensures multiset(Pass(cmp, s, k)) == multiset(s)
  {
    hide Merge;
    if s != [] {
      var m, e := Min(k, |s|), Min(2 * k, |s|);
      PassElements(cmp, s[e..], k);
      MergeElements(cmp, s[..m], s[m..e]);
      assert s == s[..m] + s[m..e] + s[e..];
    }
  }

  /** The two runs merged first, and what remains after them. */
  lemma FirstRuns<T>(cmp: (T, T) -> int, s: seq<T>, k: nat, m: nat, e: nat)
    requires k > 0 && s != [] && RunsSorted(cmp, s, k) && m == Min(k, |s|) && e == Min(2 * k, |s|)
    ensures Sorted(cmp, s[..m]) && Sorted(cmp, s[m..e]) && RunsSorted(cmp, s[e..], k)
  {
    hide Sorted;
    var rest := s[m..];
    if rest == [] {
      NothingSorted(cmp, s[m..e]);
      assert s[e..] == [];
    } else {
      assert s[m..e] == rest[..Min(k, |rest|)] && s[e..] == rest[Min(k, |rest|)..];
    }
  }

  lemma NothingSorted<T>(cmp: (T, T) -> int, s: seq<T>)
    requires s == []
    ensures Sorted(cmp, s)
  {
  }

  lemma {:induction false} PassRuns<T>(cmp: (T, T) -> int, s: seq<T>, k: nat, D: set<T>)
    requires k > 0 && Preorder(cmp, D) && Within(s, D) && RunsSorted(cmp, s, k)
    ensures RunsSorted(cmp, Pass(cmp, s, k), 2 * k)
  {
    if s != [] {
      var m, e := Min(k, |s|), Min(2 * k, |s|);
      FirstRuns(cmp, s, k, m, e);
      MergeSorted(cmp, s[..m], s[m..e], D);
      PassRuns(cmp, s[e..], k, D);
      var first, r := Merge(cmp, s[..m], s[m..e]), Pass(cmp, s, k);
      assert r[..Min(2 * k, |r|)] == first && r[Min(2 * k, |r|)..] == Pass(cmp, s[e..], k);
    }
  }

  lemma ThreeParts<T>(s: seq<T>, m: nat, e: nat)
    requires m <= e <= |s|
    ensures s == s[..m] + s[m..e] + s[e..]
  {
  }

  lemma ClassSplit<T>(cmp: (T, T) -> int, x: T, s: seq<T>, m: nat, e: nat)
    requires m <= e <= |s|
    ensures Class(cmp, x, s) == Class(cmp, x, s[..m]) + Class(cmp, x, s[m..e]) + Class(cmp, x, s[e..])
  {
    hide Class;
    ThreeParts(s, m, e);
    ClassAppend(cmp, x, s[..m], s[m..e]);
    ClassAppend(cmp, x, s[..m] + s[m..e], s[e..]);
  }

  lemma {:induction false} PassStable<T>(cmp: (T, T) -> int, s: seq<T>, k: nat, x: T, D: set<T>)
    requires k > 0 && Preorder(cmp, D) && Within(s, D) && RunsSorted(cmp, s, k) && x in D
    ensures Class(cmp, x, Pass(cmp, s, k)) == Class(cmp, x, s)
  {
    hide Class, Merge, Preorder, Sorted, RunsSorted;
    if s == [] {
      assert Pass(cmp, s, k) == s;
    } else {
      var m, e := Min(k, |s|), Min(2 * k, |s|);
      FirstRuns(cmp, s, k, m, e);
      MergeStable(cmp, s[..m], s[m..e], x, D);
      PassStable(cmp, s[e..], k, x, D);
      ClassAppend(cmp, x, Merge(cmp, s[..m], s[m..e]), Pass(cmp, s[e..], k));
      ClassSplit(cmp, x, s, m, e);
    }
  }

  lemma {:induction false} PassesElements<T>(cmp: (T, T) -> int, s: seq<T>, k: nat)
    requires k > 0
    ensures multiset(Passes(cmp, s, k)) == multiset(s)
    decreases |s| - k
  {
    PassElements(cmp, s, k);
    if |s| > 2 * k {
      PassesElements(cmp, Pass(cmp, s, k), 2 * k);
    }
  }

  lemma WithinSame<T>(s: seq<T>, r: seq<T>, D: set<T>)
    requires multiset(r) == multiset(s) && Within(s, D)
    ensures Within(r, D)
  {
    forall i | 0 <= i < |r| ensures r[i] in D {
      assert r[i] in multiset(r);
      assert r[i] in s;
    }
  }

  lemma {:induction false} PassesSort<T>(cmp: (T, T) -> int, s: seq<T>, k: nat, D: set<T>)
    requires k > 0 && Preorder(cmp, D) && Within(s, D) && RunsSorted(cmp, s, k)
    ensures Sorted(cmp, Passes(cmp, s, k))
    ensures forall x :: x in D ==> Class(cmp, x, Passes(cmp, s, k)) == Class(cmp, x, s)
    decreases |s| - k
  {
    var r := Pass(cmp, s, k);
    PassRuns(cmp, s, k, D);
    forall x | x in D ensures Class(cmp, x, r) == Class(cmp, x, s) {
      PassStable(cmp, s, k, x, D);
    }
    if |s| > 2 * k {
      PassElements(cmp, s, k);
      WithinSame(s, r, D);
      PassesSort(cmp, r, 2 * k, D);
    } else {
      assert r[..Min(2 * k, |r|)] == r;
    }
  }

  /** The bottom-up merge sort is a stable sort. */
  lemma MergeSortCorrect<T>(cmp: (T, T) -> int, s: seq<T>)
    requires Preorder(cmp, set x | x in s)
    ensures IsStableSort(cmp, s, Passes(cmp, s, 1))
  {
    SingletonRuns(cmp, s);
    PassesElements(cmp, s, 1);
    PassesSort(cmp, s, 1, set x | x in s);
  }

  // ---------------------------------------------------------------- uniqueness

  lemma ClassHead<T>(cmp: (T, T) -> int, x: T, s: seq<T>)
    requires s != [] && Equivalent(cmp, x, s[0])
    ensures Class(cmp, x, s) != [] && Class(cmp, x, s)[0] == s[0]
  {
  }

  lemma {:induction false} ClassMember<T>(cmp: (T, T) -> int, x: T, s: seq<T>, y: T)
    requires y in Class(cmp, x, s)
    ensures y in s
  {
    if s != [] && !(Equivalent(cmp, x, s[0]) && y == s[0]) {
      ClassMember(cmp, x, s[1..], y);
    }
  }

  lemma SameTails<T>(cmp: (T, T) -> int, x: T, r: seq<T>, t: seq<T>)
    requires r != [] && t != [] && r[0] == t[0] && Class(cmp, x, r) == Class(cmp, x, t)
    ensures Class(cmp, x, r[1..]) == Class(cmp, x, t[1..])
  {
    if Equivalent(cmp, x, r[0]) {
      assert Class(cmp, x, r)[1..] == Class(cmp, x, r[1..]);
      assert Class(cmp, x, t)[1..] == Class(cmp, x, t[1..]);
    } else {
      assert Class(cmp, x, r) == Class(cmp, x, r[1..]);
      assert Class(cmp, x, t) == Class(cmp, x, t[1..]);
    }
  }

  lemma SameHeads<T>(cmp: (T, T) -> int, r: seq<T>, t: seq<T>, D: set<T>)
    requires Preorder(cmp, D) && Within(r, D) && Within(t, D) && Sorted(cmp, r) && Sorted(cmp, t)
    requires forall x :: x in D ==> Class(cmp, x, r) == Class(cmp, x, t)
    requires r != []
    ensures t != [] && r[0] == t[0]
  {
    hide Class;
    ClassHead(cmp, r[0], r);
    ClassMember(cmp, r[0], t, r[0]);
    ClassHead(cmp, t[0], t);
    ClassMember(cmp, t[0], r, t[0]);
    assert Equivalent(cmp, r[0], t[0]);
    ClassHead(cmp, r[0], t);
  }

  lemma {:induction false} SameClassesSame<T>(cmp: (T, T) -> int, r: seq<T>, t: seq<T>, D: set<T>)
    requires Preorder(cmp, D) && Within(r, D) && Within(t, D) && Sorted(cmp, r) && Sorted(cmp, t)
    requires forall x :: x in D ==> Class(cmp, x, r) == Class(cmp, x, t)
    ensures r == t
  {
    hide Preorder, Class;
    if r != [] {
      SameHeads(cmp, r, t, D);
      forall x | x in D ensures Class(cmp, x, r[1..]) == Class(cmp, x, t[1..]) {
        SameTails(cmp, x, r, t);
      }
      SameClassesSame(cmp, r[1..], t[1..], D);
      assert r == [r[0]] + r[1..] && t == [t[0]] + t[1..];
    } else if t != [] {
      SameHeads(cmp, t, r, D);
    }
  }

  /** A list has only one stable sort, so any two ways of computing it agree. */
  lemma StableSortUnique<T>(cmp: (T, T) -> int, s: seq<T>, r: seq<T>, t: seq<T>)
    requires Preorder(cmp, set x | x in s)
    requires IsStableSort(cmp, s, r) && IsStableSort(cmp, s, t)
    ensures r == t
  {
    var D := set x | x in s;
    WithinSame(s, r, D);
    WithinSame(s, t, D);
    SameClassesSame(cmp, r, t, D);
  }

  // ---------------------------------------------------------------- in plain terms

  lemma {:induction false} ClassPlaces<T>(cmp: (T, T) -> int, x: T, s: seq<T>, p: nat, q: nat) returns (a: nat, b: nat)
    requires p < q < |s| && Equivalent(cmp, x, s[p]) && Equivalent(cmp, x, s[q])
    ensures a < b < |Class(cmp, x, s)| && Class(cmp, x, s)[a] == s[p] && Class(cmp, x, s)[b] == s[q]
  {
    hide Equivalent;
    var more := if Equivalent(cmp, x, s[0]) then 1 else 0;
    if p > 0 {
      a, b := ClassPlaces(cmp, x, s[1..], p - 1, q - 1);
      a, b := a + more, b + more;
    } else {
      b := ClassPlace(cmp, x, s[1..], q - 1);
      a, b := 0, b + 1;
    }
  }

  lemma {:induction false} ClassPlace<T>(cmp: (T, T) -> int, x: T, s: seq<T>, q: nat) returns (b: nat)
    requires q < |s| && Equivalent(cmp, x, s[q])
    ensures b < |Class(cmp, x, s)| && Class(cmp, x, s)[b] == s[q]
  {
    hide Equivalent;
    if q == 0 {
      b := 0;
    } else {
      b := ClassPlace(cmp, x, s[1..], q - 1);
      b := if Equivalent(cmp, x, s[0]) then b + 1 else b;
    }
  }

  lemma {:induction false} ClassNoRepeats<T>(cmp: (T, T) -> int, x: T, s: seq<T>)
    requires forall i, j :: 0 <= i < j < |s| ==> s[i] != s[j]
    ensures forall a, b :: 0 <= a < b < |Class(cmp, x, s)| ==> Class(cmp, x, s)[a] != Class(cmp, x, s)[b]
  {
    hide Equivalent;
    if s != [] {
      ClassNoRepeats(cmp, x, s[1..]);
      if s[0] in Class(cmp, x, s[1..]) {
        ClassMember(cmp, x, s[1..], s[0]);
      }
    }
  }

  lemma TiesKeepOrder<T>(cmp: (T, T) -> int, s: seq<T>, r: seq<T>, p: nat, q: nat, i: nat, j: nat)
    requires IsStableSort(cmp, s, r) && forall i, j :: 0 <= i < j < |s| ==> s[i] != s[j]
    requires p < q < |s| && i < |r| && j < |r| && r[i] == s[p] && r[j] == s[q]
    requires cmp(s[p], s[p]) <= 0 && cmp(s[p], s[q]) <= 0 && cmp(s[q], s[p]) <= 0
    ensures i < j
  {
    hide Class, Sorted;
    var a, b := ClassPlaces(cmp, s[p], s, p, q);
    ClassNoRepeats(cmp, s[p], s);
    if j < i {
      var a', b' := ClassPlaces(cmp, s[p], r, j, i);
    }
  }

  /** What the passes do to distinct elements, for every comparison function that orders them
      totally: the same elements, none before a smaller one, and of two that compare equal the
      one that came first still does. */
  lemma PassesSortStably<T>(cmp: (T, T) -> int, s: seq<T>)
    requires forall x, y :: x in s && y in s ==> cmp(x, y) <= 0 || cmp(y, x) <= 0
    requires forall x, y, z :: x in s && y in s && z in s && cmp(x, y) <= 0 && cmp(y, z) <= 0 ==> cmp(x, z) <= 0
    requires forall i, j :: 0 <= i < j < |s| ==> s[i] != s[j]
    ensures var r := Passes(cmp, s, 1);
      && multiset(r) == multiset(s)
      && (forall i, j :: 0 <= i < j < |r| ==> cmp(r[i], r[j]) <= 0)
      && (forall p, q, i, j :: 0 <= p < q < |s| && 0 <= i < |r| && 0 <= j < |r| ==>
        (r[i] == s[p] && r[j] == s[q] && cmp(s[p], s[q]) <= 0 && cmp(s[q], s[p]) <= 0 ==> i < j))
  {
    hide Passes;
    MergeSortCorrect(cmp, s);
    var r := Passes(cmp, s, 1);
    forall p, q, i, j | 0 <= p < q < |s| && 0 <= i < |r| && 0 <= j < |r| && r[i] == s[p] && r[j] == s[q]
      && cmp(s[q], s[p]) <= 0 && cmp(s[p], s[q]) <= 0
      ensures i < j
    {
      TiesKeepOrder(cmp, s, r, p, q, i, j);
    }
  }
}
