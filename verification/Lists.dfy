/** Elements that sit on two doubly linked structures at once, and the in-place list
    algorithms of utlist.h over their prev/next links. */
module Lists {
  import opened Bits
  import opened StableSort

  /** A list element. utlist.h uses prev and next only; uthash.h calls those the application
      order and threads its bucket chains through hhPrev and hhNext. */
  class Elem {
    const key: seq<bv8>
    const value: nat
    var hashv: nat
    var prev: Elem?
    var next: Elem?
    var hhPrev: Elem?
    var hhNext: Elem?

    constructor (key: seq<bv8>, value: nat)
      ensures this.key == key && this.value == value
    {
      this.key, this.value := key, value;
      hashv, prev, next, hhPrev, hhNext := 0, null, null, null, null;
    }
  }

  type Compare = (Elem, Elem) -> int

  // ---------------------------------------------------------------- linked sequences

  ghost predicate Distinct(s: seq<Elem>) {
    forall i, j :: 0 <= i < j < |s| ==> s[i] != s[j]
  }

  ghost function Nodes(s: seq<Elem>): set<Elem> {
    set e | e in s
  }

  ghost function At(s: seq<Elem>, i: int): Elem? {
    if 0 <= i < |s| then s[i] else null
  }

  lemma DistinctAppend(a: seq<Elem>, b: seq<Elem>)
    requires Distinct(a) && Distinct(b) && Nodes(a) !! Nodes(b)
    ensures Distinct(a + b)
  {
    assert forall i :: 0 <= i < |a| ==> a[i] in Nodes(a);
    assert forall i :: 0 <= i < |b| ==> b[i] in Nodes(b);
  }

  function RemoveAt<T>(s: seq<T>, k: nat): (r: seq<T>)
    requires k < |s|
    ensures |r| == |s| - 1
    ensures forall i :: 0 <= i < k ==> r[i] == s[i]
    ensures forall i :: k <= i < |r| ==> r[i] == s[i + 1]
  {
    s[..k] + s[k + 1..]
  }

  lemma RemovedAt<T>(s: seq<T>, k: nat)
    requires k < |s|
    ensures RemoveAt(s, k) == s[..k] + s[k + 1..]
  {
  }

  /** The next pointers of s[lo..hi] follow the order of s. */
  ghost predicate NextLinked(s: seq<Elem>, lo: nat, hi: nat)
    reads s`next
  {
    forall i :: lo <= i < hi <= |s| ==> s[i].next == At(s, i + 1)
  }

  /** The list being built: out in order, with prev links throughout and next links up to
      the tail, whose own next pointer is still the old one. */
  ghost predicate Output(out: seq<Elem>, list: Elem?, tail: Elem?)
    reads out`prev, out`next
  {
    && Distinct(out)
    && list == At(out, 0) && tail == At(out, |out| - 1)
    && (forall i :: 0 <= i < |out| ==> out[i].prev == At(out, i - 1))
    && (forall i :: 0 <= i < |out| - 1 ==> out[i].next == At(out, i + 1))
  }

  ghost predicate Apart(s: seq<Elem>, lo: nat, hi: nat, out: seq<Elem>) {
    forall i :: lo <= i < hi <= |s| ==> s[i] !in out
  }

  // ---------------------------------------------------------------- one merge

  /** Appends e to the output list. */
  method Emit(e: Elem, list0: Elem?, tail: Elem?, ghost out: seq<Elem>) returns (list: Elem?)
    requires Output(out, list0, tail) && e !in out
    modifies e`prev, (if tail == null then {} else {tail})`next
    ensures Output(out + [e], list, e)
    ensures tail != null ==> tail.next == e
  {
    list := list0;
    if tail != null {
      tail.next := e;
    } else {
      list := e;
    }
    e.prev := tail;
    LongerOutput(out, e, list);
  }

  lemma LongerOutput(out: seq<Elem>, e: Elem, list: Elem)
    requires Distinct(out) && e !in out && list == (if out == [] then e else out[0])
    requires e.prev == At(out, |out| - 1) && (out != [] ==> out[|out| - 1].next == e)
    requires forall i :: 0 <= i < |out| ==> out[i].prev == At(out, i - 1)
    requires forall i :: 0 <= i < |out| - 1 ==> out[i].next == At(out, i + 1)
    ensures Output(out + [e], list, e)
  {
    var longer := out + [e];
    assert longer[|out|] == e && forall i :: 0 <= i < |out| ==> longer[i] == out[i];
  }

  lemma MergeTakesFirst(cmp: Compare, s: seq<Elem>, pi: nat, pe: nat, qi: nat, qe: nat)
    requires pi < pe <= qi <= qe <= |s| && (qi == qe || cmp(s[pi], s[qi]) <= 0)
    ensures Merge(cmp, s[pi..pe], s[qi..qe]) == [s[pi]] + Merge(cmp, s[pi + 1..pe], s[qi..qe])
  {
    assert s[pi..pe] == [s[pi]] + s[pi + 1..pe];
    if qi == qe {
      assert Merge(cmp, s[pi + 1..pe], s[qi..qe]) == s[pi + 1..pe];
    } else {
      assert s[pi..pe][1..] == s[pi + 1..pe];
    }
  }

  lemma MergeTakesSecond(cmp: Compare, s: seq<Elem>, pi: nat, pe: nat, qi: nat, qe: nat)
    requires pi <= pe <= qi < qe <= |s| && (pi == pe || cmp(s[pi], s[qi]) > 0)
    ensures Merge(cmp, s[pi..pe], s[qi..qe]) == [s[qi]] + Merge(cmp, s[pi..pe], s[qi + 1..qe])
  {
    assert s[qi..qe] == [s[qi]] + s[qi + 1..qe];
    if pi == pe {
      assert Merge(cmp, s[pi..pe], s[qi + 1..qe]) == s[qi + 1..qe];
    } else {
      assert s[qi..qe][1..] == s[qi + 1..qe];
    }
  }

  /** The state inside a merge: s[pi..mid] and s[qi..] are still waiting, linked as they
      were, and everything in out has left them. */
  ghost predicate Merging(s: seq<Elem>, pi: nat, mid: nat, qi: nat, out: seq<Elem>, list: Elem?, tail: Elem?)
    reads s`next, out`prev, out`next
  {
    && pi <= mid <= qi <= |s| && Distinct(s)
    && NextLinked(s, pi, mid) && NextLinked(s, qi, |s|)
    && Apart(s, pi, mid, out) && Apart(s, qi, |s|, out) && (forall e :: e in out ==> e in s)
    && Output(out, list, tail)
  }

  method EmitFirst(e: Elem, list0: Elem?, tail: Elem?,
      ghost s: seq<Elem>, ghost pi: nat, ghost mid: nat, ghost qi: nat, ghost out: seq<Elem>)
      returns (list: Elem?, p: Elem?)
    requires Merging(s, pi, mid, qi, out, list0, tail) && pi < mid && e == s[pi]
    modifies Nodes(s)`prev, Nodes(s)`next
    ensures Merging(s, pi + 1, mid, qi, out + [e], list, e) && p == At(s, pi + 1)
  {
    p := e.next;
    assert tail != null ==> tail in out;
    list := Emit(e, list0, tail, out);
  }

  method EmitSecond(e: Elem, list0: Elem?, tail: Elem?,
      ghost s: seq<Elem>, ghost pi: nat, ghost mid: nat, ghost qi: nat, ghost out: seq<Elem>)
      returns (list: Elem?, q: Elem?)
    requires Merging(s, pi, mid, qi, out, list0, tail) && qi < |s| && e == s[qi]
    modifies Nodes(s)`prev, Nodes(s)`next
    ensures Merging(s, pi, mid, qi + 1, out + [e], list, e) && q == At(s, qi + 1)
  {
    q := e.next;
    assert tail != null ==> tail in out;
    list := Emit(e, list0, tail, out);
  }

  /** The innermost loop of the sorts: merges the run of psize elements at p with the run of
      at most insize elements at q onto the output. `calls` counts the calls of cmp. */
  method MergeRuns(cmp: Compare, list0: Elem?, tail0: Elem?, p0: Elem, q0: Elem?, psize0: nat, insize: nat,
      ghost s: seq<Elem>, ghost out0: seq<Elem>, ghost lo: nat, ghost mid: nat, ghost end: nat)
      returns (list: Elem?, tail: Elem?, q: Elem?, ghost out: seq<Elem>, ghost calls: nat)
    requires lo < mid <= |s| && psize0 == mid - lo && p0 == s[lo] && q0 == At(s, mid)
    requires end == Min(mid + insize, |s|) && Merging(s, lo, mid, mid, out0, list0, tail0)
    modifies Nodes(s)`prev, Nodes(s)`next
    ensures out == out0 + Merge(cmp, s[lo..mid], s[mid..end])
    ensures q == At(s, end) && Merging(s, mid, mid, end, out, list, tail)
    ensures calls <= end - lo && (mid == |s| ==> calls == 0)
  {
    hide Merging, Merge;
    ghost var pi, qi := lo, mid;
    ghost var target := out0 + Merge(cmp, s[lo..mid], s[mid..end]);
    list, tail, q, out, calls := list0, tail0, q0, out0, 0;
    var p: Elem? := p0;
    var psize, qsize := psize0, insize;
    while psize != 0 || (qsize != 0 && q != null)
      invariant lo <= pi <= mid <= qi <= end && psize == mid - pi && qsize == insize - (qi - mid)
      invariant (pi < mid ==> p == s[pi]) && q == At(s, qi)
      invariant Merging(s, pi, mid, qi, out, list, tail)
      invariant out + Merge(cmp, s[pi..mid], s[qi..end]) == target
      invariant calls <= (pi - lo) + (qi - mid) && (mid == |s| ==> calls == 0)
      decreases psize + (end - qi)
    {
      var takeFirst: bool;
      if psize == 0 {
        takeFirst := false;
      } else if qsize == 0 || q == null {
        takeFirst := true;
      } else {
        takeFirst := cmp(p, q) <= 0;
        calls := calls + 1;
      }
      if takeFirst {
        MergeTakesFirst(cmp, s, pi, mid, qi, end);
        var e := p;
        list, p := EmitFirst(e, list, tail, s, pi, mid, qi, out);
        psize, pi, out, tail := psize - 1, pi + 1, out + [e], e;
      } else {
        MergeTakesSecond(cmp, s, pi, mid, qi, end);
        var e := q;
        list, q := EmitSecond(e, list, tail, s, pi, mid, qi, out);
        qsize, qi, out, tail := qsize - 1, qi + 1, out + [e], e;
      }
    }
  }

  // ---------------------------------------------------------------- one pass

  /** Walks over the run at p: at most insize elements. */
  method SplitRun(p: Elem, insize: nat, ghost s: seq<Elem>, ghost lo: nat) returns (q: Elem?, psize: nat)
    requires insize > 0 && lo < |s| && p == s[lo] && NextLinked(s, lo, |s|)
    ensures lo + psize == Min(lo + insize, |s|) && q == At(s, lo + psize)
  {
    q, psize := p, 0;
    for i := 0 to insize
      invariant psize == i && lo + i < |s| && q == At(s, lo + i)
    {
      psize := psize + 1;
      q := q.next;
      if q == null {
        return;
      }
    }
  }

  lemma PassStep(cmp: Compare, s: seq<Elem>, k: nat, lo: nat, mid: nat, end: nat)
    requires k > 0 && lo < |s| && mid == Min(lo + k, |s|) && end == Min(mid + k, |s|)
    ensures Pass(cmp, s[lo..], k) == Merge(cmp, s[lo..mid], s[mid..end]) + Pass(cmp, s[end..], k)
  {
    var t := s[lo..];
    var m, e := Min(k, |t|), Min(2 * k, |t|);
    assert t[..m] == s[lo..mid] && t[m..e] == s[mid..end] && t[e..] == s[end..];
  }

  /** The body of the middle loop: the pair of runs at p goes to the output. */
  method MergePair(cmp: Compare, list0: Elem?, tail0: Elem?, p0: Elem, insize: nat,
      ghost s: seq<Elem>, ghost out0: seq<Elem>, ghost lo: nat, ghost end: nat)
      returns (list: Elem?, tail: Elem?, p: Elem?, ghost out: seq<Elem>, ghost calls: nat)
    requires insize > 0 && lo < |s| && p0 == s[lo] && Merging(s, lo, lo, lo, out0, list0, tail0)
    requires end == Min(lo + 2 * insize, |s|)
    modifies Nodes(s)`prev, Nodes(s)`next
    ensures out + Pass(cmp, s[end..], insize) == out0 + Pass(cmp, s[lo..], insize)
    ensures p == At(s, end) && Merging(s, end, end, end, out, list, tail)
    ensures calls <= end - lo && (|s| - lo <= insize ==> calls == 0)
  {
    hide Pass, Merge, Merging;
    WaitingLinked(s, lo, out0, list0, tail0);
    var q, psize := SplitRun(p0, insize, s, lo);
    ghost var mid := lo + psize;
    StartMerge(s, lo, mid, out0, list0, tail0);
    list, tail, p, out, calls := MergeRuns(cmp, list0, tail0, p0, q, psize, insize, s, out0, lo, mid, end);
    EndMerge(s, mid, end, out, list, tail);
    PassStep(cmp, s, insize, lo, mid, end);
    Regroup(out0, Merge(cmp, s[lo..mid], s[mid..end]), Pass(cmp, s[end..], insize));
  }

  lemma WaitingLinked(s: seq<Elem>, lo: nat, out: seq<Elem>, list: Elem?, tail: Elem?)
    requires Merging(s, lo, lo, lo, out, list, tail)
    ensures NextLinked(s, lo, |s|)
  {
  }

  lemma StartMerge(s: seq<Elem>, lo: nat, mid: nat, out: seq<Elem>, list: Elem?, tail: Elem?)
    requires Merging(s, lo, lo, lo, out, list, tail) && lo <= mid <= |s|
    ensures Merging(s, lo, mid, mid, out, list, tail)
  {
  }

  lemma EndMerge(s: seq<Elem>, mid: nat, end: nat, out: seq<Elem>, list: Elem?, tail: Elem?)
    requires Merging(s, mid, mid, end, out, list, tail)
    ensures Merging(s, end, end, end, out, list, tail)
  {
  }

  lemma Regroup<T>(a: seq<T>, b: seq<T>, c: seq<T>)
    ensures a + b + c == a + (b + c)
  {
  }

  /** One pass over the list: the output is linked, except that the last node's next pointer
      is left to the caller. */
  method MergePass(cmp: Compare, head: Elem, insize: nat, ghost s: seq<Elem>)
      returns (list: Elem?, tail: Elem?, nmerges: nat, ghost calls: nat)
    requires insize > 0 && s != [] && head == s[0] && Distinct(s) && NextLinked(s, 0, |s|)
    modifies Nodes(s)`prev, Nodes(s)`next
    ensures Output(Pass(cmp, s, insize), list, tail)
    ensures nmerges <= 1 <==> |s| <= 2 * insize
    ensures calls <= |s| && (|s| <= insize ==> calls == 0)
  {
    hide Pass;
    ghost var lo, out := 0, [];
    var p: Elem? := head;
    list, tail, nmerges, calls := null, null, 0, 0;
    assert s[0..] == s && out + Pass(cmp, s, insize) == Pass(cmp, s, insize);
    while p != null
      invariant lo <= |s| && p == At(s, lo) && Merging(s, lo, lo, lo, out, list, tail)
      invariant out + Pass(cmp, s[lo..], insize) == Pass(cmp, s, insize)
      invariant if nmerges == 0 then lo == 0 else if nmerges == 1 then lo == Min(2 * insize, |s|) else lo > 2 * insize
      invariant calls <= lo && (|s| <= insize ==> calls == 0)
      decreases |s| - lo
    {
      nmerges := nmerges + 1;
      ghost var more;
      ghost var end := Min(lo + 2 * insize, |s|);
      list, tail, p, out, more := MergePair(cmp, list, tail, p, insize, s, out, lo, end);
      calls, lo := calls + more, end;
    }
    PassOfNothing(cmp, s, insize);
    assert out == Pass(cmp, s, insize);
  }

  lemma PassOfNothing(cmp: Compare, s: seq<Elem>, k: nat)
    requires k > 0
    ensures s[|s|..] == [] && Pass(cmp, s[|s|..], k) == []
  {
  }

  // ---------------------------------------------------------------- DL_SORT

  /** The doubly linked list of utlist.h: head.prev is the tail, tail.next is null, and
      prev and next are inverse everywhere else. */
  ghost predicate DlShape(head: Elem?, s: seq<Elem>)
    reads s`prev, s`next
  {
    && Distinct(s) && head == At(s, 0) && NextLinked(s, 0, |s|)
    && forall i :: 0 <= i < |s| ==> s[i].prev == At(s, if i == 0 then |s| - 1 else i - 1)
  }

  /** The shape in plain terms: next leads through s and ends with null; prev leads back, and
      from the head to the tail. */
  lemma DlShapeMeans(head: Elem?, s: seq<Elem>)
    requires DlShape(head, s)
    ensures head == null <==> s == []
    ensures s != [] ==> head == s[0] && s[|s| - 1].next == null && s[0].prev == s[|s| - 1]
    ensures forall i :: 0 <= i < |s| - 1 ==> s[i].next == s[i + 1]
    ensures forall i :: 0 < i < |s| ==> s[i].prev == s[i - 1]
    ensures forall i, j :: 0 <= i < j < |s| ==> s[i] != s[j]
  {
    if s != [] {
      assert s[|s| - 1].next == At(s, |s|) && s[0].prev == At(s, |s| - 1);
    }
    forall i | 0 <= i < |s| - 1 ensures s[i].next == s[i + 1] {
      assert s[i].next == At(s, i + 1);
    }
    forall i | 0 < i < |s| ensures s[i].prev == s[i - 1] {
      assert s[i].prev == At(s, i - 1);
    }
  }

  lemma PassNodes(cmp: Compare, s: seq<Elem>, k: nat)
    requires k > 0
    ensures Nodes(Pass(cmp, s, k)) == Nodes(s)
  {
    PassElements(cmp, s, k);
    var r := Pass(cmp, s, k);
    assert forall e :: e in r <==> e in multiset(r);
    assert forall e :: e in s <==> e in multiset(s);
  }

  /** A pass of DL_SORT: the merges, then the tail is linked in. */
  method DlPass(cmp: Compare, list0: Elem, insize: nat, ghost s: seq<Elem>)
      returns (list: Elem?, nmerges: nat, ghost calls: nat)
    requires insize > 0 && s != [] && DlShape(list0, s)
    modifies Nodes(s)`prev, Nodes(s)`next
    ensures DlShape(list, Pass(cmp, s, insize)) && list != null
    ensures nmerges <= 1 <==> |s| <= 2 * insize
    ensures calls <= |s| && (|s| <= insize ==> calls == 0)
  {
    hide Pass, Output, DlShape;
    PassNodes(cmp, s, insize);
    DlHead(list0, s);
    var tail;
    list, tail, nmerges, calls := MergePass(cmp, list0, insize, s);
    CloseDl(list, tail, Pass(cmp, s, insize));
  }

  lemma DlHead(list: Elem?, s: seq<Elem>)
    requires DlShape(list, s) && s != []
    ensures list == s[0] && Distinct(s) && NextLinked(s, 0, |s|)
  {
  }

  method CloseDl(list: Elem?, tail: Elem?, ghost r: seq<Elem>)
    requires Output(r, list, tail) && r != []
    modifies Nodes(r)`prev, Nodes(r)`next
    ensures DlShape(list, r) && list != null
  {
    assert list == r[0] && tail == r[|r| - 1];
    list.prev := tail;
    tail.next := null;
  }

  lemma PowStep(n: nat)
    ensures Pow2(0) == 1 && Pow2(n + 1) == 2 * Pow2(n)
  {
  }

  /** The O(n log n) bound: every pass that compares anything starts with runs shorter than
      the list, and a pass never calls cmp more often than the list is long. */
  lemma CallsBound(calls: nat, more: nat, passes: nat, insize: nat, n: nat)
    requires calls <= passes * n && insize == Pow2(passes)
    requires more <= n && (n <= insize ==> more == 0) && (passes > 0 ==> insize < n)
    ensures calls + more <= CeilLog2(n) * n && calls + more <= (passes + 1) * n
  {
    assert (passes + 1) * n == passes * n + n;
    if insize < n {
      BelowLog(passes, n);
      ProductMonotone(passes + 1, CeilLog2(n), n);
    }
  }

  lemma PassesStep(cmp: Compare, s: seq<Elem>, k: nat)
    requires k > 0
    ensures Passes(cmp, s, k) == if |s| <= 2 * k then Pass(cmp, s, k) else Passes(cmp, Pass(cmp, s, k), 2 * k)
  {
  }

  /** DL_SORT: the nodes are relinked in the one stable sorted order there is. */
  method DlSort(cmp: Compare, list0: Elem?, ghost s: seq<Elem>) returns (list: Elem?, ghost calls: nat)
    requires DlShape(list0, s)
    modifies Nodes(s)`prev, Nodes(s)`next
    ensures DlShape(list, Passes(cmp, s, 1))
    ensures Preorder(cmp, Nodes(s)) ==> IsStableSort(cmp, s, Passes(cmp, s, 1))
    ensures calls <= CeilLog2(|s|) * |s|
  {
    hide Pass, Passes, Pow2, CeilLog2, DlShape, Preorder, IsStableSort;
    if Preorder(cmp, Nodes(s)) {
      MergeSortCorrect(cmp, s);
    }
    list, calls := list0, 0;
    EmptyList(cmp, list0, s);
    if list != null {
      var insize, looping := 1, true;
      ghost var cur, passes := s, 0;
      PowStep(0);
      while looping
        invariant DlShape(list, cur) && |cur| == |s| && Nodes(cur) == Nodes(s) && (looping ==> list != null)
        invariant insize > 0 && insize == Pow2(passes)
        invariant looping ==> Passes(cmp, cur, insize) == Passes(cmp, s, 1) && (passes > 0 ==> insize < |s|)
        invariant looping ==> calls <= passes * |s|
        invariant !looping ==> cur == Passes(cmp, s, 1) && calls <= CeilLog2(|s|) * |s|
        decreases looping, |s| - insize
      {
        PassNodes(cmp, cur, insize);
        PassesStep(cmp, cur, insize);
        PowStep(passes);
        var nmerges;
        ghost var more;
        list, nmerges, more := DlPass(cmp, list, insize, cur);
        CallsBound(calls, more, passes, insize, |s|);
        cur := Pass(cmp, cur, insize);
        calls, passes := calls + more, passes + 1;
        if nmerges <= 1 {
          looping := false;
        }
        insize := 2 * insize;
      }
    }
  }

  lemma EmptyList(cmp: Compare, list: Elem?, s: seq<Elem>)
    requires DlShape(list, s)
    ensures list == null <==> s == []
    ensures s == [] ==> Passes(cmp, s, 1) == s
  {
  }
}
