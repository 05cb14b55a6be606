/** Substring search of utstring.h: the Knuth-Morris-Pratt table with the strong
    failure rule, searches from either end, and the start-position wrappers. */
module Kmp {
  import opened Sequences

  // ---------------------------------------------------------------- the table's meaning

  /** The first k characters of p[..i] are also its last k, and k < i. */
  predicate Border(p: string, i: nat, k: int) {
    0 <= k < i <= |p| && p[..k] == p[i - k..i]
  }

  /** A position worth falling back to after a mismatch at i. Inside the needle the next
      character must also differ from p[i]; at the end of the needle any border will do. */
  predicate Candidate(p: string, i: nat, k: int) {
    Border(p, i, k) && (i < |p| ==> p[k] != p[i])
  }

  /** v is the largest candidate for i, or -1 when i has none. */
  ghost predicate IsEntry(p: string, i: nat, v: int) {
    && -1 <= v < i
    && (v >= 0 ==> Candidate(p, i, v))
    && forall k :: v < k < i ==> !Candidate(p, i, k)
  }

  ghost predicate IsTable(p: string, t: seq<int>) {
    |t| > |p| && forall i :: 0 <= i <= |p| ==> IsEntry(p, i, t[i])
  }

  /** The table is determined by the needle. */
  lemma TableUnique(p: string, t: seq<int>, u: seq<int>)
    requires IsTable(p, t) && IsTable(p, u)
    ensures t[..|p| + 1] == u[..|p| + 1]
  {
    forall i | 0 <= i <= |p| ensures t[i] == u[i] {
      assert IsEntry(p, i, t[i]) && IsEntry(p, i, u[i]);
    }
  }

  /** What the forward table says, in plain terms: entry i is the greatest k < i such that
      the first k characters of p are also the last k of p[..i] and, if i is not the end, are
      followed by another character than p[i]; it is -1 if there is no such k. */
  lemma TableMeans(p: string, t: seq<int>, i: nat)
    requires IsTable(p, t) && i <= |p|
    ensures -1 <= t[i] < i
    ensures t[i] >= 0 ==> p[..t[i]] == p[i - t[i]..i] && (i < |p| ==> p[t[i]] != p[i])
    ensures forall k :: t[i] < k < i && p[..k] == p[i - k..i] ==> i < |p| && p[k] == p[i]
  {
    assert IsEntry(p, i, t[i]);
    forall k | t[i] < k < i && p[..k] == p[i - k..i] ensures i < |p| && p[k] == p[i] {
      assert !Candidate(p, i, k);
    }
  }

  // ---------------------------------------------------------------- borders

  lemma BorderOfBorder(p: string, i: nat, j: int, k: int)
    requires Border(p, i, j) && Border(p, i, k) && k < j
    ensures Border(p, j, k)
  {
    assert p[..k] == p[..j][..k];
    assert p[j - k..j] == p[..j][j - k..] == p[i - j..i][j - k..] == p[i - k..i];
  }

  lemma BorderTransitive(p: string, i: nat, j: int, k: int)
    requires Border(p, i, j) && Border(p, j, k)
    ensures Border(p, i, k)
  {
    assert p[..k] == p[j - k..j] == p[..j][j - k..] == p[i - j..i][j - k..] == p[i - k..i];
  }

  lemma BorderExtend(p: string, i: nat, k: int)
    requires i < |p| && 0 <= k < i
    ensures Border(p, i + 1, k + 1) <==> Border(p, i, k) && p[k] == p[i]
  {
    assert p[..k + 1] == p[..k] + [p[k]];
    assert p[i - k..i + 1] == p[i - k..i] + [p[i]];
    if Border(p, i + 1, k + 1) {
      assert p[..k + 1][k] == p[i - k..i + 1][k];
      assert p[..k] == p[..k + 1][..k] == p[i - k..i + 1][..k] == p[i - k..i];
    }
  }

  lemma NoBorderOfEmpty(p: string)
    ensures IsEntry(p, 0, -1) && Longest(p, 0, -1)
  {
  }

  ghost predicate Longest(p: string, i: nat, j: int) {
    && -1 <= j < i
    && (j >= 0 ==> Border(p, i, j))
    && forall k :: j < k < i ==> !Border(p, i, k)
  }

  /** Every border of p[..i] above j has been seen not to extend to i + 1. */
  ghost predicate Pending(p: string, i: nat, j: int) {
    && -1 <= j < i <= |p|
    && (j >= 0 ==> Border(p, i, j))
    && forall k :: j < k < i && Border(p, i, k) ==> i < |p| && p[k] != p[i]
  }

  lemma FallBack(p: string, i: nat, j: int, v: int)
    requires i < |p| && Pending(p, i, j) && j >= 0 && p[j] != p[i] && IsEntry(p, j, v)
    ensures -1 <= v < j && Pending(p, i, v)
  {
    if v >= 0 {
      BorderTransitive(p, i, j, v);
    }
    forall k | v < k < i && Border(p, i, k) ensures p[k] != p[i] {
      if k < j {
        BorderOfBorder(p, i, j, k);
        assert !Candidate(p, j, k);
      }
    }
  }

  lemma Advance(p: string, i: nat, j: int)
    requires i < |p| && Pending(p, i, j) && (j >= 0 ==> p[j] == p[i])
    ensures Longest(p, i + 1, j + 1)
  {
    if j >= 0 {
      BorderExtend(p, i, j);
    }
    var i' := i + 1;
    forall k | j + 1 < k < i' ensures !Border(p, i', k) {
      BorderExtend(p, i, k - 1);
    }
  }

  /** The entry the builder stores once j is known to be the longest border of p[..i]. */
  lemma EntryFromLongest(p: string, i: nat, j: int, v: int)
    requires 0 < i <= |p| && 0 <= j && Longest(p, i, j)
    requires if i < |p| && p[i] == p[j] then IsEntry(p, j, v) else v == j
    ensures IsEntry(p, i, v)
  {
    if i < |p| && p[i] == p[j] {
      if v >= 0 {
        BorderTransitive(p, i, j, v);
      }
      forall k | v < k < i ensures !Candidate(p, i, k) {
        if Border(p, i, k) && k < j {
          BorderOfBorder(p, i, j, k);
          assert !Candidate(p, j, k);
        }
      }
    }
  }

  // ---------------------------------------------------------------- building the table

  /** Entries 0..i of the array are final. */
  ghost predicate Filled(p: string, t: seq<int>, i: int) {
    i < |t| && i <= |p| && forall m :: 0 <= m <= i ==> IsEntry(p, m, t[m])
  }

  /** `fallbacks` counts the iterations of the inner loop. */
  method BuildTable(needle: string, table: array<int>) returns (ghost fallbacks: nat)
    requires table.Length > |needle|
    modifies table
    ensures IsTable(needle, table[..])
    ensures table[|needle| + 1..] == old(table[|needle| + 1..])
    ensures fallbacks <= |needle|
  {
    hide Border, Candidate;
    var i, j := 0, -1;
    table[i] := j;
    fallbacks := 0;
    while i < |needle|
      invariant 0 <= i <= |needle|
      invariant Filled(needle, table[..], i)
      invariant Longest(needle, i, j) && (i > 0 ==> j >= 0)
      invariant table[|needle| + 1..] == old(table[|needle| + 1..])
      invariant fallbacks + j + 1 <= i
    {
      while j > -1 && needle[i] != needle[j]
        invariant Pending(needle, i, j)
        invariant fallbacks + j + 1 <= i
        modifies {}
        decreases j
      {
        FallBack(needle, i, j, table[j]);
        j := table[j];
        fallbacks := fallbacks + 1;
      }
      Advance(needle, i, j);
      i := i + 1;
      j := j + 1;
      if i < |needle| {
        if needle[i] == needle[j] {
          table[i] := table[j];
        } else {
          table[i] := j;
        }
      } else {
        table[i] := j;
      }
      EntryFromLongest(needle, i, j, table[i]);
    }
  }

  // ---------------------------------------------------------------- reversal

  /** The right-to-left table of `needle` read as a left-to-right one: positions and the
      values stored in them are both counted from the other end. */
  ghost function Mirror(n: nat, t: seq<int>): (u: seq<int>)
    requires |t| > n
    ensures |u| == n + 1
  {
    seq(n + 1, m requires 0 <= m <= n => n - 1 - t[n - m])
  }

  /** The last |u| of the array's slots 0..n are the mirror image of u. */
  ghost predicate Mirrored(n: nat, t: seq<int>, u: seq<int>) {
    |u| <= n + 1 <= |t| && forall m :: 0 <= m < |u| ==> t[n - m] == n - 1 - u[m]
  }

  lemma MirrorOf(n: nat, t: seq<int>, u: seq<int>)
    requires Mirrored(n, t, u) && |u| == n + 1
    ensures Mirror(n, t) == u
  {
  }

  /** A store of the right-to-left builder, seen as the next entry of the mirrored table. */
  lemma StoreR(needle: string, t: seq<int>, u: seq<int>, i: nat, j: nat, x: int)
    requires 0 <= j < i == |u| <= |needle| && Mirrored(|needle|, t, u)
    requires Filled(Reverse(needle), u, i - 1) && Longest(Reverse(needle), i, j)
    requires var n := |needle|;
      x == if i < n && needle[n - 1 - i] == needle[n - 1 - j] then t[n - j] else n - 1 - j
    ensures var n, u' := |needle|, u + [|needle| - 1 - x];
      Mirrored(n, t[n - i := x], u') && Filled(Reverse(needle), u', i)
  {
    hide Border, Candidate, IsEntry, Longest, Reverse;
    var n, r := |needle|, Reverse(needle);
    ReverseAt(needle, n - 1 - j);
    if i < n {
      ReverseAt(needle, n - 1 - i);
    }
    assert t[n - j] == n - 1 - u[j] && IsEntry(r, j, u[j]);
    EntryFromLongest(r, i, j, n - 1 - x);
  }

  method BuildTableR(needle: string, table: array<int>) returns (ghost fallbacks: nat)
    requires table.Length > |needle|
    modifies table
    ensures IsTable(Reverse(needle), Mirror(|needle|, table[..]))
    ensures table[|needle| + 1..] == old(table[|needle| + 1..])
    ensures fallbacks <= |needle|
  {
    hide Border, Candidate, IsEntry, Reverse, Mirror;
    ghost var n, r := |needle|, Reverse(needle);
    var i: int := |needle| - 1;
    var j := i + 1;
    table[i + 1] := j;
    fallbacks := 0;
    NoBorderOfEmpty(r);
    ghost var i', j', u := 0, -1, [-1];  // the same state, counted from the other end
    while i >= 0
      invariant i' == n - 1 - i && j' == n - 1 - j && 0 <= i' <= n
      invariant Mirrored(n, table[..], u) && |u| == i' + 1
      invariant Filled(r, u, i') && Longest(r, i', j') && (i' > 0 ==> j' >= 0)
      invariant forall k :: n < k < table.Length ==> table[k] == old(table[k])
      invariant fallbacks + j' + 1 <= i'
    {
      ReverseAt(needle, i);
      while j < |needle| && needle[i] != needle[j]
        invariant j' == n - 1 - j && Pending(r, i', j')
        invariant fallbacks + j' + 1 <= i'
        modifies {}
        decreases j'
      {
        ReverseAt(needle, j);
        FallBack(r, i', j', u[j']);
        j := table[j + 1];
        j' := u[j'];
        fallbacks := fallbacks + 1;
      }
      if j < n {
        ReverseAt(needle, j);
      }
      Advance(r, i', j');
      i := i - 1;
      j := j - 1;
      i', j' := i' + 1, j' + 1;
      ghost var before := table[..];
      var x := if i >= 0 && needle[i] == needle[j] then table[j + 1] else j;
      table[i + 1] := x;
      StoreR(needle, before, u, i', j', x);
      u := u + [n - 1 - x];
      assert table[..] == before[n - i' := x];
    }
    MirrorOf(n, table[..], u);
  }

  /** The two builders fill exactly mirrored tables: for every -1 <= i < N,
      tableR[i + 1] == N - 1 - (forward table of the reversed needle)[N - 1 - i]. */
  lemma TablesMirror(needle: string, backward: seq<int>, forward: seq<int>, i: int)
    requires |backward| > |needle| && IsTable(Reverse(needle), Mirror(|needle|, backward))
    requires IsTable(Reverse(needle), forward)
    requires -1 <= i < |needle|
    ensures backward[i + 1] == |needle| - 1 - forward[|needle| - 1 - i]
  {
    var n := |needle|;
    TableUnique(Reverse(needle), Mirror(n, backward), forward);
    assert Mirror(n, backward)[..n + 1][n - 1 - i] == forward[..n + 1][n - 1 - i];
  }

  lemma ReverseSlice(s: string, a: nat, b: nat)
    requires a <= b <= |s|
    ensures Reverse(s)[a..b] == Reverse(s[|s| - b..|s| - a])
  {
    var there := Reverse(s)[a..b];
    forall k | 0 <= k < b - a ensures there[k] == Reverse(s[|s| - b..|s| - a])[k] {
      assert there[k] == s[|s| - 1 - (a + k)];
    }
  }

  lemma ReverseSame(a: string, b: string)
    ensures Reverse(a) == Reverse(b) <==> a == b
  {
    hide Reverse;
    ReverseTwice(a);
    ReverseTwice(b);
  }

  lemma BorderReversed(p: string, i: int, k: int)
    requires -1 <= i < k < |p|
    ensures Border(Reverse(p), |p| - 1 - i, |p| - 1 - k) <==> p[k + 1..] == p[i + 1..i + |p| - k]
  {
    hide Reverse;
    var n, r := |p|, Reverse(p);
    ReverseSlice(p, 0, n - 1 - k);
    ReverseSlice(p, k - i, n - 1 - i);
    assert r[..n - 1 - k] == r[0..n - 1 - k] && p[k + 1..] == p[k + 1..n];
    ReverseSame(p[k + 1..n], p[i + 1..i + n - k]);
  }

  lemma CandidateReversed(p: string, i: int, k: int)
    requires -1 <= i < k < |p|
    ensures Candidate(Reverse(p), |p| - 1 - i, |p| - 1 - k) <==>
      (p[k + 1..] == p[i + 1..i + |p| - k] && (i >= 0 ==> p[k] != p[i]))
  {
    hide Reverse, Border;
    BorderReversed(p, i, k);
    ReverseAt(p, k);
    if i >= 0 {
      ReverseAt(p, i);
    }
  }

  /** What the backward table says, in plain terms: the entry for position i is the least k > i
      such that the characters behind k are also those that directly follow i and, if i is not
      in front of the needle, are preceded by another character than p[i]; it is |p| if there is
      no such k. */
  lemma TableRMeans(p: string, t: seq<int>, i: int, k: int)
    requires |t| > |p| && IsTable(Reverse(p), Mirror(|p|, t)) && -1 <= i < |p|
    ensures i < t[i + 1] <= |p|
    ensures k == t[i + 1] < |p| ==> p[k + 1..] == p[i + 1..i + |p| - k] && (i >= 0 ==> p[k] != p[i])
    ensures i < k < t[i + 1] ==> !(p[k + 1..] == p[i + 1..i + |p| - k] && (i >= 0 ==> p[k] != p[i]))
  {
    hide Reverse, Candidate, Mirror, IsTable;
    EntryR(p, t, i);
    if i < k < |p| {
      CandidateReversed(p, i, k);
      var j := |p| - 1 - k;
      assert k < t[i + 1] ==> !Candidate(Reverse(p), |p| - 1 - i, j);
    }
  }

  lemma EntryR(p: string, t: seq<int>, i: int)
    requires |t| > |p| && IsTable(Reverse(p), Mirror(|p|, t)) && -1 <= i < |p|
    ensures i < t[i + 1] <= |p|
    ensures t[i + 1] < |p| ==> Candidate(Reverse(p), |p| - 1 - i, |p| - 1 - t[i + 1])
    ensures var m, v := |p| - 1 - i, |p| - 1 - t[i + 1];
      forall j :: v < j < m ==> !Candidate(Reverse(p), m, j)
  {
    hide Reverse, Candidate;
    assert IsEntry(Reverse(p), |p| - 1 - i, Mirror(|p|, t)[|p| - 1 - i]);
  }

  // ---------------------------------------------------------------- searching

  predicate OccursAt(text: string, needle: string, at: int) {
    0 <= at && at + |needle| <= |text| && text[at..at + |needle|] == needle
  }

  /** The result of a left-to-right search: the least occurrence, or -1 if there is none. */
  ghost predicate IsFirst(text: string, needle: string, pos: int) {
    && (pos == -1 || OccursAt(text, needle, pos))
    && forall at :: OccursAt(text, needle, at) ==> 0 <= pos <= at
  }

  /** The result of a right-to-left search: the greatest occurrence, or -1 if there is none. */
  ghost predicate IsLast(text: string, needle: string, pos: int) {
    && pos >= -1
    && (pos == -1 || OccursAt(text, needle, pos))
    && forall at :: OccursAt(text, needle, at) ==> at <= pos
  }

  /** needle[..i] sits in the text just before j, and no occurrence starts before j - i. */
  ghost predicate Partial(text: string, needle: string, i: int, j: nat) {
    && -1 <= i <= j <= |text| && i <= |needle|
    && (i >= 0 ==> needle[..i] == text[j - i..j])
    && forall at :: OccursAt(text, needle, at) ==> j - i <= at
  }

  lemma OccursNext(text: string, needle: string, at: int, j: nat)
    requires OccursAt(text, needle, at) && at <= j < at + |needle|
    ensures needle[..j - at] == text[at..j] && needle[j - at] == text[j]
  {
    assert text[at..j] == text[at..at + |needle|][..j - at];
    assert text[j] == text[at..at + |needle|][j - at];
  }

  lemma SearchFallBack(text: string, needle: string, i: nat, j: nat, v: int)
    requires i < |needle| && j < |text| && Partial(text, needle, i, j)
    requires needle[i] != text[j] && IsEntry(needle, i, v)
    ensures -1 <= v < i && Partial(text, needle, v, j)
  {
    if v >= 0 {
      assert needle[..v] == needle[i - v..i] == needle[..i][i - v..] == text[j - i..j][i - v..] == text[j - v..j];
    }
    forall at | OccursAt(text, needle, at) ensures j - v <= at {
      if at < j - v {
        var k := j - at;
        OccursNext(text, needle, at, j);
        assert k < i;
        assert needle[..k] == text[at..j] == text[j - i..j][i - k..] == needle[..i][i - k..] == needle[i - k..i];
        assert Candidate(needle, i, k);
      }
    }
  }

  lemma SearchAdvance(text: string, needle: string, i: int, j: nat)
    requires i < |needle| && j < |text| && Partial(text, needle, i, j)
    requires i >= 0 ==> needle[i] == text[j]
    ensures Partial(text, needle, i + 1, j + 1)
    ensures i + 1 == |needle| ==> IsFirst(text, needle, j - i) && j - i + |needle| <= |text|
  {
    if i >= 0 {
      assert needle[..i + 1] == needle[..i] + [needle[i]];
      assert text[j - i..j + 1] == text[j - i..j] + [text[j]];
    }
    if i + 1 == |needle| {
      assert needle[..i + 1] == needle;
    }
  }

  const INT_MAX := 0x7fff_ffff

  /** The C conversion of a size to a 32-bit int, which wraps. */
  function CInt(size: nat): int {
    var low := size % 0x1_0000_0000;
    if low <= INT_MAX then low else low - 0x1_0000_0000
  }

  /** The value the size has as an int: the same modulo 2^32, and in the range of an int. */
  lemma CIntMeans(size: nat)
    ensures -0x8000_0000 <= CInt(size) <= 0x7fff_ffff && (size - CInt(size)) % 0x1_0000_0000 == 0
    ensures CInt(size) == size <==> size <= 0x7fff_ffff
    ensures Window(size) == if CInt(size) > 0 then CInt(size) else 0
  {
  }

  /** How much of a haystack the left-to-right search looks at: its loop compares j with
      the haystack length converted to int. */
  function Window(size: nat): (w: nat)
    ensures w <= size
    ensures w == size <==> size <= INT_MAX
  {
    if CInt(size) > 0 then CInt(size) else 0
  }

  /** The least occurrence among those that start no later than `last`, or -1. */
  ghost predicate IsFirstUpTo(text: string, needle: string, last: int, pos: int) {
    && (pos == -1 || (pos <= last && OccursAt(text, needle, pos)))
    && forall at :: OccursAt(text, needle, at) && at <= last ==> 0 <= pos <= at
  }

  /** How much of the needle a search compares before it reports a match: the needle length,
      too, is converted to int. */
  function Compared(size: nat): (c: nat)
    ensures c <= size
    ensures c == size <==> size <= INT_MAX
  {
    Window(size)
  }

  /** What the left-to-right search reports. A needle whose length survives the conversion is
      searched for; of a longer one only the first characters count, and when the converted
      length is not even positive, the search stops after its first step. */
  ghost predicate FindResult(haystack: string, needle: string, pos: int)
    requires needle != ""
  {
    var w, c := Window(|haystack|), Compared(|needle|);
    if c > 0 then IsFirstUpTo(haystack[..w], needle[..c], |haystack| - |needle|, pos)
    else if w == 0 || |haystack| < |needle| then pos == -1
    else pos == if needle[0] == haystack[0] then 0 else 1
  }

  /** With a needle length that survives the conversion, the result is the first occurrence. */
  lemma FindResultMeans(haystack: string, needle: string, pos: int)
    requires 0 < |needle| <= INT_MAX
    ensures FindResult(haystack, needle, pos) <==> IsFirst(haystack[..Window(|haystack|)], needle, pos)
  {
    var text := haystack[..Window(|haystack|)];
    assert needle[..Compared(|needle|)] == needle;
    assert forall at :: OccursAt(text, needle, at) ==> at <= |haystack| - |needle|;
  }

  /** For strings an int can measure, what is reported is the first occurrence. */
  lemma FindMeans(haystack: string, needle: string, pos: int)
    requires needle != "" && |needle| <= 0x7fff_ffff && |haystack| <= 0x7fff_ffff && FindResult(haystack, needle, pos)
    ensures pos == -1 || (0 <= pos && pos + |needle| <= |haystack| && haystack[pos..pos + |needle|] == needle)
    ensures forall at, to :: 0 <= at && to == at + |needle| <= |haystack| && haystack[at..to] == needle ==> 0 <= pos <= at
  {
    FindResultMeans(haystack, needle, pos);
    assert haystack[..Window(|haystack|)] == haystack;
    forall at, to | 0 <= at && to == at + |needle| <= |haystack| && haystack[at..to] == needle ensures 0 <= pos <= at {
      assert OccursAt(haystack, needle, at);
    }
  }

  lemma EntryOfPrefix(needle: string, c: nat, i: nat, v: int)
    requires i < c <= |needle| && IsEntry(needle, i, v)
    ensures IsEntry(needle[..c], i, v)
  {
    var p := needle[..c];
    forall k | 0 <= k < i ensures Candidate(p, i, k) <==> Candidate(needle, i, k) {
      assert p[..k] == needle[..k] && p[i - k..i] == needle[i - k..i];
    }
  }

  lemma FirstOfAll(text: string, p: string, last: int, pos: int)
    requires IsFirst(text, p, pos) && 0 <= pos <= last
    ensures IsFirstUpTo(text, p, last, pos)
  {
  }

  lemma NoneUpTo(text: string, p: string, i: nat, j: nat, last: int)
    requires Partial(text, p, i, j) && i < |p| && (j >= |text| || j - i > last)
    ensures IsFirstUpTo(text, p, last, -1)
  {
  }

  /** `comparisons` counts the comparisons of a needle character with a haystack character. */
  method Find(haystack: string, needle: string, table: array<int>)
      returns (pos: int, ghost comparisons: nat)
    requires needle != "" && IsTable(needle, table[..])
    ensures FindResult(haystack, needle, pos)
    ensures comparisons <= 2 * |haystack|
  {
    hide Border, Candidate, OccursAt, IsFirst, IsFirstUpTo, Partial;
    ghost var text, c, last := haystack[..Window(|haystack|)], Compared(|needle|), |haystack| - |needle|;
    ghost var p, fallbacks: nat := needle[..c], 0;
    pos, comparisons := -1, 0;
    var i, j: int := 0, 0;
    StartOfSearch(text, p);
    while j < CInt(|haystack|) && |haystack| - j + i >= |needle|
      invariant 0 <= i < |needle| && 0 <= j <= |text|
      invariant if c > 0 then i < c && Partial(text, p, i, j) else i == j == 0
      invariant fallbacks + i <= j && comparisons <= fallbacks + j
    {
      ghost var i0 := i;
      while i > -1 && needle[i] != haystack[j]
        invariant -1 <= i <= i0 && (c > 0 ==> Partial(text, p, i, j))
        invariant c == 0 ==> if needle[0] == haystack[0] then i == 0 else i <= 0
        invariant fallbacks + i <= j && comparisons <= fallbacks + j
        decreases i
      {
        if c > 0 {
          EntryOfPrefix(needle, c, i, table[i]);
          SearchFallBack(text, p, i, j, table[i]);
        }
        i := table[i];
        fallbacks, comparisons := fallbacks + 1, comparisons + 1;
      }
      comparisons := if i > -1 then comparisons + 1 else comparisons;
      if c > 0 {
        SearchAdvance(text, p, i, j);
      }
      i := i + 1;
      j := j + 1;
      if i >= CInt(|needle|) {
        pos := j - i;
        if c > 0 {
          FirstOfAll(text, p, last, pos);
        }
        return;
      }
    }
    if c > 0 {
      NoneUpTo(text, p, i, j, last);
    }
  }

  lemma OccursReversed(text: string, needle: string, at: int)
    requires OccursAt(text, needle, at)
    ensures OccursAt(Reverse(text), Reverse(needle), |text| - |needle| - at)
  {
    var n, back := |needle|, |text| - |needle| - at;
    var there := Reverse(text)[back..back + n];
    forall k | 0 <= k < n ensures there[k] == Reverse(needle)[k] {
      assert text[at..at + n][n - 1 - k] == text[at + n - 1 - k];
    }
    assert there == Reverse(needle);
  }

  lemma OccursReversedIff(text: string, needle: string, at: int)
    ensures OccursAt(text, needle, at) <==> OccursAt(Reverse(text), Reverse(needle), |text| - |needle| - at)
  {
    hide Reverse;
    ReverseTwice(text);
    ReverseTwice(needle);
    if OccursAt(text, needle, at) {
      OccursReversed(text, needle, at);
    }
    if OccursAt(Reverse(text), Reverse(needle), |text| - |needle| - at) {
      OccursReversed(Reverse(text), Reverse(needle), |text| - |needle| - at);
    }
  }

  /** Where a result of searching the reversed strings lies in the strings themselves. */
  function FromOtherEnd(text: string, needle: string, pos: int): int {
    if pos == -1 then -1 else |text| - |needle| - pos
  }

  /** The first occurrence in the reversed strings is the last one in the strings. */
  lemma LastIsFirstReversed(text: string, needle: string, pos: int)
    requires pos == -1 || 0 <= pos <= |text| - |needle|
    ensures IsFirst(Reverse(text), Reverse(needle), pos)
      <==> IsLast(text, needle, FromOtherEnd(text, needle, pos))
  {
    hide Reverse;
    if pos >= 0 {
      OccursReversedIff(text, needle, |text| - |needle| - pos);
    }
    forall at ensures OccursAt(text, needle, at) <==> OccursAt(Reverse(text), Reverse(needle), |text| - |needle| - at) {
      OccursReversedIff(text, needle, at);
    }
    if IsLast(text, needle, FromOtherEnd(text, needle, pos)) {
      forall at | OccursAt(Reverse(text), Reverse(needle), at) ensures 0 <= pos <= at {
        OccursReversedIff(text, needle, |text| - |needle| - at);
        assert OccursAt(text, needle, |text| - |needle| - at);
      }
    }
  }

  /** What the right-to-left search reports. It walks down the needle, so of a needle whose
      length does not survive the conversion to int it skips the last characters: a haystack
      that ends as the compared ones demand is reported to end in the needle. */
  ghost predicate FindRResult(haystack: string, needle: string, pos: int)
    requires needle != ""
  {
    if |needle| <= INT_MAX then IsLast(haystack, needle, pos)
    else
      && -1 <= pos && (pos == -1 || pos + |needle| <= |haystack|)
      && (LooksLikeEnd(haystack, needle) ==> pos == |haystack| - |needle|)
  }

  /** The haystack is long enough, and the first characters of the needle are where they are if
      the haystack ends in the needle. */
  ghost predicate LooksLikeEnd(haystack: string, needle: string) {
    && |needle| <= |haystack|
    && forall k :: 0 <= k < Compared(|needle|) ==> needle[k] == haystack[|haystack| - |needle| + k]
  }

  method FindR(haystack: string, needle: string, table: array<int>)
      returns (pos: int, ghost comparisons: nat)
    requires needle != "" && table.Length > |needle|
    requires IsTable(Reverse(needle), Mirror(|needle|, table[..]))
    ensures FindRResult(haystack, needle, pos)
    ensures comparisons <= 2 * |haystack|
  {
    hide Border, Candidate, IsEntry, OccursAt, IsFirst, IsLast, Reverse, Partial, Window, CInt, LooksLikeEnd;
    ghost var n, text, r := |needle|, Reverse(haystack), Reverse(needle);
    ghost var whole, last := n <= INT_MAX, |haystack| - n;
    ghost var u := Mirror(n, table[..]);
    ghost var i', j', fallbacks: nat := 0, 0, 0;  // the same state, counted from the other end
    pos, comparisons := -1, 0;
    var j: int := |haystack| - 1;
    var i: int := |needle| - 1;
    StartOfSearch(text, r);
    CIntOf(n);
    while j >= 0 && j >= i
      invariant i' == n - 1 - i && j' == |text| - 1 - j
      invariant 0 <= i' < n && 0 <= j' <= |text| && j - i <= last
      invariant if whole then Partial(text, r, i', j') else LooksLikeEnd(haystack, needle) ==> j - i == last
      invariant fallbacks + i' <= j' && comparisons <= fallbacks + j'
    {
      while i < CInt(|needle|) && needle[i] != haystack[j]
        invariant i' == n - 1 - i && -1 <= i' < n && j - i <= last
        invariant if whole then Partial(text, r, i', j') else LooksLikeEnd(haystack, needle) ==> j - i == last
        invariant i > j ==> i > 0
        invariant fallbacks + i' <= j' && comparisons <= fallbacks + j'
        decreases i'
      {
        ReverseAt(needle, i);
        ReverseAt(haystack, j);
        EntryRange(r, i', u[i']);
        if whole {
          SearchFallBack(text, r, i', j', u[i']);
        } else {
          NotTheEnd(haystack, needle, i, j);
        }
        i := table[i + 1];
        i' := u[i'];
        fallbacks, comparisons := fallbacks + 1, comparisons + 1;
      }
      comparisons := if i < CInt(|needle|) then comparisons + 1 else comparisons;
      if i < n {
        ReverseAt(needle, i);
        ReverseAt(haystack, j);
      }
      if whole {
        SearchAdvance(text, r, i', j');
      }
      ghost var start := j' - i';
      i := i - 1;
      j := j - 1;
      i', j' := i' + 1, j' + 1;
      if i < 0 {
        pos := j + 1;
        if whole {
          LastIsFirstReversed(haystack, needle, start);
        }
        return;
      }
    }
    if whole {
      EndOfSearch(text, r, i', j');
      LastIsFirstReversed(haystack, needle, -1);
    } else {
      EndReached(haystack, needle, i, j);
    }
  }

  lemma CIntOf(size: nat)
    ensures CInt(size) <= size && (size <= INT_MAX ==> CInt(size) == size)
    ensures CInt(size) > 0 ==> CInt(size) == Compared(size)
  {
  }

  lemma EntryRange(p: string, i: nat, v: int)
    requires IsEntry(p, i, v)
    ensures -1 <= v < i
  {
  }

  lemma NotTheEnd(haystack: string, needle: string, i: int, j: int)
    requires 0 <= i < CInt(|needle|) && 0 <= j < |haystack| && i < |needle| && needle[i] != haystack[j]
    ensures LooksLikeEnd(haystack, needle) ==> j - i != |haystack| - |needle|
  {
    CIntOf(|needle|);
  }

  lemma EndReached(haystack: string, needle: string, i: int, j: int)
    requires 0 <= i < |needle| && (j < 0 || j < i)
    ensures LooksLikeEnd(haystack, needle) ==> j - i != |haystack| - |needle|
  {
  }

  lemma StartOfSearch(text: string, needle: string)
    ensures Partial(text, needle, 0, 0)
  {
  }

  lemma EndOfSearch(text: string, needle: string, i: nat, j: nat)
    requires Partial(text, needle, i, j)
    requires j >= |text| || |text| - j + i < |needle|
    requires i < |needle|
    ensures IsFirst(text, needle, -1)
  {
  }

  // ---------------------------------------------------------------- which sizes are searched right

  /** For every haystack size and every needle size: the left-to-right search gives the first
      occurrence for all strings of these sizes exactly if the needle is longer than the
      haystack or the haystack's size survives the conversion to int. */
  lemma WholeHaystackSearched(h: nat, n: nat)
    requires n > 0
    ensures (n > h || h <= INT_MAX) <==>
      forall text: string, needle: string, pos: int
        | |text| == h && |needle| == n && FindResult(text, needle, pos) :: IsFirst(text, needle, pos)
  {
    hide FindResult, IsFirst;
    if n > h || h <= INT_MAX {
      forall text: string, needle: string, pos: int | |text| == h && |needle| == n && FindResult(text, needle, pos)
        ensures IsFirst(text, needle, pos)
      {
        RightForSizes(text, needle, pos);
      }
    } else {
      var text, needle, pos := WrongForSizes(h, n);
    }
  }

  lemma RightForSizes(text: string, needle: string, pos: int)
    requires 0 < |needle| && (|needle| > |text| || |text| <= INT_MAX) && FindResult(text, needle, pos)
    ensures IsFirst(text, needle, pos)
  {
    if |needle| <= |text| {
      FindResultMeans(text, needle, pos);
      assert text[..Window(|text|)] == text;
    }
  }

  function Fill(c: char, n: nat): (s: string)
    ensures |s| == n && forall k :: 0 <= k < n ==> s[k] == c
  {
    seq(n, _ => c)
  }

  lemma Mismatch(text: string, needle: string, at: int, k: nat)
    requires 0 <= at && at + |needle| <= |text| && k < |needle| && text[at + k] != needle[k]
    ensures !OccursAt(text, needle, at)
  {
    assert text[at..at + |needle|][k] == text[at + k];
  }

  /** Strings of these sizes that the left-to-right search gets wrong. */
  lemma WrongForSizes(h: nat, n: nat) returns (text: string, needle: string, pos: int)
    requires 0 < n <= h && h > INT_MAX
    ensures |text| == h && |needle| == n && FindResult(text, needle, pos) && !IsFirst(text, needle, pos)
  {
    var w, c := Window(h), Compared(n);
    if c == n {
      // the only occurrence is at the end, out of sight
      needle, text, pos := Fill('a', n), Fill('b', h - n) + Fill('a', n), -1;
      OccursAtEnd(Fill('b', h - n), needle);
      forall at ensures !OccursAt(text[..w], needle[..c], at) {
        if 0 <= at && at + c <= w {
          Mismatch(text[..w], needle[..c], at, 0);
        }
      }
    } else if c == 0 && w > 0 {
      // the search stops after one mismatch and reports position 1
      needle, text, pos := Fill('a', n), Fill('b', h), 1;
      if pos + n <= h {
        Mismatch(text, needle, pos, 0);
      }
    } else if c > w || w == 0 {
      // the needle is all in front, but nothing is compared
      needle, text, pos := Fill('a', n), Fill('a', h), -1;
      assert text[0..n] == needle && OccursAt(text, needle, 0);
    } else {
      // only the first characters are compared
      needle, text, pos := Fill('a', n - 1) + "b", Fill('a', h), 0;
      assert text[..w][0..c] == needle[..c];
      Mismatch(text, needle, pos, n - 1);
    }
  }

  lemma OccursAtEnd(front: string, needle: string)
    ensures OccursAt(front + needle, needle, |front|)
  {
  }

  /** The right-to-left search gives the last occurrence for all strings of given sizes exactly
      if the needle is longer than the haystack or its own size survives the conversion. */
  lemma WholeNeedleCompared(h: nat, n: nat)
    requires n > 0
    ensures (n > h || n <= INT_MAX) <==>
      forall text: string, needle: string, pos: int
        | |text| == h && |needle| == n && FindRResult(text, needle, pos) :: IsLast(text, needle, pos)
  {
    if n > h || n <= INT_MAX {
      forall text: string, needle: string, pos: int | |text| == h && |needle| == n && FindRResult(text, needle, pos)
        ensures IsLast(text, needle, pos)
      {
      }
    } else {
      // only the first characters of the needle are compared
      var needle, text, pos := Fill('a', n - 1) + "b", Fill('a', h), h - n;
      assert FindRResult(text, needle, pos);
      Mismatch(text, needle, pos, n - 1);
      assert !IsLast(text, needle, pos);
    }
  }

  // ---------------------------------------------------------------- one-shot searches

  ghost predicate IsFirstFrom(text: string, needle: string, start: nat, pos: int) {
    && (pos == -1 || (start <= pos && OccursAt(text, needle, pos)))
    && forall at :: start <= at && OccursAt(text, needle, at) ==> 0 <= pos <= at
  }

  lemma FirstInSuffix(text: string, needle: string, start: nat, pos: int)
    requires start <= |text| && IsFirst(text[start..], needle, pos)
    ensures IsFirstFrom(text, needle, start, if pos >= 0 then pos + start else pos)
  {
    var n := |needle|;
    forall at | OccursAt(text[start..], needle, at) ensures OccursAt(text, needle, at + start) {
      assert text[start..][at..at + n] == text[at + start..at + start + n];
    }
    forall at | start <= at && OccursAt(text, needle, at) ensures OccursAt(text[start..], needle, at - start) {
      assert text[start..][at - start..at - start + n] == text[at..at + n];
    }
  }

  /** With a needle length that survives the conversion, what the search of the suffix reports
      is the first occurrence from the start on, as far as the search sees. */
  lemma SuffixResultMeans(s: string, needle: string, start: nat, pos: int)
    requires start <= |s| && 0 < |needle| <= INT_MAX && FindResult(s[start..], needle, pos)
    ensures IsFirstFrom(s[..start + Window(|s| - start)], needle, start, if pos >= 0 then pos + start else pos)
  {
    var text := s[..start + Window(|s| - start)];
    FindResultMeans(s[start..], needle, pos);
    assert text[start..] == s[start..][..Window(|s| - start)];
    FirstInSuffix(text, needle, start, pos);
  }

  /** utstring_find. Only where the search is really entered must the start not lie before the
      beginning of the string. `tableFits` is whether malloc succeeds. */
  method UtstringFind(s: string, startPosition: int, needle: string, tableFits: bool) returns (pos: int)
    requires var start := if startPosition < 0 then |s| + startPosition else startPosition;
      needle != "" && tableFits && |s| - start >= |needle| ==> start >= 0
    ensures var start := if startPosition < 0 then |s| + startPosition else startPosition;
      && (needle == "" || !tableFits || |s| - start < |needle| ==> pos == -1)
      && (needle != "" && tableFits && |s| - start >= |needle| ==>
        (pos == -1 || pos >= start) && FindResult(s[start..], needle, if pos == -1 then -1 else pos - start))
      && (needle != "" && tableFits && |needle| <= 0x7fff_ffff && 0 <= start <= |s| ==>
        IsFirstFrom(s[..start + Window(|s| - start)], needle, start, pos))
    // for strings an int can measure: where the needle is found, and that it is nowhere before
    ensures var start := if startPosition < 0 then |s| + startPosition else startPosition;
      needle != "" && tableFits && |s| <= 0x7fff_ffff && |needle| <= 0x7fff_ffff && 0 <= start <= |s| ==>
        && (pos == -1 || (start <= pos && pos + |needle| <= |s| && s[pos..pos + |needle|] == needle))
        && (forall at, to :: start <= at && to == at + |needle| <= |s| && s[at..to] == needle ==> start <= pos <= at)
  {
    hide FindResult, IsFirstFrom, Window;
    var start := if startPosition < 0 then |s| + startPosition else startPosition;
    var haystackLen := |s| - start;
    pos := -1;
    if haystackLen >= |needle| && |needle| > 0 {
      if tableFits {
        var table := new int[|needle| + 1];
        ghost var steps := BuildTable(needle, table);
        ghost var comparisons;
        pos, comparisons := Find(s[start..], needle, table);
        FindRange(s[start..], needle, pos);
        if |needle| <= INT_MAX {
          SuffixResultMeans(s, needle, start, pos);
        }
        if pos >= 0 {
          pos := pos + start;
        }
      }
    } else if needle != "" && 0 <= start <= |s| {
      NoRoom(s, needle, start);
    }
    if |s| <= 0x7fff_ffff && 0 <= start <= |s| {
      FirstFromMeans(s, needle, start, pos);
    }
  }

  /** The first occurrence from a start on, in plain terms. */
  lemma FirstFromMeans(s: string, needle: string, start: nat, pos: int)
    requires start <= |s| <= 0x7fff_ffff
    ensures IsFirstFrom(s[..start + Window(|s| - start)], needle, start, pos) <==>
      ((pos == -1 || (start <= pos && pos + |needle| <= |s| && s[pos..pos + |needle|] == needle))
      && (forall at, to :: start <= at && to == at + |needle| <= |s| && s[at..to] == needle ==> start <= pos <= at))
  {
    assert s[..start + Window(|s| - start)] == s;
    if forall at, to :: start <= at && to == at + |needle| <= |s| && s[at..to] == needle ==> start <= pos <= at {
      forall at | start <= at && OccursAt(s, needle, at) ensures 0 <= pos <= at {
        assert s[at..at + |needle|] == needle;
      }
    }
    if IsFirstFrom(s, needle, start, pos) {
      forall at, to | start <= at && to == at + |needle| <= |s| && s[at..to] == needle ensures start <= pos <= at {
        assert OccursAt(s, needle, at);
      }
    }
  }

  /** The last occurrence, in plain terms. */
  lemma LastMeans(text: string, needle: string, pos: int)
    ensures IsLast(text, needle, pos) ==> (
      && pos >= -1 && (pos == -1 || (pos + |needle| <= |text| && text[pos..pos + |needle|] == needle))
      && (forall at, to :: 0 <= at && to == at + |needle| <= |text| && text[at..to] == needle ==> at <= pos))
  {
    if IsLast(text, needle, pos) {
      forall at, to | 0 <= at && to == at + |needle| <= |text| && text[at..to] == needle ensures at <= pos {
        assert OccursAt(text, needle, at);
      }
    }
  }

  lemma FindRange(haystack: string, needle: string, pos: int)
    requires needle != "" && FindResult(haystack, needle, pos)
    ensures pos >= -1
  {
  }

  lemma NoRoom(s: string, needle: string, start: nat)
    requires start <= |s| && |s| - start < |needle|
    ensures IsFirstFrom(s[..start + Window(|s| - start)], needle, start, -1)
  {
  }

  /** utstring_findR searches the characters up to and including the start position. The one
      behind the last character is the terminating NUL that the buffer always ends in; only
      where the search is really entered must the start not lie behind that. */
  method UtstringFindR(s: string, startPosition: int, needle: string, tableFits: bool) returns (pos: int)
    requires var start := if startPosition < 0 then |s| + startPosition else startPosition;
      needle != "" && tableFits && start + 1 >= |needle| ==> start <= |s|
    ensures var start := if startPosition < 0 then |s| + startPosition else startPosition;
      && (needle == "" || !tableFits || start + 1 < |needle| ==> pos == -1)
      && (needle != "" && tableFits && start + 1 >= |needle| ==> FindRResult((s + "\0")[..start + 1], needle, pos))
      && (needle != "" && tableFits && |needle| <= 0x7fff_ffff && -1 <= start <= |s| ==>
        IsLast((s + "\0")[..start + 1], needle, pos))
    // for needles an int can measure: where the needle is found, and that it is nowhere behind
    ensures var start := if startPosition < 0 then |s| + startPosition else startPosition;
      needle != "" && tableFits && |needle| <= 0x7fff_ffff && -1 <= start <= |s| ==>
        var text := (s + "\0")[..start + 1];
        && (pos == -1 || (0 <= pos && pos + |needle| <= |text| && text[pos..pos + |needle|] == needle))
        && (forall at, to :: 0 <= at && to == at + |needle| <= |text| && text[at..to] == needle ==> at <= pos)
  {
    var start := if startPosition < 0 then |s| + startPosition else startPosition;
    var haystackLen := start + 1;
    pos := -1;
    if haystackLen >= |needle| && |needle| > 0 {
      if tableFits {
        var table := new int[|needle| + 1];
        ghost var steps := BuildTableR(needle, table);
        ghost var comparisons;
        pos, comparisons := FindR((s + "\0")[..haystackLen], needle, table);
        LastMeans((s + "\0")[..haystackLen], needle, pos);
      }
    }
  }
}
