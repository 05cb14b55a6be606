/** The ring buffer of utringbuffer.h: a fixed array that keeps the latest pushes. */
module RingBuffers {

  import opened Results

  /** The last n elements of s, or all of them when there are no more than n. */
  function Last<T>(s: seq<T>, n: nat): (r: seq<T>)
    ensures |r| == if |s| < n then |s| else n
    ensures s == s[..|s| - |r|] + r
  {
    if |s| <= n then s else s[|s| - n..]
  }

  /** The elements in slots s, oldest first, when i is the next slot to write. */
  function Held<T>(s: seq<T>, i: nat, f: bool): (r: seq<T>)
    requires i <= |s|
    ensures |r| == if f then |s| else i
  {
    if f then s[i..] + s[..i] else s[..i]
  }

  /** UT_ringbuffer. A pointer to an element is the number of its slot; None is NULL. */
  class RingBuffer<T(0)> {
    var i: nat            // the next available slot
    var n: nat            // the capacity
    var f: bool           // whether the buffer has filled up
    var d: array?<T>
    const hasDtor: bool
    ghost var pushed: seq<T>      // everything pushed since the buffer was last cleared
    ghost var history: seq<T>     // everything ever pushed
    ghost var destroyed: seq<T>   // the destructor's arguments, call by call

    ghost predicate Valid()
      reads this, d
    {
      && Shape()
      && Contents() == Last(pushed, n)
      && Logged(destroyed, Contents(), history, hasDtor)
    }

    ghost predicate Shape()
      reads `i, `n, `f, `d, d
    {
      if n == 0 then i == 0 && !f else d != null && d.Length == n && i < n
    }

    /** The elements held, oldest first. */
    ghost function Contents(): (c: seq<T>)
      requires Shape()
      reads `i, `n, `f, `d, d
      ensures |c| == Len()
    {
      if n == 0 then [] else Held(d[..], i, f)
    }

    constructor (n: nat, hasDtor: bool)
      ensures Valid() && this.n == n && this.hasDtor == hasDtor && pushed == history == destroyed == []
      ensures d == null || fresh(d)
    {
      this.n, this.hasDtor, i, f := n, hasDtor, 0, false;
      if n > 0 {
        d := new T[n];
      } else {
        d := null;
      }
      pushed, history, destroyed := [], [], [];
    }

    /** utringbuffer_push_back; there must be room for at least one element. */
    method PushBack(x: T)
      requires Valid() && n > 0
      modifies this, d
      ensures Valid() && d == old(d) && n == old(n)
      ensures pushed == old(pushed) + [x] && history == old(history) + [x]
      ensures destroyed == old(destroyed) + if hasDtor && old(f) then [old(Contents())[0]] else []
      // in terms of the pushes: the oldest of the last n gives way
      ensures hasDtor && |old(pushed)| >= n ==> destroyed == old(destroyed) + [old(pushed)[|old(pushed)| - n]]
      ensures !hasDtor || |old(pushed)| < n ==> destroyed == old(destroyed)
    {
      hide Last, Held, Logged, Shape;
      ghost var full, held := f, Contents();
      LastHeld();
      OldestPush();
      if hasDtor && f {
        DestroyOldest();
      }
      Store(x);
      PushedLast(pushed, n, x, full, held);
      LoggedPush(old(destroyed), held, history, hasDtor, full, x);
      pushed, history := pushed + [x], history + [x];
    }

    /** The buffer is full from the n-th push on, and then the oldest element held is the n-th
        last push. */
    lemma OldestPush()
      requires Valid() && n > 0
      ensures f <==> |pushed| >= n
      ensures f ==> Contents() != [] && |pushed| >= n && Contents()[0] == pushed[|pushed| - n]
    {
      hide Held, Logged;
    }

    /** What is held is short of the capacity until the buffer is full. */
    lemma LastHeld()
      requires Shape() && n > 0
      ensures |Contents()| == if f then n else i
      ensures i < n && d != null && d.Length == n
      ensures f ==> Contents() != [] && Contents()[0] == d[i]
    {
      OldestHeld(d[..], i);
    }

    method DestroyOldest()
      requires Shape() && f
      modifies `destroyed
      ensures destroyed == old(destroyed) + [Contents()[0]]
    {
      LastHeld();
      destroyed := destroyed + [d[i]];
    }

    /** Writes the next slot and moves on. */
    method Store(x: T)
      requires Shape() && n > 0
      modifies `i, `f, d
      ensures Shape() && Contents() == (if old(f) then old(Contents())[1..] else old(Contents())) + [x]
      ensures old(i) < d.Length && d[old(i)] == x && i == if old(i) + 1 == n then 0 else old(i) + 1
    {
      hide Held;
      LastHeld();
      ghost var was, at, full := d[..], i, f;
      d[i] := x;
      i := i + 1;
      if i == n {
        i := 0;
        f := true;
      }
      assert d[..] == was[at := x];
      HeldAfterPush(was, at, full, i, f, x);
    }

    /** utringbuffer_clear. */
    method Clear()
      requires Valid()
      modifies this
      ensures Valid() && d == old(d) && n == old(n) && pushed == [] && history == old(history)
      ensures i == 0 && !f && destroyed == if hasDtor then old(history) else []
    {
      if hasDtor {
        DestroyAll();
      }
      i, f, pushed := 0, false, [];
    }

    /** The destructor loops of utringbuffer_clear. */
    method DestroyAll()
      requires Shape()
      modifies `destroyed
      ensures destroyed == old(destroyed) + Contents()
    {
      hide Held;
      ghost var c := Contents();
      if f {
        for j := 0 to n
          invariant Contents() == c && destroyed == old(destroyed) + c[..j]
        {
          EltPtrIsLive(j);
          destroyed := destroyed + [d[EltPtr(j).value]];
        }
      } else {
        for j := 0 to i
          invariant Contents() == c && destroyed == old(destroyed) + c[..j]
        {
          EltPtrIsLive(j);
          destroyed := destroyed + [d[EltPtr(j).value]];
        }
      }
    }

    /** utringbuffer_done. */
    method Done()
      requires Valid()
      modifies this
      ensures Valid() && n == 0 && d == null && history == old(history)
      ensures destroyed == if hasDtor then old(history) else []
    {
      hide Held, Last, Logged;
      Clear();
      d := null;
      n := 0;
      AllDestroyed(destroyed, history, hasDtor);
    }

    // -------------------------------------------------------------- index expressions

    function Len(): nat
      reads `i, `n, `f
    {
      if f then n else i
    }

    predicate Empty()
      reads this
    {
      i == 0 && !f
    }

    function RealIdx(j: nat): nat
      requires f ==> n > 0
      reads this
    {
      if f then (j + i) % n else j
    }

    function FakeIdx(j: nat): nat
      requires f ==> n > 0 && i < n
      reads this
    {
      if f then (j + n - i) % n else j
    }

    function EltPtr(j: int): Option<nat>
      requires f ==> n > 0
      reads this
    {
      if 0 <= j < Len() then Some(RealIdx(j)) else None
    }

    function EltIdx(slot: nat): nat
      requires f ==> n > 0 && i < n
      reads this
    {
      FakeIdx(slot)
    }

    function Front(): Option<nat>
      requires f ==> n > 0
      reads this
    {
      EltPtr(0)
    }

    function Back(): Option<nat>
      requires f ==> n > 0
      reads this
    {
      if Empty() then None else EltPtr(Len() - 1)
    }

    function Next(e: Option<nat>): Option<nat>
      requires f ==> n > 0 && i < n
      reads this
    {
      if e == None then Front() else EltPtr(EltIdx(e.value) + 1)
    }

    function Prev(e: Option<nat>): Option<nat>
      requires f ==> n > 0 && i < n
      reads this
    {
      if e == None then Back() else EltPtr(EltIdx(e.value) - 1)
    }

    // -------------------------------------------------------------- what they mean

    /** Element j is where eltptr says, and there is one exactly for 0 <= j < len. */
    lemma EltPtrIsLive(j: int)
      requires Shape()
      ensures (EltPtr(j).Some? <==> 0 <= j < Len())
      ensures EltPtr(j).Some? ==>
        EltPtr(j).value < n && d != null && d.Length == n && d[EltPtr(j).value] == Contents()[j]
    {
      if f && 0 <= j < n {
        Wrap(j, i, n);
      }
    }

    /** With k pushes since the last clear, element j is push number max(0, k - n) + j. */
    lemma EltPtrIsPush(j: nat)
      requires Valid() && j < Len()
      ensures Len() == if |pushed| < n then |pushed| else n
      ensures |pushed| >= Len() && EltPtr(j).Some? && EltPtr(j).value < n
      ensures d != null && d.Length == n && d[EltPtr(j).value] == pushed[|pushed| - Len() + j]
    {
      hide Held, Logged, RealIdx;
      EltPtrIsLive(j);
    }

    /** eltidx undoes eltptr, and eltptr undoes eltidx on every slot in use. */
    lemma EltIdxUndoesEltPtr(j: nat, slot: nat)
      requires Valid()
      ensures j < Len() ==> EltIdx(EltPtr(j).value) == j
      ensures slot < (if f then n else i) ==> EltPtr(EltIdx(slot)) == Some(slot)
    {
      if f && j < n {
        Wrap(j, i, n);
      }
      if f && slot < n {
        Wrap((slot + n - i) % n, i, n);
        Unwrap(slot, i, n);
      }
    }

    /** next and prev step through the elements in order and give NULL past either end;
        starting from NULL they enter at the front and at the back. */
    lemma NextAndPrev(j: nat)
      requires Valid() && j < Len()
      ensures Next(EltPtr(j)) == EltPtr(j + 1) && Prev(EltPtr(j)) == EltPtr(j - 1)
      ensures Next(None) == EltPtr(0) && Prev(None) == EltPtr(Len() - 1)
      ensures Prev(EltPtr(0)) == None && Next(EltPtr(Len() - 1)) == None
    {
      EltIdxUndoesEltPtr(j, 0);
      EltIdxUndoesEltPtr(0, 0);
      EltIdxUndoesEltPtr(Len() - 1, 0);
    }

    function NextTimes(k: nat): Option<nat>
      requires f ==> n > 0 && i < n
      reads this
    {
      if k == 0 then None else Next(NextTimes(k - 1))
    }

    /** The loop a caller writes, starting from NULL and following next, visits the elements
        oldest first and comes back to NULL after the last. */
    lemma {:induction false} WalkVisitsContents(k: nat)
      requires Valid() && k <= Len()
      ensures NextTimes(k) == if k == 0 then None else EltPtr(k - 1)
      ensures k == Len() ==> NextTimes(k + 1) == EltPtr(k)
      ensures EltPtr(Len()) == None
    {
      if k > 0 {
        WalkVisitsContents(k - 1);
        if k > 1 {
          NextAndPrev(k - 2);
        }
        NextAndPrev(k - 1);
      }
    }
  }

  // ---------------------------------------------------------------- sequences and remainders

  lemma Wrap(j: nat, i: nat, n: nat)
    requires j < n && i < n
    ensures (j + i) % n == if j + i < n then j + i else j + i - n
    ensures ((j + i) % n + n - i) % n == j
  {
    Remainder(j + i, n);
    Remainder((j + i) % n + n - i, n);
  }

  lemma Unwrap(slot: nat, i: nat, n: nat)
    requires slot < n && i < n
    ensures ((slot + n - i) % n + i) % n == slot
  {
    Remainder(slot + n - i, n);
    Remainder((slot + n - i) % n + i, n);
  }

  lemma Remainder(a: nat, n: nat)
    requires a < 2 * n
    ensures a % n == if a < n then a else a - n
  {
    if a >= n {
      assert a == n * 1 + (a - n);
      assert a / n == 1;
    }
  }

  /** The destructor has been called once for every element pushed and no longer held. */
  ghost predicate Logged<T>(destroyed: seq<T>, held: seq<T>, history: seq<T>, hasDtor: bool) {
    if hasDtor then destroyed + held == history else destroyed == []
  }

  lemma AllDestroyed<T>(destroyed: seq<T>, history: seq<T>, hasDtor: bool)
    requires destroyed == if hasDtor then history else []
    ensures Logged(destroyed, [], history, hasDtor)
    ensures forall n: nat :: Last<T>([], n) == []
  {
  }

  lemma OldestHeld<T>(s: seq<T>, i: nat)
    requires i < |s|
    ensures Held(s, i, true)[0] == s[i]
  {
  }

  /** Writes over the oldest element of a full ring, or after the newest of one that is not. */
  lemma HeldAfterPush<T>(s: seq<T>, i: nat, f: bool, i': nat, f': bool, x: T)
    requires i < |s| && if i + 1 == |s| then i' == 0 && f' else i' == i + 1 && f' == f
    ensures Held(s[i := x], i', f') == (if f then Held(s, i, f)[1..] else Held(s, i, f)) + [x]
  {
    var t := s[i := x];
    assert t[..i + 1] == s[..i] + [x] && t[i + 1..] == s[i + 1..];
    if f {
      assert Held(s, i, f)[1..] == s[i + 1..] + s[..i];
      Reassociate(s[i + 1..], s[..i], [x]);
    }
    if i + 1 == |s| {
      assert t[..i + 1] == t && t[0..] == t && t[..0] == [] && s[i + 1..] == [];
    }
  }

  lemma Reassociate<T>(a: seq<T>, b: seq<T>, c: seq<T>)
    ensures a + (b + c) == a + b + c
  {
  }

  lemma PushedLast<T>(s: seq<T>, n: nat, x: T, f: bool, held: seq<T>)
    requires n > 0 && held == Last(s, n) && |held| == (if f then n else |held|) && (!f ==> |held| < n)
    ensures Last(s + [x], n) == (if f then held[1..] else held) + [x]
  {
  }

  lemma LoggedPush<T>(destroyed: seq<T>, held: seq<T>, history: seq<T>, hasDtor: bool, f: bool, x: T)
    requires Logged(destroyed, held, history, hasDtor) && (f ==> held != [])
    ensures Logged(if hasDtor && f then destroyed + [held[0]] else destroyed, (if f then held[1..] else held) + [x],
      history + [x], hasDtor)
  {
    if hasDtor && f {
      assert held == [held[0]] + held[1..];
    }
  }
}
