/** Bookkeeping for the buffer functions: the records, objects and descriptors that come and go
    while buffers are allocated and released. */
module BufferAccounts {
  import opened Lists
  import opened Registries
  import opened Results
  import L = BufferLocks

  // ---------------------------------------------------------------- records on top of others

  ghost function BosOf(recs: seq<Elem>): set<nat> {
    set e | e in recs :: e.value
  }

  ghost function FdsOf(recs: seq<Elem>): set<Key> {
    set e | e in recs :: e.key
  }

  lemma InSets(recs: seq<Elem>)
    ensures forall e :: e in recs ==> e.value in BosOf(recs) && e.key in FdsOf(recs)
  {
  }

  lemma OfOneMore(recs: seq<Elem>, e: Elem)
    ensures BosOf(recs + [e]) == BosOf(recs) + {e.value} && FdsOf(recs + [e]) == FdsOf(recs) + {e.key}
    ensures BosOf([e] + recs) == {e.value} + BosOf(recs) && FdsOf([e] + recs) == {e.key} + FdsOf(recs)
  {
  }

  /** The objects and descriptors of these records come on top of the given ones, and are
      different from them and from each other. */
  ghost predicate Beside(recs: seq<Elem>, live: set<nat>, open: set<Key>, lives: set<nat>, opens: set<Key>) {
    && live == lives + BosOf(recs) && open == opens + FdsOf(recs)
    && (forall e :: e in recs ==> e.value !in lives && e.key !in opens)
    && (forall i, j :: 0 <= i < j < |recs| ==> recs[i].value != recs[j].value && recs[i].key != recs[j].key)
  }

  ghost function ObjectsOf(recs: seq<Elem>): seq<nat> {
    seq(|recs|, i requires 0 <= i < |recs| => recs[i].value)
  }

  lemma NoneLeft(recs: seq<Elem>)
    ensures ObjectsOf(recs[..0]) == [] && recs[0..] == recs
  {
  }

  lemma ReleaseFirst(recs: seq<Elem>, j: nat, live: set<nat>, open: set<Key>, lives: set<nat>, opens: set<Key>)
    requires j < |recs| && Beside(recs[j..], live, open, lives, opens)
    ensures recs[j..][0] == recs[j] && recs[j..][1..] == recs[j + 1..]
    ensures Beside(recs[j + 1..], live - {recs[j].value}, open - {recs[j].key}, lives, opens)
    ensures ObjectsOf(recs[..j + 1]) == ObjectsOf(recs[..j]) + [recs[j].value]
    ensures recs[j].value in live && recs[j].value !in lives
  {
    hide Beside;
    var e, rest := recs[j], recs[j + 1..];
    assert recs[..j + 1] == recs[..j] + [e];
    assert recs[j..] == [e] + rest;
    BesideRest(e, rest, live, open, lives, opens);
  }

  lemma BesideRest(e: Elem, rest: seq<Elem>, live: set<nat>, open: set<Key>, lives: set<nat>, opens: set<Key>)
    requires Beside([e] + rest, live, open, lives, opens)
    ensures Beside(rest, live - {e.value}, open - {e.key}, lives, opens)
    ensures e.value in live && e.value !in lives
  {
    hide BosOf, FdsOf;
    var all := [e] + rest;
    OfOneMore(rest, e);
    forall i | 0 <= i < |rest| ensures rest[i].value != e.value && rest[i].key != e.key {
      assert all[0] == e && all[i + 1] == rest[i];
    }
    NotAmong(rest, e);
    assert all[1..] == rest;
    RestDiffer(all, rest);
    TakenOut(lives, BosOf(rest), e.value);
    TakenOut(opens, FdsOf(rest), e.key);
  }

  lemma TakenOut<T>(s: set<T>, more: set<T>, x: T)
    requires x !in s && x !in more
    ensures s + ({x} + more) - {x} == s + more
  {
  }

  lemma NotAmong(recs: seq<Elem>, e: Elem)
    requires forall i :: 0 <= i < |recs| ==> recs[i].value != e.value && recs[i].key != e.key
    ensures e.value !in BosOf(recs) && e.key !in FdsOf(recs)
  {
  }

  lemma RestDiffer(recs: seq<Elem>, rest: seq<Elem>)
    requires recs != [] && rest == recs[1..]
    requires forall i, j :: 0 <= i < j < |recs| ==> recs[i].value != recs[j].value && recs[i].key != recs[j].key
    ensures forall i, j :: 0 <= i < j < |rest| ==> rest[i].value != rest[j].value && rest[i].key != rest[j].key
  {
    forall i, j | 0 <= i < j < |rest| ensures rest[i].value != rest[j].value && rest[i].key != rest[j].key {
      assert rest[i] == recs[i + 1] && rest[j] == recs[j + 1];
    }
  }

  /** The number of allocations that succeed before the first that does not. */
  function FirstFailure(answers: seq<Answer>): (n: nat)
    ensures n <= |answers| && forall j :: 0 <= j < n ==> answers[j].Created?
    ensures n < |answers| ==> !answers[n].Created?
  {
    if answers == [] || !answers[0].Created? then 0 else 1 + FirstFailure(answers[1..])
  }

  /** The allocations that the loop gets to: those that succeed and the first that does not. */
  function Tried(answers: seq<Answer>): seq<Answer> {
    var n := FirstFailure(answers);
    if n < |answers| then answers[..n + 1] else answers
  }

  function Objects(answers: seq<Answer>): seq<nat>
    requires forall j :: 0 <= j < |answers| ==> answers[j].Created?
  {
    seq(|answers|, i requires 0 <= i < |answers| => answers[i].bo)
  }

  /** The records and handles are those of the first allocations, all of which succeeded. */
  ghost predicate Recorded(recs: seq<Elem>, answers: seq<Answer>, handles: seq<Option<Key>>) {
    && |recs| <= |answers| == |handles|
    && (forall j :: 0 <= j < |recs| ==> answers[j].Created? && recs[j].key == answers[j].fd && recs[j].value == answers[j].bo)
    && (forall j :: 0 <= j < |recs| ==> handles[j] == Some(recs[j].key))
  }

  lemma RecordedNone(answers: seq<Answer>, handles: seq<Option<Key>>)
    requires |answers| == |handles|
    ensures Recorded([], answers, handles)
  {
  }

  lemma RecordedMore(recs: seq<Elem>, added: seq<Elem>, answers: seq<Answer>, handles: seq<Option<Key>>)
    requires Recorded(recs, answers, handles) && |added| == 1 && |recs| < |answers| && answers[|recs|].Created?
    requires added[0].key == answers[|recs|].fd && added[0].value == answers[|recs|].bo
    ensures added == [added[0]] && Recorded(recs + added, answers, handles[|recs| := Some(added[0].key)])
  {
  }

  lemma FailsFirstAt(answers: seq<Answer>, i: nat, recs: seq<Elem>, handles: seq<Option<Key>>)
    requires Recorded(recs, answers, handles) && |recs| == i && (i < |answers| ==> !answers[i].Created?)
    ensures FirstFailure(answers) == i && ObjectsOf(recs) == Objects(answers[..i])
    ensures Tried(answers) == if i < |answers| then answers[..i + 1] else answers
  {
    hide FirstFailure;
  }

  lemma OneMore(recs: seq<Elem>, e: Elem, live: set<nat>, open: set<Key>, lives: set<nat>, opens: set<Key>)
    requires Beside(recs, live, open, lives, opens)
    requires e.value !in live && e.key !in open
    ensures Beside(recs + [e], live + {e.value}, open + {e.key}, lives, opens)
  {
    OfOneMore(recs, e);
    InSets(recs);
    hide BosOf, FdsOf;
  }

  lemma OneStray(recs: seq<Elem>, live: set<nat>, open: set<Key>, lives: set<nat>, opens: set<Key>, fd: Key)
    requires Beside(recs, live, open, lives, opens) && fd !in open
    ensures Beside(recs, live, open + {fd}, lives, opens + {fd})
  {
    InSets(recs);
    hide BosOf, FdsOf;
  }

  // ---------------------------------------------------------------- what allocations leave behind

  /** The object nobody owns after a failed allocation. */
  function OrphanedBy(a: Answer): set<nat> {
    if a.NoRecord? then {a.bo} else {}
  }

  function Orphaned(answers: seq<Answer>): set<nat> {
    var n := FirstFailure(answers);
    if n < |answers| then OrphanedBy(answers[n]) else {}
  }

  /** The descriptor nobody can close after an allocation. */
  function StraysBy(a: Answer): set<Key> {
    match a
    case NoRecord(_, fd) => {fd}
    case Created(_, _, logged) => {logged}
    case _ => {}
  }

  function Strays(answers: seq<Answer>): set<Key> {
    if answers == [] then {} else Strays(answers[..|answers| - 1]) + StraysBy(answers[|answers| - 1])
  }

  lemma StraysStep(answers: seq<Answer>, i: nat, open: set<Key>, strays: set<Key>)
    requires i < |answers|
    ensures Strays(answers[..i + 1]) == Strays(answers[..i]) + StraysBy(answers[i])
    ensures open + Strays(answers[..i]) + StraysBy(answers[i]) == open + Strays(answers[..i + 1])
    ensures strays + Strays(answers[..i]) + StraysBy(answers[i]) == strays + Strays(answers[..i + 1])
  {
    assert answers[..i + 1][..i] == answers[..i];
  }

  /** A successful allocation puts one more record on top, and leaves a stray below. */
  lemma CreatedBeside(recs: seq<Elem>, e: Elem, r: Registry, a: Answer, lives: set<nat>, opens: set<Key>)
    requires Beside(recs, r.live, r.open, lives, opens) && FreshAnswer(r, a) && a.Created?
    requires e.value == a.bo && e.key == a.fd
    ensures Beside(recs + [e], NewStep(r, a).live, NewStep(r, a).open, lives, opens + StraysBy(a))
  {
    hide Beside;
    OneMore(recs, e, r.live, r.open, lives, opens);
    OneStray(recs + [e], r.live + {e.value}, r.open + {e.key}, lives, opens, a.logged);
  }

  /** A failed one adds what it leaves behind. */
  lemma FailedBeside(recs: seq<Elem>, r: Registry, a: Answer, lives: set<nat>, opens: set<Key>)
    requires Beside(recs, r.live, r.open, lives, opens) && FreshAnswer(r, a) && !a.Created?
    ensures Beside(recs, NewStep(r, a).live, NewStep(r, a).open, lives + OrphanedBy(a), opens + StraysBy(a))
  {
    InSets(recs);
    hide BosOf, FdsOf;
  }

  /** The descriptors an allocation loop leaves open were not open before, and there is one for
      every attempt that got as far as opening one. */
  lemma {:induction false} StraysAreNew(r: Registry, answers: seq<Answer>, i: nat)
    requires i <= |answers| && forall j :: 0 <= j < i ==> FreshAnswer(News(r, answers[..j]), answers[j])
    ensures Strays(answers[..i]) !! r.open && r.open + Strays(answers[..i]) <= News(r, answers[..i]).open
    ensures |Strays(answers[..i])| == Opening(answers[..i])
  {
    hide News, Strays, FreshAnswer, Opening;
    if i == 0 {
      NewsOfNothing(r, answers);
      NothingStrays(r, answers);
    } else {
      StraysAreNew(r, answers, i - 1);
      OneMoreStray(r, answers, i - 1);
    }
  }

  lemma NothingStrays(r: Registry, answers: seq<Answer>)
    ensures Strays(answers[..0]) == {} && Opening(answers[..0]) == 0
  {
  }

  lemma OneMoreStray(r: Registry, answers: seq<Answer>, i: nat)
    requires i < |answers| && FreshAnswer(News(r, answers[..i]), answers[i])
    requires Strays(answers[..i]) !! r.open && r.open + Strays(answers[..i]) <= News(r, answers[..i]).open
    requires |Strays(answers[..i])| == Opening(answers[..i])
    ensures Strays(answers[..i + 1]) !! r.open && r.open + Strays(answers[..i + 1]) <= News(r, answers[..i + 1]).open
    ensures |Strays(answers[..i + 1])| == Opening(answers[..i + 1])
  {
    assert answers[..i + 1][..i] == answers[..i];
    NewsStep(r, answers, i);
  }

  /** The number of attempts that leave a descriptor open. */
  function Opening(answers: seq<Answer>): nat {
    if answers == [] then 0
    else Opening(answers[..|answers| - 1]) + |StraysBy(answers[|answers| - 1])|
  }

  lemma {:induction false} AllOpening(answers: seq<Answer>, n: nat)
    requires n <= |answers| && forall j :: 0 <= j < n ==> answers[j].Created?
    ensures Opening(answers[..n]) == n
  {
    if n > 0 {
      assert answers[..n][..n - 1] == answers[..n - 1];
      AllOpening(answers, n - 1);
    }
  }

  /** An allocation of several buffers leaves open one descriptor for each that succeeded and one
      for a failed record, so none exactly if none succeeded and no record failed. */
  lemma AllocationLeaks(r: Registry, answers: seq<Answer>)
    requires forall i :: 0 <= i < |answers| ==> FreshAnswer(News(r, answers[..i]), answers[i])
    ensures Strays(Tried(answers)) !! r.open
    ensures |Strays(Tried(answers))| == FirstFailure(answers) + |Orphaned(answers)|
    ensures r.open + Strays(Tried(answers)) == r.open <==> FirstFailure(answers) == 0 && Orphaned(answers) == {}
  {
    hide News, Strays, FirstFailure, FreshAnswer;
    var n := FirstFailure(answers);
    var m := if n < |answers| then n + 1 else n;
    assert Tried(answers) == answers[..m];
    StraysAreNew(r, answers, m);
    AllOpening(answers, n);
    if n < |answers| {
      assert answers[..m][..n] == answers[..n];
    }
    var new' := Strays(Tried(answers));
    assert new' == {} <==> r.open + new' == r.open;
  }

  // ---------------------------------------------------------------- duplicates for the client

  ghost function Range(dups: seq<Key>): set<Key> {
    set d | d in dups
  }

  function Somes(dups: seq<Key>): seq<Option<Key>> {
    seq(|dups|, i requires 0 <= i < |dups| => Some(dups[i]))
  }

  /** Each duplicate is new when it is made: the handles from there on are still open, those
      before it have been closed. */
  ghost predicate FreshDups(opens: set<Key>, recs: seq<Elem>, dups: seq<Key>)
    requires |recs| == |dups|
  {
    forall i :: 0 <= i < |dups| ==> dups[i] !in opens + FdsOf(recs[i..]) + Range(dups[..i])
  }

  /** The same in terms of what the kernel answered. */
  ghost predicate FreshDuplicates(opens: set<Key>, answers: seq<Answer>, dups: seq<Key>)
    requires |answers| == |dups| && forall a :: a in answers ==> a.Created?
  {
    forall i :: 0 <= i < |dups| ==> dups[i] !in opens + FdsFrom(answers, i) + Range(dups[..i])
  }

  ghost function FdsFrom(answers: seq<Answer>, i: nat): set<Key>
    requires i <= |answers| && forall a :: a in answers ==> a.Created?
  {
    set a | a in answers[i..] :: a.fd
  }

  lemma SameFreshness(opens: set<Key>, answers: seq<Answer>, recs: seq<Elem>, dups: seq<Key>, handles: seq<Option<Key>>)
    requires Recorded(recs, answers, handles) && |recs| == |answers| == |dups|
    requires FreshDuplicates(opens, answers, dups)
    ensures FreshDups(opens, recs, dups)
  {
    forall i | 0 <= i < |dups| ensures FdsOf(recs[i..]) <= FdsFrom(answers, i) {
      forall e | e in recs[i..] ensures e.key in FdsFrom(answers, i) {
        var j :| 0 <= j < |recs| - i && recs[i..][j] == e;
        assert answers[i..][j] in answers[i..];
      }
    }
  }

  lemma NoDups(dups: seq<Key>)
    ensures Range(dups[..0]) == {} && forall s: set<Key> :: s + Range(dups[..0]) == s
  {
  }

  lemma NextDup(recs: seq<Elem>, dups: seq<Key>, i: nat, live: set<nat>, open: set<Key>, lives: set<nat>, opens: set<Key>)
    requires i < |recs| == |dups| && FreshDups(opens, recs, dups)
    requires Beside(recs[i..], live, open, lives, opens + Range(dups[..i]))
    ensures dups[i] !in open
    ensures Beside(recs[i..], live, open + {dups[i]}, lives, opens + Range(dups[..i + 1]))
  {
    assert dups[..i + 1] == dups[..i] + [dups[i]];
    assert opens + Range(dups[..i + 1]) == opens + Range(dups[..i]) + {dups[i]};
    OneStray(recs[i..], live, open, lives, opens + Range(dups[..i]), dups[i]);
  }

  lemma AllSomes(buffers: seq<Option<Key>>, dups: seq<Key>)
    requires |buffers| == |dups| && forall j :: 0 <= j < |dups| ==> buffers[j] == Some(dups[j])
    ensures buffers == Somes(dups)
  {
  }

  lemma NothingTried()
    ensures Strays([]) == {}
  {
  }

  lemma {:induction false} StraysMember(answers: seq<Answer>, m: nat, k: Key)
    requires m <= |answers|
    ensures k in Strays(answers[..m]) <==> exists i :: 0 <= i < m && k in StraysBy(answers[i])
  {
    if m > 0 {
      StraysMember(answers, m - 1, k);
      assert answers[..m][..m - 1] == answers[..m - 1];
    }
  }

  /** What the attempts of an allocation loop come to, in plain terms: it stops behind the first
      that is not Created; these are the descriptors it leaves open, the objects it made for
      buffers, and the object that a failed record leaves without an owner. */
  lemma AllocationMeans(answers: seq<Answer>, dups: seq<Key>)
    ensures var n := FirstFailure(answers);
      && n <= |answers| && (forall i :: 0 <= i < n ==> answers[i].Created?) && (n < |answers| ==> !answers[n].Created?)
      && Tried(answers) == (if n < |answers| then answers[..n + 1] else answers)
      && (forall i :: 0 <= i < n ==> answers[i].logged in Strays(Tried(answers)))
      && (n < |answers| && answers[n].NoRecord? ==>
        answers[n].fd in Strays(Tried(answers)) && Orphaned(answers) == {answers[n].bo})
      && (n == |answers| || !answers[n].NoRecord? ==> Orphaned(answers) == {})
      && |Objects(answers[..n])| == n && (forall i :: 0 <= i < n ==> Objects(answers[..n])[i] == answers[i].bo)
    ensures |Somes(dups)| == |dups|
    ensures forall i :: 0 <= i < |dups| ==> Somes(dups)[i] == Some(dups[i]) && dups[i] in Range(dups)
    ensures forall k :: k in Range(dups) ==> exists i :: 0 <= i < |dups| && dups[i] == k
  {
    hide FirstFailure, Strays;
    var n := FirstFailure(answers);
    var m := if n < |answers| then n + 1 else n;
    assert Tried(answers) == answers[..m];
    forall i | 0 <= i < m ensures StraysBy(answers[i]) <= Strays(Tried(answers)) {
      forall k | k in StraysBy(answers[i]) ensures k in Strays(Tried(answers)) {
        StraysMember(answers, m, k);
      }
    }
  }

  lemma BesideHas(recs: seq<Elem>, live: set<nat>, open: set<Key>, lives: set<nat>, opens: set<Key>)
    requires Beside(recs, live, open, lives, opens)
    ensures lives <= live && opens <= open
  {
  }

  lemma BesideAtFirst(answers: seq<Answer>, live: set<nat>, open: set<Key>, strays: set<Key>)
    ensures Strays(answers[..0]) == {} && open + Strays(answers[..0]) == open && strays + Strays(answers[..0]) == strays
    ensures Beside([], live, open, live, open)
  {
  }

  lemma AllTried(answers: seq<Answer>)
    ensures FirstFailure(answers) == |answers| ==> Tried(answers) == answers && Orphaned(answers) == {}
    ensures answers[..|answers|] == answers
  {
  }

  lemma NothingBeside(live: set<nat>, open: set<Key>, lives: set<nat>, opens: set<Key>)
    ensures Beside([], live, open, lives, opens) ==> live == lives && open == opens
  {
  }

  /** The registry after several allocations. */
  ghost function News(r: Registry, answers: seq<Answer>): Registry {
    if answers == [] then r else NewStep(News(r, answers[..|answers| - 1]), answers[|answers| - 1])
  }

  lemma NewsOfNothing(r: Registry, answers: seq<Answer>)
    ensures News(r, answers[..0]) == r
  {
  }

  lemma NewsStep(r: Registry, answers: seq<Answer>, i: nat)
    requires i < |answers|
    ensures News(r, answers[..i + 1]) == NewStep(News(r, answers[..i]), answers[i])
  {
    assert answers[..i + 1][..i] == answers[..i];
  }

  /** The user data of these objects is still what it was. */
  ghost predicate Undisturbed(lives: set<nat>, before: map<nat, L.BufferObject>, data: map<nat, L.BufferObject>) {
    forall bo :: bo in lives ==> bo in before && bo in data && data[bo] == before[bo]
  }

  lemma UndisturbedMeans(lives: set<nat>, before: map<nat, L.BufferObject>, data: map<nat, L.BufferObject>)
    requires Undisturbed(lives, before, data)
    ensures forall bo :: bo in lives && bo in before ==> bo in data && data[bo] == before[bo]
  {
  }

  lemma UndisturbedAtFirst(lives: set<nat>, data: map<nat, L.BufferObject>)
    requires forall bo :: bo in lives ==> bo in data
    ensures Undisturbed(lives, data, data)
  {
  }

  lemma UndisturbedWithout(lives: set<nat>, before: map<nat, L.BufferObject>, data: map<nat, L.BufferObject>, bo: nat)
    requires Undisturbed(lives, before, data) && bo !in lives
    ensures Undisturbed(lives, before, data - {bo})
  {
  }

  lemma StillUndisturbed(lives: set<nat>, more: set<nat>, before: map<nat, L.BufferObject>, now: map<nat, L.BufferObject>,
      data: map<nat, L.BufferObject>)
    requires Undisturbed(lives, before, now) && Undisturbed(more, now, data) && lives <= more
    ensures Undisturbed(lives, before, data)
  {
  }

  /** Every living object has user data of its own. */
  ghost predicate Backed(live: set<nat>, data: map<nat, L.BufferObject>) {
    && (forall bo :: bo in live ==> bo in data)
    && (forall bo, bo' :: bo in data && bo' in data && data[bo] == data[bo'] ==> bo == bo')
  }

  lemma AllBacked(live: set<nat>, data: map<nat, L.BufferObject>)
    requires Backed(live, data)
    ensures forall bo :: bo in live ==> bo in data
  {
  }

  lemma BackedWith(live: set<nat>, data: map<nat, L.BufferObject>, bo: nat, d: L.BufferObject)
    requires Backed(live, data) && forall x :: x in data ==> data[x] != d
    ensures Backed(live + {bo}, data[bo := d])
  {
  }

  lemma BackedWithout(live: set<nat>, data: map<nat, L.BufferObject>, bo: nat)
    requires Backed(live, data)
    ensures Backed(live - {bo}, data - {bo})
  {
  }
}
