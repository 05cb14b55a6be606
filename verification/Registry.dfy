/** The buffer registry of gralloc_gbm.c as a protocol between its clients, libgbm and the
    kernel: which file descriptors stand for which buffer objects. */
module Registries {
  import opened Results

  /** The four bytes of a descriptor, which are the table's key for it. */
  type Key = seq<bv8>

  function KeyOf(fd: bv32): Key {
    [(fd & 0xFF) as bv8, ((fd >> 8) & 0xFF) as bv8, ((fd >> 16) & 0xFF) as bv8, (fd >> 24) as bv8]
  }

  lemma KeyOfInjective(fd: bv32, fd': bv32)
    requires KeyOf(fd) == KeyOf(fd')
    ensures fd == fd'
  {
    var k, k' := KeyOf(fd), KeyOf(fd');
    assert k[0] == k'[0] && k[1] == k'[1] && k[2] == k'[2] && k[3] == k'[3];
  }

  /** The key is the descriptor in little-endian order. */
  lemma KeyOfMeans(fd: bv32)
    ensures var k := KeyOf(fd);
      |k| == 4 && fd == (k[3] as bv32 << 24) | (k[2] as bv32 << 16) | (k[1] as bv32 << 8) | k[0] as bv32
  {
    Bytes(fd);
  }

  lemma Bytes(fd: bv32)
    ensures fd == (((fd >> 24) as bv8 as bv32) << 24) | ((((fd >> 16) & 0xFF) as bv8 as bv32) << 16)
      | ((((fd >> 8) & 0xFF) as bv8 as bv32) << 8) | ((fd & 0xFF) as bv8 as bv32)
  {
  }

  /** What the allocations inside gralloc_gbm_android_buffer_new come to. With NoRecord the
      buffer object and its descriptor exist, but the record to register them does not, and the
      handle with the descriptor is dropped. For a buffer that is created one more descriptor is
      opened, for the closing log line. */
  datatype Answer = NoHandle | NoObject | NoRecord(bo: nat, fd: Key) | Created(bo: nat, fd: Key, logged: Key)

  /** The registry and its surroundings: the buffer objects that exist, those destroyed, in
      order, the descriptors that are open, and those among them whose number the program has
      dropped, so that nobody can close them. */
  datatype Registry = Registry(entries: map<Key, nat>, live: set<nat>, destroyed: seq<nat>, open: set<Key>, strays: set<Key>)

  const EMPTY := Registry(map[], {}, [], {}, {})

  datatype Event =
    | New(answer: Answer)
    | Import(fd: Key, imported: Option<nat>)   // fd is the clone's descriptor
    | Query(fd: Key, queried: Key)
    | Free(fd: Key)
    | Close(fd: Key)

  function NewStep(r: Registry, a: Answer): Registry {
    match a
    case NoRecord(bo, fd) => Drop(r.(live := r.live + {bo}), fd)
    case Created(bo, fd, logged) => Drop(ImportStep(r, fd, Some(bo)), logged)
    case _ => r
  }

  /** A descriptor is opened and its number forgotten. */
  function Drop(r: Registry, fd: Key): Registry {
    r.(open := r.open + {fd}, strays := r.strays + {fd})
  }

  /** The mapper clones the handle first, and closes the clone if importing it fails. */
  function ImportStep(r: Registry, fd: Key, imported: Option<nat>): Registry {
    if imported.None? then r
    else r.(entries := r.entries[fd := imported.value], live := r.live + {imported.value}, open := r.open + {fd})
  }

  /** The query opens a descriptor for the object and puts it in a record nobody closes it from. */
  function QueryStep(r: Registry, fd: Key, queried: Key): Registry {
    if fd in r.entries then Drop(r, queried) else r
  }

  function FreeStep(r: Registry, fd: Key): Registry {
    if fd !in r.entries then r
    else
      var bo := r.entries[fd];
      r.(entries := r.entries - {fd}, live := r.live - {bo}, destroyed := r.destroyed + [bo])
  }

  function Step(r: Registry, e: Event): Registry {
    match e
    case New(answer) => NewStep(r, answer)
    case Import(fd, imported) => ImportStep(r, fd, imported)
    case Query(fd, queried) => QueryStep(r, fd, queried)
    case Free(fd) => FreeStep(r, fd)
    case Close(fd) => r.(open := r.open - {fd})
  }

  // ---------------------------------------------------------------- the protocol

  /** A buffer object the program has not seen before; 0 is NULL. */
  predicate FreshObject(r: Registry, bo: nat) {
    bo != 0 && bo !in r.live && bo !in r.destroyed
  }

  /** libgbm creates new objects, and the kernel hands out descriptors that are not open. */
  predicate FreshAnswer(r: Registry, a: Answer) {
    match a
    case NoRecord(bo, fd) => FreshObject(r, bo) && fd !in r.open
    case Created(bo, fd, logged) => FreshObject(r, bo) && fd !in r.open && logged !in r.open && logged != fd
    case _ => true
  }

  /** Clients close the descriptors they know, and only once their entries are gone. */
  predicate Allowed(r: Registry, e: Event) {
    match e
    case New(answer) => FreshAnswer(r, answer)
    case Import(fd, imported) => fd !in r.open && (imported.Some? ==> FreshObject(r, imported.value))
    case Query(_, queried) => queried !in r.open
    case Free(_) => true
    case Close(fd) => fd !in r.entries && fd !in r.strays
  }

  function After(events: seq<Event>): Registry {
    if events == [] then EMPTY else Step(After(events[..|events| - 1]), events[|events| - 1])
  }

  ghost predicate AllowedRun(events: seq<Event>) {
    forall k :: 0 <= k < |events| ==> Allowed(After(events[..k]), events[k])
  }

  ghost predicate NoRepeats(s: seq<nat>) {
    forall i, j :: 0 <= i < j < |s| ==> s[i] != s[j]
  }

  /** Each entry has an open descriptor and a living object of its own, and no object is
      destroyed twice or lives on after it was destroyed. */
  ghost predicate Safe(r: Registry) {
    && (forall k :: k in r.entries ==> k in r.open && r.entries[k] in r.live)
    && (forall k, k' :: k in r.entries && k' in r.entries && r.entries[k] == r.entries[k'] ==> k == k')
    && NoRepeats(r.destroyed)
    && (forall bo :: bo in r.destroyed ==> bo !in r.live)
    && 0 !in r.live
    && r.strays <= r.open && r.strays !! r.entries.Keys
  }

  lemma StepSafe(r: Registry, e: Event)
    requires Safe(r) && Allowed(r, e)
    ensures Safe(Step(r, e))
  {
  }

  lemma RegisteredSafe(r: Registry, fd: Key, bo: nat)
    requires Safe(r) && FreshObject(r, bo)
    ensures fd !in r.entries && fd !in r.strays ==> Safe(ImportStep(r, fd, Some(bo)))
    ensures fd in r.strays ==> !Safe(ImportStep(r, fd, Some(bo)))
  {
    assert fd in ImportStep(r, fd, Some(bo)).entries.Keys;
  }

  lemma OpenSafe(r: Registry, fd: Key)
    requires Safe(r)
    ensures Safe(r.(open := r.open + {fd}))
  {
  }

  lemma CloseSafe(r: Registry, fd: Key)
    requires Safe(r) && fd !in r.entries && fd !in r.strays
    ensures Safe(r.(open := r.open - {fd}))
  {
  }

  lemma DropSafe(r: Registry, fd: Key)
    requires Safe(r) && fd !in r.open
    ensures Safe(Drop(r, fd))
  {
  }

  lemma OrphanSafe(r: Registry, bo: nat)
    requires Safe(r) && FreshObject(r, bo)
    ensures Safe(r.(live := r.live + {bo}))
  {
  }

  /** A registered descriptor is not one that was dropped. */
  lemma KnownToClose(r: Registry, fd: Key)
    requires Safe(r) && fd in r.entries
    ensures fd !in r.strays
  {
  }

  lemma NotRegistered(r: Registry, fd: Key)
    requires Safe(r) && fd !in r.open
    ensures fd !in r.entries && fd !in r.strays
  {
  }

  // ---------------------------------------------------------------- all runs

  /** The objects that a failed record allocation leaves without an owner. */
  function Orphans(events: seq<Event>): set<nat> {
    if events == [] then {}
    else
      var e := events[|events| - 1];
      Orphans(events[..|events| - 1]) + if e.New? && e.answer.NoRecord? then {e.answer.bo} else {}
  }

  /** The objects libgbm ever made for the program. */
  function Made(events: seq<Event>): set<nat> {
    if events == [] then {}
    else Made(events[..|events| - 1]) + MadeBy(events[|events| - 1])
  }

  function MadeBy(e: Event): set<nat> {
    match e
    case New(NoRecord(bo, _)) => {bo}
    case New(Created(bo, _, _)) => {bo}
    case Import(_, Some(bo)) => {bo}
    case _ => {}
  }

  /** Objects are conserved: an object that was made lives or was destroyed, and the ones
      alive are those registered and the orphans. */
  ghost predicate Conserved(r: Registry, made: set<nat>, orphans: set<nat>) {
    && (forall bo :: bo in made <==> bo in r.live || bo in r.destroyed)
    && (forall bo :: bo in r.live <==> bo in r.entries.Values || bo in orphans)
    && orphans !! r.entries.Values
  }

  lemma StepConserved(r: Registry, e: Event, made: set<nat>, orphans: set<nat>)
    requires Safe(r) && Allowed(r, e) && Conserved(r, made, orphans)
    ensures Conserved(Step(r, e), made + MadeBy(e), orphans + if e.New? && e.answer.NoRecord? then {e.answer.bo} else {})
  {
    match e
    case New(Created(bo, fd, _)) => ValuesWith(r.entries, fd, bo);
    case Import(fd, Some(bo)) => ValuesWith(r.entries, fd, bo);
    case Free(fd) =>
      if fd in r.entries {
        ValuesWithout(r.entries, fd);
        assert r.entries[fd] in r.entries.Values;
      }
    case _ =>
  }

  lemma ValuesWith(m: map<Key, nat>, k: Key, v: nat)
    requires k !in m
    ensures m[k := v].Values == m.Values + {v}
  {
    var m' := m[k := v];
    assert m'[k] == v;
    forall x | x in m.Values ensures x in m'.Values {
      var j :| j in m && m[j] == x;
      assert m'[j] == x;
    }
  }

  lemma ValuesWithout(m: map<Key, nat>, k: Key)
    requires k in m && forall i, j :: i in m && j in m && m[i] == m[j] ==> i == j
    ensures (m - {k}).Values == m.Values - {m[k]}
  {
    var m' := m - {k};
    forall x | x in m.Values && x != m[k] ensures x in m'.Values {
      var j :| j in m && m[j] == x;
      assert m'[j] == x;
    }
  }

  lemma AllowedPrefix(events: seq<Event>, k: nat)
    requires AllowedRun(events) && k <= |events|
    ensures AllowedRun(events[..k])
  {
    var before := events[..k];
    forall i | 0 <= i < k ensures Allowed(After(before[..i]), before[i]) {
      assert before[..i] == events[..i];
    }
  }

  /** After any run that ends with a free, the descriptor is not registered. If it was, its
      object has been destroyed and lives no more; all else is as before, above all the
      descriptors that are open. If it was not, nothing has changed. */
  lemma EndingWithFree(events: seq<Event>, fd: Key)
    requires AllowedRun(events + [Free(fd)])
    ensures var r, r' := After(events), After(events + [Free(fd)]);
      && fd !in r'.entries && (forall k :: k in r'.entries <==> k in r.entries && k != fd)
      && (forall k :: k in r'.entries ==> r'.entries[k] == r.entries[k])
      && (fd in r.entries ==>
        && r'.destroyed == r.destroyed + [r.entries[fd]] && r'.live == r.live - {r.entries[fd]}
        && r.entries[fd] in r.live && r.entries[fd] !in r.destroyed)
      && (fd !in r.entries ==> r' == r) && r'.open == r.open && r'.strays == r.strays
  {
    EndsWith(events, Free(fd));
    hide After, AllowedRun;
    RegisteredIsAlive(After(events), fd);
  }

  /** A close ends the life of a descriptor and touches nothing else. */
  lemma EndingWithClose(events: seq<Event>, fd: Key)
    requires AllowedRun(events + [Close(fd)])
    ensures var r, r' := After(events), After(events + [Close(fd)]);
      && fd !in r'.open && (forall k :: k in r'.open <==> k in r.open && k != fd)
      && fd !in r.entries && fd !in r.strays && r' == r.(open := r'.open)
  {
    EndsWith(events, Close(fd));
    hide After, AllowedRun, Safe;
  }

  /** A new buffer is registered under its descriptor, alive, and that descriptor and one more
      are open; no other entry changes and nothing is destroyed. Without a record the object
      lives and the descriptor is open, but there is no entry. */
  lemma EndingWithNew(events: seq<Event>, bo: nat, fd: Key, logged: Key)
    ensures AllowedRun(events + [New(Created(bo, fd, logged))]) ==> (
      var r, r' := After(events), After(events + [New(Created(bo, fd, logged))]);
      && fd !in r.entries && r'.entries == r.entries[fd := bo] && bo !in r.live && r'.live == r.live + {bo}
      && r'.open == r.open + {fd, logged} && r'.strays == r.strays + {logged} && r'.destroyed == r.destroyed)
    ensures AllowedRun(events + [New(NoRecord(bo, fd))]) ==> (
      var r, r' := After(events), After(events + [New(NoRecord(bo, fd))]);
      && fd !in r.entries && r'.entries == r.entries && bo !in r.live && r'.live == r.live + {bo}
      && r'.open == r.open + {fd} && r'.strays == r.strays + {fd} && r'.destroyed == r.destroyed)
  {
    if AllowedRun(events + [New(Created(bo, fd, logged))]) {
      EndsWith(events, New(Created(bo, fd, logged)));
      NotRegistered(After(events), fd);
    }
    if AllowedRun(events + [New(NoRecord(bo, fd))]) {
      EndsWith(events, New(NoRecord(bo, fd)));
      NotRegistered(After(events), fd);
    }
  }

  /** An import that succeeds registers the clone's descriptor; one that fails leaves nothing,
      and a query leaves a descriptor open exactly if the buffer is registered. */
  lemma EndingWithImportOrQuery(events: seq<Event>, fd: Key, bo: nat, queried: Key)
    ensures AllowedRun(events + [Import(fd, Some(bo))]) ==> (
      var r, r' := After(events), After(events + [Import(fd, Some(bo))]);
      && fd !in r.entries && r'.entries == r.entries[fd := bo] && bo !in r.live && r'.live == r.live + {bo}
      && r'.open == r.open + {fd} && r'.strays == r.strays && r'.destroyed == r.destroyed)
    ensures After(events + [Import(fd, None)]) == After(events)
    ensures var r, r' := After(events), After(events + [Query(fd, queried)]);
      && r'.entries == r.entries && r'.live == r.live && r'.destroyed == r.destroyed
      && r'.open == (if fd in r.entries then r.open + {queried} else r.open)
      && r'.strays == (if fd in r.entries then r.strays + {queried} else r.strays)
  {
    Last(events, Import(fd, None));
    Last(events, Query(fd, queried));
    if AllowedRun(events + [Import(fd, Some(bo))]) {
      EndsWith(events, Import(fd, Some(bo)));
      NotRegistered(After(events), fd);
    }
  }

  /** A descriptor that was freed and closed may be handed out again; then it is registered
      for the new object, and nothing is left of the old one. */
  lemma DescriptorReused(events: seq<Event>, fd: Key, bo: nat, logged: Key)
    requires AllowedRun(events) && fd in After(events).entries
    requires FreshObject(After(events), bo) && logged !in After(events).open
    ensures var run := events + [Free(fd), Close(fd), New(Created(bo, fd, logged))];
      var was, r := After(events).entries[fd], After(run);
      && AllowedRun(run) && r.entries == After(events).entries[fd := bo]
      && was in r.destroyed && was !in r.live && was !in r.entries.Values && bo in r.live && bo != was
  {
    var freed, closed, again := Free(fd), Close(fd), New(Created(bo, fd, logged));
    var a, b := events + [freed], events + [freed] + [closed];
    assert events + [freed, closed, again] == b + [again];
    hide After, Safe, AllowedRun, Allowed, Step, FreshObject;
    EveryRunSafe(events);
    ReuseSteps(After(events), fd, bo, logged);
    AllowedLonger(events, freed);
    AllowedLonger(a, closed);
    AllowedLonger(b, again);
    EveryRunSafe(b + [again]);
    DestroyedHasNoEntry(After(b + [again]), After(events).entries[fd]);
  }

  lemma ReuseSteps(r: Registry, fd: Key, bo: nat, logged: Key)
    requires Safe(r) && fd in r.entries && FreshObject(r, bo) && logged !in r.open
    ensures Allowed(r, Free(fd))
    ensures var freed := Step(r, Free(fd));
      && Allowed(freed, Close(fd))
      && var closed := Step(freed, Close(fd));
        && Allowed(closed, New(Created(bo, fd, logged)))
        && var again := Step(closed, New(Created(bo, fd, logged)));
          && again.entries == r.entries[fd := bo] && r.entries[fd] in again.destroyed
          && bo in again.live && bo != r.entries[fd]
  {
  }

  lemma DestroyedHasNoEntry(r: Registry, bo: nat)
    requires Safe(r) && bo in r.destroyed
    ensures bo !in r.live && bo !in r.entries.Values
  {
  }

  lemma RegisteredIsAlive(r: Registry, fd: Key)
    requires Safe(r)
    ensures fd in r.entries ==> r.entries[fd] in r.live && r.entries[fd] !in r.destroyed && fd in r.open
  {
  }

  lemma Last(events: seq<Event>, e: Event)
    ensures After(events + [e]) == Step(After(events), e)
  {
    assert (events + [e])[..|events|] == events;
  }

  lemma EndsWith(events: seq<Event>, e: Event)
    requires AllowedRun(events + [e])
    ensures AllowedRun(events) && Allowed(After(events), e) && After(events + [e]) == Step(After(events), e)
    ensures Safe(After(events))
  {
    hide Allowed, Step, Safe;
    var all, n := events + [e], |events|;
    assert all[..n] == events && all[n] == e;
    AllowedPrefix(all, n);
    EveryRunSafe(events);
  }

  lemma AllowedLonger(events: seq<Event>, e: Event)
    requires AllowedRun(events) && Allowed(After(events), e)
    ensures AllowedRun(events + [e]) && After(events + [e]) == Step(After(events), e)
  {
    hide Allowed, Step, Safe;
    var all := events + [e];
    forall k | 0 <= k < |all| ensures Allowed(After(all[..k]), all[k]) {
      assert all[..k] == events[..k];
      assert events[..|events|] == events;
    }
  }

  /** Every run that keeps the protocol is safe and conserves the buffer objects. */
  lemma {:induction false} EveryRunSafe(events: seq<Event>)
    requires AllowedRun(events)
    ensures Safe(After(events)) && Conserved(After(events), Made(events), Orphans(events))
  {
    hide Step, Safe, Allowed, Conserved, MadeBy;
    if events == [] {
      NothingYet();
    } else {
      var before, e := events[..|events| - 1], events[|events| - 1];
      AllowedPrefix(events, |before|);
      EveryRunSafe(before);
      StepSafe(After(before), e);
      StepConserved(After(before), e, Made(before), Orphans(before));
    }
  }

  /** The same in plain terms. */
  lemma EveryRunMeans(events: seq<Event>)
    requires AllowedRun(events)
    ensures var r := After(events);
      && (forall k :: k in r.entries ==> k in r.open && k !in r.strays && r.entries[k] in r.live)
      && (forall k, k' :: k in r.entries && k' in r.entries && k != k' ==> r.entries[k] != r.entries[k'])
      && (forall i, j :: 0 <= i < j < |r.destroyed| ==> r.destroyed[i] != r.destroyed[j])
      && (forall bo :: bo in Made(events) <==> bo in r.live || bo in r.destroyed)
      && (forall bo :: bo in r.live ==> bo !in r.destroyed)
      && (forall bo :: bo in r.live ==> bo in Orphans(events) || exists k :: k in r.entries && r.entries[k] == bo)
  {
    hide After, Made, Orphans;
    EveryRunSafe(events);
  }

  lemma NothingYet()
    ensures Safe(EMPTY) && Conserved(EMPTY, {}, {})
  {
  }

  // ---------------------------------------------------------------- descriptors

  /** How many descriptors a call leaves open for good. */
  function LeakedBy(r: Registry, e: Event): nat {
    match e
    case New(NoRecord(_, _)) => 1
    case New(Created(_, _, _)) => 1
    case Query(fd, _) => if fd in r.entries then 1 else 0
    case _ => 0
  }

  function Leaked(events: seq<Event>): nat {
    if events == [] then 0
    else Leaked(events[..|events| - 1]) + LeakedBy(After(events[..|events| - 1]), events[|events| - 1])
  }

  lemma StepLeaks(r: Registry, e: Event)
    requires Safe(r) && Allowed(r, e)
    ensures |Step(r, e).strays| == |r.strays| + LeakedBy(r, e) && r.strays <= Step(r, e).strays <= Step(r, e).open
  {
    StepSafe(r, e);
  }

  /** Every run leaves open one descriptor for each buffer created, one for each record that
      could not be allocated and one for each query answered, and no client can close them. */
  lemma {:induction false} EveryRunLeaks(events: seq<Event>)
    requires AllowedRun(events)
    ensures |After(events).strays| == Leaked(events) && After(events).strays <= After(events).open
  {
    hide Step, Safe, Allowed, LeakedBy;
    if events != [] {
      var before, e := events[..|events| - 1], events[|events| - 1];
      AllowedPrefix(events, |before|);
      EveryRunSafe(before);
      EveryRunLeaks(before);
      StepLeaks(After(before), e);
    }
  }
}
