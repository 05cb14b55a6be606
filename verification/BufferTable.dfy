/** The buffer functions of gralloc_gbm.c over the hash table they keep their records in. */
module BufferTables {
  import opened Lists
  import opened Buckets
  import opened KeyMaps
  import opened HashTables
  import opened Registries
  import opened BufferAccounts
  import opened Results

  // ---------------------------------------------------------------- what the table stands for

  /** Descriptor to buffer object, as a table with these records has it. */
  ghost function EntriesOf(s: seq<Elem>): map<Key, nat> {
    map k | k in MapOf(s) :: MapOf(s)[k].value
  }

  lemma NoEntries()
    ensures EntriesOf([]) == map[]
  {
  }

  lemma EntriesWith(s: seq<Elem>, e: Elem)
    ensures EntriesOf(s + [e]) == EntriesOf(s)[e.key := e.value]
    ensures DistinctKeys(s + [e]) <==> DistinctKeys(s) && e.key !in EntriesOf(s)
  {
    hide MapOf;
    MapWith(s, e);
    MapOfMeaning(s, e.key);
    if DistinctKeys(s + [e]) {
      var r := s + [e];
      forall i, j | 0 <= i < j < |s| ensures s[i].key != s[j].key {
        assert r[i] == s[i] && r[j] == s[j];
      }
      forall i | 0 <= i < |s| ensures s[i].key != e.key {
        assert r[i] == s[i] && r[|s|] == e;
      }
    }
  }

  lemma EntriesWithout(s: seq<Elem>, k: nat)
    requires DistinctKeys(s) && k < |s|
    ensures DistinctKeys(RemoveAt(s, k)) && EntriesOf(RemoveAt(s, k)) == EntriesOf(s) - {s[k].key}
  {
    hide MapOf, RemoveAt;
    MapWithout(s, k);
  }

  lemma EntryOf(s: seq<Elem>, k: nat)
    requires DistinctKeys(s) && k < |s|
    ensures s[k].key in EntriesOf(s) && EntriesOf(s)[s[k].key] == s[k].value
  {
    hide MapOf;
    LookupIs(s, s[k].key, s[k]);
  }

  lemma NoEntry(s: seq<Elem>, key: Key)
    requires forall e :: e in s ==> e.key != key
    ensures key !in EntriesOf(s)
  {
    hide MapOf;
    MapOfMeaning(s, key);
  }

  // ---------------------------------------------------------------- the table's functions

  ghost predicate FoundByFd(s: seq<Elem>, fd: Key, out: Elem?) {
    if out == null then forall e :: e in s ==> e.key != fd else out in s && out.key == fd
  }

  ghost predicate FoundByObject(s: seq<Elem>, v: nat, out: Elem?) {
    if out == null then forall e :: e in s ==> e.value != v else out in s && out.value == v
  }

  /** find_buffer_k. */
  method FindBufferK(table: HashTable, fd: Key) returns (entry: Elem?)
    requires table.Valid()
    ensures FoundByFd(table.items, fd, entry)
    ensures entry == null <==> forall e :: e in table.items ==> e.key != fd
    ensures entry != null ==> entry in table.items && entry.key == fd
  {
    entry := table.Find(fd);
  }

  /** On a registry that kept the protocol, looking up by descriptor and by object are inverse
      to each other. */
  lemma FindersAreInverse(s: seq<Elem>, r: Registry, fd: Key, bo: nat, byFd: Elem?, byObject: Elem?)
    requires DistinctKeys(s) && Safe(r) && r.entries == EntriesOf(s)
    requires FoundByFd(s, fd, byFd) && FoundByObject(s, bo, byObject)
    ensures byFd != null && byFd.value == bo ==> byObject == byFd
    ensures byObject != null && byObject.key == fd ==> byFd == byObject
  {
    hide EntriesOf;
    if byFd != null && byObject != null {
      var i :| 0 <= i < |s| && s[i] == byFd;
      var j :| 0 <= j < |s| && s[j] == byObject;
      EntryOf(s, i);
      EntryOf(s, j);
    }
  }

  /** find_buffer_v: the first record with the object; NULL has none. */
  method FindBufferV(table: HashTable, v: nat) returns (entry: Elem?, ghost i: nat)
    requires table.Valid()
    ensures if v == 0 then entry == null else FoundByObject(table.items, v, entry)
    ensures entry == null ==> v == 0 || forall e :: e in table.items ==> e.value != v
    ensures entry != null ==> v != 0 && i < |table.items| && table.items[i] == entry && entry.value == v
    ensures entry != null ==> forall j :: 0 <= j < i ==> table.items[j].value != v
  {
    hide HashTable.BucketsValid;
    i := 0;
    if v == 0 {
      return null, 0;
    }
    entry := table.head;
    while entry != null
      invariant i <= |table.items| && entry == At(table.items, i)
      invariant forall j :: 0 <= j < i ==> table.items[j].value != v
      decreases |table.items| - i
    {
      if entry.value == v {
        return;
      }
      entry := entry.next;
      i := i + 1;
    }
  }

  /** add_buffer: a record whose descriptor is registered already is added all the same, and
      then keys are no longer distinct. The assertion after the insertion always holds. */
  method AddBuffer(table: HashTable, buffer: Elem?) returns (status: Status)
    requires table.Valid() && (buffer != null ==> buffer !in table.items)
    modifies table, table.buckets, Nodes(table.items), buffer
    ensures status == (if buffer == null then EINVAL else OK) && table.Valid()
    ensures table.items == old(table.items) + if buffer == null then [] else [buffer]
    ensures buffer != null ==> EntriesOf(table.items) == EntriesOf(old(table.items))[buffer.key := buffer.value]
    ensures buffer != null ==>
      (DistinctKeys(table.items) <==> DistinctKeys(old(table.items)) && buffer.key !in EntriesOf(old(table.items)))
    ensures table.buckets == old(table.buckets) || fresh(table.buckets)
  {
    hide HashTable.BucketsValid, DistinctKeys, EntriesOf, MapOf;
    if buffer == null {
      return EINVAL;
    }
    EntriesWith(table.items, buffer);
    table.Add(buffer);
    assert table.items[|table.items| - 1] == buffer;
    var tmp := table.Find(buffer.key);
    assert tmp != null && buffer.key == tmp.key;
    return OK;
  }

  lemma RegisteredLives(s: seq<Elem>, r: Registry, e: Elem)
    requires DistinctKeys(s) && Safe(r) && r.entries == EntriesOf(s) && e in s
    ensures e.key in r.entries && r.entries[e.key] == e.value && e.value in r.live
  {
    hide EntriesOf;
    var k :| 0 <= k < |s| && s[k] == e;
    EntryOf(s, k);
  }

  /** What can become of an import on a driver that is ready. */
  datatype ImportAnswer = NoMemory | Refused | Imported(bo: nat)

  /** The buffer functions with what surrounds them: the driver, buffer objects, the user data
      attached to them, and open descriptors. */
  class BufferManager {
    const table: HashTable
    var ready: bool
    var data: map<nat, L.BufferObject>
    ghost var live: set<nat>
    ghost var destroyed: seq<nat>
    ghost var open: set<Key>
    ghost var strays: set<Key>

    ghost function View(): Registry
      reads this, table
    {
      Registry(EntriesOf(table.items), live, destroyed, open, strays)
    }

    ghost predicate Valid()
      reads this, table, table.buckets, table.items
    {
      table.Valid() && DistinctKeys(table.items) && Safe(View()) && Backed(live, data)
    }

    constructor (hash: HashFunction)
      ensures Valid() && View() == EMPTY && !ready && fresh(table)
    {
      table := new HashTable(hash);
      ready, live, destroyed, open, strays, data := false, {}, [], {}, {}, map[];
      new;
      hide HashTable.Valid, Safe, EntriesOf;
      NothingYet();
      NoEntries();
    }

    /** gralloc_gbm_init: once ready, the driver stays ready. */
    method Init(outcome: Status) returns (status: Status)
      modifies `ready
      ensures status == (if old(ready) then OK else outcome) && ready == (old(ready) || outcome == OK)
    {
      if ready {
        return OK;
      }
      ready := outcome == OK;
      return outcome;
    }

    /** The common end of new and import: the record that ties the descriptor to the object. A
        descriptor that is registered already gets a second record, and the table no longer
        has distinct keys; one whose number the program had dropped becomes known again. */
    method Register(fd: Key, bo: nat) returns (status: Status, ghost buffer: Elem)
      requires Valid() && FreshObject(View(), bo)
      modifies this, table, table.buckets, Nodes(table.items)
      ensures table.Valid() && (Valid() <==> fd !in EntriesOf(old(table.items)) && fd !in strays)
      ensures View() == ImportStep(old(View()), fd, Some(bo)) && status == OK && ready == old(ready)
      ensures table.items == old(table.items) + [buffer] && fresh(buffer) && buffer.key == fd && buffer.value == bo
      ensures bo in data && data == old(data)[bo := data[bo]] && fresh(data[bo]) && data[bo].Data() == L.UNLOCKED
      ensures table.buckets == old(table.buckets) || fresh(table.buckets)
    {
      hide HashTable.Valid, DistinctKeys, EntriesOf, Safe, Backed;
      RegisteredSafe(View(), fd, bo);
      InitUserData(bo);
      var record := new Elem(fd, bo);
      buffer := record;
      status := AddBuffer(table, record);
      live, open := live + {bo}, open + {fd};
    }

    /** gralloc_gbm_bo_user_data_init for a new object. */
    method InitUserData(bo: nat)
      requires Backed(live, data)
      modifies `data
      ensures bo in data && data == old(data)[bo := data[bo]] && fresh(data[bo]) && data[bo].Data() == L.UNLOCKED
      ensures Backed(live + {bo}, data)
    {
      var d := new L.BufferObject();
      BackedWith(live, data, bo, d);
      data := data[bo := d];
    }

    /** gbm_bo_get_fd where the result is not kept. */
    ghost method DropFd(fd: Key)
      requires Valid() && fd !in open
      modifies `open, `strays
      ensures Valid() && View() == Drop(old(View()), fd)
    {
      hide HashTable.Valid, DistinctKeys, EntriesOf, Safe, Backed;
      DropSafe(View(), fd);
      open, strays := open + {fd}, strays + {fd};
    }

    /** gralloc_gbm_android_buffer_new; the handle is known by its descriptor. */
    method BufferNew(answer: Answer) returns (status: Status, handle: Option<Key>, ghost added: seq<Elem>)
      requires Valid() && FreshAnswer(View(), answer)
      modifies this, table, table.buckets, Nodes(table.items)
      ensures Valid() && View() == (if ready then NewStep(old(View()), answer) else old(View())) && ready == old(ready)
      ensures status == if !ready then ENODEV else match answer
        case NoRecord(_, _) => ENOMEM
        case Created(_, _, _) => OK
        case _ => EINVAL
      ensures handle == if status == OK then Some(answer.fd) else None
      ensures table.items == old(table.items) + added && (added == [] <==> status != OK)
      ensures status == OK ==> |added| == 1 && fresh(added[0]) && added[0].key == answer.fd && added[0].value == answer.bo
      ensures status == OK ==> answer.bo in data && fresh(data[answer.bo]) && data[answer.bo].Data() == L.UNLOCKED
      ensures Undisturbed(old(live), old(data), data)
      ensures table.buckets == old(table.buckets) || fresh(table.buckets)
    {
      hide HashTable.Valid, DistinctKeys, EntriesOf, Safe, Backed;
      AllBacked(live, data);
      status, handle, added := ENODEV, None, [];
      if !ready {
        return;
      }
      match answer
      case NoHandle => status := EINVAL;
      case NoObject => status := EINVAL;
      case NoRecord(bo, fd) =>
        OrphanSafe(View(), bo);
        InitUserData(bo);
        live := live + {bo};
        DropFd(fd);
        status := ENOMEM;
      case Created(bo, fd, logged) =>
        NotRegistered(View(), fd);
        ghost var buffer;
        status, buffer := Register(fd, bo);
        handle, added := Some(fd), [buffer];
        DropFd(logged);
    }

    /** gralloc_gbm_android_buffer_import. The descriptor it is given is registered whether or
        not it has an entry already, and only if it had none is the registry still sound. */
    method BufferImport(fd: Key, answer: ImportAnswer) returns (status: Status)
      requires Valid() && (answer.Imported? ==> FreshObject(View(), answer.bo))
      modifies this, table, table.buckets, Nodes(table.items)
      ensures ready == old(ready) && status == if !ready then ENODEV else match answer
        case NoMemory => ENOMEM
        case Refused => EINVAL
        case Imported(_) => OK
      ensures table.Valid() && (Valid() <==> (status == OK ==> fd !in EntriesOf(old(table.items)) && fd !in strays))
      ensures View() == if status == OK then ImportStep(old(View()), fd, Some(answer.bo)) else old(View())
      ensures |table.items| == |old(table.items)| + if status == OK then 1 else 0
      ensures Undisturbed(old(live), old(data), data)
      ensures table.buckets == old(table.buckets) || fresh(table.buckets)
    {
      hide HashTable.Valid, EntriesOf, Safe, Backed, DistinctKeys;
      AllBacked(live, data);
      if !ready {
        return ENODEV;
      }
      match answer
      case Imported(bo) =>
        ghost var buffer;
        status, buffer := Register(fd, bo);
      case NoMemory => return ENOMEM;
      case Refused => return EINVAL;
    }

    /** The mapper's importBuffer: clones the handle, imports the clone, and closes it again
        if that fails. */
    method ImportBuffer(fd: Key, answer: ImportAnswer) returns (ok: bool)
      requires Valid() && fd !in open && (answer.Imported? ==> FreshObject(View(), answer.bo))
      modifies this, table, table.buckets, Nodes(table.items)
      ensures Valid() && (ok <==> ready && answer.Imported?) && ready == old(ready)
      ensures View() == ImportStep(old(View()), fd, if ok then Some(answer.bo) else None)
      ensures Undisturbed(old(live), old(data), data)
    {
      hide HashTable.Valid, EntriesOf, Safe, Backed, DistinctKeys, Undisturbed;
      NotRegistered(View(), fd);
      OpenSafe(View(), fd);
      open := open + {fd};
      var status := BufferImport(fd, answer);
      ok := status == OK;
      if !ok {
        CloseSafe(View(), fd);
        open := open - {fd};
      }
    }

    /** gralloc_gbm_android_buffer_query opens one more descriptor of the object. */
    method BufferQuery(fd: Key, queried: Key) returns (status: Status)
      requires Valid() && queried !in open
      modifies `open, `strays
      ensures Valid() && View() == QueryStep(old(View()), fd, queried)
      ensures status == if fd in EntriesOf(table.items) then OK else EINVAL
    {
      hide HashTable.Valid, DistinctKeys, EntriesOf, Safe, Backed;
      var buffer := FindBufferK(table, fd);
      if buffer == null {
        NoEntry(table.items, fd);
        return EINVAL;
      }
      RegisteredLives(table.items, View(), buffer);
      DropFd(queried);
      return OK;
    }

    /** gralloc_gbm_android_buffer_free: destroys the object and deletes the record, if the
        driver is ready and the descriptor is registered. */
    method BufferFree(fd: Key) returns (status: Status, ghost k: nat)
      requires Valid()
      modifies this, table, table.buckets, Nodes(table.items)
      ensures Valid() && status == (if ready then OK else ENODEV) && ready == old(ready)
      ensures View() == if ready then FreeStep(old(View()), fd) else old(View())
      ensures table.items == old(table.items) ||
        (k < |old(table.items)| && old(table.items)[k].key == fd && table.items == RemoveAt(old(table.items), k))
      ensures data == old(data) - (old(live) - live)
      ensures table.buckets == old(table.buckets) || table.buckets == null
    {
      hide HashTable.Valid, DistinctKeys, EntriesOf, Safe, RemoveAt, Backed;
      k := 0;
      if !ready {
        return ENODEV, 0;
      }
      status := OK;
      ghost var was := table.items;
      StepSafe(View(), Free(fd));
      var buffer := FindBufferK(table, fd);
      if buffer != null {
        BackedWithout(live, data, buffer.value);
        RegisteredLives(table.items, View(), buffer);
        assert live - (live - {buffer.value}) == {buffer.value};
        live, destroyed := live - {buffer.value}, destroyed + [buffer.value];
        data := data - {buffer.value};
        ghost var j;
        k, j := table.Delete(buffer);
        EntryOf(was, k);
        EntriesWithout(was, k);
      } else {
        NoEntry(was, fd);
        assert data - {} == data;
      }
    }

    // ------------------------------------------------------------ locking

    /** The user data of the object a descriptor is registered for. */
    ghost function UserData(fd: Key): set<L.BufferObject>
      reads this, table
    {
      if fd in EntriesOf(table.items) && EntriesOf(table.items)[fd] in data
      then {data[EntriesOf(table.items)[fd]]} else {}
    }

    /** gralloc_gbm_android_buffer_lock by descriptor: the state of no other buffer is touched.
        The source makes some of the checks of LockStep before it looks the buffer up; they fail
        with the same statuses either way. */
    method BufferLock(fd: Key, handleUsage: bv32, usage: bv32, answer: L.Mapping) returns (status: Status)
      requires Valid()
      modifies UserData(fd)
      ensures Valid() && (fd in EntriesOf(table.items) <==> UserData(fd) != {})
      ensures UserData(fd) == {} ==> status == if ready then EINVAL else ENODEV
      ensures forall d :: d in UserData(fd) ==>
        var e := L.LockStep(old(d.Data()), L.Lock(ready, handleUsage, usage, answer));
        d.Data() == e.data && status == e.status
    {
      hide HashTable.Valid, DistinctKeys, EntriesOf, Safe, L.LockStep;
      var buffer := FindBufferK(table, fd);
      if buffer == null {
        NoEntry(table.items, fd);
        return if ready then EINVAL else ENODEV;
      }
      RegisteredLives(table.items, View(), buffer);
      var mapped;
      status, mapped := data[buffer.value].Lock(ready, handleUsage, usage, answer);
    }

    /** gralloc_gbm_android_buffer_unlock by descriptor. */
    method BufferUnlock(fd: Key) returns (status: Status)
      requires Valid()
      modifies UserData(fd)
      ensures Valid() && (fd in EntriesOf(table.items) <==> UserData(fd) != {})
      ensures UserData(fd) == {} ==> status == EINVAL
      ensures forall d :: d in UserData(fd) ==>
        var e := L.UnlockStep(old(d.Data())); d.Data() == e.data && status == e.status
    {
      hide HashTable.Valid, DistinctKeys, EntriesOf, Safe, L.UnlockStep;
      var buffer := FindBufferK(table, fd);
      if buffer == null {
        NoEntry(table.items, fd);
        return EINVAL;
      }
      RegisteredLives(table.items, View(), buffer);
      status := data[buffer.value].Unlock();
    }

    // ------------------------------------------------------------ the allocation loop

    /** Frees a handle that the allocator is done with and closes it. The registry is `base`
        with `recs` after it, and the handle belongs to the first of those. */
    method Release(fd: Key, ghost base: seq<Elem>, ghost recs: seq<Elem>)
      requires Valid() && ready && table.items == base + recs && recs != [] && recs[0].key == fd
      modifies this, table, table.buckets, Nodes(table.items)
      ensures Valid() && ready && table.items == base + recs[1..]
      ensures live == old(live) - {recs[0].value} && destroyed == old(destroyed) + [recs[0].value]
      ensures open == old(open) - {fd} && strays == old(strays) && data == old(data) - {recs[0].value}
      ensures table.buckets == old(table.buckets) || table.buckets == null
    {
      hide HashTable.Valid, EntriesOf, RemoveAt, Backed, Safe;
      ghost var was := table.items;
      assert was[|base|] == recs[0];
      RegisteredLives(was, View(), recs[0]);
      KnownToClose(View(), fd);
      var status;
      ghost var k;
      status, k := BufferFree(fd);
      assert k == |base| && table.items == base + recs[1..];
      assert old(live) - live == {recs[0].value};
      CloseSafe(View(), fd);
      open := open - {fd};
    }

    /** Releases handles[..n] in order; their records are the last ones of the table. */
    method ReleaseAll(handles: seq<Option<Key>>, n: nat, ghost base: seq<Elem>, ghost recs: seq<Elem>,
        ghost answers: seq<Answer>, ghost lives: set<nat>, ghost opens: set<Key>)
      requires Valid() && ready && table.items == base + recs && n == |recs| && Recorded(recs, answers, handles)
      requires Beside(recs, live, open, lives, opens)
      modifies this, table, table.buckets, Nodes(table.items)
      ensures Valid() && ready && table.items == base && live == lives && open == opens && strays == old(strays)
      ensures destroyed == old(destroyed) + ObjectsOf(recs) && Undisturbed(lives, old(data), data)
      ensures table.buckets == old(table.buckets) || table.buckets == null
    {
      hide HashTable.Valid, Safe, EntriesOf, DistinctKeys, ObjectsOf, Beside, Backed, Undisturbed;
      NoneLeft(recs);
      AllBacked(live, data);
      BesideHas(recs, live, open, lives, opens);
      UndisturbedAtFirst(lives, data);
      for j := 0 to n
        invariant Valid() && ready && table.items == base + recs[j..] && strays == old(strays)
        invariant Beside(recs[j..], live, open, lives, opens)
        invariant destroyed == old(destroyed) + ObjectsOf(recs[..j]) && Undisturbed(lives, old(data), data)
        invariant table.buckets == old(table.buckets) || table.buckets == null
      {
        if handles[j] == None {
          continue;
        }
        ReleaseFirst(recs, j, live, open, lives, opens);
        UndisturbedWithout(lives, old(data), data, recs[j].value);
        Release(handles[j].value, base, recs[j..]);
      }
      assert recs[..n] == recs && recs[n..] == [];
      NothingBeside(live, open, lives, opens);
    }

    /** Duplicates the handles' descriptors for the client and releases the handles. */
    method HandOver(handles: seq<Option<Key>>, dups: seq<Key>, ghost base: seq<Elem>, ghost recs: seq<Elem>,
        ghost answers: seq<Answer>, ghost lives: set<nat>, ghost opens: set<Key>) returns (buffers: seq<Option<Key>>)
      requires Valid() && ready && table.items == base + recs && |recs| == |handles| == |dups|
      requires Recorded(recs, answers, handles)
      requires Beside(recs, live, open, lives, opens) && FreshDups(opens, recs, dups)
      modifies this, table, table.buckets, Nodes(table.items)
      ensures Valid() && ready && table.items == base && live == lives && strays == old(strays)
      ensures open == opens + Range(dups) && buffers == Somes(dups)
      ensures destroyed == old(destroyed) + ObjectsOf(recs) && Undisturbed(lives, old(data), data)
      ensures table.buckets == old(table.buckets) || table.buckets == null
    {
      hide HashTable.Valid, Safe, EntriesOf, DistinctKeys, ObjectsOf, Beside, Backed, Undisturbed, FreshDups, Range, Somes;
      NoneLeft(recs);
      AllBacked(live, data);
      BesideHas(recs, live, open, lives, opens);
      UndisturbedAtFirst(lives, data);
      NoDups(dups);
      buffers := seq(|handles|, _ => None);
      for i := 0 to |handles|
        invariant Valid() && ready && table.items == base + recs[i..] && strays == old(strays)
        invariant |buffers| == |handles| && forall j :: 0 <= j < i ==> buffers[j] == Some(dups[j])
        invariant Beside(recs[i..], live, open, lives, opens + Range(dups[..i]))
        invariant destroyed == old(destroyed) + ObjectsOf(recs[..i]) && Undisturbed(lives, old(data), data)
        invariant table.buckets == old(table.buckets) || table.buckets == null
      {
        if handles[i] == None {
          continue;
        }
        NextDup(recs, dups, i, live, open, lives, opens);
        OpenSafe(View(), dups[i]);
        open := open + {dups[i]};
        buffers := buffers[i := Some(dups[i])];
        ReleaseFirst(recs, i, live, open, lives, opens + Range(dups[..i + 1]));
        UndisturbedWithout(lives, old(data), data, recs[i].value);
        Release(handles[i].value, base, recs[i..]);
      }
      assert recs[..|recs|] == recs && recs[|recs|..] == [] && dups[..|dups|] == dups;
      NothingBeside(live, open, lives, opens + Range(dups));
      AllSomes(buffers, dups);
    }

    /** The allocation loop with its rollback. */
    method AllocateAll(count: nat, answers: seq<Answer>)
        returns (ok: bool, handles: seq<Option<Key>>, ghost recs: seq<Elem>)
      requires Valid() && ready && |answers| == count
      requires forall i :: 0 <= i < count ==> FreshAnswer(News(View(), answers[..i]), answers[i])
      modifies this, table, table.buckets, Nodes(table.items)
      ensures Valid() && ready && (ok <==> FirstFailure(answers) == count)
      ensures |recs| == FirstFailure(answers) && ObjectsOf(recs) == Objects(answers[..|recs|])
      ensures Recorded(recs, answers, handles) && forall e :: e in recs ==> fresh(e)
      ensures strays == old(strays) + Strays(Tried(answers)) && Undisturbed(old(live), old(data), data)
      ensures ok ==> table.items == old(table.items) + recs && destroyed == old(destroyed)
      ensures ok ==> Beside(recs, live, open, old(live), old(open) + Strays(Tried(answers)))
      ensures !ok ==> table.items == old(table.items) && destroyed == old(destroyed) + ObjectsOf(recs)
      ensures !ok ==> live == old(live) + Orphaned(answers) && open == old(open) + Strays(Tried(answers))
      ensures table.buckets == old(table.buckets) || table.buckets == null || fresh(table.buckets)
    {
      hide HashTable.Valid, Safe, EntriesOf, DistinctKeys, ObjectsOf, Beside, News, FirstFailure, Objects, Backed,
        Undisturbed, Strays, Tried, Recorded;
      AllBacked(live, data);
      UndisturbedAtFirst(live, data);
      NewsOfNothing(View(), answers);
      BesideAtFirst(answers, live, open, strays);
      ok, handles, recs := false, seq(count, _ => None), [];
      RecordedNone(answers, handles);
      ghost var base, opens := table.items, open + Strays(answers[..0]);
      for i := 0 to count
        invariant Valid() && ready && View() == News(old(View()), answers[..i])
        invariant table.items == base + recs && |recs| == i && |handles| == count
        invariant Recorded(recs, answers, handles) && forall e :: e in recs ==> fresh(e)
        invariant opens == old(open) + Strays(answers[..i]) && Beside(recs, live, open, old(live), opens)
        invariant strays == old(strays) + Strays(answers[..i]) && destroyed == old(destroyed)
        invariant Undisturbed(old(live), old(data), data)
        invariant table.buckets == old(table.buckets) || table.buckets == null || fresh(table.buckets)
      {
        NewsStep(old(View()), answers, i);
        ghost var r, a, now := View(), answers[i], data;
        StraysStep(answers, i, old(open), old(strays));
        BesideHas(recs, live, open, old(live), opens);
        var ret, handle;
        ghost var added;
        ret, handle, added := BufferNew(answers[i]);
        StillUndisturbed(old(live), r.live, old(data), now, data);
        if ret != OK || handle == None {
          FailsFirstAt(answers, i, recs, handles);
          FailedBeside(recs, r, a, old(live), opens);
          now := data;
          ReleaseAll(handles, i, base, recs, answers, old(live) + OrphanedBy(a), opens + StraysBy(a));
          StillUndisturbed(old(live), old(live) + OrphanedBy(a), old(data), now, data);
          return;
        }
        CreatedBeside(recs, added[0], r, a, old(live), opens);
        RecordedMore(recs, added, answers, handles);
        recs, opens := recs + added, opens + StraysBy(a);
        handles := handles[i := handle];
      }
      assert answers[..count] == answers;
      FailsFirstAt(answers, count, recs, handles);
      ok := true;
    }

    /** grallocGbmAllocate. `answers` says what becomes of each allocation, `dups` what the
        duplicates handed to the client are. The driver is found ready before the loop, and
        nothing makes it unready. */
    method Allocate(supported: bool, count: nat, answers: seq<Answer>, dups: seq<Key>)
        returns (ok: bool, buffers: seq<Option<Key>>)
      requires Valid() && |answers| == count == |dups|
      requires forall i :: 0 <= i < count ==> FreshAnswer(News(View(), answers[..i]), answers[i])
      requires FirstFailure(answers) == count ==> FreshDuplicates(open + Strays(answers), answers, dups)
      modifies this, table, table.buckets, Nodes(table.items)
      ensures Valid() && table.items == old(table.items) && ready == old(ready)
      ensures ok <==> ready && supported && forall i :: 0 <= i < count ==> answers[i].Created?
      ensures |buffers| == (if ok then count else 0) && forall i :: 0 <= i < |buffers| ==> buffers[i] == Some(dups[i])
      ensures ok ==> live == old(live)
      ensures ok ==> forall d :: d in dups ==> d in open
      // the same for every outcome
      ensures ok <==> ready && supported && FirstFailure(answers) == count
      ensures buffers == if ok then Somes(dups) else []
      ensures var tried := if ready && supported then Tried(answers) else [];
        && strays == old(strays) + Strays(tried)
        && open == old(open) + Strays(tried) + (if ok then Range(dups) else {})
      ensures live == old(live) + if ready && supported then Orphaned(answers) else {}
      ensures var n, m := |old(destroyed)|, if ready && supported then FirstFailure(answers) else 0;
        && |destroyed| == n + m && destroyed[..n] == old(destroyed)
        && forall i :: 0 <= i < m ==> answers[i].Created? && destroyed[n + i] == answers[i].bo
      ensures Undisturbed(old(live), old(data), data)
    {
      hide HashTable.Valid, Safe, EntriesOf, DistinctKeys, ObjectsOf, Beside, News, FirstFailure, Objects, Backed,
        Undisturbed, Strays, Tried, FreshDups, FreshDuplicates, Range, Somes, Orphaned;
      AllocationMeans(answers, dups);
      if !ready || !supported {
        AllBacked(live, data);
        UndisturbedAtFirst(live, data);
        NothingTried();
        return false, [];
      }
      var handles;
      ghost var recs;
      ghost var base := table.items;
      ok, handles, recs := AllocateAll(count, answers);
      if !ok {
        return false, [];
      }
      AllTried(answers);
      SameFreshness(old(open) + Strays(answers), answers, recs, dups, handles);
      ghost var now := data;
      buffers := HandOver(handles, dups, base, recs, answers, old(live), old(open) + Strays(answers));
      StillUndisturbed(old(live), old(live), old(data), now, data);
    }
  }
}
