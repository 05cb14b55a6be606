/** Locking a buffer object: the lock count, the usage it is locked for and the CPU mapping that
    gralloc_gbm.c keeps in the object's user data. */
module BufferLocks {
  import opened Results

  // Masks of Android's hardware/gralloc.h, which is not part of this repository.

  const SW_READ_OFTEN: bv32 := 0x0000_0003

  const SW_READ_MASK: bv32 := 0x0000_000F

  const SW_WRITE_OFTEN: bv32 := 0x0000_0030

  const SW_WRITE_MASK: bv32 := 0x0000_00F0

  const HW_TEXTURE: bv32 := 0x0000_0100

  const HW_FB: bv32 := 0x0000_1000

  /** What gbm_bo_map answers: NULL, which leaves map_data alone, or an address, having set
      map_data to something that is not NULL. */
  datatype Mapping = Refused | Mapped(addr: nat, data: nat)

  predicate Credible(answer: Mapping) {
    answer.Mapped? ==> answer.data != 0
  }

  /** The lock fields of gbm_bo_data_t; a mapData of 0 is NULL. */
  datatype BoData = BoData(mapData: nat, lockCount: nat, lockedFor: bv32)

  const UNLOCKED := BoData(0, 0, 0)

  predicate Has(usage: bv32, mask: bv32) {
    usage & mask != 0
  }

  function Union(usage: bv32, more: bv32): bv32 {
    usage | more
  }

  predicate Cpu(usage: bv32) {
    Has(usage, Union(SW_WRITE_MASK, SW_READ_MASK))
  }

  predicate Writes(usage: bv32) {
    Has(usage, SW_WRITE_MASK)
  }

  predicate Within(usage: bv32, allowed: bv32) {
    allowed & usage == usage
  }

  /** The check of a lock's usage against the usage the buffer was allocated for. */
  predicate Permitted(handleUsage: bv32, usage: bv32) {
    || Within(usage, handleUsage)
    || Has(handleUsage, Union(SW_READ_OFTEN, SW_WRITE_OFTEN))
    || Has(handleUsage, HW_FB)
    || Has(handleUsage, HW_TEXTURE)
  }

  // ---------------------------------------------------------------- one call

  /** What happens to a buffer object. */
  datatype Event =
    | Lock(ready: bool, handleUsage: bv32, usage: bv32, answer: Mapping)
    | Unlock
    | Query

  /** The effect of a call: the new fields, the status, and the calls made to libgbm, where
      mapped holds the write flag of a mapping that succeeded. */
  datatype Effect = Effect(data: BoData, status: Status, mapped: Option<bool>, unmapped: bool)

  function Fail(d: BoData, status: Status): Effect {
    Effect(d, status, None, false)
  }

  /** gralloc_gbm_bo_map. */
  function MapStep(d: BoData, write: bool, answer: Mapping): Effect {
    if d.mapData != 0 then Fail(d, EINVAL)
    else if answer.Refused? then Fail(d, ENOMEM)
    else Effect(d.(mapData := answer.data), OK, Some(write), false)
  }

  /** The part of a lock that follows its checks. */
  function GrantStep(d: BoData, usage: bv32, answer: Mapping): Effect {
    var m := if Cpu(usage) then MapStep(d, Writes(usage), answer) else Effect(d, OK, None, false);
    if m.status != OK then m
    else m.(data := BoData(m.data.mapData, d.lockCount + 1, Union(d.lockedFor, usage)))
  }

  /** gralloc_gbm_android_buffer_lock on a buffer that is in the table. */
  function LockStep(d: BoData, e: Event): Effect
    requires e.Lock?
  {
    if !e.ready then Fail(d, ENODEV)
    else if Has(e.usage, HW_FB) then Fail(d, EINVAL)
    else if !Permitted(e.handleUsage, e.usage) then Fail(d, EINVAL)
    else if d.lockCount != 0 && !Within(e.usage, d.lockedFor) then Fail(d, EINVAL)
    else GrantStep(d, Union(e.usage, d.lockedFor), e.answer)
  }

  /** gralloc_gbm_android_buffer_unlock on a buffer that is in the table. */
  function UnlockStep(d: BoData): Effect {
    var mapped := Cpu(d.lockedFor);
    if d.lockCount == 0 then Effect(d, OK, None, false)
    else
      var count := d.lockCount - 1;
      Effect(BoData(if mapped then 0 else d.mapData, count, if count == 0 then 0 else d.lockedFor), OK, None, mapped)
  }

  /** gralloc_gbm_android_buffer_query only reads the fields. */
  function Step(d: BoData, e: Event): Effect {
    match e
    case Lock(_, _, _, _) => LockStep(d, e)
    case Unlock => UnlockStep(d)
    case Query => Effect(d, OK, None, false)
  }

  // ---------------------------------------------------------------- in bits

  lemma CpuMeans(usage: bv32)
    ensures Cpu(usage) <==> usage & 0xFF != 0
  {
  }

  lemma AllowedMeans(handleUsage: bv32, usage: bv32)
    ensures !Has(usage, HW_FB) && Permitted(handleUsage, usage)
      <==> usage & 0x1000 == 0 && (handleUsage & usage == usage || handleUsage & 0x1133 != 0)
  {
  }

  lemma WithinMeans(usage: bv32, allowed: bv32)
    ensures Within(usage, allowed) <==> allowed & usage == usage
  {
  }

  lemma UnionMeans(x: bv32, y: bv32)
    ensures Union(x, y) == x | y && Union(y, Union(x, y)) == Union(x, y)
  {
  }

  lemma UnionBits(x: bv32, y: bv32)
    ensures Cpu(Union(x, y)) <==> (x | y) & 0xFF != 0
    ensures Writes(Union(x, y)) <==> (x | y) & 0xF0 != 0
  {
  }

  /** When a lock fails and how, for every state of the object, with the masks written out. */
  lemma LockStatus(d: BoData, ready: bool, handleUsage: bv32, usage: bv32, answer: Mapping)
    ensures var r, all := LockStep(d, Lock(ready, handleUsage, usage, answer)), usage | d.lockedFor;
      var allowed := usage & 0x1000 == 0 && (handleUsage & usage == usage || handleUsage & 0x1133 != 0);
      var compatible := d.lockCount == 0 || d.lockedFor & usage == usage;
      && (r.status == ENODEV <==> !ready)
      && (r.status == EINVAL <==> ready && (!allowed || !compatible || (all & 0xFF != 0 && d.mapData != 0)))
      && (r.status == ENOMEM <==> ready && allowed && compatible && all & 0xFF != 0 && d.mapData == 0 && answer.Refused?)
  {
    hide Has, Union, Within, Cpu, Writes, Permitted;
    UnionMeans(usage, d.lockedFor);
    UnionBits(usage, d.lockedFor);
    AllowedMeans(handleUsage, usage);
    WithinMeans(usage, d.lockedFor);
  }

  /** What a lock changes, for every state of the object: nothing if it fails. */
  lemma LockChanges(d: BoData, ready: bool, handleUsage: bv32, usage: bv32, answer: Mapping)
    ensures var r, all := LockStep(d, Lock(ready, handleUsage, usage, answer)), usage | d.lockedFor;
      && (r.status != OK ==> r.data == d && r.mapped == None) && !r.unmapped
      && (r.status == OK ==>
        && r.data.lockCount == d.lockCount + 1 && r.data.lockedFor == all
        && (all & 0xFF != 0 ==> answer.Mapped? && r.data.mapData == answer.data && r.mapped == Some(all & 0xF0 != 0))
        && (all & 0xFF == 0 ==> r.data.mapData == d.mapData && r.mapped == None))
  {
    hide Has, Union, Within, Cpu, Writes, Permitted;
    UnionMeans(usage, d.lockedFor);
    UnionBits(usage, d.lockedFor);
  }

  /** What an unlock does, for every state of the object. */
  lemma UnlockStepInBits(d: BoData)
    ensures UnlockStep(d).status == OK && UnlockStep(d).mapped == None
    ensures d.lockCount == 0 ==> UnlockStep(d).data == d && !UnlockStep(d).unmapped
    ensures d.lockCount > 0 ==> (var mapped := d.lockedFor & 0xFF != 0;
      && UnlockStep(d).unmapped == mapped
      && UnlockStep(d).data == BoData(if mapped then 0 else d.mapData, d.lockCount - 1,
        if d.lockCount == 1 then 0 else d.lockedFor))
  {
    hide Cpu;
    CpuMeans(d.lockedFor);
  }

  // ---------------------------------------------------------------- in place

  /** A buffer object's user data, as the calls update it. */
  class BufferObject {
    var mapData: nat
    var lockCount: nat
    var lockedFor: bv32

    ghost function Data(): BoData
      reads this
    {
      BoData(mapData, lockCount, lockedFor)
    }

    /** gralloc_gbm_bo_user_data_init on an object that has no user data yet. */
    constructor ()
      ensures Data() == UNLOCKED
    {
      mapData, lockCount, lockedFor := 0, 0, 0;
    }

    /** gralloc_gbm_bo_map; mapped is the write flag of the mapping made, if there was one. */
    method Map(write: bool, answer: Mapping) returns (status: Status, addr: nat, mapped: Option<bool>)
      modifies `mapData
      ensures var m := MapStep(old(Data()), write, answer);
        Data() == m.data && status == m.status && mapped == m.mapped
      ensures status == if old(mapData) != 0 then EINVAL else if answer.Refused? then ENOMEM else OK
      ensures status == OK ==> addr == answer.addr && mapData == answer.data && mapped == Some(write)
      ensures status != OK ==> mapData == old(mapData) && mapped == None
    {
      if mapData != 0 {
        return EINVAL, 0, None;
      }
      if answer.Refused? {
        return ENOMEM, 0, None;
      }
      mapData := answer.data;
      return OK, answer.addr, Some(write);
    }

    method Unmap()
      modifies `mapData
      ensures mapData == 0
    {
      mapData := 0;
    }

    /** gralloc_gbm_android_buffer_lock: what it checks, in bits of the usages, and what it
        changes; mapped is the write flag of the mapping made, if there was one. */
    method Lock(ready: bool, handleUsage: bv32, usage0: bv32, answer: Mapping)
        returns (status: Status, mapped: Option<bool>)
      modifies this
      ensures var e := LockStep(old(Data()), Event.Lock(ready, handleUsage, usage0, answer));
        Data() == e.data && status == e.status && mapped == e.mapped
      ensures var d := old(Data());
        var all := usage0 | d.lockedFor;
        var allowed := usage0 & 0x1000 == 0 && (handleUsage & usage0 == usage0 || handleUsage & 0x1133 != 0);
        var compatible := d.lockCount == 0 || d.lockedFor & usage0 == usage0;
        && (status == ENODEV <==> !ready)
        && (status == EINVAL <==> ready && (!allowed || !compatible || (all & 0xFF != 0 && d.mapData != 0)))
        && (status == ENOMEM <==> ready && allowed && compatible && all & 0xFF != 0 && d.mapData == 0 && answer.Refused?)
      ensures var d, r := old(Data()), Data();
        var all := usage0 | d.lockedFor;
        && (status != OK ==> r == d && mapped == None)
        && (status == OK ==>
          && r.lockCount == d.lockCount + 1 && r.lockedFor == all
          && (all & 0xFF != 0 ==> answer.Mapped? && r.mapData == answer.data && mapped == Some(all & 0xF0 != 0))
          && (all & 0xFF == 0 ==> r.mapData == d.mapData && mapped == None))
    {
      hide LockStep, Data;
      LockStatus(Data(), ready, handleUsage, usage0, answer);
      LockChanges(Data(), ready, handleUsage, usage0, answer);
      status, mapped := CheckAndGrant(ready, handleUsage, usage0, answer);
    }

    /** The body of the lock: its checks, then the grant. */
    method CheckAndGrant(ready: bool, handleUsage: bv32, usage0: bv32, answer: Mapping)
        returns (status: Status, mapped: Option<bool>)
      modifies this
      ensures var e := LockStep(old(Data()), Event.Lock(ready, handleUsage, usage0, answer));
        Data() == e.data && status == e.status && mapped == e.mapped
    {
      hide Has, Union, Within, GrantStep;
      if !ready {
        return ENODEV, None;
      }
      if Has(usage0, HW_FB) {
        return EINVAL, None;
      }
      if !Within(usage0, handleUsage) {
        if !Has(handleUsage, Union(SW_READ_OFTEN, SW_WRITE_OFTEN)) && !Has(handleUsage, HW_FB)
          && !Has(handleUsage, HW_TEXTURE) {
          return EINVAL, None;
        }
      }
      if lockCount != 0 && !Within(usage0, lockedFor) {
        return EINVAL, None;
      }
      status, mapped := Grant(Union(usage0, lockedFor), answer);
    }

    method Grant(usage: bv32, answer: Mapping) returns (status: Status, mapped: Option<bool>)
      modifies this
      ensures var e := GrantStep(old(Data()), usage, answer);
        Data() == e.data && status == e.status && mapped == e.mapped
    {
      hide Union, Cpu, Writes;
      mapped := None;
      if Cpu(usage) {
        var err, addr;
        err, addr, mapped := Map(Writes(usage), answer);
        if err != OK {
          return err, None;
        }
      }
      lockCount := lockCount + 1;
      lockedFor := Union(lockedFor, usage);
      return OK, mapped;
    }

    /** gralloc_gbm_android_buffer_unlock. */
    method Unlock() returns (status: Status)
      modifies this
      ensures var e := UnlockStep(old(Data())); Data() == e.data && status == e.status
      ensures status == OK && lockCount == (if old(lockCount) == 0 then 0 else old(lockCount) - 1)
      ensures lockedFor == if old(lockCount) == 1 then 0 else old(lockedFor)
      ensures mapData == if old(lockCount) > 0 && old(lockedFor) & 0xFF != 0 then 0 else old(mapData)
    {
      hide Cpu;
      UnlockStepInBits(Data());
      var mapped := Cpu(lockedFor);
      if lockCount == 0 {
        return OK;
      }
      if mapped {
        Unmap();
      }
      lockCount := lockCount - 1;
      if lockCount == 0 {
        lockedFor := 0;
      }
      return OK;
    }
  }

  // ---------------------------------------------------------------- all runs

  function After(events: seq<Event>): BoData {
    if events == [] then UNLOCKED else Step(After(events[..|events| - 1]), events[|events| - 1]).data
  }

  /** How many of the calls locked, unlocked, mapped and unmapped the object. */
  datatype Tally = Tally(locks: nat, unlocks: nat, maps: nat, unmaps: nat)

  function Counted(n: Tally, d: BoData, e: Event): Tally {
    var effect := Step(d, e);
    Tally(n.locks + if e.Lock? && effect.status == OK then 1 else 0,
      n.unlocks + if e.Unlock? && d.lockCount != 0 then 1 else 0,
      n.maps + if effect.mapped.Some? then 1 else 0,
      n.unmaps + if effect.unmapped then 1 else 0)
  }

  function Count(events: seq<Event>): Tally {
    if events == [] then Tally(0, 0, 0, 0)
    else
      var before, e := events[..|events| - 1], events[|events| - 1];
      Counted(Count(before), After(before), e)
  }

  /** The usage of the lock that opened the session a call leaves the object in. */
  function SessionAfter(session: Option<bv32>, d: BoData, e: Event): Option<bv32> {
    var effect := Step(d, e);
    if session == None && e.Lock? && effect.status == OK then Some(e.usage)
    else if effect.data.lockCount == 0 then None
    else session
  }

  function Session(events: seq<Event>): Option<bv32> {
    if events == [] then None
    else
      var before, e := events[..|events| - 1], events[|events| - 1];
      SessionAfter(Session(before), After(before), e)
  }

  ghost predicate CredibleRun(events: seq<Event>) {
    forall k :: 0 <= k < |events| && events[k].Lock? ==> Credible(events[k].answer)
  }

  /** The protocol's invariant. */
  ghost predicate Consistent(d: BoData) {
    && (d.lockCount == 0 ==> d.lockedFor == 0)
    && (d.mapData != 0 <==> d.lockedFor & 0xFF != 0)
    && (d.mapData != 0 ==> d.lockCount == 1)
  }

  /** A lock on an unlocked object succeeds exactly if the driver is ready, the framebuffer bit
      is not asked for, what is asked for is part of the buffer's own usage or that has the
      framebuffer or the texture bit or a bit of the often-used CPU masks, and a CPU mapping is
      granted if one is needed. */
  lemma FreeLockOutcome(d: BoData, ready: bool, handleUsage: bv32, usage: bv32, answer: Mapping)
    requires Consistent(d) && d.lockCount == 0
    ensures var r := LockStep(d, Lock(ready, handleUsage, usage, answer));
      var allowed := ready && usage & 0x1000 == 0 && (handleUsage & usage == usage || handleUsage & 0x1133 != 0);
      && (r.status == OK <==> allowed && (usage & 0xFF != 0 ==> answer.Mapped?))
      && (r.status == ENODEV <==> !ready) && !r.unmapped
      && (r.status == ENOMEM <==> allowed && usage & 0xFF != 0 && answer.Refused?)
      && (r.status != OK ==> r.data == d && r.mapped == None)
      && (r.status == OK ==>
        && r.data.lockCount == 1 && r.data.lockedFor == usage
        && (usage & 0xFF != 0 ==> answer.Mapped? && r.data.mapData == answer.data && r.mapped == Some(usage & 0xF0 != 0))
        && (usage & 0xFF == 0 ==> r.data.mapData == 0 && r.mapped == None))
  {
    hide LockStep;
    LockStatus(d, ready, handleUsage, usage, answer);
    LockChanges(d, ready, handleUsage, usage, answer);
    OrNothing(usage, d.lockedFor);
  }

  /** A lock on a locked object succeeds exactly if that is not locked for the CPU, what is
      asked for is part of what it is locked for, and the checks above hold. It maps nothing. */
  lemma HeldLockOutcome(d: BoData, ready: bool, handleUsage: bv32, usage: bv32, answer: Mapping)
    requires Consistent(d) && d.lockCount > 0
    ensures var r := LockStep(d, Lock(ready, handleUsage, usage, answer));
      var allowed := ready && usage & 0x1000 == 0 && (handleUsage & usage == usage || handleUsage & 0x1133 != 0);
      && (r.status == OK <==> allowed && d.lockedFor & 0xFF == 0 && d.lockedFor & usage == usage)
      && (r.status == ENODEV <==> !ready) && r.status != ENOMEM && !r.unmapped && r.mapped == None
      && r.data.lockCount == (if r.status == OK then d.lockCount + 1 else d.lockCount)
      && r.data.lockedFor == d.lockedFor && r.data.mapData == d.mapData
      && (r.status != OK ==> r.data == d)
  {
    hide LockStep;
    LockStatus(d, ready, handleUsage, usage, answer);
    if d.lockedFor & usage == usage {
      OrPart(usage, d.lockedFor);
    }
    HeldLockChanges(d, ready, handleUsage, usage, answer);
  }

  /** Exactly when a lock succeeds, on any object, and with which status it fails. */
  lemma LockOutcome(d: BoData, ready: bool, handleUsage: bv32, usage: bv32, answer: Mapping)
    requires Consistent(d) && Credible(answer)
    ensures var r := LockStep(d, Lock(ready, handleUsage, usage, answer));
      var allowed := ready && usage & 0x1000 == 0 && (handleUsage & usage == usage || handleUsage & 0x1133 != 0);
      && (r.status == OK <==> allowed && if d.lockCount == 0 then usage & 0xFF != 0 ==> answer.Mapped?
          else d.lockedFor & 0xFF == 0 && d.lockedFor & usage == usage)
      && (r.status == ENODEV <==> !ready) && !r.unmapped
      && (r.status == ENOMEM <==> allowed && d.lockCount == 0 && usage & 0xFF != 0 && answer.Refused?)
      && (r.status != OK ==> r.data == d && r.mapped == None)
      && (r.status == OK ==>
        && r.data.lockCount == d.lockCount + 1
        && r.data.lockedFor == (if d.lockCount == 0 then usage else d.lockedFor)
        && (r.data.lockedFor & 0xFF != 0 ==> r.mapped == Some(usage & 0xF0 != 0))
        && (r.data.lockedFor & 0xFF == 0 ==> r.mapped == None))
  {
    hide LockStep;
    if d.lockCount == 0 {
      FreeLockOutcome(d, ready, handleUsage, usage, answer);
    } else {
      HeldLockOutcome(d, ready, handleUsage, usage, answer);
    }
  }

  lemma HeldLockChanges(d: BoData, ready: bool, handleUsage: bv32, usage: bv32, answer: Mapping)
    requires Consistent(d) && d.lockCount > 0
    ensures var r := LockStep(d, Lock(ready, handleUsage, usage, answer));
      && (r.status != OK ==> r.data == d) && !r.unmapped && r.mapped == None
      && (r.status == OK ==>
        r.data.lockCount == d.lockCount + 1 && r.data.lockedFor == d.lockedFor && r.data.mapData == d.mapData)
  {
    hide Has, Union, Within, Cpu, Writes, Permitted;
    CpuMeans(d.lockedFor);
    if Within(usage, d.lockedFor) {
      UnionOfPart(usage, d.lockedFor);
    }
  }

  lemma UnionOfPart(usage: bv32, allowed: bv32)
    requires Within(usage, allowed)
    ensures Union(usage, allowed) == allowed && Union(allowed, allowed) == allowed
  {
  }

  lemma OrNothing(x: bv32, y: bv32)
    requires y == 0
    ensures x | y == x
  {
  }

  lemma OrPart(x: bv32, y: bv32)
    requires y & x == x
    ensures x | y == y && (x | y) & 0xFF == y & 0xFF
  {
  }

  lemma UnlockOutcome(d: BoData)
    requires Consistent(d)
    ensures var r := UnlockStep(d).data;
      && r.lockCount == (if d.lockCount == 0 then 0 else d.lockCount - 1)
      && r.lockedFor == (if r.lockCount == 0 then 0 else d.lockedFor)
      && r.mapData == 0 && UnlockStep(d).mapped == None && (UnlockStep(d).unmapped <==> d.mapData != 0)
  {
    hide Cpu, UnlockStep;
    UnlockStepInBits(d);
  }

  lemma LockConsistent(d: BoData, ready: bool, handleUsage: bv32, usage: bv32, answer: Mapping)
    requires Consistent(d) && Credible(answer)
    ensures var r := LockStep(d, Lock(ready, handleUsage, usage, answer));
      && Consistent(r.data) && (r.mapped.Some? <==> d.mapData == 0 && r.data.mapData != 0)
      && (r.mapped == None ==> r.data.mapData == d.mapData)
  {
    hide LockStep;
    if d.lockCount == 0 {
      FreeLockOutcome(d, ready, handleUsage, usage, answer);
    } else {
      HeldLockOutcome(d, ready, handleUsage, usage, answer);
    }
  }

  lemma StepConsistent(d: BoData, e: Event)
    requires Consistent(d) && (e.Lock? ==> Credible(e.answer))
    ensures Consistent(Step(d, e).data)
    ensures e.Lock? ==> (Step(d, e).mapped.Some? <==> d.mapData == 0 && Step(d, e).data.mapData != 0)
    ensures e.Lock? && Step(d, e).mapped == None ==> Step(d, e).data.mapData == d.mapData
  {
    hide LockStep, UnlockStep;
    match e
    case Lock(ready, handleUsage, usage, answer) => LockConsistent(d, ready, handleUsage, usage, answer);
    case Unlock => UnlockOutcome(d);
    case Query =>
  }

  /** The lock count is the locks that succeeded less the unlocks that had something to undo;
      the object is locked for what the session's first lock asked; mappings and unmappings
      balance but for the one in force. */
  ghost predicate Accounted(d: BoData, n: Tally, session: Option<bv32>) {
    && n.locks == n.unlocks + d.lockCount
    && n.maps == n.unmaps + (if d.mapData != 0 then 1 else 0)
    && session == (if d.lockCount == 0 then None else Some(d.lockedFor))
  }

  lemma StepAccounted(d: BoData, n: Tally, session: Option<bv32>, e: Event)
    requires Consistent(d) && Accounted(d, n, session) && (e.Lock? ==> Credible(e.answer))
    ensures Accounted(Step(d, e).data, Counted(n, d, e), SessionAfter(session, d, e))
  {
    hide LockStep, UnlockStep;
    StepConsistent(d, e);
    match e
    case Lock(ready, handleUsage, usage, answer) =>
      if d.lockCount == 0 {
        FreeLockOutcome(d, ready, handleUsage, usage, answer);
      } else {
        HeldLockOutcome(d, ready, handleUsage, usage, answer);
      }
    case Unlock => UnlockOutcome(d);
    case Query =>
  }

  /** Over every run of locks and unlocks, however the mappings turn out: the accounts are
      right, and the object is mapped exactly while locked for the CPU, then by one holder. */
  lemma {:induction false} EveryRun(events: seq<Event>)
    requires CredibleRun(events)
    ensures Consistent(After(events)) && Accounted(After(events), Count(events), Session(events))
  {
    hide Consistent, Accounted, Step, Counted, SessionAfter;
    if events == [] {
      NothingYet();
    } else {
      var before, e := events[..|events| - 1], events[|events| - 1];
      EveryRun(before);
      StepConsistent(After(before), e);
      StepAccounted(After(before), Count(before), Session(before), e);
    }
  }

  /** The same in plain terms. */
  lemma EveryRunMeans(events: seq<Event>)
    requires CredibleRun(events)
    ensures var d, n := After(events), Count(events);
      && n.locks == n.unlocks + d.lockCount && n.maps == n.unmaps + (if d.mapData != 0 then 1 else 0)
      && (d.mapData != 0 <==> d.lockedFor & 0xFF != 0) && (d.mapData != 0 ==> d.lockCount == 1)
      && (d.lockCount == 0 ==> d.lockedFor == 0 && Session(events) == None)
      && (d.lockCount > 0 ==> Session(events) == Some(d.lockedFor))
  {
    hide After, Count, Session;
    EveryRun(events);
  }

  lemma NothingYet()
    ensures Consistent(UNLOCKED) && Accounted(UNLOCKED, Tally(0, 0, 0, 0), None)
  {
  }

  /** While an object is locked for the CPU, no further lock is granted, not even one of the
      same usage, which the source's remark on compatible usages would allow. */
  lemma CpuLockIsExclusive(handleUsage: bv32, usage: bv32, first: Mapping, second: Mapping)
    requires usage & 0xFF != 0 && usage & 0x1000 == 0
    requires handleUsage & usage == usage || handleUsage & 0x1133 != 0
    requires first.Mapped? && Credible(first) && Credible(second)
    ensures var locked := LockStep(UNLOCKED, Lock(true, handleUsage, usage, first));
      && locked.status == OK && locked.data.lockedFor & usage == usage
      && LockStep(locked.data, Lock(true, handleUsage, usage, second)).status == EINVAL
  {
    hide LockStep;
    var locked := LockStep(UNLOCKED, Lock(true, handleUsage, usage, first));
    FreeLockOutcome(UNLOCKED, true, handleUsage, usage, first);
    LockConsistent(UNLOCKED, true, handleUsage, usage, first);
    HeldLockOutcome(locked.data, true, handleUsage, usage, second);
  }
}
