/** The IPC control block: a table updated in place, each method one lock section. */
module Ipc {
  import opened Common
  import opened IpcSpec
  import opened Names

  /** A round at which a finite wait is over, if its sum does not wrap. */
  ghost function LastRound(wait: nat): (k: nat)
    requires wait < FOREVER && !Wraps(wait)
    ensures k <= 15 && Waited(wait, k) >= wait
  {
    hide Waited, Wraps;
    WaitingBound(wait);
    var k: nat :| k <= 15 && Waited(wait, k) >= wait;
    k
  }

  class ControlBlock {
    const interfaceList: array<Slot>
    var publishCount: nat
    var registry: map<string, Stored>

    ghost predicate Valid()
      reads this, interfaceList
    {
      interfaceList.Length == SLOTS && publishCount < UINT32
    }

    ghost function Table(): State
      reads this, interfaceList
    {
      State(interfaceList[..], publishCount, registry)
    }

    constructor (registry: map<string, Stored>)
      ensures Valid() && fresh(interfaceList)
      ensures Table() == Initial(registry)
    {
      interfaceList := new Slot[SLOTS](_ => EMPTY_SLOT);
      publishCount := 1;
      this.registry := registry;
      new;
      assert interfaceList[..] == Initial(registry).slots;
    }

    method LookupInterface(r: Request) returns (k: int)
      requires Valid()
      ensures k == Lookup(interfaceList[..], r)
    {
      var i := 0;
      while i < SLOTS
        invariant 0 <= i <= SLOTS
        invariant Lookup(interfaceList[..], r) == LookupFrom(interfaceList[..], r, i)
      {
        var slot := interfaceList[i];
        if slot.descriptor.Some? {
          var d := slot.descriptor.value;
          if d.intf == r.intf && r.intfVersion == d.intfVersion && d.package == r.package {
            if r.packageVersion == 0 {
              if slot.isDefault { return i; }
            } else if r.packageVersion == d.packageVersion {
              return i;
            }
          }
        }
        i := i + 1;
      }
      return -1;
    }

    method FindInterfaceDescriptor(d: Descriptor) returns (k: int)
      requires Valid()
      ensures k == FindDescriptorFrom(interfaceList[..], d, 0)
    {
      var i := 0;
      while i < SLOTS
        invariant 0 <= i <= SLOTS
        invariant FindDescriptorFrom(interfaceList[..], d, 0) == FindDescriptorFrom(interfaceList[..], d, i)
      {
        if interfaceList[i].descriptor == Some(d) { return i; }
        i := i + 1;
      }
      return -1;
    }

    method GetFirstFree() returns (k: int)
      requires Valid()
      ensures k == FirstFree(interfaceList[..])
    {
      var i := 0;
      while i < SLOTS
        invariant 0 <= i <= SLOTS
        invariant FirstFree(interfaceList[..]) == FirstFreeFrom(interfaceList[..], i)
      {
        if interfaceList[i].refCount == 0 { return i; }
        i := i + 1;
      }
      return -1;
    }

    method TryLockInterface(i: nat) returns (result: Result)
      requires Valid() && i < SLOTS
      modifies interfaceList
      ensures result == LockResult(old(interfaceList[i]))
      ensures interfaceList[..] == if result != Ok then old(interfaceList[..])
              else old(interfaceList[..])[i := old(interfaceList[i]).(refCount := old(interfaceList[i]).refCount + 1)]
    {
      if interfaceList[i].onHold || interfaceList[i].refCount < 1 {
        result := NotFound;
      } else if interfaceList[i].refCount > MAX_INSTANCES {
        result := NotEnoughSpace;
      } else {
        interfaceList[i] := interfaceList[i].(refCount := interfaceList[i].refCount + 1);
        result := Ok;
      }
    }

    /** update_interface_information_in_registry for slot i. */
    method UpdateInRegistry(i: nat, f: Flash) returns (result: Result)
      requires Valid() && i < SLOTS && interfaceList[i].descriptor.Some?
      modifies `registry
      ensures (registry, result)
           == Update(old(registry), interfaceList[i].descriptor.value, interfaceList[i].isDefault, f)
    {
      var slot := interfaceList[i];
      var key := Key(slot.descriptor.value);
      if key.None? { return NotEnoughSpace; }
      if key.value in registry {
        if registry[key.value].Foreign? { return System; }
        if registry[key.value].isDefault != slot.isDefault {
          if !f.canDelete { return FlashError; }
          ghost var before := registry;
          registry := registry - {key.value};
          if !f.canAdd { return FlashError; }
          registry := registry[key.value := Flags(slot.isDefault)];
          assert registry == before[key.value := Flags(slot.isDefault)];
        }
        return Ok;
      }
      if !f.canAdd { return FlashError; }
      registry := registry[key.value := Flags(slot.isDefault)];
      return Ok;
    }

    method SetDefault(r: Request, first: Flash, second: Flash) returns (result: Result)
      requires Valid()
      modifies this, interfaceList
      ensures Valid()
      ensures (Table(), result) == IpcSpec.SetDefault(old(Table()), r, first, second)
    {
      hide Update;
      if r.packageVersion == 0 || r.intfVersion == 0 { return NotFound; }
      var chosen := LookupInterface(r);
      if chosen < 0 { return NotFound; }
      result := Ok;
      var previous := LookupInterface(r.(packageVersion := 0));
      ghost var s := Table();
      if previous >= 0 {
        if previous == chosen { return Argument; }
        interfaceList[previous] := interfaceList[previous].(isDefault := false, onHold := false);
        interfaceList[previous] := interfaceList[previous].(hash := publishCount);
        publishCount := (publishCount + 1) % UINT32;
        result := UpdateInRegistry(previous, first);
        ghost var demoted := s.slots[previous].(isDefault := false, onHold := false, hash := s.count);
        assert interfaceList[..] == s.slots[previous := demoted];
        assert (Table(), result) == Demote(s, previous, first);
      }
      if result == Ok {
        ghost var t := Table();
        interfaceList[chosen] := interfaceList[chosen].(isDefault := true);
        result := UpdateInRegistry(chosen, second);
        assert (Table(), result) == Promote(t, chosen, second);
      }
    }

    method Publish(d: Descriptor, first: Flash, second: Flash) returns (result: Result)
      requires Valid()
      modifies this, interfaceList
      ensures Valid()
      ensures (Table(), result) == IpcSpec.Publish(old(Table()), d, first, second)
    {
      hide Update, StoredDefault, IpcSpec.SetDefault;
      if d.packageVersion == 0 || d.intfVersion == 0 { return Argument; }
      var same := LookupInterface(Named(d));
      if same >= 0 { return Duplicate; }
      var i := GetFirstFree();
      if i < 0 || |d.intf| >= MAX_NAME { return NotEnoughSpace; }
      ghost var s := Table();
      interfaceList[i] := interfaceList[i].(descriptor := Some(d));
      interfaceList[i] := interfaceList[i].(isDefault := false, onHold := false);
      interfaceList[i] := interfaceList[i].(hash := publishCount);
      publishCount := (publishCount + 1) % UINT32;
      assert Table() == Place(s, d, i);
      ghost var p := Table();
      var stored := StoredDefault(registry, d);
      if stored.Some? {
        if stored.value {
          var ignored := SetDefault(Named(d), first, second);
        }
      } else {
        var current := LookupInterface(DefaultOf(d));
        if current < 0 {
          interfaceList[i] := interfaceList[i].(isDefault := true);
          var ignored := UpdateInRegistry(i, second);
          assert Table() == Promote(p, i, second).0;
        }
      }
      assert Table() == Settle(p, d, i, first, second);
      interfaceList[i] := interfaceList[i].(refCount := 1);
      result := Ok;
    }

    /** What one pass through the lock of unpublish does. */
    method Round(i: nat, d: Descriptor, keepWaiting: bool, canDelete: bool) returns (result: Result)
      requires Valid() && i < SLOTS
      modifies this, interfaceList
      ensures Valid()
      ensures (Table(), result) == UnpublishRound(old(Table()), i, d, keepWaiting, canDelete)
    {
      hide Key;
      if interfaceList[i].descriptor != Some(d) {
        result := Ok;
      } else if interfaceList[i].refCount == 1 {
        var forgotten := Forget(registry, d, canDelete);
        registry, result := forgotten.0, forgotten.1;
        if result == Ok || result == NotFound {
          interfaceList[i] := interfaceList[i].(descriptor := None);
          interfaceList[i] := interfaceList[i].(refCount := 0);
          assert interfaceList[..]
              == old(interfaceList[..])[i := old(interfaceList[i]).(descriptor := None, refCount := 0)];
          result := Ok;
        }
      } else if keepWaiting {
        interfaceList[i] := interfaceList[i].(onHold := true);
        result := Pending;
      } else {
        interfaceList[i] := interfaceList[i].(isDefault := false, onHold := false);
        result := Busy;
      }
    }

    /** Other threads leave the table t behind; then comes the next pass of unpublish. */
    method NextRound(t: State, i: nat, d: Descriptor, keepWaiting: bool, canDelete: bool) returns (result: Result)
      requires Valid() && |t.slots| == SLOTS && t.count < UINT32 && i < SLOTS
      modifies this, interfaceList
      ensures Valid()
      ensures (Table(), result) == UnpublishRound(t, i, d, keepWaiting, canDelete)
    {
      hide UnpublishRound;
      forall j | 0 <= j < SLOTS { interfaceList[j] := t.slots[j]; }
      publishCount, registry := t.count, t.registry;
      assert interfaceList[..] == t.slots;
      result := Round(i, d, keepWaiting, canDelete);
    }

    /** unpublish, followed for at most `limit` rounds after the first: `others(k)` is the table that round k
        finds. The result is Pending when the last of them still finds the interface in use. */
    method Unpublish(d: Descriptor, wait: nat, others: nat -> State, canDelete: nat -> bool, limit: nat)
      returns (result: Result, pending: nat)
      requires Valid() && wait <= FOREVER
      requires forall k :: |others(k).slots| == SLOTS && others(k).count < UINT32
      modifies this, interfaceList
      ensures Valid() && pending <= limit
      ensures var i := FindDescriptorFrom(old(interfaceList[..]), d, 0);
        if i < 0 then result == NotFound && Table() == old(Table())
        else
          && (Table(), result) == RoundAt(others, canDelete, d, wait, i, pending)
          && (forall k :: 0 <= k < pending ==> RoundAt(others, canDelete, d, wait, i, k).1 == Pending)
          && (result == Busy ==> Waited(wait, pending) >= wait)
          && (result == Pending ==> pending == limit)
      ensures wait < FOREVER && !Wraps(wait) ==> pending <= 15 && (result == Pending ==> limit < 15)
    {
      hide UnpublishRound, FindDescriptorFrom, Wraps;
      var interval := Interval(wait);
      var total := 0;
      pending := 0;
      var i := FindInterfaceDescriptor(d);
      if i < 0 { return NotFound, 0; }
      ghost var bound := if wait < FOREVER && !Wraps(wait) then LastRound(wait) else limit;
      result := NextRound(others(0), i, d, total < wait, canDelete(0));
      RoundOutcome(others, canDelete, d, wait, i, 0);
      while result == Pending && pending < limit
        invariant Valid() && total == Waited(wait, pending) && pending <= limit && pending <= bound
        invariant result == Pending && wait < FOREVER && !Wraps(wait) ==> pending < bound
        invariant (Table(), result) == RoundAt(others, canDelete, d, wait, i, pending)
        invariant forall k :: 0 <= k < pending ==> RoundAt(others, canDelete, d, wait, i, k).1 == Pending
      {
        if wait != FOREVER { total := (total + interval) % UINT32; }
        pending := pending + 1;
        result := NextRound(others(pending), i, d, total < wait, canDelete(pending));
        RoundOutcome(others, canDelete, d, wait, i, pending);
      }
      RoundOutcome(others, canDelete, d, wait, i, pending);
    }

    method TryGetInterface(device: string, r: Request, handle: Handle) returns (result: Result, out: Handle)
      requires Valid() && (handle.slot.Some? ==> handle.slot.value < SLOTS)
      modifies this, interfaceList
      ensures Valid()
      ensures (Table(), out, result) == TryGet(old(Table()), device, r, handle)
    {
      hide Lookup;
      out := handle;
      if device != "" { return NotImplemented, handle; }
      ghost var s := Table();
      if handle.slot.Some? && handle.hash == interfaceList[handle.slot.value].hash {
        result := TryLockInterface(handle.slot.value);
      } else {
        var k := LookupInterface(r);
        if k < 0 { return NotFound, handle; }
        result := TryLockInterface(k);
        if result == Ok {
          out := Handle(Some(k), interfaceList[k].hash);
          result := Renew;
        }
      }
    }

    method ReleaseInterface(handle: Handle)
      requires Valid() && handle.slot.Some? && handle.slot.value < SLOTS
      modifies interfaceList
      ensures Valid() && Table() == Release(old(Table()), handle.slot.value)
    {
      var i := handle.slot.value;
      interfaceList[i] := interfaceList[i].(refCount := interfaceList[i].refCount - 1);
    }
  }
}
