/** The lock sections of the IPC as functions of the table, the publish counter and the registry.

    The lock is held from the first to the last line of each function, so each is one atomic step.
    A descriptor's `id` is its address.  Hash values are 32-bit. */
module IpcSpec {
  import opened Common
  import opened Names

  const SLOTS := 10
  const MAX_INSTANCES := 128
  const MAX_NAME := 32
  const KEY_SIZE := 83

  datatype Result =
    Ok | Renew | Pending | NotFound | Argument | Duplicate | NotEnoughSpace | NotImplemented | Busy
    | System | FlashError

  datatype Descriptor = Descriptor(id: nat, package: string, packageVersion: nat, intf: string, intfVersion: nat)

  datatype Slot = Slot(descriptor: Option<Descriptor>, hash: nat, isDefault: bool, onHold: bool, refCount: int)

  /** A registry value of the right size, reduced to its default flag, or a value of another size. */
  datatype Stored = Flags(isDefault: bool) | Foreign

  datatype State = State(slots: seq<Slot>, count: nat, registry: map<string, Stored>)

  /** Whether the flash accepts the deletion and the addition of one registry update. */
  datatype Flash = Flash(canDelete: bool, canAdd: bool)

  /** A name to look up; version 0 asks for the default package. */
  datatype Request = Request(package: string, packageVersion: nat, intf: string, intfVersion: nat)

  datatype Handle = Handle(slot: Option<nat>, hash: nat)

  const EMPTY_SLOT := Slot(None, 0, false, false, 0)

  /** The table after az_ulib_ipc_init, before the IPC publishes its own interfaces. */
  function Initial(registry: map<string, Stored>): State { State(seq(SLOTS, _ => EMPTY_SLOT), 1, registry) }

  function Increment(count: nat): nat { (count + 1) % UINT32 }

  function Named(d: Descriptor): Request { Request(d.package, d.packageVersion, d.intf, d.intfVersion) }

  function DefaultOf(d: Descriptor): Request { Request(d.package, 0, d.intf, d.intfVersion) }

  predicate Versioned(d: Descriptor) { 0 < d.packageVersion < UINT32 && 0 < d.intfVersion < UINT32 }

  predicate Matches(s: Slot, r: Request) {
    && s.descriptor.Some?
    && s.descriptor.value.intf == r.intf
    && s.descriptor.value.intfVersion == r.intfVersion
    && s.descriptor.value.package == r.package
    && if r.packageVersion == 0 then s.isDefault else r.packageVersion == s.descriptor.value.packageVersion
  }

  /** The first slot from i on that matches, or -1. */
  function LookupFrom(slots: seq<Slot>, r: Request, i: nat): (k: int)
    requires i <= |slots|
    ensures k == -1 || i <= k < |slots|
    ensures k >= 0 ==> Matches(slots[k], r) && forall j :: i <= j < k ==> !Matches(slots[j], r)
    ensures k == -1 ==> forall j :: i <= j < |slots| ==> !Matches(slots[j], r)
    decreases |slots| - i
  {
    if i == |slots| then -1 else if Matches(slots[i], r) then i else LookupFrom(slots, r, i + 1)
  }

  function Lookup(slots: seq<Slot>, r: Request): (k: int)
    ensures -1 <= k < |slots|
    ensures k >= 0 ==> Matches(slots[k], r) && forall j :: 0 <= j < k ==> !Matches(slots[j], r)
    ensures k == -1 ==> forall j :: 0 <= j < |slots| ==> !Matches(slots[j], r)
  {
    LookupFrom(slots, r, 0)
  }

  function FirstFreeFrom(slots: seq<Slot>, i: nat): (k: int)
    requires i <= |slots|
    ensures k == -1 || i <= k < |slots|
    ensures k >= 0 ==> slots[k].refCount == 0 && forall j :: i <= j < k ==> slots[j].refCount != 0
    ensures k == -1 ==> forall j :: i <= j < |slots| ==> slots[j].refCount != 0
    decreases |slots| - i
  {
    if i == |slots| then -1 else if slots[i].refCount == 0 then i else FirstFreeFrom(slots, i + 1)
  }

  function FirstFree(slots: seq<Slot>): (k: int)
    ensures -1 <= k < |slots|
    ensures k >= 0 ==> slots[k].refCount == 0 && forall j :: 0 <= j < k ==> slots[j].refCount != 0
    ensures k == -1 ==> forall j :: 0 <= j < |slots| ==> slots[j].refCount != 0
  {
    FirstFreeFrom(slots, 0)
  }

  /** The first slot that holds the descriptor, or -1. */
  function FindDescriptorFrom(slots: seq<Slot>, d: Descriptor, i: nat): (k: int)
    requires i <= |slots|
    ensures k == -1 || i <= k < |slots|
    ensures k >= 0 ==> slots[k].descriptor == Some(d) && forall j :: i <= j < k ==> slots[j].descriptor != Some(d)
    ensures k == -1 ==> forall j :: i <= j < |slots| ==> slots[j].descriptor != Some(d)
    decreases |slots| - i
  {
    if i == |slots| then -1 else if slots[i].descriptor == Some(d) then i else FindDescriptorFrom(slots, d, i + 1)
  }

  // The registry.

  /** The registry key, if it fits the buffer. */
  function Key(d: Descriptor): Option<string> {
    if d.packageVersion < UINT32 && d.intfVersion < UINT32
       && |FullName(d.package, d.packageVersion, d.intf, d.intfVersion)| <= KEY_SIZE
    then Some(FullName(d.package, d.packageVersion, d.intf, d.intfVersion))
    else None
  }

  /** The flag stored for a descriptor; None stands for every error. */
  function StoredDefault(registry: map<string, Stored>, d: Descriptor): Option<bool> {
    match Key(d)
    case None => None
    case Some(key) => if key in registry && registry[key].Flags? then Some(registry[key].isDefault) else None
  }

  /** update_interface_information_in_registry. */
  function Update(registry: map<string, Stored>, d: Descriptor, isDefault: bool, f: Flash)
    : (map<string, Stored>, Result)
  {
    match Key(d)
    case None => (registry, NotEnoughSpace)
    case Some(key) =>
      if key !in registry then
        if f.canAdd then (registry[key := Flags(isDefault)], Ok) else (registry, FlashError)
      else if registry[key].Foreign? then (registry, System)
      else if registry[key].isDefault == isDefault then (registry, Ok)
      else if !f.canDelete then (registry, FlashError)
      else if !f.canAdd then (registry - {key}, FlashError)
      else (registry[key := Flags(isDefault)], Ok)
  }

  /** delete_interface_information_in_registry. */
  function Forget(registry: map<string, Stored>, d: Descriptor, canDelete: bool): (map<string, Stored>, Result) {
    match Key(d)
    case None => (registry, NotEnoughSpace)
    case Some(key) =>
      if key !in registry then (registry, NotFound)
      else if !canDelete then (registry, FlashError)
      else (registry - {key}, Ok)
  }

  // set_default.

  /** The old default loses every flag, gets a new hash, and its registry entry follows. */
  function Demote(s: State, i: nat, f: Flash): (State, Result)
    requires i < |s.slots| && s.slots[i].descriptor.Some?
  {
    var slot := s.slots[i].(isDefault := false, onHold := false, hash := s.count);
    var (registry, result) := Update(s.registry, slot.descriptor.value, false, f);
    (State(s.slots[i := slot], Increment(s.count), registry), result)
  }

  function Promote(s: State, i: nat, f: Flash): (State, Result)
    requires i < |s.slots| && s.slots[i].descriptor.Some?
  {
    var slot := s.slots[i].(isDefault := true);
    var (registry, result) := Update(s.registry, slot.descriptor.value, true, f);
    (State(s.slots[i := slot], s.count, registry), result)
  }

  function SetDefault(s: State, r: Request, first: Flash, second: Flash): (State, Result) {
    if r.packageVersion == 0 || r.intfVersion == 0 then (s, NotFound)
    else
      var chosen := Lookup(s.slots, r);
      if chosen < 0 then (s, NotFound)
      else
        var previous := Lookup(s.slots, r.(packageVersion := 0));
        if previous == chosen then (s, Argument)
        else if previous < 0 then Promote(s, chosen, second)
        else
          var (t, result) := Demote(s, previous, first);
          if result != Ok then (t, result) else Promote(t, chosen, second)
  }

  // publish.

  function Refusal(s: State, d: Descriptor): Result {
    if d.packageVersion == 0 || d.intfVersion == 0 then Argument
    else if Lookup(s.slots, Named(d)) >= 0 then Duplicate
    else if FirstFree(s.slots) < 0 || |d.intf| >= MAX_NAME then NotEnoughSpace
    else Ok
  }

  /** The free slot takes the descriptor, without flags and still without a reference. */
  function Place(s: State, d: Descriptor, i: nat): State
    requires i < |s.slots|
  {
    s.(slots := s.slots[i := s.slots[i].(descriptor := Some(d), hash := s.count, isDefault := false, onHold := false)],
       count := Increment(s.count))
  }

  /** The stored flag, or the absence of a default, makes the new slot the default. */
  function Settle(s: State, d: Descriptor, i: nat, first: Flash, second: Flash): (t: State)
    requires i < |s.slots| && s.slots[i].descriptor == Some(d)
    ensures |t.slots| == |s.slots|
  {
    match StoredDefault(s.registry, d)
    case Some(isDefault) => if isDefault then SetDefault(s, Named(d), first, second).0 else s
    case None => if Lookup(s.slots, DefaultOf(d)) < 0 then Promote(s, i, second).0 else s
  }

  function Publish(s: State, d: Descriptor, first: Flash, second: Flash): (State, Result) {
    var refusal := Refusal(s, d);
    if refusal != Ok then (s, refusal)
    else
      var i := FirstFree(s.slots);
      var t := Settle(Place(s, d, i), d, i, first, second);
      (t.(slots := t.slots[i := t.slots[i].(refCount := 1)]), Ok)
  }

  // unpublish: one pass through the lock.

  function UnpublishRound(s: State, i: nat, d: Descriptor, keepWaiting: bool, canDelete: bool): (State, Result)
    requires i < |s.slots|
  {
    var slot := s.slots[i];
    if slot.descriptor != Some(d) then (s, Ok)
    else if slot.refCount == 1 then
      var (registry, result) := Forget(s.registry, d, canDelete);
      if result == Ok || result == NotFound then
        (State(s.slots[i := slot.(descriptor := None, refCount := 0)], s.count, registry), Ok)
      else (s, result)
    else if keepWaiting then (s.(slots := s.slots[i := slot.(onHold := true)]), Pending)
    else (s.(slots := s.slots[i := slot.(isDefault := false, onHold := false)]), Busy)
  }

  // try_get_interface and release_interface.

  function LockResult(slot: Slot): Result {
    if slot.onHold || slot.refCount < 1 then NotFound
    else if slot.refCount > MAX_INSTANCES then NotEnoughSpace
    else Ok
  }

  /** The slot a request falls on: that of a handle whose hash still holds, else the one found by name. */
  function Target(s: State, r: Request, h: Handle): (k: int)
    ensures -1 <= k < |s.slots|
  {
    if Cached(s, h) then h.slot.value else Lookup(s.slots, r)
  }

  predicate Cached(s: State, h: Handle) {
    h.slot.Some? && h.slot.value < |s.slots| && h.hash == s.slots[h.slot.value].hash
  }

  function TryGet(s: State, device: string, r: Request, h: Handle): (State, Handle, Result) {
    if device != "" then (s, h, NotImplemented)
    else
      var k := Target(s, r, h);
      if k < 0 then (s, h, NotFound)
      else if LockResult(s.slots[k]) != Ok then (s, h, LockResult(s.slots[k]))
      else
        var t := s.(slots := s.slots[k := s.slots[k].(refCount := s.slots[k].refCount + 1)]);
        if Cached(s, h) then (t, h, Ok) else (t, Handle(Some(k), s.slots[k].hash), Renew)
  }

  function Release(s: State, i: nat): State
    requires i < |s.slots|
  {
    s.(slots := s.slots[i := s.slots[i].(refCount := s.slots[i].refCount - 1)])
  }

  // The waiting of unpublish.

  const FOREVER := 0xFFFF_FFFF

  function Interval(wait: nat): (q: nat)
    ensures q > 0
  {
    if wait == FOREVER then 100 else if wait / 8 == 0 then 1 else wait / 8
  }

  /** retry_total_time after k pending rounds; a wait without end does not count. */
  function Waited(wait: nat, k: nat): nat {
    if k == 0 || wait == FOREVER then 0 else (Waited(wait, k - 1) + Interval(wait)) % UINT32
  }

  /** The ninth interval runs over 32 bits, and eight were not enough. */
  predicate Wraps(wait: nat) { wait % 8 != 0 && 9 * (wait / 8) >= UINT32 }

  lemma {:induction false} WaitedIsMultiple(wait: nat, k: nat)
    requires wait != FOREVER && k * Interval(wait) < UINT32
    ensures Waited(wait, k) == k * Interval(wait)
  {
    if k > 0 {
      assert k * Interval(wait) == (k - 1) * Interval(wait) + Interval(wait);
      assert 0 <= (k - 1) * Interval(wait);
      WaitedIsMultiple(wait, k - 1);
    }
  }

  lemma NextWaited(wait: nat, k: nat)
    requires wait != FOREVER
    ensures var w := Waited(wait, k) + Interval(wait);
      Interval(wait) <= UINT32 && w < 2 * UINT32 ==> Waited(wait, k + 1) == if w < UINT32 then w else w - UINT32
  {
    var w := Waited(wait, k) + Interval(wait);
    if w < UINT32 { assert w % UINT32 == w; }
    if UINT32 <= w < 2 * UINT32 { assert w % UINT32 == w - UINT32; }
  }

  /** After the ninth round the waiting time starts from near zero again. */
  lemma WaitedAfterWrap(wait: nat)
    requires wait < FOREVER && Wraps(wait)
    ensures forall k :: 9 <= k <= 15 ==> Waited(wait, k) < wait
  {
    hide Waited;
    var q := wait / 8;
    WaitedIsMultiple(wait, 8);
    NextWaited(wait, 8);
    NextWaited(wait, 9);
    NextWaited(wait, 10);
    NextWaited(wait, 11);
    NextWaited(wait, 12);
    NextWaited(wait, 13);
    NextWaited(wait, 14);
    assert Waited(wait, 15) == 15 * q - UINT32 < 8 * q;
  }

  lemma NineOrMore(wait: nat)
    requires 16 <= wait < FOREVER && wait % 8 != 0 && !Wraps(wait)
    ensures exists k :: 0 <= k <= 15 && Waited(wait, k) >= wait
  {
    var k := if 9 * (wait / 8) >= wait then 9 else if 10 * (wait / 8) >= wait then 10
             else if 11 * (wait / 8) >= wait then 11 else 12;
    assert (k - 1) * (wait / 8) < wait;
    WaitedIsMultiple(wait, k);
    assert Waited(wait, k) >= wait;
  }

  lemma WrappedWaits(wait: nat)
    requires wait < FOREVER && Wraps(wait)
    ensures forall k :: 0 <= k <= 15 ==> Waited(wait, k) < wait
  {
    hide Waited;
    WaitedAfterWrap(wait);
    forall k | 0 <= k <= 8 ensures Waited(wait, k) < wait {
      assert k * (wait / 8) <= 8 * (wait / 8) < wait;
      WaitedIsMultiple(wait, k);
    }
  }

  lemma WaitEnds(wait: nat)
    requires wait < FOREVER && !Wraps(wait)
    ensures exists k :: 0 <= k <= 15 && Waited(wait, k) >= wait
  {
    hide Waited;
    if wait < 16 {
      WaitedIsMultiple(wait, wait);
      assert Waited(wait, wait) >= wait;
    } else if wait % 8 == 0 {
      WaitedIsMultiple(wait, 8);
      assert Waited(wait, 8) >= wait;
    } else {
      NineOrMore(wait);
    }
  }

  lemma ForeverWaits()
    ensures forall k :: 0 <= k <= 15 ==> Waited(FOREVER, k) < FOREVER
  {
  }

  lemma ShortDoesNotWrap(wait: nat)
    requires wait + wait / 8 < UINT32
    ensures !Wraps(wait)
  {
  }

  /** An interface in use all along makes unpublish wait more than 15 rounds exactly when it was asked to wait
      without end or the waiting time wraps. */
  lemma WaitingBound(wait: nat)
    requires wait <= FOREVER
    ensures (forall k :: 0 <= k <= 15 ==> Waited(wait, k) < wait) <==> wait == FOREVER || Wraps(wait)
    ensures wait + wait / 8 < UINT32 ==> !Wraps(wait)
  {
    hide Waited, Wraps;
    if wait + wait / 8 < UINT32 { ShortDoesNotWrap(wait); }
    if wait == FOREVER {
      ForeverWaits();
    } else if Wraps(wait) {
      WrappedWaits(wait);
    } else {
      WaitEnds(wait);
    }
  }

  /** Round k of an unpublish, in the table others(k) that it finds. */
  function RoundAt(others: nat -> State, canDelete: nat -> bool, d: Descriptor, wait: nat, i: nat, k: nat)
    : (State, Result)
    requires i < |others(k).slots|
  {
    UnpublishRound(others(k), i, d, Waited(wait, k) < wait, canDelete(k))
  }

  lemma RoundOutcome(others: nat -> State, canDelete: nat -> bool, d: Descriptor, wait: nat, i: nat, k: nat)
    requires i < |others(k).slots|
    ensures RoundAt(others, canDelete, d, wait, i, k).1 == Pending ==> Waited(wait, k) < wait
    ensures RoundAt(others, canDelete, d, wait, i, k).1 == Busy ==> Waited(wait, k) >= wait
  {
    hide Waited;
  }
}
