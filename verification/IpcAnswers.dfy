/** What each call of the IPC answers and whom it affects, by the names in the table and by who holds what. */
module IpcAnswers {
  import opened Common
  import opened IpcSpec
  import opened IpcProtocol
  import Names

  // Finding a slot.

  /** The slot carries the requested full name, or is the default where no package version is asked for. */
  predicate Bears(slot: Slot, r: Request) {
    slot.descriptor.Some? &&
    if r.packageVersion == 0 then DefaultOf(slot.descriptor.value) == r && slot.isDefault
    else Named(slot.descriptor.value) == r
  }

  /** In a table with distinct names at most one slot bears a request, and it is the one that is found. */
  lemma LookupIsByName(slots: seq<Slot>, r: Request)
    requires Distinct(slots)
    ensures forall k :: 0 <= k < |slots| ==> (Lookup(slots, r) == k <==> Bears(slots[k], r))
    ensures Lookup(slots, r) < 0 <==> forall k :: 0 <= k < |slots| ==> !Bears(slots[k], r)
  {
    forall k | 0 <= k < |slots| ensures Bears(slots[k], r) <==> Matches(slots[k], r) {}
    forall k | 0 <= k < |slots| && Bears(slots[k], r) ensures Lookup(slots, r) == k {
      assert Matches(slots[k], r);
      var l := Lookup(slots, r);
      if l < k { assert SameInterface(slots[l], slots[k]); }
    }
  }

  lemma GoodIsShaped(w: World)
    requires Good(w)
    ensures Shaped(w)
  {
  }

  // try_get_interface.

  /** The slot of a kept handle while its hash holds there, else the slot that bears the name. */
  ghost predicate FallsOn(w: World, r: Request, ticket: Option<Ticket>, k: int)
    requires Shaped(w)
  {
    if ticket.Some? && ticket.value.slot < SLOTS && w.s.slots[ticket.value.slot].hash == ticket.value.hash
    then k == ticket.value.slot
    else if k < 0 then forall i :: 0 <= i < SLOTS ==> !Bears(w.s.slots[i], r)
    else k < SLOTS && Bears(w.s.slots[k], r)
  }

  /** NOT_FOUND for an interface that is missing, gone or on hold, NOT_ENOUGH_SPACE for one with 128 handles out;
      either way nothing changes. */
  lemma GetAnswers(w: World, device: string, r: Request, ticket: Option<Ticket>, k: int)
    requires Good(w) && FallsOn(w, r, ticket, k)
    ensures var (v, result) := StepGet(w, device, r, ticket);
      var there := k >= 0 && w.s.slots[k].descriptor.Some? && !w.s.slots[k].onHold;
      && (result == NotImplemented <==> device != "")
      && (result == NotFound <==> device == "" && !there)
      && (result == NotEnoughSpace <==> device == "" && there && |w.held[k]| == 128)
      && (result == Ok || result == Renew <==> device == "" && there && |w.held[k]| < 128)
      && (result != Ok && result != Renew ==>
           v == w && TryGet(w.s, device, r, HandleOf(ticket)).1 == HandleOf(ticket))
      && (result == Ok || result == Renew ==>
           v.held == w.held[k := w.held[k] + [w.s.slots[k].descriptor.value]])
  {
    LookupIsByName(w.s.slots, r);
    hide Distinct, Lookup, Bears, Renewing;
    assert device == "" ==> Target(w.s, r, HandleOf(ticket)) == k || (k < 0 && Target(w.s, r, HandleOf(ticket)) < 0);
    if k >= 0 { assert SlotHeld(w.s.slots[k], w.held[k]); }
  }

  // unpublish.

  /** One pass: whoever finds another interface in the slot is done; an interface in use is waited for or given up. */
  lemma RoundAnswers(w: World, i: nat, d: Descriptor, keepWaiting: bool, canDelete: bool)
    requires Good(w) && i < SLOTS
    ensures var (v, result) := Step(w, Unpublishing(i, d, keepWaiting, canDelete));
      var mine := w.s.slots[i].descriptor == Some(d);
      && (!mine ==> v.s == w.s && result == Ok)
      && (result == Pending <==> mine && w.held[i] != [] && keepWaiting)
      && (result == Busy <==> mine && w.held[i] != [] && !keepWaiting)
      && (result == FlashError <==>
           mine && w.held[i] == [] && Key(d).Some? && Key(d).value in w.s.registry && !canDelete)
      && (result == NotEnoughSpace <==> mine && w.held[i] == [] && Key(d).None?)
      && v.held == w.held
  {
    hide Key, Distinct, Renewing;
    assert SlotHeld(w.s.slots[i], w.held[i]);
  }

  /** While unpublish waits for an interface no request that falls on it is served. */
  lemma PendingIsOnHold(s: State, i: nat, d: Descriptor, canDelete: bool, r: Request, h: Handle)
    requires i < |s.slots| && UnpublishRound(s, i, d, true, canDelete).1 == Pending
    ensures var t := UnpublishRound(s, i, d, true, canDelete).0;
      && t.slots[i].onHold && t.slots[i].descriptor == Some(d)
      && (Target(t, r, h) == i ==> TryGet(t, "", r, h) == (t, h, NotFound))
  {
    hide Lookup;
  }

  /** Once it gives up they are served again, by name as well, but no longer as the default. */
  lemma GivenUpIsServed(s: State, i: nat, d: Descriptor, canDelete: bool, r: Request, h: Handle)
    requires i < |s.slots| && UnpublishRound(s, i, d, false, canDelete).1 == Busy
    ensures var t := UnpublishRound(s, i, d, false, canDelete).0;
      && t.slots[i].descriptor == Some(d) && !t.slots[i].isDefault
      && (1 <= s.slots[i].refCount <= 128 && Target(t, r, h) == i ==>
           TryGet(t, "", r, h).2 == if Cached(t, h) then Ok else Renew)
  {
    hide Lookup;
  }

  // The registry entry.

  /** An update answers AZ_OK if and only if the entry then says what the slot says.  Otherwise there is no key, or an
      entry of another size, or the flash failed; other entries stay in any case. */
  lemma UpdateIsExact(registry: map<string, Stored>, d: Descriptor, isDefault: bool, f: Flash)
    ensures var (after, result) := Update(registry, d, isDefault, f);
      && (result == Ok <==> StoredDefault(after, d) == Some(isDefault))
      && (result == NotEnoughSpace <==> Key(d).None?)
      && (result == System <==> Key(d).Some? && Key(d).value in registry && registry[Key(d).value].Foreign?)
      && (result != Ok && result != NotEnoughSpace && result != System ==>
           result == FlashError && f != Flash(true, true))
      && (forall key :: Some(key) != Key(d) ==>
           (key in after <==> key in registry) && (key in registry ==> after[key] == registry[key]))
      && (result != Ok && Key(d).Some? && Key(d).value in after ==> after == registry)
  {
    hide Key;
  }

  lemma UpdateResults()
    ensures forall registry, d, isDefault, f ::
      Update(registry, d, isDefault, f).1 in [Ok, NotEnoughSpace, System, FlashError]
  {
    hide Key;
  }

  // set_default.

  /** The default among the slots of the same interface, if any. */
  ghost predicate DefaultSlot(slots: seq<Slot>, r: Request, j: int) {
    if j < 0 then forall i :: 0 <= i < |slots| ==> !Bears(slots[i], r.(packageVersion := 0))
    else j < |slots| && Bears(slots[j], r.(packageVersion := 0))
  }

  /** NOT_FOUND for a default version or a name that no slot bears, ARG for what is the default already. */
  lemma SetDefaultRefuses(s: State, r: Request, k: int, first: Flash, second: Flash)
    requires Distinct(s.slots)
    requires if k < 0 then forall i :: 0 <= i < |s.slots| ==> !Bears(s.slots[i], r)
             else k < |s.slots| && Bears(s.slots[k], r)
    ensures var (t, result) := SetDefault(s, r, first, second);
      && (result == NotFound <==> r.packageVersion == 0 || r.intfVersion == 0 || k < 0)
      && (result == Argument <==> r.packageVersion != 0 && r.intfVersion != 0 && k >= 0 && s.slots[k].isDefault)
      && (result == NotFound || result == Argument ==> t == s)
  {
    UpdateResults();
    hide Update;
    LookupIsByName(s.slots, r);
    LookupIsByName(s.slots, r.(packageVersion := 0));
  }

  /** The slots after set_default: the old default loses both flags and gets a new hash, the chosen slot the default
      flag unless the old entry could not be changed, every other slot stays as it was, and so do all references. */
  predicate Moved(before: seq<Slot>, after: seq<Slot>, k: nat, j: int, hash: nat, done: bool) {
    && |after| == |before| && k < |before| && j < |before|
    && after[k] == (if done then before[k].(isDefault := true) else before[k])
    && (j >= 0 ==> after[j] == before[j].(isDefault := false, onHold := false, hash := hash))
    && forall i :: 0 <= i < |before| && i != k && i != j ==> after[i] == before[i]
  }

  lemma SetDefaultMoves(s: State, r: Request, k: nat, j: int, first: Flash, second: Flash)
    requires Distinct(s.slots) && k < |s.slots| && Bears(s.slots[k], r) && DefaultSlot(s.slots, r, j)
    requires r.packageVersion != 0 && r.intfVersion != 0 && !s.slots[k].isDefault
    ensures var (t, result) := SetDefault(s, r, first, second);
      var demoted := j < 0 || Update(s.registry, s.slots[j].descriptor.value, false, first).1 == Ok;
      && j != k && Moved(s.slots, t.slots, k, j, s.count, demoted)
      && t.count == (if j < 0 then s.count else (s.count + 1) % 0x1_0000_0000)
      && (result == Ok ==> StoredDefault(t.registry, s.slots[k].descriptor.value) == Some(true))
      && (result == Ok <==> demoted && StoredDefault(t.registry, s.slots[k].descriptor.value) == Some(true))
  {
    hide Update, StoredDefault;
    LookupIsByName(s.slots, r);
    LookupIsByName(s.slots, r.(packageVersion := 0));
    if j < 0 {
      UpdateIsExact(s.registry, s.slots[k].descriptor.value, true, second);
    } else {
      UpdateIsExact(s.registry, s.slots[j].descriptor.value, false, first);
      UpdateIsExact(Demote(s, j, first).0.registry, s.slots[k].descriptor.value, true, second);
    }
  }

  /** Afterwards a request for the default falls on the chosen slot, also through a handle to the old one; every other
      handle falls where it did. */
  lemma DefaultMoves(s: State, r: Request, k: nat, j: int, first: Flash, second: Flash, h: Handle)
    requires Distinct(s.slots) && k < |s.slots| && Bears(s.slots[k], r) && DefaultSlot(s.slots, r, j)
    requires r.packageVersion != 0 && SetDefault(s, r, first, second).1 == Ok
    requires j >= 0 ==> s.slots[j].hash != s.count
    ensures var t := SetDefault(s, r, first, second).0;
      && Distinct(t.slots)
      && (h.slot.Some? && h.slot.value != j ==> (Cached(t, h) <==> Cached(s, h)))
      && Target(t, r.(packageVersion := 0), Handle(None, 0)) == k
      && (j >= 0 ==> Target(t, r.(packageVersion := 0), Handle(Some(j), s.slots[j].hash)) == k)
  {
    hide Update, SetDefault;
    SetDefaultRefuses(s, r, k, first, second);
    SetDefaultMoves(s, r, k, j, first, second);
    SetDefaultFlagsOnly(s, r, first, second);
    var t := SetDefault(s, r, first, second).0;
    LookupIsByName(t.slots, r.(packageVersion := 0));
  }

  // publish.

  /** ARG for a default version, DUPLICATE for a name that is there, NOT_ENOUGH_SPACE for ten interfaces or a name of 32
      characters; a refusal changes nothing. */
  lemma PublishAnswers(w: World, d: Descriptor, first: Flash, second: Flash)
    requires Good(w)
    ensures var (t, result) := Publish(w.s, d, first, second);
      var versioned := d.packageVersion != 0 && d.intfVersion != 0;
      var there := exists i :: 0 <= i < 10 && Bears(w.s.slots[i], Named(d));
      var full := forall i :: 0 <= i < 10 ==> w.s.slots[i].descriptor.Some?;
      && (result == Argument <==> !versioned)
      && (result == Duplicate <==> versioned && there)
      && (result == NotEnoughSpace <==> versioned && !there && (full || |d.intf| >= 32))
      && (result == Ok <==> versioned && !there && !full && |d.intf| < 32)
      && (result != Ok ==> t == w.s)
  {
    hide Settle, Distinct, Renewing;
    LookupByName(w, Named(d));
    forall i | 0 <= i < SLOTS ensures w.s.slots[i].refCount == 0 <==> w.s.slots[i].descriptor.None? {
      assert SlotHeld(w.s.slots[i], w.held[i]);
    }
    hide Lookup, Bears;
  }

  lemma LookupByName(w: World, r: Request)
    requires Good(w)
    ensures Lookup(w.s.slots, r) >= 0 <==> exists i :: 0 <= i < SLOTS && Bears(w.s.slots[i], r)
  {
    hide Bears;
    LookupIsByName(w.s.slots, r);
  }

  /** The new interface is the default if and only if the registry says so and the old default could be changed, or
      the registry does not know it and there is no default.  No other slot changes but the old default, in the first
      of these cases. */
  lemma PublishSettles(w: World, d: Descriptor, j: int, first: Flash, second: Flash)
    requires Good(w) && d.packageVersion < Names.UINT32 && d.intfVersion < Names.UINT32
    requires Publish(w.s, d, first, second).1 == Ok && DefaultSlot(w.s.slots, Named(d), j)
    ensures var t := Publish(w.s, d, first, second).0;
      var i := FirstFree(w.s.slots);
      var stored := StoredDefault(w.s.registry, d);
      var demoted := j < 0 || Update(w.s.registry, w.s.slots[j].descriptor.value, false, first).1 == Ok;
      var isDefault := match stored case Some(flag) => flag && demoted case None => j < 0;
      && 0 <= i < SLOTS && w.s.slots[i].descriptor.None? && i != j
      && (forall m :: 0 <= m < i ==> w.s.slots[m].descriptor.Some?)
      && |t.slots| == SLOTS && t.slots[i] == Slot(Some(d), w.s.count, isDefault, false, 1)
      && (forall m :: 0 <= m < SLOTS && m != i && m != j ==> t.slots[m] == w.s.slots[m])
      && (j >= 0 && stored != Some(true) ==> t.slots[j] == w.s.slots[j])
      && (j >= 0 && stored == Some(true) ==>
           var hash := (w.s.count + 1) % 0x1_0000_0000;
           t.slots[j] == w.s.slots[j].(isDefault := false, onHold := false, hash := hash))
  {
    hide Update, StoredDefault, SetDefault, Renewing;
    var s, i := w.s, FirstFree(w.s.slots);
    RefusedUnchanged(s, d, first, second);
    forall m | 0 <= m < SLOTS ensures s.slots[m].refCount == 0 <==> s.slots[m].descriptor.None? {
      assert SlotHeld(s.slots[m], w.held[m]);
    }
    var p := Place(s, d, i);
    PlaceDistinct(s, d, i);
    hide Holding;
    LookupIsByName(s.slots, Named(d));
    SettleMoves(p, d, i, j, first, second);
  }

  lemma SettleMoves(p: State, d: Descriptor, i: nat, j: int, first: Flash, second: Flash)
    requires Distinct(p.slots) && i < |p.slots| && p.slots[i].descriptor == Some(d) && !p.slots[i].isDefault
    requires DefaultSlot(p.slots, Named(d), j) && d.packageVersion != 0 && d.intfVersion != 0
    ensures var t, stored := Settle(p, d, i, first, second), StoredDefault(p.registry, d);
      var demoted := j < 0 || Update(p.registry, p.slots[j].descriptor.value, false, first).1 == Ok;
      && j != i
      && match stored
         case Some(flag) => if flag then Moved(p.slots, t.slots, i, j, p.count, demoted) else t == p
         case None => t.slots == if j < 0 then p.slots[i := p.slots[i].(isDefault := true)] else p.slots
  {
    hide Update, StoredDefault, SetDefault, Distinct, Moved;
    SetDefaultMoves(p, Named(d), i, j, first, second);
    LookupIsByName(p.slots, DefaultOf(d));
  }

  // On hold.

  /** The steps that take an interface off hold: an unpublish that gives up, and the loss of the default flag. */
  predicate OffHold(w: World, a: Action, i: nat)
    requires Shaped(w) && Allowed(w, a) && i < SLOTS
  {
    var (v, result) := Step(w, a);
    || (a.Unpublishing? && a.slot == i && result == Busy)
    || ((a.Publishing? || a.Defaulting?) && i < |v.s.slots| && w.s.slots[i].isDefault && !v.s.slots[i].isDefault)
  }

  predicate OnHold(before: Slot, after: Slot) {
    after.descriptor.Some? ==> after.descriptor == before.descriptor && after.onHold
  }

  lemma DefaultingKeepsHold(s: State, r: Request, first: Flash, second: Flash, i: nat)
    requires Distinct(s.slots) && i < |s.slots| && s.slots[i].descriptor.Some? && s.slots[i].onHold
    ensures var t := SetDefault(s, r, first, second).0;
      |t.slots| == |s.slots| && ((s.slots[i].isDefault ==> t.slots[i].isDefault) ==> OnHold(s.slots[i], t.slots[i]))
  {
    hide SetDefault, Distinct, Update, StoredDefault;
    var k, j := Lookup(s.slots, r), Lookup(s.slots, r.(packageVersion := 0));
    LookupIsByName(s.slots, r);
    LookupIsByName(s.slots, r.(packageVersion := 0));
    SetDefaultRefuses(s, r, k, first, second);
    if k >= 0 && r.packageVersion != 0 && r.intfVersion != 0 && !s.slots[k].isDefault {
      SetDefaultMoves(s, r, k, j, first, second);
    }
  }

  lemma PublishingKeepsHold(w: World, d: Descriptor, first: Flash, second: Flash, i: nat)
    requires Good(w) && d.packageVersion < Names.UINT32 && d.intfVersion < Names.UINT32
    requires i < SLOTS && w.s.slots[i].descriptor.Some? && w.s.slots[i].onHold
    ensures var t := Publish(w.s, d, first, second).0;
      |t.slots| == SLOTS && ((w.s.slots[i].isDefault ==> t.slots[i].isDefault) ==> OnHold(w.s.slots[i], t.slots[i]))
  {
    hide Publish, Distinct, Update, StoredDefault, Refusal, Holding, Renewing;
    GoodIsShaped(w);
    RefusedUnchanged(w.s, d, first, second);
    if Publish(w.s, d, first, second).1 == Ok {
      var j := Lookup(w.s.slots, DefaultOf(d));
      LookupIsByName(w.s.slots, DefaultOf(d));
      PublishSettles(w, d, j, first, second);
    }
  }

  /** Any other step leaves it on hold, with no client more, unless it is unpublished at last. */
  lemma StaysOnHold(w: World, a: Action, i: nat)
    requires Good(w) && Allowed(w, a) && i < SLOTS && !OffHold(w, a, i)
    requires w.s.slots[i].descriptor.Some? && w.s.slots[i].onHold
    ensures var v := Step(w, a).0;
      Shaped(v) && OnHold(w.s.slots[i], v.s.slots[i])
      && (v.s.slots[i].descriptor.Some? ==> |v.held[i]| <= |w.held[i]|)
  {
    hide Distinct, Publish, SetDefault, UnpublishRound, Renewing, Lookup, FirstFree;
    StepKeepsGood(w, a);
    match a
    case Publishing(d, first, second) => PublishingKeepsHold(w, d, first, second, i);
    case Defaulting(r, first, second) => DefaultingKeepsHold(w.s, r, first, second, i);
    case Unpublishing(slot, d, keepWaiting, canDelete) => RoundChangesOne(w.s, slot, d, keepWaiting, canDelete);
    case Getting(device, r, ticket) =>
    case Releasing(slot, which) =>
  }

  /** The worlds some run reaches from w while slot i is published and nothing takes it off hold. */
  ghost predicate HoldRun(w: World, i: nat, actions: seq<Action>, v: World)
    requires i < SLOTS
    decreases |actions|
  {
    if actions == [] then v == w
    else exists u ::
      && HoldRun(w, i, actions[..|actions| - 1], u) && Shaped(u) && u.s.slots[i].descriptor.Some?
      && Allowed(u, actions[|actions| - 1]) && !OffHold(u, actions[|actions| - 1], i)
      && v == Step(u, actions[|actions| - 1]).0
  }

  predicate HeldBy(v: World, i: nat, d: Descriptor, clients: nat)
    requires i < SLOTS
  {
    Shaped(v) && (v.s.slots[i].descriptor.Some? ==>
      v.s.slots[i].descriptor == Some(d) && v.s.slots[i].onHold && |v.held[i]| <= clients)
  }

  lemma {:induction false} HoldLasts(w: World, i: nat, actions: seq<Action>, v: World, d: Descriptor)
    requires Good(w) && i < SLOTS && w.s.slots[i].descriptor == Some(d) && w.s.slots[i].onHold
    requires HoldRun(w, i, actions, v)
    ensures Good(v) && HeldBy(v, i, d, |w.held[i]|)
    decreases |actions|
  {
    hide Good, OffHold;
    GoodIsShaped(w);
    if actions != [] {
      var last := actions[|actions| - 1];
      var u :| HoldRun(w, i, actions[..|actions| - 1], u) && Shaped(u) && u.s.slots[i].descriptor.Some?
        && Allowed(u, last) && !OffHold(u, last, i) && v == Step(u, last).0;
      HoldLasts(w, i, actions[..|actions| - 1], u, d);
      StaysOnHold(u, last, i);
      StepKeepsGood(u, last);
    }
  }

  /** From a pending pass of unpublish on, whatever the other threads do, no client is added and no request that
      falls on the interface is served, until it is unpublished or something takes it off hold. */
  lemma PendingKeepsClientsOut(w: World, i: nat, d: Descriptor, canDelete: bool, actions: seq<Action>, v: World,
                               r: Request, h: Handle)
    requires Good(w) && i < SLOTS && Step(w, Unpublishing(i, d, true, canDelete)).1 == Pending
    requires HoldRun(Step(w, Unpublishing(i, d, true, canDelete)).0, i, actions, v)
    ensures Shaped(v)
    ensures v.s.slots[i].descriptor.Some? ==>
      && v.s.slots[i].descriptor == Some(d) && |v.held[i]| <= |w.held[i]|
      && (Target(v.s, r, h) == i ==> TryGet(v.s, "", r, h) == (v.s, h, NotFound))
  {
    hide Good, HoldRun, Lookup;
    GoodIsShaped(w);
    var u := Step(w, Unpublishing(i, d, true, canDelete)).0;
    PendingIsOnHold(w.s, i, d, canDelete, r, h);
    StepKeepsGood(w, Unpublishing(i, d, true, canDelete));
    HoldLasts(u, i, actions, v, d);
  }
}
