/** The default flags and the registry: they agree over every run with registry space, and the
    stored default is the default again after a reboot. */
module IpcDefaults {
  import opened Common
  import opened IpcSpec
  import opened IpcProtocol
  import Names

  const ROOM := Flash(true, true)

  /** Names that give an injective key that fits. */
  predicate Proper(d: Descriptor) {
    && Versioned(d) && |d.intf| < MAX_NAME && Key(d).Some?
    && d.package != "" && Names.Without(d.package, '.') && d.intf != "" && Names.Without(d.intf, '.')
  }

  /** Every entry of the registry is an IPC entry. */
  predicate AllFlags(registry: map<string, Stored>) { forall key :: key in registry ==> registry[key].Flags? }

  lemma ProperKeysDiffer(d: Descriptor, e: Descriptor)
    requires Proper(d) && Proper(e) && Key(d) == Key(e)
    ensures Named(d) == Named(e)
  {
    hide Names.FullName;
    Names.KeysAreInjective(d.package, d.packageVersion, d.intf, d.intfVersion,
                           e.package, e.packageVersion, e.intf, e.intfVersion);
  }

  /** With room an update stores the flag and touches no other interface. */
  lemma UpdateStores(registry: map<string, Stored>, d: Descriptor, isDefault: bool)
    requires Proper(d) && AllFlags(registry)
    ensures var (after, result) := Update(registry, d, isDefault, ROOM);
      && result == Ok && AllFlags(after)
      && StoredDefault(after, d) == Some(isDefault)
      && forall e :: Proper(e) && Named(e) != Named(d) ==> StoredDefault(after, e) == StoredDefault(registry, e)
  {
    hide Key;
    forall e | Proper(e) && Named(e) != Named(d)
      ensures Key(e) != Key(d)
    {
      if Key(e) == Key(d) { ProperKeysDiffer(e, d); }
    }
  }

  /** The registry says default exactly of a slot that is, or that has lost the flag. */
  predicate SlotAgrees(registry: map<string, Stored>, slot: Slot, lost: bool) {
    slot.descriptor.Some? ==>
      && (StoredDefault(registry, slot.descriptor.value) == Some(true) <==> slot.isDefault || lost)
      && !(slot.isDefault && lost)
  }

  predicate Agree(s: State, lost: seq<bool>)
    requires |lost| == |s.slots|
  {
    && AllFlags(s.registry)
    && forall i :: 0 <= i < |s.slots| && s.slots[i].descriptor.Some? ==>
         Proper(s.slots[i].descriptor.value) && SlotAgrees(s.registry, s.slots[i], lost[i])
  }

  /** Flag and stored flag of a slot are the same if and only if it has not lost the flag. */
  lemma SameUnlessLost(s: State, lost: seq<bool>, i: nat)
    requires |lost| == |s.slots| && Agree(s, lost) && i < |s.slots| && s.slots[i].descriptor.Some?
    ensures (s.slots[i].isDefault <==> StoredDefault(s.registry, s.slots[i].descriptor.value) == Some(true))
      <==> !lost[i]
  {
    hide StoredDefault, Proper;
    assert SlotAgrees(s.registry, s.slots[i], lost[i]);
  }

  lemma StillLostAgrees(s: State, lost: seq<bool>, now: seq<bool>)
    requires |lost| == |now| == |s.slots| && Agree(s, now)
    requires forall i :: 0 <= i < |s.slots| ==> now[i] == lost[i] || s.slots[i].isDefault
    ensures Agree(s, StillLost(lost, s.slots))
  {
    hide StoredDefault, Proper;
    forall i | 0 <= i < |s.slots| && s.slots[i].descriptor.Some?
      ensures SlotAgrees(s.registry, s.slots[i], StillLost(lost, s.slots)[i])
    {
      assert SlotAgrees(s.registry, s.slots[i], now[i]);
    }
  }

  lemma OthersAreNamedApart(slots: seq<Slot>, i: nat, j: nat)
    requires Distinct(slots) && i < |slots| && j < |slots| && i != j
    requires slots[i].descriptor.Some? && slots[j].descriptor.Some?
    ensures Named(slots[i].descriptor.value) != Named(slots[j].descriptor.value)
  {
    if SameInterface(slots[i], slots[j]) {
      assert if i < j then SameInterface(slots[i], slots[j]) else SameInterface(slots[j], slots[i]);
    }
  }

  /** One slot changes and its entry follows. */
  lemma FlaggedAgrees(s: State, t: State, lost: seq<bool>, i: nat, isDefault: bool)
    requires |lost| == |s.slots| == |t.slots| && Agree(s, lost) && Distinct(s.slots) && i < |s.slots|
    requires s.slots[i].descriptor.Some? && t.slots[i].descriptor == s.slots[i].descriptor
      && t.slots[i].isDefault == isDefault
    requires forall j :: 0 <= j < |s.slots| && j != i ==> t.slots[j] == s.slots[j]
    requires t.registry == Update(s.registry, s.slots[i].descriptor.value, isDefault, ROOM).0
    ensures Agree(t, lost[i := false])
    ensures Update(s.registry, s.slots[i].descriptor.value, isDefault, ROOM).1 == Ok
    ensures StoredDefault(t.registry, s.slots[i].descriptor.value) == Some(isDefault)
    ensures forall e :: Proper(e) && Named(e) != Named(s.slots[i].descriptor.value) ==>
      StoredDefault(t.registry, e) == StoredDefault(s.registry, e)
  {
    hide Update, StoredDefault, Proper;
    UpdateStores(s.registry, s.slots[i].descriptor.value, isDefault);
    forall j | 0 <= j < |s.slots| && j != i && t.slots[j].descriptor.Some?
      ensures StoredDefault(t.registry, t.slots[j].descriptor.value)
        == StoredDefault(s.registry, s.slots[j].descriptor.value)
    {
      OthersAreNamedApart(s.slots, i, j);
    }
  }

  /** Interfaces that are not published keep their entries. */
  ghost predicate OthersKept(s: State, t: State) {
    forall e :: Proper(e) && Lookup(s.slots, Named(e)) < 0
        ==> StoredDefault(t.registry, e) == StoredDefault(s.registry, e)
  }

  lemma PublishedIsFound(slots: seq<Slot>, i: nat, e: Descriptor)
    requires i < |slots| && slots[i].descriptor.Some? && Versioned(e)
    requires Lookup(slots, Named(e)) < 0
    ensures Named(slots[i].descriptor.value) != Named(e)
  {
    assert !Matches(slots[i], Named(e));
  }

  lemma PromoteAgrees(s: State, lost: seq<bool>, i: nat)
    requires |lost| == |s.slots| && Agree(s, lost) && Distinct(s.slots) && i < |s.slots| && s.slots[i].descriptor.Some?
    ensures var (t, result) := Promote(s, i, ROOM);
      && result == Ok && Agree(t, lost[i := false]) && OthersKept(s, t)
      && StoredDefault(t.registry, s.slots[i].descriptor.value) == Some(true)
  {
    hide Update, StoredDefault, Distinct, Proper, Lookup, SlotAgrees;
    var t := Promote(s, i, ROOM).0;
    FlaggedAgrees(s, t, lost, i, true);
    forall e | Proper(e) && Lookup(s.slots, Named(e)) < 0
      ensures Named(e) != Named(s.slots[i].descriptor.value)
    {
      ProperIsVersioned(e);
      PublishedIsFound(s.slots, i, e);
    }
  }

  lemma DemoteAgrees(s: State, lost: seq<bool>, i: nat)
    requires |lost| == |s.slots| && Agree(s, lost) && Distinct(s.slots) && i < |s.slots| && s.slots[i].descriptor.Some?
    ensures var (t, result) := Demote(s, i, ROOM); result == Ok && Agree(t, lost[i := false]) && OthersKept(s, t)
  {
    hide Update, StoredDefault, Distinct, Proper, Lookup, SlotAgrees;
    var t := Demote(s, i, ROOM).0;
    FlaggedAgrees(s, t, lost, i, false);
    forall e | Proper(e) && Lookup(s.slots, Named(e)) < 0
      ensures Named(e) != Named(s.slots[i].descriptor.value)
    {
      ProperIsVersioned(e);
      PublishedIsFound(s.slots, i, e);
    }
  }

  lemma ProperIsVersioned(e: Descriptor)
    requires Proper(e)
    ensures Versioned(e)
  {
  }

  lemma DefaultIsNotLost(s: State, lost: seq<bool>, i: nat)
    requires |lost| == |s.slots| && Agree(s, lost) && i < |s.slots| && s.slots[i].descriptor.Some?
      && s.slots[i].isDefault
    ensures !lost[i]
  {
    hide Proper, StoredDefault;
    assert SlotAgrees(s.registry, s.slots[i], lost[i]);
  }

  /** The flag goes from one slot to another. */
  lemma HandoverAgrees(s: State, lost: seq<bool>, previous: nat, chosen: nat)
    requires |lost| == |s.slots| && Agree(s, lost) && Distinct(s.slots)
    requires previous < |s.slots| && s.slots[previous].descriptor.Some? && s.slots[previous].isDefault
    requires chosen < |s.slots| && s.slots[chosen].descriptor.Some? && chosen != previous
    ensures var t := Demote(s, previous, ROOM).0;
      var (u, result) := Promote(t, chosen, ROOM);
      && result == Ok && Agree(u, StillLost(lost, u.slots)) && OthersKept(s, u)
      && StoredDefault(u.registry, s.slots[chosen].descriptor.value) == Some(true)
  {
    hide Update, StoredDefault, Distinct, Proper, SlotAgrees, OthersKept, Lookup, AllFlags;
    var t := Demote(s, previous, ROOM).0;
    DemoteAgrees(s, lost, previous);
    FlagsDistinct(s.slots, t.slots, previous);
    PromoteAgrees(t, lost[previous := false], chosen);
    OthersStayLost(s.slots, t.slots, previous);
    var u := Promote(t, chosen, ROOM).0;
    OthersKeptTwice(s, t, u);
    DefaultIsNotLost(s, lost, previous);
    StillLostAgrees(u, lost, lost[previous := false][chosen := false]);
  }

  /** With room set_default keeps the agreement, and makes the chosen slot the default. */
  lemma SetDefaultAgrees(s: State, lost: seq<bool>, r: Request)
    requires |lost| == |s.slots| && Agree(s, lost) && Distinct(s.slots)
    ensures var (t, result) := SetDefault(s, r, ROOM, ROOM);
      && |t.slots| == |s.slots| && Agree(t, StillLost(lost, t.slots)) && OthersKept(s, t)
      && (r.packageVersion != 0 && r.intfVersion != 0 && Lookup(s.slots, r) >= 0 ==>
           var k := Lookup(s.slots, r);
           && t.slots[k].isDefault
           && (!s.slots[k].isDefault ==> StoredDefault(t.registry, s.slots[k].descriptor.value) == Some(true)))
      && forall j :: 0 <= j < |s.slots| && s.slots[j].isDefault != t.slots[j].isDefault ==>
           if t.slots[j].isDefault then j == Lookup(s.slots, r) else Matches(s.slots[j], r.(packageVersion := 0))
  {
    hide Update, StoredDefault, Distinct, Proper, SlotAgrees;
    var chosen := Lookup(s.slots, r);
    if r.packageVersion != 0 && r.intfVersion != 0 && chosen >= 0 {
      var previous := Lookup(s.slots, r.(packageVersion := 0));
      if previous >= 0 && previous != chosen {
        DemoteAgrees(s, lost, previous);
        HandoverAgrees(s, lost, previous, chosen);
        return;
      } else if previous < 0 {
        PromoteAgrees(s, lost, chosen);
        StillLostAgrees(Promote(s, chosen, ROOM).0, lost, lost[chosen := false]);
        return;
      }
    }
    StillLostAgrees(s, lost, lost);
  }

  lemma FlagsDistinct(slots: seq<Slot>, after: seq<Slot>, i: nat)
    requires Distinct(slots) && |after| == |slots| && i < |slots|
    requires after[i].descriptor == slots[i].descriptor && !after[i].isDefault
    requires forall j :: 0 <= j < |slots| && j != i ==> after[j] == slots[j]
    ensures Distinct(after)
  {
    FewerIsDistinct(slots, after, i);
  }

  /** Names unknown to one table are unknown to another with the same descriptors. */
  lemma OthersStayLost(slots: seq<Slot>, after: seq<Slot>, i: nat)
    requires |after| == |slots| && i < |slots| && after[i].descriptor == slots[i].descriptor
    requires forall j :: 0 <= j < |slots| && j != i ==> after[j] == slots[j]
    ensures forall e :: Proper(e) && Lookup(slots, Named(e)) < 0 ==> Lookup(after, Named(e)) < 0
  {
    hide Proper;
    forall e | Proper(e) && Lookup(slots, Named(e)) < 0
      ensures Lookup(after, Named(e)) < 0
    {
      ProperIsVersioned(e);
      assert forall k :: 0 <= k < |after| ==> (Matches(after[k], Named(e)) <==> Matches(slots[k], Named(e)));
    }
  }

  lemma OthersKeptTwice(s: State, t: State, u: State)
    requires OthersKept(s, t) && OthersKept(t, u)
    requires forall e :: Proper(e) && Lookup(s.slots, Named(e)) < 0 ==> Lookup(t.slots, Named(e)) < 0
    ensures OthersKept(s, u)
  {
    hide Lookup, StoredDefault, Proper;
  }

  /** What publish does with room, besides placing the descriptor. */
  ghost predicate Published(s: State, t: State, lost: seq<bool>, d: Descriptor, i: nat)
    requires |lost| == |s.slots| == |t.slots| && i < |s.slots|
  {
    && Agree(t, StillLost(lost[i := false], t.slots))
    && (StoredDefault(s.registry, d) == Some(true) ==> t.slots[i].isDefault)
    && (forall j :: 0 <= j < |s.slots| && j != i && s.slots[j].isDefault != t.slots[j].isDefault ==>
         s.slots[j].isDefault && Matches(s.slots[j], DefaultOf(d)) && StoredDefault(s.registry, d) == Some(true))
    && forall e :: Proper(e) && Named(e) != Named(d) && Lookup(s.slots, Named(e)) < 0 ==>
         StoredDefault(t.registry, e) == StoredDefault(s.registry, e)
  }

  lemma PlaceKeepsLost(s: State, d: Descriptor, i: nat)
    requires i < |s.slots| && s.slots[i].descriptor.None?
    ensures forall e :: Proper(e) && Named(e) != Named(d) && Lookup(s.slots, Named(e)) < 0 ==>
      Lookup(Place(s, d, i).slots, Named(e)) < 0
  {
    hide Proper;
    var p := Place(s, d, i);
    forall e | Proper(e) && Named(e) != Named(d) && Lookup(s.slots, Named(e)) < 0
      ensures Lookup(p.slots, Named(e)) < 0
    {
      ProperIsVersioned(e);
      assert forall k :: 0 <= k < |s.slots| && k != i ==> p.slots[k] == s.slots[k];
      assert !Matches(p.slots[i], Named(e));
    }
  }

  /** The slot just placed may have a stored flag and no own one; settling puts that right. */
  lemma SettleAgrees(p: State, lost: seq<bool>, d: Descriptor, i: nat)
    requires |lost| == |p.slots| && i < |p.slots| && Distinct(p.slots) && Proper(d)
    requires Agree(p, lost[i := StoredDefault(p.registry, d) == Some(true)])
    requires p.slots[i].descriptor == Some(d) && !p.slots[i].isDefault
    ensures var t := Settle(p, d, i, ROOM, ROOM);
      && Agree(t, StillLost(lost[i := false], t.slots)) && t.slots[i].descriptor == Some(d)
      && OthersKept(p, t)
      && (StoredDefault(p.registry, d) == Some(true) ==> t.slots[i].isDefault)
      && forall j :: 0 <= j < |p.slots| && j != i && p.slots[j].isDefault != t.slots[j].isDefault ==>
           p.slots[j].isDefault && Matches(p.slots[j], DefaultOf(d)) && StoredDefault(p.registry, d) == Some(true)
  {
    hide Update, StoredDefault, Distinct, Proper, Demote, Agree, OthersKept;
    ProperIsVersioned(d);
    LookupUnique(p.slots, d, i);
    SettlePlaces(p, d, i, ROOM, ROOM);
    var t := Settle(p, d, i, ROOM, ROOM);
    var before := lost[i := StoredDefault(p.registry, d) == Some(true)];
    NothingKept(p);
    match StoredDefault(p.registry, d) {
      case Some(isDefault) =>
        if isDefault {
          SetDefaultAgrees(p, before, Named(d));
          assert StillLost(before, t.slots) == StillLost(lost[i := false], t.slots);
        } else {
          StillLostAgrees(p, lost[i := false], before);
        }
      case None =>
        if Lookup(p.slots, DefaultOf(d)) < 0 {
          PromoteAgrees(p, before, i);
          StillLostAgrees(t, lost[i := false], before[i := false]);
        } else {
          StillLostAgrees(p, lost[i := false], before);
        }
    }
  }

  lemma NothingKept(s: State)
    ensures OthersKept(s, s)
  {
  }

  lemma PlaceAgrees(s: State, lost: seq<bool>, d: Descriptor, i: nat)
    requires |lost| == |s.slots| && i < |s.slots| && Agree(s, lost) && Proper(d)
    ensures Agree(Place(s, d, i), lost[i := StoredDefault(s.registry, d) == Some(true)])
  {
    hide StoredDefault, Proper;
  }

  lemma CountsDoNotMatter(s: State, lost: seq<bool>, i: nat, n: int)
    requires |lost| == |s.slots| && Agree(s, lost) && i < |s.slots|
    ensures Agree(s.(slots := s.slots[i := s.slots[i].(refCount := n)]), lost)
  {
    hide StoredDefault, Proper;
    var t := s.(slots := s.slots[i := s.slots[i].(refCount := n)]);
    forall j | 0 <= j < |s.slots| && s.slots[j].descriptor.Some?
      ensures SlotAgrees(s.registry, t.slots[j], lost[j])
    {
      assert SlotAgrees(s.registry, s.slots[j], lost[j]);
    }
  }

  lemma PublishAgrees(s: State, lost: seq<bool>, d: Descriptor)
    requires |lost| == |s.slots| && Agree(s, lost) && Distinct(s.slots) && Proper(d)
    requires Publish(s, d, ROOM, ROOM).1 == Ok && s.slots[FirstFree(s.slots)].descriptor.None?
    ensures |Publish(s, d, ROOM, ROOM).0.slots| == |s.slots|
    ensures Published(s, Publish(s, d, ROOM, ROOM).0, lost, d, FirstFree(s.slots))
  {
    hide Update, StoredDefault, Distinct, Proper, Demote, Settle, Lookup;
    var i := FirstFree(s.slots);
    var p := Place(s, d, i);
    ProperIsVersioned(d);
    PlaceDistinct(s, d, i);
    PlaceKeepsLost(s, d, i);
    PlaceAgrees(s, lost, d, i);
    SettleAgrees(p, lost, d, i);
    hide Agree;
    var t, u := Settle(p, d, i, ROOM, ROOM), Publish(s, d, ROOM, ROOM).0;
    assert u == t.(slots := t.slots[i := t.slots[i].(refCount := 1)]);
    CountsDoNotMatter(t, StillLost(lost[i := false], t.slots), i, 1);
    assert StillLost(lost[i := false], u.slots) == StillLost(lost[i := false], t.slots);
  }

  lemma RoundAgrees(s: State, lost: seq<bool>, i: nat, d: Descriptor, keepWaiting: bool)
    requires |lost| == |s.slots| && Agree(s, lost) && Distinct(s.slots) && i < |s.slots|
    ensures var (t, result) := UnpublishRound(s, i, d, keepWaiting, true);
      && |t.slots| == |s.slots|
      && Agree(t, if result == Busy && s.slots[i].isDefault then lost[i := true] else lost)
  {
    hide Proper, Key, Distinct;
    forall j | 0 <= j < |s.slots| && j != i && s.slots[j].descriptor.Some? && s.slots[i].descriptor == Some(d)
      ensures Key(s.slots[j].descriptor.value) != Key(d)
    {
      if Key(s.slots[j].descriptor.value) == Key(d) {
        ProperKeysDiffer(s.slots[j].descriptor.value, d);
        OthersAreNamedApart(s.slots, j, i);
      }
    }
  }

  /** A pass that gives up leaves the registry alone, and the slot keeps its flag only if it had none. */
  lemma BusyLosesFlag(s: State, i: nat, d: Descriptor, canDelete: bool)
    requires i < |s.slots| && s.slots[i].descriptor == Some(d) && s.slots[i].refCount != 1
    ensures var (t, result) := UnpublishRound(s, i, d, false, canDelete);
      && result == Busy && t.registry == s.registry && t.slots[i].descriptor == Some(d) && !t.slots[i].isDefault
      && (t.slots[i].isDefault == s.slots[i].isDefault <==> !s.slots[i].isDefault)
  {
  }

  // Over runs.

  predicate Roomy(a: Action) {
    match a
    case Publishing(d, first, second) => Proper(d) && first == ROOM && second == ROOM
    case Defaulting(_, first, second) => first == ROOM && second == ROOM
    case Unpublishing(_, _, _, canDelete) => canDelete
    case Getting(_, _, _) => true
    case Releasing(_, _) => true
  }

  predicate Agreeing(w: World) { Shaped(w) && Agree(w.s, w.lost) }

  lemma PublishKeepsAgreeing(w: World, d: Descriptor)
    requires Good(w) && Agreeing(w) && Proper(d)
    ensures Agreeing(StepPublish(w, d, ROOM, ROOM).0)
  {
    hide Agree, StoredDefault, Distinct, Proper, Publish, Holding, Renewing;
    ProperIsVersioned(d);
    RefusedUnchanged(w.s, d, ROOM, ROOM);
    PublishKeepsGood(w, d, ROOM, ROOM);
    GoodIsShaped(StepPublish(w, d, ROOM, ROOM).0);
    if Publish(w.s, d, ROOM, ROOM).1 == Ok {
      FreeIsEmpty(w, FirstFree(w.s.slots));
      PublishAgrees(w.s, w.lost, d);
    }
  }

  lemma GoodIsShaped(w: World)
    requires Good(w)
    ensures Shaped(w)
  {
  }

  lemma FreeIsEmpty(w: World, i: nat)
    requires Holding(w) && i < SLOTS && w.s.slots[i].refCount == 0
    ensures w.s.slots[i].descriptor.None?
  {
    assert SlotHeld(w.s.slots[i], w.held[i]);
  }

  lemma StepKeepsAgreeing(w: World, a: Action)
    requires Good(w) && Agreeing(w) && Allowed(w, a) && Roomy(a)
    ensures Agreeing(Step(w, a).0)
  {
    hide Agree, Distinct, Proper, Lookup, Publish, SetDefault, UnpublishRound, Holding, Renewing, StepPublish;
    StepKeepsGood(w, a);
    GoodIsShaped(Step(w, a).0);
    match a
    case Publishing(d, first, second) => PublishKeepsAgreeing(w, d);
    case Defaulting(r, first, second) => SetDefaultAgrees(w.s, w.lost, r);
    case Unpublishing(slot, d, keepWaiting, canDelete) => RoundAgrees(w.s, w.lost, slot, d, keepWaiting);
    case Getting(device, r, ticket) =>
      var k := Target(w.s, r, HandleOf(ticket));
      if k >= 0 { CountsDoNotMatter(w.s, w.lost, k, w.s.slots[k].refCount + 1); }
    case Releasing(slot, which) => CountsDoNotMatter(w.s, w.lost, slot, w.s.slots[slot].refCount - 1);
  }

  /** With registry space, in every run the flag of a published slot is the registry's if and only if no
      unpublish that timed out has taken it away. */
  lemma {:induction false} EveryRoomyRunAgrees(registry: map<string, Stored>, actions: seq<Action>, w: World)
    requires AllFlags(registry) && Reaches(registry, actions, w)
    requires forall a :: a in actions ==> Roomy(a)
    ensures Agreeing(w)
    ensures forall i :: 0 <= i < SLOTS && w.s.slots[i].descriptor.Some? ==>
      ((w.s.slots[i].isDefault <==> StoredDefault(w.s.registry, w.s.slots[i].descriptor.value) == Some(true))
       <==> !w.lost[i])
    decreases |actions|
  {
    hide StoredDefault, Proper, SlotAgrees;
    if actions != [] {
      var last := actions[|actions| - 1];
      var v :| Reaches(registry, actions[..|actions| - 1], v) && Shaped(v) && Allowed(v, last) && w == Step(v, last).0;
      EveryRunIsGood(registry, actions[..|actions| - 1], v);
      EveryRoomyRunAgrees(registry, actions[..|actions| - 1], v);
      StepKeepsAgreeing(v, last);
    }
    forall i | 0 <= i < SLOTS && w.s.slots[i].descriptor.Some?
      ensures (w.s.slots[i].isDefault <==> StoredDefault(w.s.registry, w.s.slots[i].descriptor.value) == Some(true))
              <==> !w.lost[i]
    {
      SameUnlessLost(w.s, w.lost, i);
    }
  }

  /** Three actions of one client with one interface of its own: it publishes the interface, takes a handle,
      and unpublishes without waiting. */
  function TimedOutRun(d: Descriptor): seq<Action> {
    [Publishing(d, ROOM, ROOM), Getting("", Named(d), None), Unpublishing(0, d, false, true)]
  }

  /** So the flag of the only interface is gone, and its registry entry still says default. */
  lemma TimedOutExample(d: Descriptor) returns (w: World)
    requires Proper(d)
    ensures Reaches(map[], TimedOutRun(d), w) && w.s.slots[0].descriptor == Some(d)
    ensures !w.s.slots[0].isDefault && StoredDefault(w.s.registry, d) == Some(true) && w.lost[0]
  {
    hide Proper, StepPublish, StepGet, UnpublishRound, Start, StoredDefault, Reaches;
    var start := Start(map[]);
    NoRun(map[]);
    FirstPublish(d);
    ProperIsVersioned(d);
    var published := StepPublish(start, d, ROOM, ROOM).0;
    TakenOnce(published, d);
    var taken := StepGet(published, "", Named(d), None).0;
    BusyStep(taken, d);
    w := Step(taken, Unpublishing(0, d, false, true)).0;
    RunOfThree(Publishing(d, ROOM, ROOM), Getting("", Named(d), None), Unpublishing(0, d, false, true));
    RunGoesOn(map[], [], start, Publishing(d, ROOM, ROOM));
    RunGoesOn(map[], TimedOutRun(d)[..1], published, Getting("", Named(d), None));
    RunGoesOn(map[], TimedOutRun(d)[..2], taken, Unpublishing(0, d, false, true));
  }

  lemma NoRun(registry: map<string, Stored>)
    ensures Reaches(registry, [], Start(registry)) && Shaped(Start(registry))
  {
  }

  lemma RunOfThree(a: Action, b: Action, c: Action)
    ensures [a, b, c][..1] == [] + [a] && [a, b, c][..2] == [a, b, c][..1] + [b] && [a, b, c] == [a, b, c][..2] + [c]
  {
  }

  lemma BusyStep(w: World, d: Descriptor)
    requires Shaped(w) && w.s.slots[0] == Slot(Some(d), 1, true, false, 2)
    ensures var v := Step(w, Unpublishing(0, d, false, true)).0;
      && Shaped(v) && v.s.slots[0].descriptor == Some(d) && !v.s.slots[0].isDefault && v.lost[0]
      && v.s.registry == w.s.registry
  {
    BusyLosesFlag(w.s, 0, d, true);
  }

  lemma RunGoesOn(registry: map<string, Stored>, actions: seq<Action>, w: World, a: Action)
    requires Reaches(registry, actions, w) && Shaped(w) && Allowed(w, a)
    ensures Reaches(registry, actions + [a], Step(w, a).0)
  {
    assert (actions + [a])[..|actions|] == actions;
  }

  lemma FirstPublish(d: Descriptor)
    requires Proper(d)
    ensures var (w, result) := StepPublish(Start(map[]), d, ROOM, ROOM);
      && result == Ok && Shaped(w) && w.s.slots[0] == Slot(Some(d), 1, true, false, 1)
      && StoredDefault(w.s.registry, d) == Some(true) && !w.lost[0]
      && forall j :: 0 < j < SLOTS ==> w.s.slots[j] == EMPTY_SLOT
  {
    hide Names.FullName;
    var s := Initial(map[]);
    assert s.slots[0].refCount == 0 && FirstFree(s.slots) == 0;
    assert Lookup(s.slots, Named(d)) == -1;
    assert Lookup(Place(s, d, 0).slots, DefaultOf(d)) == -1;
  }

  lemma TakenOnce(w: World, d: Descriptor)
    requires Shaped(w) && Versioned(d) && w.s.slots[0] == Slot(Some(d), 1, true, false, 1)
    requires forall j :: 0 < j < SLOTS ==> w.s.slots[j] == EMPTY_SLOT
    ensures var (v, result) := StepGet(w, "", Named(d), None);
      && result == Renew && Shaped(v) && v.s.slots[0] == Slot(Some(d), 1, true, false, 2)
      && v.s.registry == w.s.registry && v.lost == w.lost
  {
    assert Matches(w.s.slots[0], Named(d));
    assert Lookup(w.s.slots, Named(d)) == 0;
  }

  // After a reboot.

  const NONE_LOST: seq<bool> := [false, false, false, false, false, false, false, false, false, false]

  /** Distinct published slots of s, in the order in which their descriptors are published again. */
  predicate Republishing(s: State, order: seq<nat>) {
    && (forall j :: 0 <= j < |order| ==> order[j] < |s.slots| && s.slots[order[j]].descriptor.Some?)
    && forall j, k :: 0 <= j < k < |order| ==> order[j] != order[k]
  }

  function DescriptorAt(s: State, i: nat): Descriptor
    requires i < |s.slots| && s.slots[i].descriptor.Some?
  {
    s.slots[i].descriptor.value
  }

  /** The table after a reboot that keeps the registry, once the first k descriptors are published again. */
  function Rebooted(s: State, order: seq<nat>, k: nat): State
    requires Republishing(s, order) && k <= |order|
  {
    if k == 0 then Initial(s.registry)
    else Publish(Rebooted(s, order, k - 1), DescriptorAt(s, order[k - 1]), ROOM, ROOM).0
  }

  /** Among the first k of the order, no slot of the same interface comes after slot j that has lost its flag:
      its registry entry would make it the default. */
  predicate Unrivalled(s: State, lost: seq<bool>, order: seq<nat>, j: nat, k: nat)
    requires Republishing(s, order) && |lost| == |s.slots| && j < k <= |order|
  {
    forall m :: j < m < k && SameInterface(s.slots[order[j]], s.slots[order[m]]) ==> !lost[order[m]]
  }

  predicate Restored(s: State, lost: seq<bool>, order: seq<nat>, k: nat, u: State)
    requires Republishing(s, order) && |lost| == |s.slots| && k <= |order| <= SLOTS
  {
    && |u.slots| == SLOTS && Distinct(u.slots) && Agree(u, NONE_LOST)
    && (forall j :: 0 <= j < k ==>
         && u.slots[j].descriptor == Some(DescriptorAt(s, order[j])) && u.slots[j].refCount == 1
         && (s.slots[order[j]].isDefault ==> (u.slots[j].isDefault <==> Unrivalled(s, lost, order, j, k))))
    && (forall j :: k <= j < SLOTS ==> u.slots[j].descriptor.None? && u.slots[j].refCount == 0)
    && forall j :: k <= j < |order| ==>
         StoredDefault(u.registry, DescriptorAt(s, order[j])) == StoredDefault(s.registry, DescriptorAt(s, order[j]))
  }

  lemma AtMostTen(order: seq<nat>, n: nat)
    requires forall j :: 0 <= j < |order| ==> order[j] < n
    requires forall j, k :: 0 <= j < k < |order| ==> order[j] != order[k]
    ensures |order| <= n
  {
    assert |order| > 0 ==> 0 <= order[0] < n;
    if n > 0 && exists j :: 0 <= j < |order| && order[j] == n - 1 {
      var j :| 0 <= j < |order| && order[j] == n - 1;
      AtMostTen(order[..j] + order[j + 1..], n - 1);
    } else if n > 0 {
      AtMostTen(order, n - 1);
    }
  }

  lemma NotYetPublished(s: State, lost: seq<bool>, order: seq<nat>, k: nat, u: State, m: nat)
    requires |lost| == |s.slots| == SLOTS && Distinct(s.slots)
    requires Republishing(s, order) && k <= |order| <= SLOTS && Restored(s, lost, order, k, u) && k <= m < |order|
    ensures Lookup(u.slots, Named(DescriptorAt(s, order[m]))) < 0
  {
    hide Agree, StoredDefault;
    var d := DescriptorAt(s, order[m]);
    assert Versioned(d);
    forall j | 0 <= j < SLOTS ensures !Matches(u.slots[j], Named(d)) {
      if j < k { OthersAreNamedApart(s.slots, order[j], order[m]); }
    }
  }

  lemma RestoredNext(s: State, lost: seq<bool>, order: seq<nat>, k: nat, u: State)
    requires |lost| == |s.slots| == SLOTS && Distinct(s.slots) && Agree(s, lost)
    requires Republishing(s, order) && k < |order| <= SLOTS && Restored(s, lost, order, k, u)
    ensures Restored(s, lost, order, k + 1, Publish(u, DescriptorAt(s, order[k]), ROOM, ROOM).0)
  {
    hide StoredDefault, Publish, Distinct, Agree, Lookup, Proper, Unrivalled;
    var d := DescriptorAt(s, order[k]);
    PublishedIsProper(s, lost, order[k]);
    NotYetPublished(s, lost, order, k, u, k);
    PublishAgain(u, d, k);
    var t := Publish(u, d, ROOM, ROOM).0;
    forall m | k + 1 <= m < |order|
      ensures StoredDefault(t.registry, DescriptorAt(s, order[m]))
        == StoredDefault(s.registry, DescriptorAt(s, order[m]))
    {
      PublishedIsProper(s, lost, order[m]);
      NotYetPublished(s, lost, order, k, u, m);
      OthersAreNamedApart(s.slots, order[k], order[m]);
    }
    forall j | 0 <= j < k + 1 && s.slots[order[j]].isDefault
      ensures t.slots[j].isDefault <==> Unrivalled(s, lost, order, j, k + 1)
    {
      StoredOrLost(s, lost, order[k]);
      if j < k { DefaultNext(s, lost, order, k, u, t, j); } else { LastIsUnrivalled(s, lost, order, k); }
    }
  }

  lemma LastIsUnrivalled(s: State, lost: seq<bool>, order: seq<nat>, k: nat)
    requires |lost| == |s.slots| && Republishing(s, order) && k < |order|
    ensures Unrivalled(s, lost, order, k, k + 1)
  {
  }

  /** A default that is back keeps the flag unless slot k is a rival. */
  lemma DefaultNext(s: State, lost: seq<bool>, order: seq<nat>, k: nat, u: State, t: State, j: nat)
    requires |lost| == |s.slots| == SLOTS && Distinct(s.slots) && Republishing(s, order) && j < k < |order| <= SLOTS
    requires |u.slots| == |t.slots| == SLOTS && Distinct(t.slots)
      && Published(u, t, NONE_LOST, DescriptorAt(s, order[k]), k)
    requires s.slots[order[j]].isDefault && (u.slots[j].isDefault <==> Unrivalled(s, lost, order, j, k))
    requires u.slots[j].descriptor == t.slots[j].descriptor == Some(DescriptorAt(s, order[j]))
    requires t.slots[k].descriptor == Some(DescriptorAt(s, order[k]))
    requires StoredDefault(u.registry, DescriptorAt(s, order[k])) == Some(true)
      <==> s.slots[order[k]].isDefault || lost[order[k]]
    ensures t.slots[j].isDefault <==> Unrivalled(s, lost, order, j, k + 1)
  {
    hide StoredDefault, Distinct, Agree, Lookup, Proper;
    if SameInterface(s.slots[order[j]], s.slots[order[k]]) {
      AtMostOneDefault(s.slots, order[j], order[k]);
      AtMostOneDefault(t.slots, j, k);
    }
  }

  lemma PublishedIsProper(s: State, lost: seq<bool>, i: nat)
    requires |lost| == |s.slots| && Agree(s, lost) && i < |s.slots| && s.slots[i].descriptor.Some?
    ensures Proper(s.slots[i].descriptor.value)
  {
    hide Proper, SlotAgrees;
  }

  lemma StoredOrLost(s: State, lost: seq<bool>, i: nat)
    requires |lost| == |s.slots| && Agree(s, lost) && i < |s.slots| && s.slots[i].descriptor.Some?
    ensures StoredDefault(s.registry, s.slots[i].descriptor.value) == Some(true) <==> s.slots[i].isDefault || lost[i]
  {
    hide Proper, StoredDefault;
    assert SlotAgrees(s.registry, s.slots[i], lost[i]);
  }

  /** One more descriptor into a table whose first k slots are taken. */
  lemma PublishAgain(u: State, d: Descriptor, k: nat)
    requires |u.slots| == SLOTS && Distinct(u.slots) && Agree(u, NONE_LOST) && Proper(d)
      && Lookup(u.slots, Named(d)) < 0
    requires k < SLOTS && (forall j :: 0 <= j < k ==> u.slots[j].refCount == 1)
    requires forall j :: k <= j < SLOTS ==> u.slots[j].descriptor.None? && u.slots[j].refCount == 0
    ensures var t := Publish(u, d, ROOM, ROOM).0;
      && |t.slots| == SLOTS && Distinct(t.slots) && Agree(t, NONE_LOST) && Placed(u, t, d, k)
      && Published(u, t, NONE_LOST, d, k)
  {
    hide StoredDefault, Settle, Agree, Update;
    assert u.slots[k].refCount == 0;
    assert FirstFree(u.slots) == k;
    RefusedUnchanged(u, d, ROOM, ROOM);
    hide Lookup;
    PublishPlaces(u, d, ROOM, ROOM);
    PublishAgrees(u, NONE_LOST, d);
    assert StillLost(NONE_LOST[k := false], Publish(u, d, ROOM, ROOM).0.slots) == NONE_LOST;
    hide Publish, Distinct, Proper;
  }

  lemma AtMostOneDefault(slots: seq<Slot>, i: nat, j: nat)
    requires Distinct(slots) && i < |slots| && j < |slots| && i != j && SameInterface(slots[i], slots[j])
    ensures !(slots[i].isDefault && slots[j].isDefault)
  {
    assert if i < j then SameInterface(slots[i], slots[j]) else SameInterface(slots[j], slots[i]);
  }

  lemma StartIsRestored(s: State, lost: seq<bool>, order: seq<nat>)
    requires |lost| == |s.slots| == SLOTS && Agree(s, lost) && Republishing(s, order) && |order| <= SLOTS
    ensures Restored(s, lost, order, 0, Initial(s.registry))
  {
    hide StoredDefault, Proper;
  }

  /** After a reboot, in whatever order any of the interfaces come back, a slot that was the default is the
      default again if and only if no rival that had lost its flag came back after it. */
  lemma {:induction false} RebootRestores(s: State, lost: seq<bool>, order: seq<nat>, k: nat)
    requires |lost| == |s.slots| == SLOTS && Distinct(s.slots) && Agree(s, lost)
    requires Republishing(s, order) && k <= |order|
    ensures |order| <= SLOTS && Restored(s, lost, order, k, Rebooted(s, order, k))
  {
    hide Restored, Agree, Distinct, Publish;
    AtMostTen(order, SLOTS);
    if k == 0 {
      StartIsRestored(s, lost, order);
    } else {
      RebootRestores(s, lost, order, k - 1);
      RestoredNext(s, lost, order, k - 1, Rebooted(s, order, k - 1));
    }
  }

  /** So when the old default of an interface is among them, and none of that interface had lost its flag, the
      flags are exactly the old ones. */
  lemma RebootIsExact(s: State, lost: seq<bool>, order: seq<nat>, j: nat, m: nat)
    requires |lost| == |s.slots| == SLOTS && Distinct(s.slots) && Agree(s, lost) && Republishing(s, order)
    requires j < |order| && m < |order| && s.slots[order[m]].isDefault
      && SameInterface(s.slots[order[j]], s.slots[order[m]])
    requires Unrivalled(s, lost, order, m, |order|)
    ensures |order| <= SLOTS && |Rebooted(s, order, |order|).slots| == SLOTS
    ensures Rebooted(s, order, |order|).slots[j].isDefault <==> s.slots[order[j]].isDefault
  {
    hide Rebooted, Agree, Unrivalled;
    RebootRestores(s, lost, order, |order|);
    var u := Rebooted(s, order, |order|);
    if j != m {
      AtMostOneDefault(u.slots, j, m);
      AtMostOneDefault(s.slots, order[j], order[m]);
    }
  }
}
