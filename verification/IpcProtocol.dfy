/** Every run of the lock sections, by any number of threads, with what the clients hold.

    `held[i]` lists the descriptors seen by the acquisitions of slot i that are not yet released,
    `publication[i]` numbers the last publication in slot i, and a ticket is a handle that
    try_get_interface once handed out.  `lost[i]` says that slot i was the default when an unpublish
    of it gave up, and has neither been made the default nor published anew since. */
module IpcProtocol {
  import opened Common
  import opened IpcSpec
  import Names

  datatype Ticket = Ticket(slot: nat, hash: nat, publication: nat, descriptor: Descriptor, asDefault: bool)

  datatype World = World(s: State, held: seq<seq<Descriptor>>, publication: seq<nat>, serial: nat,
                         lost: seq<bool>, tickets: set<Ticket>, wrapped: bool)

  function Start(registry: map<string, Stored>): World {
    World(Initial(registry), seq(SLOTS, _ => []), seq(SLOTS, _ => 0), 1, seq(SLOTS, _ => false), {}, false)
  }

  datatype Action =
    | Publishing(d: Descriptor, first: Flash, second: Flash)
    | Defaulting(r: Request, first: Flash, second: Flash)
    | Unpublishing(slot: nat, d: Descriptor, keepWaiting: bool, canDelete: bool)
    | Getting(device: string, r: Request, ticket: Option<Ticket>)
    | Releasing(slot: nat, which: nat)

  /** Clients use handles they were given and release what they hold. */
  predicate Allowed(w: World, a: Action) {
    match a
    case Publishing(d, _, _) => d.packageVersion < Names.UINT32 && d.intfVersion < Names.UINT32
    case Defaulting(_, _, _) => true
    case Unpublishing(slot, _, _, _) => slot < |w.s.slots|
    case Getting(_, _, ticket) => ticket.Some? ==> ticket.value in w.tickets
    case Releasing(slot, which) => slot < |w.s.slots| && slot < |w.held| && which < |w.held[slot]|
  }

  function HandleOf(ticket: Option<Ticket>): Handle {
    if ticket.Some? then Handle(Some(ticket.value.slot), ticket.value.hash) else Handle(None, 0)
  }

  predicate Shaped(w: World) {
    |w.s.slots| == |w.held| == |w.publication| == |w.lost| == SLOTS && w.s.count < Names.UINT32
  }

  function Advance(w: World, t: State): World {
    w.(s := t, wrapped := w.wrapped || t.count < w.s.count)
  }

  /** A slot that is the default has its flag back. */
  function StillLost(lost: seq<bool>, slots: seq<Slot>): (after: seq<bool>)
    requires |lost| == |slots|
    ensures |after| == |lost|
  {
    seq(|lost|, i requires 0 <= i < |lost| => lost[i] && !slots[i].isDefault)
  }

  function Without(held: seq<Descriptor>, which: nat): seq<Descriptor>
    requires which < |held|
  {
    held[..which] + held[which + 1..]
  }

  function Step(w: World, a: Action): (World, Result)
    requires Shaped(w) && Allowed(w, a)
  {
    match a
    case Publishing(d, first, second) => StepPublish(w, d, first, second)
    case Defaulting(r, first, second) =>
      var (t, result) := SetDefault(w.s, r, first, second);
      (Advance(w, t).(lost := StillLost(w.lost, t.slots)), result)
    case Unpublishing(slot, d, keepWaiting, canDelete) =>
      var (t, result) := UnpublishRound(w.s, slot, d, keepWaiting, canDelete);
      (Advance(w, t).(lost := LostBy(result, w, slot)), result)
    case Getting(device, r, ticket) => StepGet(w, device, r, ticket)
    case Releasing(slot, which) =>
      (Advance(w, Release(w.s, slot)).(held := w.held[slot := Without(w.held[slot], which)]), Ok)
  }

  function LostBy(result: Result, w: World, slot: nat): seq<bool>
    requires Shaped(w) && slot < SLOTS
  {
    if result == Busy && w.s.slots[slot].isDefault then w.lost[slot := true] else w.lost
  }

  function StepPublish(w: World, d: Descriptor, first: Flash, second: Flash): (World, Result)
    requires Shaped(w)
  {
    var (t, result) := Publish(w.s, d, first, second);
    var v := Advance(w, t);
    if result != Ok then (v, result)
    else
      var i := FirstFree(w.s.slots);
      (v.(publication := w.publication[i := w.serial], serial := w.serial + 1,
          lost := StillLost(w.lost[i := false], t.slots)), Ok)
  }

  function StepGet(w: World, device: string, r: Request, ticket: Option<Ticket>): (World, Result)
    requires Shaped(w)
  {
    var (t, h, result) := TryGet(w.s, device, r, HandleOf(ticket));
    var v := Advance(w, t);
    if result != Ok && result != Renew then (v, result)
    else
      var k := Target(w.s, r, HandleOf(ticket));
      if w.s.slots[k].descriptor.None? then (v, result)
      else
        var d := w.s.slots[k].descriptor.value;
        var u := v.(held := w.held[k := w.held[k] + [d]]);
        if result == Ok then (u, Ok)
        else (u.(tickets := w.tickets + {Ticket(k, h.hash, w.publication[k], d, r.packageVersion == 0)}), Renew)
  }

  // The three invariants.

  /** A published slot counts one reference more than it has outstanding handles, at most 128, and every
      holder still sees its descriptor. */
  predicate SlotHeld(slot: Slot, held: seq<Descriptor>) {
    && (slot.refCount == 0 <==> slot.descriptor.None?)
    && (if slot.descriptor.None? then held == [] else slot.refCount == 1 + |held|)
    && |held| <= MAX_INSTANCES
    && forall k :: 0 <= k < |held| ==> slot.descriptor == Some(held[k])
  }

  predicate Holding(w: World) {
    Shaped(w) && forall i :: 0 <= i < SLOTS ==> SlotHeld(w.s.slots[i], w.held[i])
  }

  predicate SameInterface(a: Slot, b: Slot) {
    && a.descriptor.Some? && b.descriptor.Some?
    && a.descriptor.value.package == b.descriptor.value.package
    && a.descriptor.value.intf == b.descriptor.value.intf
    && a.descriptor.value.intfVersion == b.descriptor.value.intfVersion
  }

  /** No two published slots share the full name, and at most one per package name and interface is default. */
  predicate Distinct(slots: seq<Slot>) {
    && (forall i :: 0 <= i < |slots| && slots[i].descriptor.Some? ==> Versioned(slots[i].descriptor.value))
    && forall i, j :: 0 <= i < j < |slots| && SameInterface(slots[i], slots[j]) ==>
         && slots[i].descriptor.value.packageVersion != slots[j].descriptor.value.packageVersion
         && !(slots[i].isDefault && slots[j].isDefault)
  }

  /** A ticket whose hash still matches names the same publication, still default if it was taken as default. */
  predicate TicketHolds(w: World, t: Ticket)
    requires Shaped(w)
  {
    t.slot < SLOTS && t.hash < w.s.count &&
    var slot := w.s.slots[t.slot];
    slot.hash == t.hash ==>
      && w.publication[t.slot] == t.publication
      && (slot.descriptor.Some? ==> slot.descriptor.value == t.descriptor)
      && (t.asDefault && slot.descriptor.Some? ==> slot.isDefault || w.lost[t.slot])
  }

  predicate Renewing(w: World) {
    Shaped(w) && (!w.wrapped ==>
      && (forall i :: 0 <= i < SLOTS ==> w.s.slots[i].hash < w.s.count)
      && forall t :: t in w.tickets ==> TicketHolds(w, t))
  }

  predicate Good(w: World) { Holding(w) && Distinct(w.s.slots) && Renewing(w) }

  // What set_default and publish leave alone.

  /** Descriptors and references are the same; a slot that loses its default flag has a new hash. */
  predicate FlagsOnly(s: State, t: State) {
    && |s.slots| == |t.slots|
    && (forall i :: 0 <= i < |s.slots| ==>
         && t.slots[i].descriptor == s.slots[i].descriptor && t.slots[i].refCount == s.slots[i].refCount
         && (t.slots[i].hash == s.slots[i].hash || (t.slots[i].hash == s.count && t.count == Increment(s.count)))
         && (s.slots[i].isDefault && !t.slots[i].isDefault ==> t.slots[i].hash == s.count)
         && (t.slots[i].onHold ==> s.slots[i].onHold)
         && (s.slots[i].descriptor.None? ==> t.slots[i] == s.slots[i]))
    && (t.count == s.count || t.count == Increment(s.count))
  }

  lemma SetDefaultFlagsOnly(s: State, r: Request, first: Flash, second: Flash)
    requires Distinct(s.slots)
    ensures FlagsOnly(s, SetDefault(s, r, first, second).0)
    ensures Distinct(SetDefault(s, r, first, second).0.slots)
  {
    hide Update;
    var chosen := Lookup(s.slots, r);
    if r.packageVersion != 0 && r.intfVersion != 0 && chosen >= 0 {
      var previous := Lookup(s.slots, r.(packageVersion := 0));
      if previous >= 0 && previous != chosen {
        var t := Demote(s, previous, first).0;
        NoDefaultLeft(s.slots, t.slots, r, previous);
        PromoteDistinct(t, chosen, second);
      } else if previous < 0 {
        PromoteDistinct(s, chosen, second);
      }
    }
  }

  lemma NoDefaultLeft(slots: seq<Slot>, after: seq<Slot>, r: Request, previous: nat)
    requires Distinct(slots) && |after| == |slots| && previous < |slots|
    requires Matches(slots[previous], r.(packageVersion := 0))
    requires after[previous].descriptor == slots[previous].descriptor && !after[previous].isDefault
    requires forall i :: 0 <= i < |slots| && i != previous ==> after[i] == slots[i]
    ensures Distinct(after)
    ensures forall i :: 0 <= i < |after| ==> !Matches(after[i], r.(packageVersion := 0))
  {
    assert forall i :: 0 <= i < |slots| && i != previous ==>
      (SameInterface(slots[i], slots[previous]) ==> !slots[i].isDefault);
  }

  lemma PromoteDistinct(s: State, i: nat, f: Flash)
    requires Distinct(s.slots) && i < |s.slots| && s.slots[i].descriptor.Some?
    requires forall j :: 0 <= j < |s.slots| ==> !Matches(s.slots[j], DefaultOf(s.slots[i].descriptor.value))
    ensures Distinct(Promote(s, i, f).0.slots)
  {
    hide Update;
    var t := Promote(s, i, f).0;
    assert forall j :: 0 <= j < |s.slots| && j != i ==> t.slots[j] == s.slots[j];
    assert forall j :: 0 <= j < |s.slots| && SameInterface(s.slots[j], s.slots[i]) ==> !s.slots[j].isDefault;
  }

  /** A successful publish: the first free slot holds the descriptor with one reference and a new hash;
      the rest change flags only. */
  predicate Placed(s: State, t: State, d: Descriptor, i: int) {
    && |s.slots| == |t.slots| && 0 <= i < |s.slots| && s.slots[i].refCount == 0
    && t.slots[i].descriptor == Some(d) && t.slots[i].refCount == 1
    && t.slots[i].hash == s.count && !t.slots[i].onHold
    && (t.count == Increment(s.count) || t.count == Increment(Increment(s.count)))
    && forall j :: 0 <= j < |s.slots| && j != i ==>
         && t.slots[j].descriptor == s.slots[j].descriptor && t.slots[j].refCount == s.slots[j].refCount
         && (t.slots[j].hash == s.slots[j].hash
             || (t.slots[j].hash == Increment(s.count) && t.count == Increment(Increment(s.count))))
         && (s.slots[j].isDefault && !t.slots[j].isDefault ==> t.slots[j].hash == Increment(s.count))
         && (s.slots[j].descriptor.None? ==> t.slots[j] == s.slots[j])
  }

  lemma PlaceDistinct(s: State, d: Descriptor, i: nat)
    requires Distinct(s.slots) && i < |s.slots| && Versioned(d)
    requires Lookup(s.slots, Named(d)) < 0
    ensures Distinct(Place(s, d, i).slots)
  {
    var t := Place(s, d, i);
    assert forall j :: 0 <= j < |s.slots| ==> !Matches(s.slots[j], Named(d));
  }

  lemma LookupUnique(slots: seq<Slot>, d: Descriptor, i: nat)
    requires Distinct(slots) && i < |slots| && slots[i].descriptor == Some(d)
    ensures Lookup(slots, Named(d)) == i
  {
    assert Matches(slots[i], Named(d));
    var k := Lookup(slots, Named(d));
    assert k >= 0;
    if k < i { assert SameInterface(slots[k], slots[i]); }
  }

  lemma PublishPlaces(s: State, d: Descriptor, first: Flash, second: Flash)
    requires Distinct(s.slots) && d.packageVersion < Names.UINT32 && d.intfVersion < Names.UINT32
    requires Publish(s, d, first, second).1 == Ok
    ensures Placed(s, Publish(s, d, first, second).0, d, FirstFree(s.slots))
    ensures Distinct(Publish(s, d, first, second).0.slots)
  {
    hide StoredDefault, Update;
    var i := FirstFree(s.slots);
    var p := Place(s, d, i);
    PlaceDistinct(s, d, i);
    LookupUnique(p.slots, d, i);
    var t := Settle(p, d, i, first, second);
    SettlePlaces(p, d, i, first, second);
    assert FlagsOnly(p, t) && Distinct(t.slots) && t.slots[i].hash == p.slots[i].hash;
    RefCountDistinct(t.slots, i);
  }

  lemma RefCountDistinct(slots: seq<Slot>, i: nat)
    requires Distinct(slots) && i < |slots|
    ensures Distinct(slots[i := slots[i].(refCount := 1)])
  {
    var after := slots[i := slots[i].(refCount := 1)];
    assert forall j :: 0 <= j < |slots| ==>
      after[j].descriptor == slots[j].descriptor && after[j].isDefault == slots[j].isDefault;
  }

  /** The slot just placed is not default, so it is not the one that loses the flag. */
  lemma SettlePlaces(p: State, d: Descriptor, i: nat, first: Flash, second: Flash)
    requires Distinct(p.slots) && i < |p.slots| && p.slots[i].descriptor == Some(d) && !p.slots[i].isDefault
    ensures FlagsOnly(p, Settle(p, d, i, first, second))
    ensures Distinct(Settle(p, d, i, first, second).slots)
    ensures Settle(p, d, i, first, second).slots[i].hash == p.slots[i].hash
  {
    hide StoredDefault, Update;
    LookupUnique(p.slots, d, i);
    SetDefaultFlagsOnly(p, Named(d), first, second);
    if StoredDefault(p.registry, d).None? && Lookup(p.slots, DefaultOf(d)) < 0 {
      PromoteDistinct(p, i, second);
    }
  }

  // Preservation.

  lemma StartIsGood(registry: map<string, Stored>)
    ensures Good(Start(registry))
  {
  }

  lemma PublishKeepsGood(w: World, d: Descriptor, first: Flash, second: Flash)
    requires Good(w) && d.packageVersion < Names.UINT32 && d.intfVersion < Names.UINT32
    ensures Good(StepPublish(w, d, first, second).0)
  {
    hide Publish, Refusal;
    var (v, result) := StepPublish(w, d, first, second);
    RefusedUnchanged(w.s, d, first, second);
    if result == Ok {
      PublishPlaces(w.s, d, first, second);
      hide Distinct;
      PlacedKeepsHolding(w, v, d, FirstFree(w.s.slots));
      PlacedKeepsRenewing(w, v, d, FirstFree(w.s.slots));
    }
  }

  lemma RefusedUnchanged(s: State, d: Descriptor, first: Flash, second: Flash)
    ensures Publish(s, d, first, second).1 == Refusal(s, d)
    ensures Refusal(s, d) != Ok ==> Publish(s, d, first, second).0 == s
    ensures Refusal(s, d) == Ok ==> FirstFree(s.slots) >= 0
  {
  }

  lemma PlacedKeepsHolding(w: World, v: World, d: Descriptor, i: nat)
    requires Holding(w) && Shaped(v) && Placed(w.s, v.s, d, i) && v.held == w.held
    ensures Holding(v)
  {
    assert SlotHeld(w.s.slots[i], w.held[i]);
    forall j | 0 <= j < SLOTS ensures SlotHeld(v.s.slots[j], v.held[j]) {
      assert SlotHeld(w.s.slots[j], w.held[j]);
    }
  }

  lemma PlacedKeepsRenewing(w: World, v: World, d: Descriptor, i: nat)
    requires Renewing(w) && Shaped(v) && Placed(w.s, v.s, d, i) && v.tickets == w.tickets
    requires v.wrapped == (w.wrapped || v.s.count < w.s.count)
    requires v.publication == w.publication[i := w.serial] && v.lost == StillLost(w.lost[i := false], v.s.slots)
    ensures Renewing(v)
  {
    if !v.wrapped {
      assert v.s.count > w.s.count;
      forall t | t in v.tickets ensures TicketHolds(v, t) {
        assert TicketHolds(w, t);
      }
    }
  }

  lemma FlagsOnlyKeepsGood(w: World, v: World)
    requires Good(w) && FlagsOnly(w.s, v.s) && Distinct(v.s.slots) && v.s.count < Names.UINT32
    requires v == Advance(w, v.s).(lost := StillLost(w.lost, v.s.slots))
    ensures Good(v)
  {
    forall j | 0 <= j < SLOTS ensures SlotHeld(v.s.slots[j], v.held[j]) {
      assert SlotHeld(w.s.slots[j], w.held[j]);
    }
    if !v.wrapped {
      forall t | t in v.tickets ensures TicketHolds(v, t) {
        assert TicketHolds(w, t);
      }
    }
  }

  /** What one pass of unpublish can do to its slot. */
  predicate Unpublished(before: Slot, after: Slot, result: Result) {
    || after == before
    || (before.refCount == 1 && after == before.(descriptor := None, refCount := 0))
    || after == before.(onHold := true)
    || (result == Busy && after == before.(isDefault := false, onHold := false))
  }

  lemma RoundChangesOne(s: State, slot: nat, d: Descriptor, keepWaiting: bool, canDelete: bool)
    requires slot < |s.slots|
    ensures var (t, result) := UnpublishRound(s, slot, d, keepWaiting, canDelete);
      && t.slots == s.slots[slot := t.slots[slot]] && t.count == s.count
      && Unpublished(s.slots[slot], t.slots[slot], result)
  {
    hide Forget;
  }

  lemma RoundKeepsGood(w: World, slot: nat, d: Descriptor, keepWaiting: bool, canDelete: bool)
    requires Good(w) && slot < SLOTS
    ensures Good(Step(w, Unpublishing(slot, d, keepWaiting, canDelete)).0)
  {
    var v := Step(w, Unpublishing(slot, d, keepWaiting, canDelete)).0;
    RoundChangesOne(w.s, slot, d, keepWaiting, canDelete);
    hide UnpublishRound;
    assert SlotHeld(w.s.slots[slot], w.held[slot]);
    FewerIsDistinct(w.s.slots, v.s.slots, slot);
    hide Distinct;
    forall j | 0 <= j < SLOTS ensures SlotHeld(v.s.slots[j], v.held[j]) {
      assert SlotHeld(w.s.slots[j], w.held[j]);
    }
    RoundKeepsRenewing(w, slot, d, keepWaiting, canDelete);
  }

  lemma RoundKeepsRenewing(w: World, slot: nat, d: Descriptor, keepWaiting: bool, canDelete: bool)
    requires Renewing(w) && slot < SLOTS
    ensures Renewing(Step(w, Unpublishing(slot, d, keepWaiting, canDelete)).0)
  {
    var v := Step(w, Unpublishing(slot, d, keepWaiting, canDelete)).0;
    RoundChangesOne(w.s, slot, d, keepWaiting, canDelete);
    hide UnpublishRound;
    if !v.wrapped {
      forall t | t in v.tickets ensures TicketHolds(v, t) {
        assert TicketHolds(w, t);
      }
    }
  }

  lemma FewerIsDistinct(slots: seq<Slot>, after: seq<Slot>, i: nat)
    requires Distinct(slots) && |after| == |slots| && i < |slots|
    requires after[i].descriptor == slots[i].descriptor || after[i].descriptor.None?
    requires after[i].isDefault ==> slots[i].isDefault
    requires forall j :: 0 <= j < |slots| && j != i ==> after[j] == slots[j]
    ensures Distinct(after)
  {
    assert forall j, k :: 0 <= j < k < |slots| && SameInterface(after[j], after[k]) ==>
      SameInterface(slots[j], slots[k]);
  }

  lemma GetKeepsGood(w: World, device: string, r: Request, ticket: Option<Ticket>)
    requires Good(w) && (ticket.Some? ==> ticket.value in w.tickets)
    ensures Good(StepGet(w, device, r, ticket).0)
  {
    hide Distinct, Lookup;
    var (v, result) := StepGet(w, device, r, ticket);
    if result == Ok || result == Renew {
      var k := Target(w.s, r, HandleOf(ticket));
      assert SlotHeld(w.s.slots[k], w.held[k]);
      forall j | 0 <= j < SLOTS ensures SlotHeld(v.s.slots[j], v.held[j]) {
        assert SlotHeld(w.s.slots[j], w.held[j]);
      }
      FewerIsDistinct(w.s.slots, v.s.slots, k);
      GetKeepsRenewing(w, device, r, ticket, k);
    }
  }

  lemma GetKeepsRenewing(w: World, device: string, r: Request, ticket: Option<Ticket>, k: nat)
    requires Good(w) && k == Target(w.s, r, HandleOf(ticket)) && w.s.slots[k].descriptor.Some?
    requires StepGet(w, device, r, ticket).1 == Ok || StepGet(w, device, r, ticket).1 == Renew
    ensures Renewing(StepGet(w, device, r, ticket).0)
  {
    hide Distinct;
    var (v, result) := StepGet(w, device, r, ticket);
    if !v.wrapped {
      forall t | t in v.tickets ensures TicketHolds(v, t) {
        if t in w.tickets {
          assert TicketHolds(w, t);
        }
      }
    }
  }

  lemma ReleaseKeepsGood(w: World, slot: nat, which: nat)
    requires Good(w) && Allowed(w, Releasing(slot, which))
    ensures Good(Step(w, Releasing(slot, which)).0)
  {
    var v := Step(w, Releasing(slot, which)).0;
    assert SlotHeld(w.s.slots[slot], w.held[slot]);
    forall j | 0 <= j < SLOTS ensures SlotHeld(v.s.slots[j], v.held[j]) {
      assert SlotHeld(w.s.slots[j], w.held[j]);
    }
    FewerIsDistinct(w.s.slots, v.s.slots, slot);
    if !v.wrapped {
      forall t | t in v.tickets ensures TicketHolds(v, t) {
        assert TicketHolds(w, t);
      }
    }
  }

  lemma StepKeepsGood(w: World, a: Action)
    requires Good(w) && Allowed(w, a)
    ensures Good(Step(w, a).0)
  {
    match a
    case Publishing(d, first, second) => PublishKeepsGood(w, d, first, second);
    case Defaulting(r, first, second) =>
      SetDefaultFlagsOnly(w.s, r, first, second);
      FlagsOnlyKeepsGood(w, Step(w, a).0);
    case Unpublishing(slot, d, keepWaiting, canDelete) => RoundKeepsGood(w, slot, d, keepWaiting, canDelete);
    case Getting(device, r, ticket) => GetKeepsGood(w, device, r, ticket);
    case Releasing(slot, which) => ReleaseKeepsGood(w, slot, which);
  }

  /** The worlds some run reaches. */
  ghost predicate Reaches(registry: map<string, Stored>, actions: seq<Action>, w: World)
    decreases |actions|
  {
    if actions == [] then w == Start(registry)
    else exists v ::
      && Reaches(registry, actions[..|actions| - 1], v) && Shaped(v) && Allowed(v, actions[|actions| - 1])
      && w == Step(v, actions[|actions| - 1]).0
  }

  lemma {:induction false} EveryRunIsGood(registry: map<string, Stored>, actions: seq<Action>, w: World)
    requires Reaches(registry, actions, w)
    ensures Good(w)
    decreases |actions|
  {
    if actions == [] {
      StartIsGood(registry);
    } else {
      var last := actions[|actions| - 1];
      var v :| Reaches(registry, actions[..|actions| - 1], v) && Shaped(v) && Allowed(v, last) && w == Step(v, last).0;
      EveryRunIsGood(registry, actions[..|actions| - 1], v);
      StepKeepsGood(v, last);
    }
  }

  // What a client sees.

  /** AZ_OK on a cached handle: the same publication, and the default still if it was taken as default, unless a
      timed-out unpublish took that away; otherwise the handle is renewed to the first slot that matches the request. */
  lemma RenewalIsSound(w: World, r: Request, ticket: Option<Ticket>)
    requires Good(w) && !w.wrapped && (ticket.Some? ==> ticket.value in w.tickets)
    ensures var (_, h, result) := TryGet(w.s, "", r, HandleOf(ticket));
      && (result == Ok ==>
           && ticket.Some? && h == HandleOf(ticket)
           && w.publication[ticket.value.slot] == ticket.value.publication
           && w.s.slots[ticket.value.slot].descriptor == Some(ticket.value.descriptor)
           && (ticket.value.asDefault ==> w.s.slots[ticket.value.slot].isDefault || w.lost[ticket.value.slot]))
      && (result == Renew ==>
           && h.slot.Some? && h.slot.value < SLOTS && Matches(w.s.slots[h.slot.value], r)
           && h.hash == w.s.slots[h.slot.value].hash
           && (ticket.Some? ==> h != HandleOf(ticket)))
  {
    hide Lookup, Distinct;
    var k := Target(w.s, r, HandleOf(ticket));
    if k >= 0 { assert SlotHeld(w.s.slots[k], w.held[k]); }
    if ticket.Some? { assert TicketHolds(w, ticket.value); }
  }

  /** Published, not on hold, and fewer than 128 handles outstanding. */
  predicate Usable(w: World, i: int)
    requires Shaped(w)
  {
    && 0 <= i < SLOTS && w.s.slots[i].descriptor.Some? && !w.s.slots[i].onHold && |w.held[i]| < MAX_INSTANCES
  }

  /** A lookup of a usable interface succeeds, except through a handle whose hash still holds for a slot
      that is not usable. */
  lemma GetSucceeds(w: World, r: Request, ticket: Option<Ticket>)
    requires Good(w) && Usable(w, Lookup(w.s.slots, r))
    requires ticket.Some? ==> ticket.value.slot < SLOTS
    ensures (StepGet(w, "", r, ticket).1 == Ok || StepGet(w, "", r, ticket).1 == Renew)
        <==> !(Cached(w.s, HandleOf(ticket)) && !Usable(w, ticket.value.slot))
  {
    hide Lookup, Distinct;
    var k := Target(w.s, r, HandleOf(ticket));
    assert SlotHeld(w.s.slots[k], w.held[k]);
  }

  /** The case above does happen: an interface unpublished from slot j and published again lands in the first free slot;
      if that is below j, the old handle is refused although its interface is there. */
  lemma RepublishedHandle(s: State, j: nat, d: Descriptor, first: Flash, second: Flash)
    requires Distinct(s.slots) && j < |s.slots| && s.slots[j].descriptor == Some(d) && s.slots[j].refCount == 1
    requires Key(d).Some? && |d.intf| < MAX_NAME && s.slots[j].hash < s.count < Names.UINT32 - 2
    ensures var (t, gone) := UnpublishRound(s, j, d, true, true);
      var (u, back) := Publish(t, d, first, second);
      && gone == Ok && back == Ok
      && Lookup(u.slots, Named(d)) == FirstFree(t.slots)
      && TryGet(u, "", Named(d), Handle(Some(j), s.slots[j].hash)).2
         == if 0 <= FirstFree(s.slots) < j then NotFound else Renew
  {
    var t := UnpublishRound(s, j, d, true, true).0;
    UnpublishedIsGone(s, j, d);
    hide UnpublishRound;
    assert t.slots[j].refCount == 0;
    assert forall k :: 0 <= k < |s.slots| && k != j ==> t.slots[k] == s.slots[k];
    RefusedUnchanged(t, d, first, second);
    PublishPlaces(t, d, first, second);
    var u := Publish(t, d, first, second).0;
    var i := FirstFree(t.slots);
    LookupUnique(u.slots, d, i);
    hide Publish, Distinct, Lookup;
    assert i == if 0 <= FirstFree(s.slots) < j then FirstFree(s.slots) else j;
    assert i != j ==> u.slots[j] == t.slots[j];
  }

  lemma UnpublishedIsGone(s: State, j: nat, d: Descriptor)
    requires Distinct(s.slots) && j < |s.slots| && s.slots[j].descriptor == Some(d) && s.slots[j].refCount == 1
    requires Key(d).Some?
    ensures var (t, gone) := UnpublishRound(s, j, d, true, true);
      && gone == Ok && t.count == s.count && Versioned(d) && Distinct(t.slots)
      && t.slots == s.slots[j := s.slots[j].(descriptor := None, refCount := 0)]
      && Lookup(t.slots, Named(d)) < 0
  {
    hide Names.FullName;
    var t := UnpublishRound(s, j, d, true, true).0;
    assert t.slots == s.slots[j := s.slots[j].(descriptor := None, refCount := 0)];
    FewerIsDistinct(s.slots, t.slots, j);
    LookupUnique(s.slots, d, j);
    assert forall k :: 0 <= k < |s.slots| && k != j && SameInterface(s.slots[k], s.slots[j]) ==>
      s.slots[k].descriptor.value.packageVersion != d.packageVersion;
  }

  /** An idle interface is unpublished exactly when its key fits the key buffer and the registry lets the entry go. */
  lemma UnpublishFrees(s: State, i: nat, d: Descriptor, keepWaiting: bool, canDelete: bool)
    requires i < |s.slots| && s.slots[i].descriptor == Some(d) && s.slots[i].refCount == 1
    ensures var (t, result) := UnpublishRound(s, i, d, keepWaiting, canDelete);
      && (result == Ok <==> Key(d).Some? && (canDelete || Key(d).value !in s.registry))
      && (result == Ok <==> t.slots[i].descriptor == None)
      && (result == Ok ==>
           t.slots[i].refCount == 0 && t.registry == s.registry - (if Key(d).Some? then {Key(d).value} else {}))
      && (result != Ok ==> t == s)
  {
    hide Names.FullName;
    var t := UnpublishRound(s, i, d, keepWaiting, canDelete).0;
    if Key(d).Some? && Key(d).value !in s.registry {
      assert s.registry - {Key(d).value} == s.registry;
    }
  }

  /** The key is the two names, the two signed versions and three dots. */
  lemma KeyFits(d: Descriptor)
    requires d.packageVersion < Names.UINT32 && d.intfVersion < Names.UINT32
    ensures Key(d).Some? <==>
      |d.package| + |Names.SignedDecimal(d.packageVersion)| + |d.intf| + |Names.SignedDecimal(d.intfVersion)| + 3
      <= 83
  {
  }

  /** Publish does not check that the key fits: without a key the interface is published and then stays for good. */
  lemma PublishedForGood(s: State, d: Descriptor, first: Flash, second: Flash, keepWaiting: bool, canDelete: bool)
    requires Distinct(s.slots) && Versioned(d) && Key(d).None?
    requires Publish(s, d, first, second).1 == Ok
    ensures var t := Publish(s, d, first, second).0;
      UnpublishRound(t, FirstFree(s.slots), d, keepWaiting, canDelete) == (t, NotEnoughSpace)
  {
    hide Publish;
    PublishPlaces(s, d, first, second);
  }

  /** Both names within their documented sizes, and no key. */
  lemma NoKeyExample() returns (d: Descriptor)
    ensures Versioned(d) && |d.package| < MAX_NAME && |d.intf| < MAX_NAME && Key(d).None?
  {
    d := Descriptor(0, "ppppppppppppppppppppppppppppppp", 1000000000, "iiiiiiiiiiiiiiiiiiiiiiiiiiiiiii", 1000000000);
    assert |Names.Decimal(1000000000)| == 10;
    KeyFits(d);
  }
}
