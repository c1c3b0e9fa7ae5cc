/** The whole system: reads in progress on any number of threads while instances are made, cloned,
    concatenated, split and disposed of.

    A run of `UstreamRuns` goes on beside the reference counts and callbacks of `UstreamOwnership`.
    `gone` are the instances that have been disposed of. */
module UstreamSystem {
  import opened UstreamSpec
  import Own = UstreamOwnership
  import Runs = UstreamRuns

  datatype System = System(w: Runs.World, calls: seq<Own.Callback>, gone: set<nat>)

  function MemoryOf(s: System): Own.Memory { Own.Memory(s.w.blocks, s.calls) }

  datatype Action = Using(use: Runs.Action) | Splitting(u: nat, position: nat) | Disposing(u: nat)

  /** The instances that an action names. */
  function Named(a: Runs.Action): set<nat> {
    match a
    case Creating(_, _, _) => {}
    case Cloning(u, _) => {u}
    case Joining(u, other, _) => {u, other}
    case Seeking(u, _) => {u}
    case Resetting(u) => {u}
    case Releasing(u, _) => {u}
    case Starting(u, _) => {u}
    case Advancing(u) => {u}
  }

  predicate Free(s: System, u: nat) { Runs.Idle(s.w, u) && u !in s.gone }

  /** A split of a leaf instance that halves it exactly, if it is accepted at all. */
  predicate SplitsExactly(blocks: seq<Block>, h: Handle, position: nat)
    requires h.block < |blocks|
  {
    && blocks[h.block].Leaf? && position < SIZE_T && h.offsetDiff == h.first
    && (Split(blocks, h, position).result == Ok ==> h.current < Minus(position, h.offsetDiff))
  }

  /** Clients use and give up instances they have, between reads. */
  predicate Allowed(s: System, a: Action)
    requires Runs.Consistent(s.w)
  {
    match a
    case Using(use) => Named(use) !! s.gone && Runs.Allowed(s.w, use)
    case Splitting(u, position) =>
      Free(s, u) && (Runs.UserInRange(s.w, u); SplitsExactly(s.w.blocks, s.w.users[u], position))
    case Disposing(u) => Free(s, u)
  }

  lemma WellFormedIsRanked(blocks: seq<Block>)
    requires WellFormed(blocks)
    ensures Own.Ranked(blocks)
  {
    hide HandleOk;
    forall b | 0 <= b < |blocks| && blocks[b].Multi?
      ensures blocks[b].one.block < b && blocks[b].two.block < b
    {
      assert BlockOk(blocks, b);
    }
  }

  function Step(s: System, a: Action): System
    requires Runs.Consistent(s.w) && Allowed(s, a)
  {
    match a
    case Using(use) => s.(w := Runs.Step(s.w, use))
    case Splitting(u, position) => s.(w := SplitWorld(s.w, u, position))
    case Disposing(u) =>
      Runs.UserInRange(s.w, u);
      WellFormedIsRanked(s.w.blocks);
      var m := Own.Dispose(MemoryOf(s), s.w.users[u].block);
      System(s.w.(blocks := m.blocks), m.calls, s.gone + {u})
  }

  function SplitWorld(w: Runs.World, u: nat, position: nat): Runs.World
    requires u < |w.users| && w.users[u].block < |w.blocks|
  {
    var t := Split(w.blocks, w.users[u], position);
    if t.result == Ok
    then Runs.World(t.blocks, w.users[u := t.left] + [t.right], w.owner, w.stacks + [[]], w.log)
    else w.(blocks := t.blocks, users := w.users[u := t.left])
  }

  // The holders of references.

  /** The blocks of the first n instances, but for those that are gone. */
  function Held(users: seq<Handle>, gone: set<nat>, n: nat): multiset<nat>
    requires n <= |users|
  {
    if n == 0 then multiset{}
    else Held(users, gone, n - 1) + if n - 1 in gone then multiset{} else multiset{users[n - 1].block}
  }

  function Holders(s: System): multiset<nat> { Held(s.w.users, s.gone, |s.w.users|) }

  lemma {:induction false} HeldSame(a: seq<Handle>, b: seq<Handle>, gone: set<nat>, n: nat)
    requires n <= |a| && n <= |b| && forall i :: 0 <= i < n ==> a[i].block == b[i].block
    ensures Held(a, gone, n) == Held(b, gone, n)
  {
    if n > 0 { HeldSame(a, b, gone, n - 1); }
  }

  lemma HeldMore(users: seq<Handle>, gone: set<nat>, h: Handle)
    requires |users| !in gone
    ensures Held(users + [h], gone, |users| + 1) == Held(users, gone, |users|) + multiset{h.block}
  {
    HeldSame(users + [h], users, gone, |users|);
  }

  lemma {:induction false} HeldCounts(users: seq<Handle>, gone: set<nat>, n: nat, u: nat)
    requires u < n <= |users| && u !in gone
    ensures Held(users, gone, n)[users[u].block] > 0
  {
    if u < n - 1 { HeldCounts(users, gone, n - 1, u); }
  }

  lemma {:induction false} HeldBelow(users: seq<Handle>, gone: set<nat>, n: nat, c: nat)
    requires n <= |users| && forall i :: 0 <= i < n ==> users[i].block < c
    ensures Held(users, gone, n)[c] == 0
  {
    if n > 0 { HeldBelow(users, gone, n - 1, c); }
  }

  function Single(b: nat, c: nat): nat { if b == c then 1 else 0 }

  lemma HeldNone(users: seq<Handle>, gone: set<nat>)
    ensures Held(users, gone, 0) == multiset{}
  {
  }

  lemma HeldStep(users: seq<Handle>, gone: set<nat>, n: nat, c: nat)
    requires 0 < n <= |users|
    ensures Held(users, gone, n)[c]
         == Held(users, gone, n - 1)[c] + if n - 1 in gone then 0 else Single(users[n - 1].block, c)
  {
  }

  /** Instance u moves to another block. */
  lemma {:induction false} HeldMoves(users: seq<Handle>, gone: set<nat>, n: nat, u: nat, h: Handle, c: nat)
    requires u < n <= |users| && u !in gone
    ensures Held(users[u := h], gone, n)[c] + Single(users[u].block, c) == Held(users, gone, n)[c] + Single(h.block, c)
  {
    hide Held;
    HeldStep(users, gone, n, c);
    HeldStep(users[u := h], gone, n, c);
    if u < n - 1 {
      HeldMoves(users, gone, n - 1, u, h, c);
    } else {
      HeldSame(users[u := h], users, gone, u);
    }
  }

  lemma {:induction false} HeldGoes(users: seq<Handle>, gone: set<nat>, n: nat, u: nat, c: nat)
    requires n <= |users| && u !in gone
    ensures Held(users, gone, n)[c] == Held(users, gone + {u}, n)[c] + if u < n then Single(users[u].block, c) else 0
  {
    hide *;
    var after := gone + {u};
    if n == 0 {
      HeldNone(users, gone);
      HeldNone(users, after);
    } else {
      HeldStep(users, gone, n, c);
      HeldStep(users, after, n, c);
      HeldGoes(users, gone, n - 1, u, c);
      assert n - 1 in after <==> n - 1 in gone || n - 1 == u;
    }
  }

  // The invariant.

  predicate GoneIsIdle(s: System) {
    |s.w.stacks| == |s.w.users| && forall u :: u in s.gone ==> u < |s.w.users| && s.w.stacks[u] == []
  }

  /** Reads are right so far, locks have holders, and reference counts and callbacks are those of the instances
      still there. */
  ghost predicate Sound(s: System) {
    && Runs.Consistent(s.w) && Runs.LocksHeld(s.w) && GoneIsIdle(s)
    && Own.Sane(MemoryOf(s), Holders(s), {})
  }

  lemma HolderIsAlive(s: System, u: nat)
    requires Own.Sane(MemoryOf(s), Holders(s), {}) && u < |s.w.users| && u !in s.gone
    requires s.w.users[u].block < |s.w.blocks|
    ensures Holders(s)[s.w.users[u].block] > 0 && s.w.blocks[s.w.users[u].block].refCount > 0
  {
    hide Own.CallsRight;
    HeldCounts(s.w.users, s.gone, |s.w.users|, u);
  }

  lemma HandlesInRange(w: Runs.World)
    requires Runs.Consistent(w)
    ensures forall u :: 0 <= u < |w.users| ==> w.users[u].block < |w.blocks|
  {
    hide Runs.Consistent;
    forall u | 0 <= u < |w.users| ensures w.users[u].block < |w.blocks| { Runs.UserInRange(w, u); }
  }

  /** Reads in progress move cursors only, so whatever else happens they keep the balance of references. */
  lemma ReadsKeepSane(w: Runs.World, u: nat, calls: seq<Own.Callback>, holders: multiset<nat>)
    requires Runs.Consistent(w) && Runs.CanAdvance(w, u) && Own.Sane(Own.Memory(w.blocks, calls), holders, {})
    ensures Own.Sane(Own.Memory(Runs.Advance(w, u).blocks, calls), holders, {})
  {
    hide Own.Sane, Runs.Consistent, Runs.CanAdvance, Runs.Advance;
    AdvanceKeepsCounters(w, u);
    Own.CursorsKeepSane(Own.Memory(w.blocks, calls), Runs.Advance(w, u).blocks, holders);
  }

  lemma AdvanceKeepsCounters(w: Runs.World, u: nat)
    requires Runs.Consistent(w) && Runs.CanAdvance(w, u)
    ensures var after := Runs.Advance(w, u).blocks;
      && Extends(w.blocks, after) && |after| == |w.blocks|
      && forall b :: 0 <= b < |after| ==> Own.SameCounters(w.blocks[b], after[b])
  {
    hide BlockOk, Text, HandleOk, SetPosition;
    hide Runs.AdvanceLeaf, Runs.AdvanceEnd, Runs.Finished, Runs.NewFrame, Runs.StackOk, Runs.Expected;
    Runs.TopIsLinked(w, u);
    var s := w.stacks[u];
    var f := Runs.Top(s);
    if f.phase == Runs.Looping && (w.blocks[f.block].Leaf? || !Runs.Continues(f)) {
      Runs.EndIsFinished(w, u);
      FinishKeepsCounters(w, u);
    } else {
      Runs.StepExtends(w, u) by { if f.phase != Runs.Looping { Runs.ChildIsThere(w, f); } }
      if f.phase == Runs.Locked {
        Runs.ChildIsThere(w, f);
        Runs.MoveChildIs(w, f);
      }
    }
  }

  lemma FinishKeepsCounters(w: Runs.World, u: nat)
    requires Runs.Consistent(w) && u < |w.stacks| && w.stacks[u] != [] && Runs.Top(w.stacks[u]).phase == Runs.Looping
    ensures Runs.FrameOk(w, Runs.Top(w.stacks[u]))
    ensures var after := Runs.Finished(w, u).blocks;
      && Extends(w.blocks, after) && |after| == |w.blocks|
      && forall b :: 0 <= b < |after| ==> Own.SameCounters(w.blocks[b], after[b])
  {
    hide BlockOk, Text, HandleOk, Runs.FrameOk, Runs.Expected, Runs.Delivered, Runs.StackOk;
    var s := w.stacks[u];
    var k := |s| - 1;
    Runs.LinkedAt(w, u, k);
    Runs.FramePlaces(w, s[k]);
    if k > 0 {
      Runs.LinkedAt(w, u, k - 1);
      Runs.ChildIsThere(w, s[k - 1]);
      Runs.FinishedChildIs(w, u);
    }
  }

  // What each action keeps.

  lemma CreateKeepsSane(s: System, use: Runs.Action)
    requires Sound(s) && use.Creating? && Allowed(s, Using(use))
    ensures Own.Sane(MemoryOf(Step(s, Using(use))), Holders(Step(s, Using(use))), {})
  {
    hide Own.Balanced, Own.CallsRight, Runs.Consistent, Runs.LocksHeld;
    var x := Leaf(use.data, 1, use.dataRelease, use.blockRelease);
    HandlesInRange(s.w);
    HeldBelow(s.w.users, s.gone, |s.w.users|, |s.w.blocks|);
    HeldMore(s.w.users, s.gone, Init(s.w.blocks, use.data, use.dataRelease, use.blockRelease).1);
    Own.AppendSane(MemoryOf(s), x, Holders(s), Holders(s) + multiset{|s.w.blocks|});
  }

  lemma CloneKeepsSane(s: System, use: Runs.Action)
    requires Sound(s) && use.Cloning? && Allowed(s, Using(use))
    ensures Own.Sane(MemoryOf(Step(s, Using(use))), Holders(Step(s, Using(use))), {})
  {
    hide Own.Balanced, Own.CallsRight, Runs.Consistent, Runs.LocksHeld;
    HandlesInRange(s.w);
    HolderIsAlive(s, use.u);
    HeldMore(s.w.users, s.gone, Clone(s.w.blocks, s.w.users[use.u], use.offset).1);
    Own.ReferencedSane(MemoryOf(s), s.w.users[use.u].block, Holders(s));
  }

  lemma JoinKeepsSane(s: System, use: Runs.Action)
    requires Sound(s) && use.Joining? && Allowed(s, Using(use))
    ensures Own.Sane(MemoryOf(Step(s, Using(use))), Holders(Step(s, Using(use))), {})
  {
    hide Own.Balanced, Own.CallsRight, Own.Kids, Runs.Consistent, Runs.LocksHeld;
    var g, h := s.w.users[use.u], s.w.users[use.other];
    HandlesInRange(s.w);
    HolderIsAlive(s, use.u);
    HolderIsAlive(s, use.other);
    HeldBelow(s.w.users, s.gone, |s.w.users|, |s.w.blocks|);
    Own.ReferencedSane(MemoryOf(s), h.block, Holders(s));
    var m := Own.Memory(s.w.blocks[h.block := Referenced(s.w.blocks[h.block])], s.calls);
    var x := Multi(g, CloneOf(h, g.length), 1, 1, 1, use.dataRelease);
    var after := Holders(Step(s, Using(use)));
    forall c: nat ensures after[c] + Single(g.block, c) == Holders(s)[c] + Single(|s.w.blocks|, c) {
      HeldMoves(s.w.users, s.gone, |s.w.users|, use.u, Concat(s.w.blocks, g, h, use.dataRelease).1, c);
    }
    hide Held;
    Own.JoinedKids(g.block, h.block, x);
    Own.AppendSane(m, x, Holders(s) + multiset{h.block}, after);
  }

  lemma CursorKeepsSane(s: System, use: Runs.Action)
    requires Sound(s) && Allowed(s, Using(use)) && !use.Creating? && !use.Cloning? && !use.Joining? && !use.Advancing?
    ensures Own.Sane(MemoryOf(Step(s, Using(use))), Holders(Step(s, Using(use))), {})
  {
    hide Own.Sane, Runs.LocksHeld, Runs.NewFrame;
    HeldSame(s.w.users, Step(s, Using(use)).w.users, s.gone, |s.w.users|);
  }

  lemma AdvanceKeepsSane(s: System, u: nat)
    requires Sound(s) && Allowed(s, Using(Runs.Advancing(u)))
    ensures Own.Sane(MemoryOf(Step(s, Using(Runs.Advancing(u)))), Holders(Step(s, Using(Runs.Advancing(u)))), {})
  {
    hide Own.Sane, Runs.LocksHeld, Runs.Consistent, Runs.CanAdvance, Runs.Advance;
    ReadsKeepSane(s.w, u, s.calls, Holders(s));
    Runs.AdvanceKeepsBlocks(s.w, u);
    HeldSame(s.w.users, Runs.Advance(s.w, u).users, s.gone, |s.w.users|);
  }

  lemma UseKeepsSound(s: System, use: Runs.Action)
    requires Sound(s) && Allowed(s, Using(use))
    ensures Sound(Step(s, Using(use)))
  {
    hide Own.Sane, Runs.Consistent, Runs.LocksHeld, Runs.Allowed, Runs.Step, Holders;
    Runs.StepKeepsLocksHeld(s.w, use);
    UseKeepsGone(s, use);
    match use
    case Creating(_, _, _) => CreateKeepsSane(s, use);
    case Cloning(_, _) => CloneKeepsSane(s, use);
    case Joining(_, _, _) => JoinKeepsSane(s, use);
    case Advancing(u) => AdvanceKeepsSane(s, u);
    case _ => CursorKeepsSane(s, use);
  }

  lemma UseKeepsGone(s: System, use: Runs.Action)
    requires Runs.Consistent(s.w) && GoneIsIdle(s) && Allowed(s, Using(use))
    ensures GoneIsIdle(Step(s, Using(use)))
  {
    hide Runs.Consistent, Runs.NewFrame, Runs.Advance, Runs.CanAdvance;
    if use.Advancing? { Runs.AdvanceKeepsBlocks(s.w, use.u); Runs.AdvanceIsOwn(s.w, use.u); }
  }

  /** Counters change, cursors and texts do not. */
  lemma CountersGrow(w: Runs.World, blocks: seq<Block>)
    requires Runs.Consistent(w) && Own.Counted(w.blocks, blocks)
    ensures Runs.Grows(w, w.(blocks := blocks)) && Extends(w.blocks, blocks)
  {
    hide BlockOk, HandleOk, Text, Runs.StackOk, Runs.CompletedOk;
    forall b | 0 <= b < |blocks|
      ensures SameBlock(w.blocks[b], blocks[b]) && Runs.SameCursors(w.blocks[b], blocks[b]) && CursorsOk(blocks[b])
    {
      assert Own.OnlyCounters(w.blocks[b], blocks[b]);
      WellFormedCursors(w.blocks, b);
    }
    KeptIsWellFormed(w.blocks, blocks);
    Runs.UsersKept(w, blocks);
  }

  lemma LocksKept(w: Runs.World, v: Runs.World)
    requires Runs.Shaped(w) && Runs.Shaped(v) && Runs.LocksHeld(w) && v.owner == w.owner
    requires |v.stacks| >= |w.stacks| && forall t :: 0 <= t < |w.stacks| ==> v.stacks[t] == w.stacks[t]
    ensures Runs.LocksHeld(v)
  {
    forall b | 0 <= b < |v.owner| && v.owner[b].Some?
      ensures exists i: nat :: Runs.HoldsLock(v, v.owner[b].value, i, b)
    {
      var i: nat :| Runs.HoldsLock(w, w.owner[b].value, i, b);
      assert Runs.HoldsLock(v, v.owner[b].value, i, b);
    }
  }

  lemma DisposeKeepsSound(s: System, u: nat)
    requires Sound(s) && Allowed(s, Disposing(u))
    ensures Sound(Step(s, Disposing(u))) && Extends(s.w.blocks, Step(s, Disposing(u)).w.blocks)
  {
    hide Own.Sane, Own.Dispose, Runs.Consistent, Runs.LocksHeld, Held, Runs.Grows;
    HandlesInRange(s.w);
    Runs.WellFormedBlocks(s.w);
    WellFormedIsRanked(s.w.blocks);
    HolderIsAlive(s, u);
    var b := s.w.users[u].block;
    Own.DisposeSane(MemoryOf(s), b, Holders(s), {});
    var t := Step(s, Disposing(u));
    forall c: nat ensures Holders(s)[c] == Holders(t)[c] + Single(b, c) {
      HeldGoes(s.w.users, s.gone, |s.w.users|, u, c);
    }
    assert Holders(t) == Holders(s) - multiset{b};
    CountersGrow(s.w, t.w.blocks);
    Runs.GrowsConsistent(s.w, t.w);
    LocksKept(s.w, t.w) by { Runs.WellFormedBlocks(t.w); }
  }

  lemma SplitKeepsSane(s: System, u: nat, position: nat)
    requires Sound(s) && Allowed(s, Splitting(u, position))
    ensures Own.Sane(MemoryOf(Step(s, Splitting(u, position))), Holders(Step(s, Splitting(u, position))), {})
  {
    hide Own.Balanced, Own.CallsRight, Runs.Consistent, Runs.LocksHeld, Split;
    HandlesInRange(s.w);
    var h := s.w.users[u];
    var t := Split(s.w.blocks, h, position);
    Own.SplitBlocks(s.w.blocks, h, position);
    HeldSame(s.w.users[u := t.left], s.w.users, s.gone, |s.w.users|);
    if t.result == Ok {
      HolderIsAlive(s, u);
      HeldMore(s.w.users[u := t.left], s.gone, t.right);
      Own.ReferencedSane(MemoryOf(s), h.block, Holders(s));
    }
  }

  /** Both halves are instances again, and nothing else changes. */
  lemma SplitGrows(w: Runs.World, u: nat, position: nat)
    requires Runs.Consistent(w) && Runs.Idle(w, u) && w.users[u].block < |w.blocks|
    requires SplitsExactly(w.blocks, w.users[u], position)
    ensures Runs.Grows(w, SplitWorld(w, u, position))
  {
    hide Text, BlockOk, Runs.StackOk, Runs.CompletedOk, Split, HandleOk, Remaining, WellFormed;
    var h := w.users[u];
    var t := Split(w.blocks, h, position);
    if t.result == Ok {
      SplitIsExact(w.blocks, h, position);
      Own.SplitBlocks(w.blocks, h, position);
      Runs.UsersKept(w, t.blocks);
    } else {
      RefusedSplitChangesNothing(w.blocks, h, position);
      Runs.NothingMoved(w.blocks);
    }
  }

  lemma SplitKeepsSound(s: System, u: nat, position: nat)
    requires Sound(s) && Allowed(s, Splitting(u, position))
    ensures Sound(Step(s, Splitting(u, position)))
    ensures Extends(s.w.blocks, Step(s, Splitting(u, position)).w.blocks)
  {
    hide Own.Sane, Runs.Consistent, Split, Runs.LocksHeld, Extends;
    HandlesInRange(s.w);
    SplitKeepsSane(s, u, position);
    SplitGrows(s.w, u, position);
    var t := Step(s, Splitting(u, position));
    Runs.GrowsConsistent(s.w, t.w);
    LocksKept(s.w, t.w);
  }

  lemma StepKeepsSound(s: System, a: Action)
    requires Sound(s) && Allowed(s, a)
    ensures Sound(Step(s, a)) && Extends(s.w.blocks, Step(s, a).w.blocks)
  {
    hide Sound, Extends, Step, Allowed;
    match a
    case Using(use) =>
      UseKeepsSound(s, use);
      UseExtends(s, use);
    case Splitting(u, position) => SplitKeepsSound(s, u, position);
    case Disposing(u) => DisposeKeepsSound(s, u);
  }

  lemma UseExtends(s: System, use: Runs.Action)
    requires Sound(s) && Allowed(s, Using(use))
    ensures Extends(s.w.blocks, Step(s, Using(use)).w.blocks)
  {
    hide Runs.Consistent, Runs.Allowed, Runs.Step, Own.Sane, Runs.LocksHeld;
    Runs.OthersExtend(s.w, use);
  }

  // Over runs.

  const START := System(Runs.World([], [], [], [], []), [], {})

  lemma SoundIsConsistent(s: System)
    requires Sound(s)
    ensures Runs.Consistent(s.w) && Runs.LocksHeld(s.w)
  {
    hide Runs.Consistent, Runs.LocksHeld, Own.Sane;
  }

  /** The systems some run reaches. */
  ghost predicate Reaches(actions: seq<Action>, s: System)
    decreases |actions|
  {
    if actions == [] then s == START
    else exists v ::
      && Reaches(actions[..|actions| - 1], v) && Runs.Consistent(v.w) && Allowed(v, actions[|actions| - 1])
      && s == Step(v, actions[|actions| - 1])
  }

  lemma StartIsSound()
    ensures Sound(START)
  {
    assert forall x: Own.Callback :: Own.Times([], x) == 0;
  }

  lemma {:induction false} EveryRunIsSound(actions: seq<Action>, s: System)
    requires Reaches(actions, s)
    ensures Sound(s)
    decreases |actions|
  {
    hide Sound, Step, Allowed, Runs.Consistent;
    if actions == [] {
      StartIsSound();
    } else {
      var last := actions[|actions| - 1];
      var v :| Reaches(actions[..|actions| - 1], v) && Runs.Consistent(v.w) && Allowed(v, last) && s == Step(v, last);
      EveryRunIsSound(actions[..|actions| - 1], v);
      StepKeepsSound(v, last);
    }
  }

  /** The invariant never stops a run: whatever is allowed next can be done. */
  lemma RunGoesOn(actions: seq<Action>, s: System, a: Action)
    requires Reaches(actions, s)
    ensures Runs.Consistent(s.w)
    ensures Allowed(s, a) ==> Reaches(actions + [a], Step(s, a))
  {
    hide Sound, Step, Allowed, Runs.Consistent;
    EveryRunIsSound(actions, s);
    SoundIsConsistent(s);
    assert (actions + [a])[..|actions|] == actions;
  }

  /** In every run every read that has completed returned exactly the bytes of its own text from its own position,
      as many as asked for or as are left, and EOF only at the end. */
  lemma EveryReadIsRight(actions: seq<Action>, s: System)
    requires Reaches(actions, s)
    ensures forall k :: 0 <= k < |s.w.log| ==>
      var c := s.w.log[k];
      && HandleOk(s.w.blocks, c.handle)
      && var text := Text(s.w.blocks, c.handle.block)[..c.handle.length];
      && (c.result == Eof <==> c.handle.current == |text|) && (c.result == Ok || c.result == Eof)
      && |c.bytes| == (if c.handle.current + c.want < |text| then c.want else |text| - c.handle.current)
      && c.bytes == text[c.handle.current..c.handle.current + |c.bytes|]
  {
    hide Runs.Consistent, Text, Reaches, Sound;
    EveryRunIsSound(actions, s);
    SoundIsConsistent(s);
    Runs.LogIsRight(s.w);
  }

  /** No run ends in a deadlock: while a read is in progress some thread can take a step. */
  lemma EveryRunCanGoOn(actions: seq<Action>, s: System, u: nat) returns (t: nat)
    requires Reaches(actions, s) && u < |s.w.stacks| && s.w.stacks[u] != []
    ensures Runs.Consistent(s.w) && Runs.CanAdvance(s.w, t) && Allowed(s, Using(Runs.Advancing(t)))
  {
    hide Runs.Consistent, Runs.LocksHeld, Runs.CanAdvance, Reaches, Own.Sane;
    EveryRunIsSound(actions, s);
    t := Runs.NoDeadlock(s.w, u);
    AdvancingIsNotGone(s, t);
  }

  lemma AdvancingIsNotGone(s: System, u: nat)
    requires Runs.Consistent(s.w) && GoneIsIdle(s) && Runs.CanAdvance(s.w, u)
    ensures u !in s.gone
  {
    hide Runs.Consistent;
  }

  // No read touches a released block.

  /** The block of every frame hangs under the block of the instance that is read. */
  lemma FrameIsReached(w: Runs.World, u: nat, i: nat)
    requires Runs.Consistent(w) && u < |w.stacks| && i < |w.stacks[u]|
    ensures u < |w.users| && w.stacks[u][i].block < |w.blocks|
    ensures i == 0 ==> w.stacks[u][0].block == w.users[u].block
    ensures i > 0 ==>
      && w.stacks[u][i - 1].block < |w.blocks| && w.blocks[w.stacks[u][i - 1].block].Multi?
      && w.stacks[u][i - 1].child.Some?
      && w.stacks[u][i].block == ChildOf(w.blocks[w.stacks[u][i - 1].block], w.stacks[u][i - 1].child.value).block
  {
    hide HandleOk, Text, BlockOk, Runs.StackOk, Runs.ChildFits;
    Runs.LinkedAt(w, u, i);
    if i > 0 {
      Runs.LinkedAt(w, u, i - 1);
      hide Runs.Consistent;
    }
  }

  lemma ChildIsReached(blocks: seq<Block>, b: nat, child: Child)
    requires Own.Ranked(blocks) && b < |blocks| && blocks[b].Multi?
    ensures ChildOf(blocks[b], child).block < b && Own.Reachable(blocks, b, ChildOf(blocks[b], child).block)
  {
  }

  lemma {:induction false} FrameIsAlive(s: System, u: nat, i: nat)
    requires Sound(s) && u < |s.w.stacks| && i < |s.w.stacks[u]|
    ensures s.w.stacks[u][i].block < |s.w.blocks| && s.w.blocks[s.w.stacks[u][i].block].refCount > 0
  {
    hide Runs.Consistent, Runs.LocksHeld, Own.CallsRight, Own.Balanced, Own.Reachable, Holders;
    FrameIsReached(s.w, u, i);
    if i == 0 {
      HolderIsAlive(s, u);
    } else {
      FrameIsAlive(s, u, i - 1);
      var f := s.w.stacks[u][i - 1];
      ChildIsReached(s.w.blocks, f.block, f.child.value);
      Own.ReachableIsAlive(MemoryOf(s), Holders(s), f.block, s.w.stacks[u][i].block);
    }
  }

  /** In every run, whatever is cloned, split or disposed of meanwhile: no block that a read in progress is on, or
      may still go to, has had a release callback. */
  lemma ReadsStayOnLiveBlocks(actions: seq<Action>, s: System, u: nat, i: nat, c: nat)
    requires Reaches(actions, s) && u < |s.w.stacks| && i < |s.w.stacks[u]|
    ensures Own.Ranked(s.w.blocks) && s.w.stacks[u][i].block < |s.w.blocks|
    ensures Own.Reachable(s.w.blocks, s.w.stacks[u][i].block, c) ==>
      && c < |s.w.blocks| && s.w.blocks[c].refCount > 0
      && Own.Times(s.calls, Own.DataRelease(c)) == 0 && Own.Times(s.calls, Own.BlockRelease(c)) == 0
  {
    hide Runs.Consistent, Runs.LocksHeld, Own.CallsRight, Own.Balanced, Own.Reachable, Holders, Own.Times, Reaches;
    EveryRunIsSound(actions, s);
    FrameIsAlive(s, u, i);
    if Own.Reachable(s.w.blocks, s.w.stacks[u][i].block, c) {
      Own.ReachableIsAlive(MemoryOf(s), Holders(s), s.w.stacks[u][i].block, c);
    }
  }

  /** And each release callback was made exactly once, when the last reference went, the data's before the control
      block's. */
  lemma EveryRunReleasesOnce(actions: seq<Action>, s: System)
    requires Reaches(actions, s)
    ensures forall b: nat :: b < |s.w.blocks| ==>
      && Own.Times(s.calls, Own.DataRelease(b))
         == (if s.w.blocks[b].dataRelease && s.w.blocks[b].refCount == 0 then 1 else 0)
      && Own.Times(s.calls, Own.BlockRelease(b))
         == (if s.w.blocks[b].Leaf? && s.w.blocks[b].blockRelease && s.w.blocks[b].refCount == 0 then 1 else 0)
    ensures Own.DataFirst(MemoryOf(s))
    ensures (forall u :: 0 <= u < |s.w.users| ==> u in s.gone) ==>
      forall b :: 0 <= b < |s.w.blocks| ==> s.w.blocks[b].refCount == 0
  {
    hide Runs.Consistent, Runs.LocksHeld, Own.CallsRight, Own.Balanced, Own.Times, Reaches, Held;
    EveryRunIsSound(actions, s);
    Own.CallsAre(MemoryOf(s));
    if forall u :: 0 <= u < |s.w.users| ==> u in s.gone {
      NoHolders(s.w.users, s.gone, |s.w.users|);
      Own.NothingLeaks(MemoryOf(s), 0);
    }
  }

  lemma {:induction false} NoHolders(users: seq<Handle>, gone: set<nat>, n: nat)
    requires n <= |users| && forall u :: 0 <= u < n ==> u in gone
    ensures Held(users, gone, n) == multiset{}
  {
    if n > 0 { NoHolders(users, gone, n - 1); }
  }

  // No endless read.

  lemma StepKeepsWork(s: System, a: Action, u: nat)
    requires Sound(s) && Allowed(s, a) && u < |s.w.stacks| && s.w.stacks[u] != []
    ensures Runs.Consistent(s.w) && Runs.Consistent(Step(s, a).w) && u < |Step(s, a).w.stacks|
    ensures a != Using(Runs.Advancing(u)) ==>
      Step(s, a).w.stacks[u] == s.w.stacks[u] && Runs.WorkOf(Step(s, a).w, u) == Runs.WorkOf(s.w, u)
    ensures a == Using(Runs.Advancing(u)) ==> Runs.WorkOf(Step(s, a).w, u) < Runs.WorkOf(s.w, u)
  {
    hide Sound, Runs.Consistent, Runs.Allowed, Runs.Step, Runs.WorkOf, Extends, Split, Own.Dispose, SplitsExactly;
    SoundIsConsistent(s);
    StepKeepsSound(s, a);
    SoundIsConsistent(Step(s, a));
    if a.Using? {
      Runs.StepKeepsWork(s.w, a.use, u);
    } else {
      Runs.WorkStays(s.w, Step(s, a).w, u);
    }
  }

  /** From s to t while the read of handle u is in progress: every action begins before its end. */
  ghost predicate During(s: System, actions: seq<Action>, t: System, u: nat)
    decreases |actions|
  {
    if actions == [] then t == s
    else exists v ::
      && During(s, actions[..|actions| - 1], v, u) && Runs.Consistent(v.w)
      && u < |v.w.stacks| && v.w.stacks[u] != [] && Allowed(v, actions[|actions| - 1])
      && t == Step(v, actions[|actions| - 1])
  }

  /** The steps that the read of handle u takes itself. */
  function OwnSteps(actions: seq<Action>, u: nat): nat {
    if actions == [] then 0
    else OwnSteps(actions[..|actions| - 1], u) + if actions[|actions| - 1] == Using(Runs.Advancing(u)) then 1 else 0
  }

  lemma {:induction false} WorkRunsDown(s: System, actions: seq<Action>, t: System, u: nat)
    requires Sound(s) && u < |s.w.stacks| && During(s, actions, t, u)
    ensures Sound(t) && u < |t.w.stacks| && Runs.Consistent(s.w) && Runs.Consistent(t.w)
    ensures OwnSteps(actions, u) + Runs.WorkOf(t.w, u) <= Runs.WorkOf(s.w, u)
    decreases |actions|
  {
    hide Sound, Runs.Consistent, Step, Allowed, Runs.WorkOf;
    SoundIsConsistent(s);
    if actions != [] {
      var last := actions[|actions| - 1];
      var v :| During(s, actions[..|actions| - 1], v, u) && Runs.Consistent(v.w)
               && u < |v.w.stacks| && v.w.stacks[u] != [] && Allowed(v, last) && t == Step(v, last);
      WorkRunsDown(s, actions[..|actions| - 1], v, u);
      StepKeepsSound(v, last);
      StepKeepsWork(v, last, u);
    }
  }

  /** In every run, between its start and its end a read takes at most the cost of its block in steps of its own,
      whatever the others do meanwhile. */
  lemma ReadEnds(before: seq<Action>, s: System, u: nat, want: nat, actions: seq<Action>, t: System)
    requires Reaches(before, s) && Runs.Consistent(s.w) && Allowed(s, Using(Runs.Starting(u, want)))
    requires During(Step(s, Using(Runs.Starting(u, want))), actions, t, u)
    ensures u < |s.w.users| && OwnSteps(actions, u) <= Runs.Cost(s.w.blocks, s.w.users[u].block)
  {
    hide Sound, Runs.Consistent, Reaches, During, OwnSteps, Runs.WorkOf, Runs.Cost, Runs.NewFrame;
    EveryRunIsSound(before, s);
    StepKeepsSound(s, Using(Runs.Starting(u, want)));
    Runs.StartWork(s.w, u, want);
    WorkRunsDown(Step(s, Using(Runs.Starting(u, want))), actions, t, u);
  }

  /** The work of the first n handles. */
  function Total(w: Runs.World, n: nat): nat
    requires Runs.Consistent(w) && n <= |w.stacks|
  {
    if n == 0 then 0 else Total(w, n - 1) + Runs.WorkOf(w, n - 1)
  }

  lemma {:induction false} TotalRunsDown(w: Runs.World, u: nat, n: nat)
    requires Runs.Consistent(w) && Runs.CanAdvance(w, u) && n <= |w.stacks|
    ensures Runs.Consistent(Runs.Advance(w, u)) && n <= |Runs.Advance(w, u).stacks|
    ensures Total(Runs.Advance(w, u), n) + (if u < n then 1 else 0) <= Total(w, n)
  {
    hide Runs.Consistent, Runs.CanAdvance, Runs.Advance, Runs.WorkOf;
    Runs.AdvanceKeepsConsistent(w, u);
    Runs.AdvanceIsOwn(w, u);
    if n > 0 {
      TotalRunsDown(w, u, n - 1);
      WorkOfOther(w, u, n - 1);
    }
  }

  lemma WorkOfOther(w: Runs.World, u: nat, t: nat)
    requires Runs.Consistent(w) && Runs.CanAdvance(w, u) && t < |w.stacks|
    ensures Runs.Consistent(Runs.Advance(w, u)) && t < |Runs.Advance(w, u).stacks|
    ensures Runs.WorkOf(Runs.Advance(w, u), t) + (if t == u then 1 else 0) <= Runs.WorkOf(w, t)
  {
    hide Runs.Consistent, Runs.CanAdvance, Runs.Advance, Runs.WorkOf;
    Runs.AdvanceKeepsConsistent(w, u);
    Runs.AdvanceIsOwn(w, u);
    if t == u {
      CanAdvanceIsBusy(w, u);
      Runs.StepKeepsWork(w, Runs.Advancing(u), u);
    } else {
      Runs.OthersExtend(w, Runs.Advancing(u));
      Runs.WorkStays(w, Runs.Advance(w, u), t);
    }
  }

  lemma CanAdvanceIsBusy(w: Runs.World, u: nat)
    requires Runs.Consistent(w) && Runs.CanAdvance(w, u)
    ensures u < |w.stacks| && w.stacks[u] != []
  {
    hide Runs.Consistent;
  }

  /** A schedule: any choice of threads that can take a step, one after the other. */
  ghost predicate Schedules(w: Runs.World, threads: seq<nat>, v: Runs.World)
    requires Runs.Consistent(w)
    decreases |threads|
  {
    if threads == [] then v == w
    else
      && Runs.CanAdvance(w, threads[0])
      && (Runs.AdvanceKeepsConsistent(w, threads[0]); Schedules(Runs.Advance(w, threads[0]), threads[1..], v))
  }

  /** Left to themselves the reads of a world all end, under every schedule: it takes no more steps than the work
      there is, and where no thread can go on no read is in progress. */
  lemma {:induction false} EveryScheduleEnds(w: Runs.World, threads: seq<nat>, v: Runs.World)
    requires Runs.Consistent(w) && Runs.LocksHeld(w) && Schedules(w, threads, v)
    ensures Runs.Consistent(v) && |v.stacks| == |w.stacks|
    ensures |threads| + Total(v, |v.stacks|) <= Total(w, |w.stacks|)
    ensures (forall t: nat :: !Runs.CanAdvance(v, t)) ==> forall u :: 0 <= u < |v.stacks| ==> v.stacks[u] == []
    decreases |threads|
  {
    hide Runs.Consistent, Runs.CanAdvance, Runs.Advance, Runs.LocksHeld, Total;
    if threads == [] {
      forall u | 0 <= u < |v.stacks| && (forall t: nat :: !Runs.CanAdvance(v, t)) ensures v.stacks[u] == [] {
        if v.stacks[u] != [] { var t := Runs.NoDeadlock(v, u); }
      }
    } else {
      Runs.AdvanceKeepsLocksHeld(w, threads[0]);
      Runs.AdvanceIsOwn(w, threads[0]);
      CanAdvanceIsBusy(w, threads[0]);
      TotalRunsDown(w, threads[0], |w.stacks|);
      EveryScheduleEnds(Runs.Advance(w, threads[0]), threads[1..], v);
    }
  }
}
