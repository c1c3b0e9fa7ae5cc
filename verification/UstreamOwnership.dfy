/** Reference counts and release callbacks over every sequence of init, clone, concat, split and dispose. */
module UstreamOwnership {
  import opened UstreamSpec

  datatype Callback = DataRelease(block: nat) | BlockRelease(block: nat)

  /** The control blocks ever made, and the callbacks made so far. */
  datatype Memory = Memory(blocks: seq<Block>, calls: seq<Callback>)

  /** The callbacks of a block that goes away; a multi's control block is part of its data. */
  function CallsOf(blocks: seq<Block>, b: nat): seq<Callback>
    requires b < |blocks|
  {
    (if blocks[b].dataRelease then [DataRelease(b)] else [])
    + (if blocks[b].Leaf? && blocks[b].blockRelease then [BlockRelease(b)] else [])
  }

  function WithRefs(b: Block, refs: int): Block {
    match b
    case Leaf(data, _, dataRelease, blockRelease) => Leaf(data, refs, dataRelease, blockRelease)
    case Multi(one, two, oneRefs, twoRefs, _, dataRelease) => Multi(one, two, oneRefs, twoRefs, refs, dataRelease)
  }

  predicate Ranked(blocks: seq<Block>) {
    forall b :: 0 <= b < |blocks| && blocks[b].Multi? ==> blocks[b].one.block < b && blocks[b].two.block < b
  }

  /** Only counters differ. */
  predicate OnlyCounters(a: Block, b: Block) {
    match a
    case Leaf(data, _, dataRelease, blockRelease) => b.Leaf? && b == Leaf(data, b.refCount, dataRelease, blockRelease)
    case Multi(one, two, _, _, _, dataRelease) =>
      b.Multi? && b == Multi(one, two, b.oneRefs, b.twoRefs, b.refCount, dataRelease)
  }

  predicate Counted(a: seq<Block>, b: seq<Block>) {
    |a| == |b| && forall i :: 0 <= i < |a| ==> OnlyCounters(a[i], b[i])
  }

  /** Only counters differ, and none above block b. */
  predicate CountedTo(a: seq<Block>, b: seq<Block>, n: nat) {
    Counted(a, b) && forall i :: n < i < |a| ==> b[i] == a[i]
  }

  lemma CountedIsRanked(a: seq<Block>, b: seq<Block>)
    requires Counted(a, b) && Ranked(a)
    ensures Ranked(b)
  {
    forall i | 0 <= i < |b| && b[i].Multi? ensures b[i].one.block < i && b[i].two.block < i {
      assert OnlyCounters(a[i], b[i]);
    }
  }

  lemma CountedTwice(a: seq<Block>, b: seq<Block>, c: seq<Block>, n: nat, m: nat)
    requires CountedTo(a, b, n) && CountedTo(b, c, m) && m <= n
    ensures CountedTo(a, c, n)
  {
    forall i | 0 <= i < |a| ensures OnlyCounters(a[i], c[i]) {
      assert OnlyCounters(a[i], b[i]) && OnlyCounters(b[i], c[i]);
    }
  }

  /** The reference is given up last; at zero the block goes away. */
  function DropBlock(m: Memory, b: nat): (r: Memory)
    requires b < |m.blocks|
    ensures CountedTo(m.blocks, r.blocks, b)
  {
    var blocks := m.blocks[b := WithRefs(m.blocks[b], m.blocks[b].refCount - 1)];
    Memory(blocks, if blocks[b].refCount == 0 then m.calls + CallsOf(blocks, b) else m.calls)
  }

  /** A multi gives up its children's counters first. */
  function DropCounters(blocks: seq<Block>, b: nat): (r: seq<Block>)
    requires b < |blocks| && blocks[b].Multi?
    ensures CountedTo(blocks, r, b)
  {
    blocks[b := blocks[b].(oneRefs := blocks[b].oneRefs - 1, twoRefs := blocks[b].twoRefs - 1)]
  }

  /** Dispose of a handle on block b, with the recursion into the children. */
  function Dispose(m: Memory, b: nat): (r: Memory)
    requires b < |m.blocks| && Ranked(m.blocks)
    ensures CountedTo(m.blocks, r.blocks, b)
    decreases b
  {
    if m.blocks[b].Leaf? then DropBlock(m, b)
    else
      var one, two := m.blocks[b].one.block, m.blocks[b].two.block;
      var m0 := Memory(DropCounters(m.blocks, b), m.calls);
      CountedIsRanked(m.blocks, m0.blocks);
      var m1 := if m0.blocks[b].oneRefs == 0 then Dispose(m0, one) else m0;
      CountedIsRanked(m0.blocks, m1.blocks);
      var m2 := if m1.blocks[b].twoRefs == 0 then Dispose(m1, two) else m1;
      CountedTwice(m0.blocks, m1.blocks, m2.blocks, b, b);
      CountedTwice(m.blocks, m0.blocks, m2.blocks, b, b);
      CountedTwice(m.blocks, m2.blocks, DropBlock(m2, b).blocks, b, b);
      DropBlock(m2, b)
  }

  // The balance of references.

  /** How many child slots of a block hold a reference to block c. */
  function Kids(b: Block, c: nat): nat {
    if b.Leaf? then 0
    else (if b.oneRefs > 0 && b.one.block == c then 1 else 0) + (if b.twoRefs > 0 && b.two.block == c then 1 else 0)
  }

  function Children(blocks: seq<Block>, c: nat): nat {
    if blocks == [] then 0 else Children(blocks[..|blocks| - 1], c) + Kids(blocks[|blocks| - 1], c)
  }

  lemma {:induction false} ChildrenUpdate(blocks: seq<Block>, b: nat, x: Block, c: nat)
    requires b < |blocks|
    ensures Children(blocks[b := x], c) + Kids(blocks[b], c) == Children(blocks, c) + Kids(x, c)
  {
    hide Kids;
    var n := |blocks| - 1;
    if b == n {
      assert blocks[b := x][..n] == blocks[..n];
    } else {
      ChildrenUpdate(blocks[..n], b, x, c);
      assert blocks[b := x][..n] == blocks[..n][b := x];
    }
  }

  /** Every reference count is the number of handles outside plus the child slots that hold a reference;
      the three counters of a multi agree, but for the multis being disposed of, whose own count is one ahead. */
  predicate Balanced(blocks: seq<Block>, holders: multiset<nat>, busy: set<nat>) {
    && (forall b :: 0 <= b < |blocks| ==> blocks[b].refCount == holders[b] + Children(blocks, b))
    && (forall b :: 0 <= b < |blocks| && blocks[b].Multi? ==>
         && blocks[b].oneRefs == blocks[b].twoRefs >= 0
         && blocks[b].refCount == blocks[b].oneRefs + if b in busy then 1 else 0)
  }

  function Times(calls: seq<Callback>, x: Callback): nat {
    if calls == [] then 0 else Times(calls[..|calls| - 1], x) + if calls[|calls| - 1] == x then 1 else 0
  }

  lemma {:induction false} TimesConcat(a: seq<Callback>, b: seq<Callback>, x: Callback)
    ensures Times(a + b, x) == Times(a, x) + Times(b, x)
  {
    if b == [] {
      assert a + b == a;
    } else {
      TimesConcat(a, b[..|b| - 1], x);
      assert (a + b)[..|a + b| - 1] == a + b[..|b| - 1];
    }
  }

  function Due(b: Block, x: Callback): nat {
    match x
    case DataRelease(_) => if b.dataRelease && b.refCount == 0 then 1 else 0
    case BlockRelease(_) => if b.Leaf? && b.blockRelease && b.refCount == 0 then 1 else 0
  }

  /** The data of a block goes before its control block. */
  predicate DataFirst(m: Memory) {
    forall i :: 0 <= i < |m.calls| && m.calls[i].BlockRelease? ==>
      && m.calls[i].block < |m.blocks|
      && (m.blocks[m.calls[i].block].dataRelease ==> DataRelease(m.calls[i].block) in m.calls[..i])
  }

  /** Each callback was made exactly once for the blocks without references, and never for the others, and in the
      right order. */
  ghost predicate CallsRight(m: Memory) {
    && DataFirst(m)
    && forall x: Callback :: Times(m.calls, x) == if x.block < |m.blocks| then Due(m.blocks[x.block], x) else 0
  }

  lemma MoreCallsDataFirst(m: Memory, blocks: seq<Block>, b: nat)
    requires DataFirst(m) && |blocks| == |m.blocks| && b < |blocks|
    requires forall i :: 0 <= i < |blocks| ==> blocks[i].dataRelease == m.blocks[i].dataRelease
    ensures DataFirst(Memory(blocks, m.calls + CallsOf(blocks, b)))
  {
    var calls := m.calls + CallsOf(blocks, b);
    forall i | 0 <= i < |calls| && calls[i].BlockRelease?
      ensures calls[i].block < |blocks|
      ensures blocks[calls[i].block].dataRelease ==> DataRelease(calls[i].block) in calls[..i]
    {
      if i < |m.calls| {
        assert calls[..i] == m.calls[..i];
      } else if blocks[b].dataRelease {
        assert calls[|m.calls|] == DataRelease(b) && calls[..i][|m.calls|] == DataRelease(b);
      }
    }
  }

  ghost predicate Sane(m: Memory, holders: multiset<nat>, busy: set<nat>) {
    Ranked(m.blocks) && Balanced(m.blocks, holders, busy) && CallsRight(m)
  }

  /** The same balance with other counters of block b. */
  lemma BalanceUpdate(blocks: seq<Block>, b: nat, x: Block, before: multiset<nat>, after: multiset<nat>,
                      busyBefore: set<nat>, busyAfter: set<nat>)
    requires b < |blocks| && Balanced(blocks, before, busyBefore)
    requires x.refCount - blocks[b].refCount == after[b] + Kids(x, b) - before[b] - Kids(blocks[b], b)
    requires forall c: nat :: c != b ==> after[c] + Kids(x, c) == before[c] + Kids(blocks[b], c)
    requires forall c :: c != b ==> (c in busyAfter <==> c in busyBefore)
    requires x.Multi? ==> x.oneRefs == x.twoRefs >= 0 && x.refCount == x.oneRefs + if b in busyAfter then 1 else 0
    ensures Balanced(blocks[b := x], after, busyAfter)
  {
    hide Kids, Children;
    forall c | 0 <= c < |blocks|
      ensures blocks[b := x][c].refCount == after[c] + Children(blocks[b := x], c)
    {
      ChildrenUpdate(blocks, b, x, c);
    }
  }

  lemma SameKids(b: Block, refs: int)
    ensures forall c: nat :: Kids(WithRefs(b, refs), c) == Kids(b, c)
  {
  }

  lemma DropBlockSane(m: Memory, b: nat, holders: multiset<nat>, busyBefore: set<nat>, busy: set<nat>)
    requires b < |m.blocks| && Sane(m, holders, busyBefore) && holders[b] > 0
    requires b !in busy && (busyBefore == if m.blocks[b].Multi? then busy + {b} else busy)
    ensures Sane(DropBlock(m, b), holders - multiset{b}, busy)
  {
    hide Kids, Children, CallsRight;
    var x := WithRefs(m.blocks[b], m.blocks[b].refCount - 1);
    SameKids(m.blocks[b], m.blocks[b].refCount - 1);
    BalanceUpdate(m.blocks, b, x, holders, holders - multiset{b}, busyBefore, busy);
    DropBlockCalls(m, b);
  }

  lemma DropBlockCalls(m: Memory, b: nat)
    requires b < |m.blocks| && Ranked(m.blocks) && CallsRight(m) && m.blocks[b].refCount > 0
    ensures CallsRight(DropBlock(m, b))
  {
    var r := DropBlock(m, b);
    var more := CallsOf(r.blocks, b);
    MoreCallsDataFirst(m, r.blocks, b);
    forall x: Callback ensures Times(r.calls, x) == if x.block < |r.blocks| then Due(r.blocks[x.block], x) else 0 {
      assert Times(m.calls, x) == if x.block < |m.blocks| then Due(m.blocks[x.block], x) else 0;
      if r.blocks[b].refCount == 0 {
        TimesConcat(m.calls, more, x);
        TimesOfCalls(r.blocks, b, x);
      }
    }
  }

  lemma TimesOfCalls(blocks: seq<Block>, b: nat, x: Callback)
    requires b < |blocks| && blocks[b].refCount == 0
    ensures Times(CallsOf(blocks, b), x) == if x.block == b then Due(blocks[b], x) else 0
  {
    var first := if blocks[b].dataRelease then [DataRelease(b)] else [];
    var second := if blocks[b].Leaf? && blocks[b].blockRelease then [BlockRelease(b)] else [];
    TimesConcat(first, second, x);
    TimesOfOne(DataRelease(b), x);
    TimesOfOne(BlockRelease(b), x);
    hide Times;
  }

  lemma TimesOfOne(c: Callback, x: Callback)
    ensures Times([c], x) == (if c == x then 1 else 0) && Times([], x) == 0
  {
    assert [c][..0] == [];
  }

  lemma SameDue(m: Memory, b: nat, x: Block)
    requires b < |m.blocks| && CallsRight(m) && OnlyCounters(m.blocks[b], x)
    requires x.refCount == 0 <==> m.blocks[b].refCount == 0
    ensures CallsRight(Memory(m.blocks[b := x], m.calls))
  {
    forall y: Callback
      ensures Times(m.calls, y) == if y.block < |m.blocks| then Due(m.blocks[b := x][y.block], y) else 0
    {
      assert Times(m.calls, y) == if y.block < |m.blocks| then Due(m.blocks[y.block], y) else 0;
    }
  }

  /** When the counters reach zero both child slots stop holding; their references are now outside. */
  lemma DropCountersSane(m: Memory, b: nat, holders: multiset<nat>, busy: set<nat>)
    requires b < |m.blocks| && m.blocks[b].Multi? && Sane(m, holders, busy) && b !in busy && holders[b] > 0
    ensures var m0 := Memory(DropCounters(m.blocks, b), m.calls);
      && m0.blocks[b].oneRefs == m0.blocks[b].twoRefs
      && Sane(m0, if m0.blocks[b].oneRefs == 0
                  then holders + multiset{m.blocks[b].one.block} + multiset{m.blocks[b].two.block}
                  else holders,
              busy + {b})
  {
    var x := m.blocks[b].(oneRefs := m.blocks[b].oneRefs - 1, twoRefs := m.blocks[b].twoRefs - 1);
    var after := if x.oneRefs == 0 then holders + multiset{x.one.block} + multiset{x.two.block} else holders;
    assert m.blocks[b].refCount >= 1;
    BalanceUpdate(m.blocks, b, x, holders, after, busy, busy + {b});
    SameDue(m, b, x);
  }

  /** Disposing of a handle keeps the balance, with that handle gone. */
  lemma {:induction false} DisposeSane(m: Memory, b: nat, holders: multiset<nat>, busy: set<nat>)
    requires b < |m.blocks| && Sane(m, holders, busy) && holders[b] > 0
    requires forall c :: c in busy ==> c > b
    ensures Sane(Dispose(m, b), holders - multiset{b}, busy)
    decreases b
  {
    hide Balanced, CallsRight, DropBlock, Children;
    if m.blocks[b].Leaf? {
      DropBlockSane(m, b, holders, busy, busy);
    } else {
      var one, two := m.blocks[b].one.block, m.blocks[b].two.block;
      var m0 := Memory(DropCounters(m.blocks, b), m.calls);
      DropCountersSane(m, b, holders, busy);
      if m0.blocks[b].oneRefs == 0 {
        var outside := holders + multiset{one} + multiset{two};
        DisposeSane(m0, one, outside, busy + {b});
        var m1 := Dispose(m0, one);
        DisposeSane(m1, two, outside - multiset{one}, busy + {b});
        assert outside - multiset{one} - multiset{two} == holders;
        DropBlockSane(Dispose(m1, two), b, holders, busy + {b}, busy);
      } else {
        DropBlockSane(m0, b, holders, busy + {b}, busy);
      }
    }
  }

  // Runs of whole operations.

  datatype World = World(m: Memory, users: seq<Handle>)

  datatype Action =
    | Creating(data: seq<byte>, dataRelease: bool, blockRelease: bool)
    | Cloning(u: nat, offset: nat)
    | Joining(u: nat, other: nat, dataRelease: bool)
    | Splitting(u: nat, position: nat)
    | Disposing(u: nat)

  /** Clients name handles they have; concat has two operands, and its clone is accepted. */
  predicate Allowed(w: World, a: Action) {
    match a
    case Creating(data, _, _) => 0 < |data| < SIZE_T
    case Cloning(u, _) => u < |w.users|
    case Joining(u, other, _) =>
      u < |w.users| && other < |w.users| && u != other && CloneAccepted(w.users[other], w.users[u].length)
    case Splitting(u, _) => u < |w.users|
    case Disposing(u) => u < |w.users|
  }

  function Step(w: World, a: Action): World
    requires Placed(w) && Allowed(w, a)
  {
    match a
    case Creating(data, dataRelease, blockRelease) =>
      var (blocks, h) := Init(w.m.blocks, data, dataRelease, blockRelease);
      World(Memory(blocks, w.m.calls), w.users + [h])
    case Cloning(u, offset) =>
      if !CloneAccepted(w.users[u], offset) then w
      else
        var (blocks, h) := Clone(w.m.blocks, w.users[u], offset);
        World(Memory(blocks, w.m.calls), w.users + [h])
    case Joining(u, other, dataRelease) =>
      var (blocks, h) := Concat(w.m.blocks, w.users[u], w.users[other], dataRelease);
      World(Memory(blocks, w.m.calls), w.users[u := h])
    case Splitting(u, position) =>
      var s := Split(w.m.blocks, w.users[u], position);
      World(Memory(s.blocks, w.m.calls), w.users[u := s.left] + if s.result == Ok then [s.right] else [])
    case Disposing(u) =>
      World(Dispose(w.m, w.users[u].block), w.users[..u] + w.users[u + 1..])
  }

  predicate Placed(w: World) {
    Ranked(w.m.blocks) && forall u :: 0 <= u < |w.users| ==> w.users[u].block < |w.m.blocks|
  }

  function BlocksOf(users: seq<Handle>): (s: seq<nat>)
    ensures |s| == |users| && forall i :: 0 <= i < |users| ==> s[i] == users[i].block
  {
    seq(|users|, i requires 0 <= i < |users| => users[i].block)
  }

  ghost predicate Owned(w: World) { Placed(w) && Sane(w.m, multiset(BlocksOf(w.users)), {}) }

  lemma HeldIsAlive(w: World, u: nat)
    requires Owned(w) && u < |w.users|
    ensures multiset(BlocksOf(w.users))[w.users[u].block] > 0 && w.m.blocks[w.users[u].block].refCount > 0
  {
    hide CallsRight;
    assert BlocksOf(w.users)[u] in BlocksOf(w.users);
  }

  /** A block takes one more reference for one more holder. */
  lemma ReferencedSane(m: Memory, b: nat, holders: multiset<nat>)
    requires b < |m.blocks| && Sane(m, holders, {}) && m.blocks[b].refCount > 0
    ensures Sane(Memory(m.blocks[b := Referenced(m.blocks[b])], m.calls), holders + multiset{b}, {})
  {
    var x := Referenced(m.blocks[b]);
    assert forall c: nat :: Kids(x, c) == Kids(m.blocks[b], c);
    hide Kids, Children;
    BalanceUpdate(m.blocks, b, x, holders, holders + multiset{b}, {}, {});
    SameDue(m, b, x);
  }

  lemma {:induction false} ChildrenZero(blocks: seq<Block>, c: nat)
    requires forall i :: 0 <= i < |blocks| ==> Kids(blocks[i], c) == 0
    ensures Children(blocks, c) == 0
  {
    if blocks != [] { ChildrenZero(blocks[..|blocks| - 1], c); }
  }

  lemma {:induction false} ChildrenPositive(blocks: seq<Block>, i: nat, c: nat)
    requires i < |blocks| && Kids(blocks[i], c) > 0
    ensures Children(blocks, c) > 0
  {
    if i < |blocks| - 1 { ChildrenPositive(blocks[..|blocks| - 1], i, c); }
  }

  /** A new block with one reference, held from outside; what its child slots hold was held before. */
  lemma AppendSane(m: Memory, x: Block, before: multiset<nat>, after: multiset<nat>)
    requires Sane(m, before, {}) && before[|m.blocks|] == 0
    requires x.refCount == 1
    requires x.Multi? ==> x.oneRefs == 1 && x.twoRefs == 1 && x.one.block < |m.blocks| && x.two.block < |m.blocks|
    requires after[|m.blocks|] == 1 && forall c: nat :: c < |m.blocks| ==> after[c] + Kids(x, c) == before[c]
    ensures Sane(Memory(m.blocks + [x], m.calls), after, {})
  {
    var n := |m.blocks|;
    var blocks := m.blocks + [x];
    assert blocks[..n] == m.blocks;
    ChildrenZero(m.blocks, n);
    assert forall c: nat :: Children(blocks, c) == Children(m.blocks, c) + Kids(x, c);
    hide Kids, Children;
    assert Balanced(blocks, after, {});
    forall y: Callback ensures Times(m.calls, y) == if y.block < |blocks| then Due(blocks[y.block], y) else 0 {
      assert Times(m.calls, y) == if y.block < |m.blocks| then Due(m.blocks[y.block], y) else 0;
    }
  }

  lemma HeldBelow(w: World)
    requires Placed(w)
    ensures multiset(BlocksOf(w.users))[|w.m.blocks|] == 0
  {
    assert |w.m.blocks| !in BlocksOf(w.users);
  }

  lemma CreateKeepsOwned(w: World, a: Action)
    requires Owned(w) && a.Creating? && Allowed(w, a)
    ensures Owned(Step(w, a))
  {
    hide Balanced, CallsRight;
    var v := Step(w, a);
    HeldBelow(w);
    assert BlocksOf(v.users) == BlocksOf(w.users) + [|w.m.blocks|];
    AppendSane(w.m, Leaf(a.data, 1, a.dataRelease, a.blockRelease), multiset(BlocksOf(w.users)),
        multiset(BlocksOf(v.users)));
  }

  lemma CloneKeepsOwned(w: World, a: Action)
    requires Owned(w) && a.Cloning? && Allowed(w, a)
    ensures Owned(Step(w, a))
  {
    hide Balanced, CallsRight;
    var v := Step(w, a);
    if CloneAccepted(w.users[a.u], a.offset) {
      HeldIsAlive(w, a.u);
      assert BlocksOf(v.users) == BlocksOf(w.users) + [w.users[a.u].block];
      ReferencedSane(w.m, w.users[a.u].block, multiset(BlocksOf(w.users)));
      assert multiset(BlocksOf(v.users)) == multiset(BlocksOf(w.users)) + multiset{w.users[a.u].block};
    }
  }

  lemma JoinKeepsOwned(w: World, a: Action)
    requires Owned(w) && a.Joining? && Allowed(w, a)
    ensures Owned(Step(w, a))
  {
    hide Balanced, CallsRight, Kids;
    var v := Step(w, a);
    var g, h := w.users[a.u], w.users[a.other];
    var held := multiset(BlocksOf(w.users));
    HeldIsAlive(w, a.u);
    HeldIsAlive(w, a.other);
    HeldBelow(w);
    ReferencedSane(w.m, h.block, held);
    var m := Memory(w.m.blocks[h.block := Referenced(w.m.blocks[h.block])], w.m.calls);
    var x := Multi(g, CloneOf(h, g.length), 1, 1, 1, a.dataRelease);
    var after := multiset(BlocksOf(v.users));
    assert BlocksOf(v.users) == BlocksOf(w.users)[a.u := |w.m.blocks|];
    assert after == held - multiset{g.block} + multiset{|w.m.blocks|};
    JoinedKids(g.block, h.block, x);
    AppendSane(m, x, held + multiset{h.block}, after);
  }

  lemma JoinedKids(g: nat, h: nat, x: Block)
    requires x.Multi? && x.one.block == g && x.two.block == h && x.oneRefs == 1 && x.twoRefs == 1
    ensures forall c: nat :: Kids(x, c) == (if c == g then 1 else 0) + if c == h then 1 else 0
  {
  }

  lemma SplitKeepsOwned(w: World, a: Action)
    requires Owned(w) && a.Splitting? && Allowed(w, a)
    ensures Owned(Step(w, a))
  {
    hide Balanced, CallsRight;
    var v := Step(w, a);
    var h := w.users[a.u];
    var s := Split(w.m.blocks, h, a.position);
    SplitBlocks(w.m.blocks, h, a.position);
    assert BlocksOf(w.users[a.u := s.left]) == BlocksOf(w.users);
    if s.result == Ok {
      HeldIsAlive(w, a.u);
      ReferencedSane(w.m, h.block, multiset(BlocksOf(w.users)));
      assert BlocksOf(v.users) == BlocksOf(w.users) + [h.block];
      assert multiset(BlocksOf(v.users)) == multiset(BlocksOf(w.users)) + multiset{h.block};
    } else {
      assert v.users == w.users[a.u := s.left];
    }
  }

  lemma SplitBlocks(blocks: seq<Block>, h: Handle, position: nat)
    requires h.block < |blocks|
    ensures var s := Split(blocks, h, position);
      && s.left.block == h.block
      && (if s.result == Ok
          then s.right.block == h.block && s.blocks == blocks[h.block := Referenced(blocks[h.block])]
          else s.blocks == blocks)
  {
    hide Minus, Plus;
  }

  lemma DisposeKeepsOwned(w: World, a: Action)
    requires Owned(w) && a.Disposing? && Allowed(w, a)
    ensures Owned(Step(w, a))
  {
    hide Balanced, CallsRight, Dispose;
    var v := Step(w, a);
    var s := BlocksOf(w.users);
    var b := w.users[a.u].block;
    HeldIsAlive(w, a.u);
    DisposeSane(w.m, b, multiset(s), {});
    assert s == s[..a.u] + [b] + s[a.u + 1..];
    assert BlocksOf(v.users) == s[..a.u] + s[a.u + 1..];
    assert multiset(BlocksOf(v.users)) == multiset(s) - multiset{b};
  }

  lemma StepKeepsOwned(w: World, a: Action)
    requires Owned(w) && Allowed(w, a)
    ensures Owned(Step(w, a))
  {
    match a
    case Creating(_, _, _) => CreateKeepsOwned(w, a);
    case Cloning(_, _) => CloneKeepsOwned(w, a);
    case Joining(_, _, _) => JoinKeepsOwned(w, a);
    case Splitting(_, _) => SplitKeepsOwned(w, a);
    case Disposing(_) => DisposeKeepsOwned(w, a);
  }

  const START := World(Memory([], []), [])

  ghost predicate Reaches(actions: seq<Action>, w: World)
    decreases |actions|
  {
    if actions == [] then w == START
    else exists v ::
      && Reaches(actions[..|actions| - 1], v) && Placed(v) && Allowed(v, actions[|actions| - 1])
      && w == Step(v, actions[|actions| - 1])
  }

  lemma {:induction false} EveryRunIsOwned(actions: seq<Action>, w: World)
    requires Reaches(actions, w)
    ensures Owned(w)
    decreases |actions|
  {
    if actions != [] {
      var last := actions[|actions| - 1];
      var v :| Reaches(actions[..|actions| - 1], v) && Placed(v) && Allowed(v, last) && w == Step(v, last);
      EveryRunIsOwned(actions[..|actions| - 1], v);
      StepKeepsOwned(v, last);
    }
  }

  predicate Reachable(blocks: seq<Block>, b: nat, c: nat)
    requires Ranked(blocks) && b < |blocks|
    decreases b
  {
    || b == c
    || (&& blocks[b].Multi?
        && (Reachable(blocks, blocks[b].one.block, c) || Reachable(blocks, blocks[b].two.block, c)))
  }

  /** No block that a handle can reach has had a callback. */
  lemma {:induction false} ReachableIsAlive(m: Memory, holders: multiset<nat>, b: nat, c: nat)
    requires Sane(m, holders, {}) && b < |m.blocks| && m.blocks[b].refCount > 0 && Reachable(m.blocks, b, c)
    ensures c < |m.blocks| && m.blocks[c].refCount > 0
    ensures Times(m.calls, DataRelease(c)) == 0 && Times(m.calls, BlockRelease(c)) == 0
    decreases b
  {
    if b == c {
      assert Times(m.calls, DataRelease(c)) == Due(m.blocks[c], DataRelease(c));
      assert Times(m.calls, BlockRelease(c)) == Due(m.blocks[c], BlockRelease(c));
    } else {
      hide CallsRight;
      var one, two := m.blocks[b].one.block, m.blocks[b].two.block;
      ChildrenPositive(m.blocks, b, one);
      ChildrenPositive(m.blocks, b, two);
      ReachableIsAlive(m, holders, if Reachable(m.blocks, one, c) then one else two, c);
    }
  }

  lemma {:induction false} CountedReach(a: seq<Block>, b: seq<Block>, from: nat, c: nat)
    requires Ranked(a) && Ranked(b) && Counted(a, b) && from < |a|
    ensures Reachable(b, from, c) == Reachable(a, from, c)
    decreases from
  {
    assert OnlyCounters(a[from], b[from]);
    if a[from].Multi? {
      CountedReach(a, b, a[from].one.block, c);
      CountedReach(a, b, a[from].two.block, c);
    }
  }

  /** All callbacks are of blocks reachable from b. */
  predicate CallsWithin(blocks: seq<Block>, b: nat, calls: seq<Callback>)
    requires Ranked(blocks) && b < |blocks|
  {
    forall x :: x in calls ==> Reachable(blocks, b, x.block)
  }

  lemma CallsWithinCounted(a: seq<Block>, b: seq<Block>, from: nat, calls: seq<Callback>)
    requires Ranked(a) && Ranked(b) && Counted(a, b) && from < |a| && CallsWithin(b, from, calls)
    ensures CallsWithin(a, from, calls)
  {
    forall x | x in calls ensures Reachable(a, from, x.block) { CountedReach(a, b, from, x.block); }
  }

  /** The callbacks of block b itself: the data's, which for a multi holds the control block as well, then the control
      block's, or none of them. */
  predicate OwnCalls(b: Block, n: nat, calls: seq<Callback>) {
    || calls == []
    || (calls == [DataRelease(n)] && b.dataRelease && (b.Leaf? ==> !b.blockRelease))
    || (calls == [BlockRelease(n)] && b.Leaf? && b.blockRelease && !b.dataRelease)
    || (calls == [DataRelease(n), BlockRelease(n)] && b.Leaf? && b.blockRelease && b.dataRelease)
  }

  lemma DropBlockOrder(m: Memory, last: Memory, b: nat) returns (own: seq<Callback>)
    requires b < |m.blocks| && Counted(m.blocks, last.blocks)
    ensures DropBlock(last, b).calls == last.calls + own && OwnCalls(m.blocks[b], b, own)
  {
    assert OnlyCounters(m.blocks[b], last.blocks[b]);
    own := if last.blocks[b].refCount == 1 then CallsOf(last.blocks, b) else [];
    assert CallsOf(last.blocks, b) == CallsOf(DropBlock(last, b).blocks, b);
  }

  /** What disposing of a child adds to the callbacks, in terms of the blocks at the start. */
  lemma ChildOrder(m: Memory, now: Memory, child: nat, b: nat) returns (calls: seq<Callback>)
    requires Ranked(m.blocks) && Ranked(now.blocks) && Counted(m.blocks, now.blocks) && child < b < |m.blocks|
    ensures Dispose(now, child).calls == now.calls + calls && CallsWithin(m.blocks, child, calls)
    ensures Counted(m.blocks, Dispose(now, child).blocks) && Ranked(Dispose(now, child).blocks)
    decreases b, 0
  {
    hide Dispose, CallsWithin, OwnCalls, Reachable;
    var x, y, z := DisposeOrder(now, child);
    calls := x + y + z;
    assert now.calls + x + y + z == now.calls + calls;
    CallsWithinCounted(m.blocks, now.blocks, child, calls);
    var after := Dispose(now, child);
    forall i | 0 <= i < |m.blocks| ensures OnlyCounters(m.blocks[i], after.blocks[i]) {
      assert OnlyCounters(m.blocks[i], now.blocks[i]) && OnlyCounters(now.blocks[i], after.blocks[i]);
    }
    CountedIsRanked(now.blocks, after.blocks);
  }

  lemma WithinBlock(blocks: seq<Block>, b: nat, one: seq<Callback>, two: seq<Callback>, own: seq<Callback>)
    requires Ranked(blocks) && b < |blocks| && OwnCalls(blocks[b], b, own)
    requires blocks[b].Leaf? ==> one == two == []
    requires blocks[b].Multi? ==>
      CallsWithin(blocks, blocks[b].one.block, one) && CallsWithin(blocks, blocks[b].two.block, two)
    ensures CallsWithin(blocks, b, one + two + own)
  {
    forall x | x in one + two + own ensures Reachable(blocks, b, x.block) {}
  }

  /** The callbacks of one dispose: those of the first child's blocks, of the second child's, and last the block's
      own. */
  lemma {:induction false} DisposeOrder(m: Memory, b: nat)
    returns (one: seq<Callback>, two: seq<Callback>, own: seq<Callback>)
    requires b < |m.blocks| && Ranked(m.blocks)
    ensures Dispose(m, b).calls == m.calls + one + two + own && OwnCalls(m.blocks[b], b, own)
    ensures m.blocks[b].Leaf? ==> one == two == []
    ensures m.blocks[b].Multi? ==>
      CallsWithin(m.blocks, m.blocks[b].one.block, one) && CallsWithin(m.blocks, m.blocks[b].two.block, two)
    ensures CallsWithin(m.blocks, b, one + two + own)
    decreases b, 1
  {
    hide CallsWithin, OwnCalls, Reachable, DropBlock;
    one, two := [], [];
    if m.blocks[b].Leaf? {
      own := DropBlockOrder(m, m, b);
    } else {
      var m0 := Memory(DropCounters(m.blocks, b), m.calls);
      CountedIsRanked(m.blocks, m0.blocks);
      NoCalls(m.blocks, m.blocks[b].one.block);
      NoCalls(m.blocks, m.blocks[b].two.block);
      var m1, m2 := m0, m0;
      if m0.blocks[b].oneRefs == 0 {
        one := ChildOrder(m, m0, m.blocks[b].one.block, b);
        m1 := Dispose(m0, m.blocks[b].one.block);
      }
      assert OnlyCounters(m.blocks[b], m1.blocks[b]);
      m2 := m1;
      if m1.blocks[b].twoRefs == 0 {
        two := ChildOrder(m, m1, m.blocks[b].two.block, b);
        m2 := Dispose(m1, m.blocks[b].two.block);
      }
      own := DropBlockOrder(m, m2, b);
    }
    WithinBlock(m.blocks, b, one, two, own);
  }

  lemma NoCalls(blocks: seq<Block>, b: nat)
    requires Ranked(blocks) && b < |blocks|
    ensures CallsWithin(blocks, b, [])
  {
  }

  /** When every handle is disposed of, every block is gone. */
  lemma {:induction false} NothingLeaks(m: Memory, b: nat)
    requires Sane(m, multiset{}, {}) && b <= |m.blocks|
    ensures forall c :: b <= c < |m.blocks| ==> m.blocks[c].refCount == 0
    decreases |m.blocks| - b
  {
    hide CallsRight;
    if b < |m.blocks| {
      NothingLeaks(m, b + 1);
      ChildrenZero(m.blocks, b);
    }
  }

  lemma CallsAre(m: Memory)
    requires CallsRight(m)
    ensures DataFirst(m)
    ensures forall b: nat :: b < |m.blocks| ==>
      && Times(m.calls, DataRelease(b)) == (if m.blocks[b].dataRelease && m.blocks[b].refCount == 0 then 1 else 0)
      && Times(m.calls, BlockRelease(b))
         == (if m.blocks[b].Leaf? && m.blocks[b].blockRelease && m.blocks[b].refCount == 0 then 1 else 0)
  {
    hide Times;
    forall b: nat | b < |m.blocks|
      ensures Times(m.calls, DataRelease(b)) == Due(m.blocks[b], DataRelease(b))
      ensures Times(m.calls, BlockRelease(b)) == Due(m.blocks[b], BlockRelease(b))
    {
    }
  }

  /** The callbacks asked for, block by block, in the order in which the blocks were made. */
  function Asked(actions: seq<Action>): seq<(bool, bool)> {
    if actions == [] then []
    else
      Asked(actions[..|actions| - 1])
      + match actions[|actions| - 1]
        case Creating(_, dataRelease, blockRelease) => [(dataRelease, blockRelease)]
        case Joining(_, _, dataRelease) => [(dataRelease, false)]
        case _ => []
  }

  predicate AsAsked(b: Block, asked: (bool, bool)) {
    b.dataRelease == asked.0 && if b.Leaf? then b.blockRelease == asked.1 else !asked.1
  }

  lemma StepAsks(w: World, a: Action, n: nat)
    requires Placed(w) && Allowed(w, a) && n == |w.m.blocks|
    ensures var v := Step(w, a);
      && n <= |v.m.blocks|
      && (forall b :: 0 <= b < n ==> forall x :: AsAsked(v.m.blocks[b], x) <==> AsAsked(w.m.blocks[b], x))
      && match a
         case Creating(_, dataRelease, blockRelease) =>
           |v.m.blocks| == n + 1 && AsAsked(v.m.blocks[n], (dataRelease, blockRelease))
         case Joining(_, _, dataRelease) => |v.m.blocks| == n + 1 && AsAsked(v.m.blocks[n], (dataRelease, false))
         case _ => |v.m.blocks| == n
  {
    match a
    case Splitting(u, position) => SplitBlocks(w.m.blocks, w.users[u], position);
    case Disposing(u) =>
      var v := Step(w, a);
      assert forall b :: 0 <= b < n ==> OnlyCounters(w.m.blocks[b], v.m.blocks[b]);
    case _ =>
  }

  /** Over every run each block has the callbacks that were given when it was made. */
  lemma {:induction false} EveryRunAsks(actions: seq<Action>, w: World)
    requires Reaches(actions, w)
    ensures |w.m.blocks| == |Asked(actions)|
    ensures forall b :: 0 <= b < |w.m.blocks| ==> AsAsked(w.m.blocks[b], Asked(actions)[b])
    decreases |actions|
  {
    hide Step;
    if actions != [] {
      var last := actions[|actions| - 1];
      var v :| Reaches(actions[..|actions| - 1], v) && Placed(v) && Allowed(v, last) && w == Step(v, last);
      EveryRunAsks(actions[..|actions| - 1], v);
      StepAsks(v, last, |v.m.blocks|);
    }
  }

  /** Over every run: every block reachable from a handle is alive, each callback was made once when the block's last
      reference went, the data's before the control block's, and with no handle left all of them were. */
  lemma EveryRunReleasesOnce(actions: seq<Action>, w: World, u: nat, c: nat)
    requires Reaches(actions, w)
    ensures Owned(w)
    ensures u < |w.users| && Reachable(w.m.blocks, w.users[u].block, c) ==>
      c < |w.m.blocks| && w.m.blocks[c].refCount > 0
    ensures forall b: nat :: b < |w.m.blocks| ==>
      && Times(w.m.calls, DataRelease(b)) == (if w.m.blocks[b].dataRelease && w.m.blocks[b].refCount == 0 then 1 else 0)
      && Times(w.m.calls, BlockRelease(b))
         == (if w.m.blocks[b].Leaf? && w.m.blocks[b].blockRelease && w.m.blocks[b].refCount == 0 then 1 else 0)
    ensures DataFirst(w.m)
    ensures w.users == [] ==> forall b :: 0 <= b < |w.m.blocks| ==> w.m.blocks[b].refCount == 0
  {
    hide Balanced, Reaches, CallsRight, Times, Sane;
    EveryRunIsOwned(actions, w);
    CallsAre(w.m) by { assert CallsRight(w.m) by { OwnedCalls(w); } }
    if u < |w.users| && Reachable(w.m.blocks, w.users[u].block, c) { ReachesAlive(w, u, c); }
    if w.users == [] { NothingHeld(w); }
  }

  lemma OwnedCalls(w: World)
    requires Owned(w)
    ensures CallsRight(w.m)
  {
    hide CallsRight;
  }

  lemma ReachesAlive(w: World, u: nat, c: nat)
    requires Owned(w) && u < |w.users| && Reachable(w.m.blocks, w.users[u].block, c)
    ensures c < |w.m.blocks| && w.m.blocks[c].refCount > 0
  {
    hide CallsRight, Balanced, Reachable;
    HeldIsAlive(w, u);
    ReachableIsAlive(w.m, multiset(BlocksOf(w.users)), w.users[u].block, c);
  }

  lemma NothingHeld(w: World)
    requires Owned(w) && w.users == []
    ensures forall b :: 0 <= b < |w.m.blocks| ==> w.m.blocks[b].refCount == 0
  {
    hide CallsRight, Balanced;
    assert BlocksOf(w.users) == [];
    NothingLeaks(w.m, 0);
  }

  /** Reading moves cursors and nothing else, so it keeps the balance. */
  lemma CursorsKeepSane(m: Memory, blocks: seq<Block>, holders: multiset<nat>)
    requires Sane(m, holders, {}) && Extends(m.blocks, blocks) && |blocks| == |m.blocks|
    requires forall b :: 0 <= b < |blocks| ==> SameCounters(m.blocks[b], blocks[b])
    ensures Sane(Memory(blocks, m.calls), holders, {})
  {
    forall c: nat ensures Children(blocks, c) == Children(m.blocks, c) { CursorsKeepChildren(m.blocks, blocks, c); }
    forall b | 0 <= b < |blocks| ensures SameBlock(m.blocks[b], blocks[b]) {}
    hide Children;
    assert Balanced(blocks, holders, {});
    forall y: Callback ensures Times(m.calls, y) == if y.block < |blocks| then Due(blocks[y.block], y) else 0 {
      assert Times(m.calls, y) == if y.block < |m.blocks| then Due(m.blocks[y.block], y) else 0;
    }
  }

  predicate SameCounters(a: Block, b: Block) {
    && a.refCount == b.refCount && a.dataRelease == b.dataRelease
    && (a.Leaf? ==> b.Leaf? && a.blockRelease == b.blockRelease)
    && (a.Multi? ==> b.Multi? && a.oneRefs == b.oneRefs && a.twoRefs == b.twoRefs)
  }

  lemma {:induction false} CursorsKeepChildren(a: seq<Block>, b: seq<Block>, c: nat)
    requires Extends(a, b) && |a| == |b| && forall i :: 0 <= i < |a| ==> SameCounters(a[i], b[i])
    ensures Children(a, c) == Children(b, c)
  {
    var n := |a| - 1;
    if n >= 0 {
      assert SameBlock(a[n], b[n]);
      forall i | 0 <= i < n ensures SameBlock(a[..n][i], b[..n][i]) { assert SameBlock(a[i], b[i]); }
      CursorsKeepChildren(a[..n], b[..n], c);
    }
  }
}
