/** Reads by many threads over shared blocks, one lock operation at a time.

    Each user handle has at most one read in progress, a stack of frames: reading a multi stream
    takes the block's lock, positions a child, reads it (a frame of its own when the child is a
    multi again), and gives the lock back.  The children's cursors are shared by every handle on
    the block. */
module UstreamRuns {
  import opened Common
  import opened UstreamSpec

  /** Where an instance lives: with a user, or in a multi block. */
  datatype Place = User(u: nat) | Slot(block: nat, child: Child)

  datatype Phase = Looping | Locked | Positioned | Reading

  /** A read in progress: `start` is the instance's position when it began, `got` the bytes already copied,
      `child` the current child or none. */
  datatype Frame = Frame(place: Place, block: nat, start: nat, want: nat, got: seq<byte>,
                         child: Option<Child>, phase: Phase, last: Result)

  datatype Completed = Completed(handle: Handle, want: nat, result: Result, bytes: seq<byte>)

  datatype World = World(blocks: seq<Block>, users: seq<Handle>, owner: seq<Option<nat>>,
                         stacks: seq<seq<Frame>>, log: seq<Completed>)

  predicate Shaped(w: World) { |w.owner| == |w.blocks| && |w.stacks| == |w.users| }

  predicate PlaceOk(w: World, p: Place) {
    match p
    case User(u) => u < |w.users|
    case Slot(b, _) => b < |w.blocks| && w.blocks[b].Multi?
  }

  function At(w: World, p: Place): Handle
    requires PlaceOk(w, p)
  {
    match p
    case User(u) => w.users[u]
    case Slot(b, child) => ChildOf(w.blocks[b], child)
  }

  function Put(w: World, p: Place, h: Handle): World
    requires PlaceOk(w, p)
  {
    match p
    case User(u) => w.(users := w.users[u := h])
    case Slot(b, child) => w.(blocks := w.blocks[b := WithChild(w.blocks[b], child, h)])
  }

  function Top(stack: seq<Frame>): Frame
    requires stack != []
  {
    stack[|stack| - 1]
  }

  function SetTop(w: World, u: nat, f: Frame): World
    requires u < |w.stacks| && w.stacks[u] != []
  {
    w.(stacks := w.stacks[u := w.stacks[u][..|w.stacks[u]| - 1] + [f]])
  }

  /** The frame of a new read on an instance. */
  function NewFrame(w: World, p: Place, want: nat): Frame
    requires PlaceOk(w, p) && At(w, p).block < |w.blocks|
  {
    var h := At(w, p);
    var child := match w.blocks[h.block]
      case Leaf(_, _, _, _) => None
      case Multi(one, _, _, _, _, _) => if h.current < one.length then Some(One) else Some(Two);
    Frame(p, h.block, h.current, want, [], child, Looping, Ok)
  }

  /** The switch after a child's read. */
  function Delivered(f: Frame, result: Result, bytes: seq<byte>): Frame {
    var got := if result == Ok then f.got + bytes else f.got;
    var next := f.(got := got, last := result, phase := Looping);
    if (result == Ok || result == Eof) && |got| < f.want then
      if f.child == Some(One) then next.(child := Some(Two), last := Ok) else next.(child := None)
    else next
  }

  /** A read returns: to the log, or to the frame below, which gives its lock back. */
  function Return(w: World, u: nat, result: Result, bytes: seq<byte>, handle: Handle): World
    requires Shaped(w) && u < |w.stacks| && w.stacks[u] != []
  {
    var stack := w.stacks[u];
    var below := stack[..|stack| - 1];
    if below == [] then
      w.(stacks := w.stacks[u := []], log := w.log + [Completed(handle, stack[0].want, result, bytes)])
    else
      var parent := Top(below);
      w.(stacks := w.stacks[u := below[..|below| - 1] + [Delivered(parent, result, bytes)]],
         owner := if parent.block < |w.owner| then w.owner[parent.block := None] else w.owner)
  }

  /** The loop condition of the multi read. */
  predicate Continues(f: Frame) { f.last == Ok && |f.got| < f.want && f.child.Some? }

  // The invariant.

  predicate Moved(phase: Phase) { phase == Positioned || phase == Reading }

  /** The position and the child of a frame on a multi fit together. */
  predicate ChildFits(blocks: seq<Block>, f: Frame)
    requires f.block < |blocks| && blocks[f.block].Multi?
  {
    var b := blocks[f.block];
    var p := f.start + |f.got|;
    match f.child
    case None =>
      p == |Text(blocks, f.block)| && f.phase == Looping && f.last == if f.got == [] then Eof else f.last
    case Some(child) =>
      && Within(b, child, p) && f.last == Ok
      && (f.phase != Looping ==> |f.got| < f.want)
      && (Moved(f.phase) ==> ChildOf(b, child).current == Inner(b, child, p))
  }

  predicate FrameOk(w: World, f: Frame) {
    && f.block < |w.blocks| && PlaceOk(w, f.place)
    && At(w, f.place).block == f.block && At(w, f.place).current == f.start && HandleOk(w.blocks, At(w, f.place))
    && |f.got| <= f.want && 0 < f.want && (f.last == Ok || f.last == Eof)
    && f.start + |f.got| <= At(w, f.place).length
    && f.got == Text(w.blocks, f.block)[f.start..f.start + |f.got|]
    && if w.blocks[f.block].Leaf? then f.got == [] && f.phase == Looping && f.child == None
       else ChildFits(w.blocks, f)
  }

  /** Frame i is at the user's handle or at the child its parent reads, and holds its lock while it is past it. */
  predicate Linked(w: World, u: nat, stack: seq<Frame>, i: nat)
    requires i < |stack| && Shaped(w)
  {
    && FrameOk(w, stack[i])
    && (stack[i].phase == Reading <==> i < |stack| - 1)
    && (stack[i].phase != Looping ==> w.owner[stack[i].block] == Some(u))
    && if i == 0 then stack[i].place == User(u)
       else
         && stack[i - 1].child.Some? && stack[i].place == Slot(stack[i - 1].block, stack[i - 1].child.value)
         && |stack[i - 1].got| + stack[i].want == stack[i - 1].want
  }

  predicate StackOk(w: World, u: nat)
    requires Shaped(w) && u < |w.stacks|
  {
    forall i :: 0 <= i < |w.stacks[u]| ==> Linked(w, u, w.stacks[u], i)
  }

  /** Every completed read returned exactly its part of its own text. */
  predicate CompletedOk(blocks: seq<Block>, c: Completed) {
    && HandleOk(blocks, c.handle)
    && (c.result, c.bytes)
        == ReadResult(Slice(Text(blocks, c.handle.block), 0, c.handle.length), c.handle.current, c.want)
  }

  predicate Consistent(w: World) {
    && Shaped(w) && WellFormed(w.blocks)
    && (forall u :: 0 <= u < |w.users| ==> HandleOk(w.blocks, w.users[u]))
    && (forall u :: 0 <= u < |w.stacks| ==> StackOk(w, u))
    && forall k :: 0 <= k < |w.log| ==> CompletedOk(w.blocks, w.log[k])
  }

  // The steps of a read.

  lemma TopIsLinked(w: World, u: nat)
    requires Consistent(w) && u < |w.stacks| && w.stacks[u] != []
    ensures Linked(w, u, w.stacks[u], |w.stacks[u]| - 1)
  {
    hide Linked;
    assert StackOk(w, u);
  }

  /** The step needs a lock that is taken. */
  predicate Blocked(w: World, f: Frame)
    requires Shaped(w) && f.block < |w.blocks|
  {
    f.phase == Looping && w.blocks[f.block].Multi? && Continues(f) && w.owner[f.block] != None
  }

  predicate CanAdvance(w: World, u: nat)
    requires Consistent(w)
  {
    u < |w.stacks| && w.stacks[u] != [] && (TopIsLinked(w, u); !Blocked(w, Top(w.stacks[u])))
  }

  /** The next lock operation of the read on handle u. */
  function Advance(w: World, u: nat): World
    requires Consistent(w) && CanAdvance(w, u)
  {
    TopIsLinked(w, u);
    var f := Top(w.stacks[u]);
    var h := At(w, f.place);
    match f.phase
    case Looping =>
      if w.blocks[f.block].Leaf? then AdvanceLeaf(w, u, f)
      else if Continues(f) then SetTop(w.(owner := w.owner[f.block := Some(u)]), u, f.(phase := Locked))
      else AdvanceEnd(w, u, f)
    case Locked =>
      SetTop(MoveChild(w, f), u, f.(phase := Positioned))
    case Positioned =>
      assert BlockOk(w.blocks, f.block);
      var stack := w.stacks[u][..|w.stacks[u]| - 1] + [f.(phase := Reading)];
      w.(stacks := w.stacks[u := stack + [NewFrame(w, Slot(f.block, f.child.value), f.want - |f.got|)]])
    case Reading => w
  }

  /** The leaf's read, as in ReadResult with the instance's length. */
  function AdvanceLeaf(w: World, u: nat, f: Frame): World
    requires Shaped(w) && u < |w.stacks| && w.stacks[u] != [] && FrameOk(w, f)
  {
    var h := At(w, f.place);
    var (result, bytes) := ReadResult(Slice(Text(w.blocks, f.block), 0, h.length), h.current, f.want);
    Return(Put(w, f.place, h.(current := h.current + |bytes|)), u, result, bytes, h)
  }

  /** The end of the loop of a multi's read. */
  function AdvanceEnd(w: World, u: nat, f: Frame): World
    requires Shaped(w) && u < |w.stacks| && w.stacks[u] != [] && FrameOk(w, f)
  {
    var h := At(w, f.place);
    if |f.got| != 0 then Return(Put(w, f.place, h.(current := Plus(h.current, |f.got|))), u, Ok, f.got, h)
    else Return(w, u, f.last, [], h)
  }

  /** set_position on the current child; its result is not looked at. */
  function MoveChild(w: World, f: Frame): World
    requires Shaped(w) && FrameOk(w, f) && f.child.Some?
  {
    var slot := Slot(f.block, f.child.value);
    Put(w, slot, SetPosition(At(w, slot), Plus(At(w, f.place).current, |f.got|)).0)
  }

  // What a step leaves alone.

  predicate SameCursors(a: Block, b: Block) {
    a.Multi? ==> b.Multi? && a.one.current == b.one.current && a.two.current == b.two.current
  }

  lemma FrameKept(w: World, v: World, f: Frame)
    requires FrameOk(w, f) && Extends(w.blocks, v.blocks) && PlaceOk(v, f.place) && At(v, f.place) == At(w, f.place)
    requires Moved(f.phase) ==> SameCursors(w.blocks[f.block], v.blocks[f.block])
    ensures FrameOk(v, f)
  {
    hide Text;
    HandleKept(w.blocks, v.blocks, At(w, f.place));
    TextKept(w.blocks, v.blocks, f.block);
    assert SameBlock(w.blocks[f.block], v.blocks[f.block]);
  }

  /** Blocks whose locks a thread holds keep their cursors, and so its frames stay right. */
  lemma StackKept(w: World, v: World, u: nat)
    requires Shaped(w) && Shaped(v) && u < |w.stacks| && u < |v.stacks| && StackOk(w, u)
    requires v.stacks[u] == w.stacks[u] && v.users[u] == w.users[u] && Extends(w.blocks, v.blocks)
    requires forall b :: 0 <= b < |w.blocks| && w.owner[b] == Some(u) ==>
      v.owner[b] == Some(u) && SameCursors(w.blocks[b], v.blocks[b])
    ensures StackOk(v, u)
  {
    hide FrameOk;
    var stack := w.stacks[u];
    forall i | 0 <= i < |stack| ensures Linked(v, u, stack, i) {
      assert Linked(w, u, stack, i);
      FramePlaces(w, stack[i]);
      if i > 0 {
        assert Linked(w, u, stack, i - 1);
        FramePlaces(w, stack[i - 1]);
        SlotKept(w, v, stack[i].place);
      }
      FrameKept(w, v, stack[i]);
    }
  }

  lemma FramePlaces(w: World, f: Frame)
    requires FrameOk(w, f)
    ensures f.block < |w.blocks| && PlaceOk(w, f.place)
  {
  }

  lemma SlotKept(w: World, v: World, p: Place)
    requires PlaceOk(w, p) && p.Slot? && Extends(w.blocks, v.blocks)
      && SameCursors(w.blocks[p.block], v.blocks[p.block])
    ensures PlaceOk(v, p) && At(v, p) == At(w, p)
  {
    assert SameBlock(w.blocks[p.block], v.blocks[p.block]);
  }

  /** Each frame reads a smaller block than the one below it. */
  lemma {:induction false} BlocksDecrease(w: World, u: nat, i: nat, j: nat)
    requires Consistent(w) && u < |w.stacks| && i < j < |w.stacks[u]|
    ensures w.stacks[u][j].block < w.stacks[u][i].block < |w.blocks|
    decreases j
  {
    hide Text, ChildFits;
    assert StackOk(w, u);
    assert Linked(w, u, w.stacks[u], j) && Linked(w, u, w.stacks[u], j - 1);
    assert BlockOk(w.blocks, w.stacks[u][j - 1].block);
    if i < j - 1 { BlocksDecrease(w, u, i, j - 1); }
  }

  /** The lower frames stay linked when the blocks they are on keep their locks and cursors. */
  lemma BelowKept(w: World, v: World, u: nat, k: nat)
    requires Consistent(w) && Shaped(v) && u < |w.stacks| && u < |v.stacks| && Extends(w.blocks, v.blocks)
    requires k < |w.stacks[u]| && k < |v.stacks[u]| && v.stacks[u][..k] == w.stacks[u][..k]
    requires k > 0 ==> v.users[u] == w.users[u]
    requires forall i :: 0 <= i < k ==>
      var b := w.stacks[u][i].block;
      b < |w.blocks| && v.owner[b] == w.owner[b] && SameCursors(w.blocks[b], v.blocks[b])
    ensures forall i :: 0 <= i < k ==> Linked(v, u, v.stacks[u], i)
  {
    hide FrameOk;
    var s, t := w.stacks[u], v.stacks[u];
    assert StackOk(w, u);
    forall i | 0 <= i < k ensures Linked(v, u, t, i) {
      assert Linked(w, u, s, i) && s[i] == t[i];
      FramePlaces(w, s[i]);
      if i > 0 {
        assert Linked(w, u, s, i - 1) && s[i - 1] == t[i - 1];
        FramePlaces(w, s[i - 1]);
        SlotKept(w, v, s[i].place);
      }
      FrameKept(w, v, s[i]);
    }
  }

  /** A step of thread u: the other stacks and handles are as before, and so are locks of others and what they guard. */
  predicate OwnStep(w: World, v: World, u: nat) {
    && Shaped(w) && Shaped(v) && |v.blocks| == |w.blocks| && |v.users| == |w.users| && u < |w.users|
    && (forall t :: 0 <= t < |w.users| && t != u ==> v.users[t] == w.users[t] && v.stacks[t] == w.stacks[t])
    && Extends(w.blocks, v.blocks) && WellFormed(v.blocks)
    && (forall b :: 0 <= b < |w.blocks| && w.owner[b].Some? && w.owner[b] != Some(u) ==>
         v.owner[b] == w.owner[b] && SameCursors(w.blocks[b], v.blocks[b]))
  }

  lemma OwnStepConsistent(w: World, v: World, u: nat)
    requires Consistent(w) && OwnStep(w, v, u) && HandleOk(v.blocks, v.users[u]) && StackOk(v, u)
    requires |v.log| >= |w.log| && v.log[..|w.log|] == w.log
    requires forall k :: |w.log| <= k < |v.log| ==> CompletedOk(v.blocks, v.log[k])
    ensures Consistent(v)
  {
    hide Linked, HandleOk, BlockOk;
    forall t | 0 <= t < |v.users| ensures HandleOk(v.blocks, v.users[t]) && StackOk(v, t) {
      if t != u {
        HandleKept(w.blocks, v.blocks, w.users[t]);
        StackKept(w, v, t);
      }
    }
    forall k | 0 <= k < |v.log| ensures CompletedOk(v.blocks, v.log[k]) {
      if k < |w.log| { assert v.log[k] == w.log[k]; CompletedKept(w.blocks, v.blocks, w.log[k]); }
    }
  }

  lemma CompletedKept(a: seq<Block>, b: seq<Block>, c: Completed)
    requires CompletedOk(a, c) && Extends(a, b)
    ensures CompletedOk(b, c)
  {
    hide Text;
    HandleKept(a, b, c.handle);
    TextKept(a, b, c.handle.block);
  }

  // Step by step.

  lemma LockStep(w: World, u: nat)
    requires Consistent(w) && CanAdvance(w, u)
    requires var f := Top(w.stacks[u]);
      f.block < |w.blocks| && f.phase == Looping && w.blocks[f.block].Multi? && Continues(f)
    ensures Consistent(Advance(w, u))
  {
    hide FrameOk, HandleOk, BlockOk, Text;
    TopIsLinked(w, u);
    var s := w.stacks[u];
    var f := Top(s);
    var v := Advance(w, u);
    var k := |s| - 1;
    BlocksBelow(w, u);
    BelowKept(w, v, u, k);
    LockedFrame(w, v, f);
    assert forall b :: 0 <= b < |w.blocks| ==> SameBlock(w.blocks[b], v.blocks[b]);
    assert Linked(v, u, v.stacks[u], k) by { assert k > 0 ==> v.stacks[u][k - 1] == s[k - 1]; }
    OwnStepConsistent(w, v, u);
  }

  /** Every frame below the top is on a block of its own. */
  lemma BlocksBelow(w: World, u: nat)
    requires Consistent(w) && u < |w.stacks| && w.stacks[u] != []
    ensures forall i :: 0 <= i < |w.stacks[u]| - 1 ==> Top(w.stacks[u]).block < w.stacks[u][i].block < |w.blocks|
  {
    hide Consistent;
    forall i | 0 <= i < |w.stacks[u]| - 1 ensures Top(w.stacks[u]).block < w.stacks[u][i].block < |w.blocks| {
      BlocksDecrease(w, u, i, |w.stacks[u]| - 1);
    }
  }

  lemma LockedFrame(w: World, v: World, f: Frame)
    requires FrameOk(w, f) && Continues(f) && f.phase == Looping && v.blocks == w.blocks && v.users == w.users
    ensures FrameOk(v, f.(phase := Locked))
  {
    hide Text, HandleOk;
  }

  function Repositioned(blocks: seq<Block>, b: nat, child: Child, current: nat): seq<Block>
    requires b < |blocks| && blocks[b].Multi?
  {
    blocks[b := WithChild(blocks[b], child, ChildOf(blocks[b], child).(current := current))]
  }

  lemma RepositionedIsWellFormed(blocks: seq<Block>, b: nat, child: Child, current: nat)
    requires WellFormed(blocks) && b < |blocks| && blocks[b].Multi?
    requires ChildOf(blocks[b], child).first <= current <= ChildOf(blocks[b], child).length
    ensures Extends(blocks, Repositioned(blocks, b, child, current))
      && WellFormed(Repositioned(blocks, b, child, current))
  {
    hide Text, BlockOk;
    var after := Repositioned(blocks, b, child, current);
    forall i | 0 <= i < |blocks| ensures CursorsOk(after[i]) { WellFormedCursors(blocks, i); }
    KeptIsWellFormed(blocks, after);
  }

  /** Positioning a child puts its cursor where the multi's position lies in it. */
  lemma MoveChildIs(w: World, f: Frame)
    requires Shaped(w) && WellFormed(w.blocks) && FrameOk(w, f) && f.child.Some?
    ensures var inner := Inner(w.blocks[f.block], f.child.value, f.start + |f.got|);
      && ChildOf(w.blocks[f.block], f.child.value).first <= inner <= ChildOf(w.blocks[f.block], f.child.value).length
      && MoveChild(w, f) == w.(blocks := Repositioned(w.blocks, f.block, f.child.value, inner))
  {
    hide Text;
    assert BlockOk(w.blocks, f.block);
    ChildPosition(w.blocks, f.block, f.child.value, f.start + |f.got|);
    assert Plus(f.start, |f.got|) == f.start + |f.got|;
    BaseIsFirst(w, f);
  }

  lemma BaseIsFirst(w: World, f: Frame)
    requires FrameOk(w, f) && w.blocks[f.block].Multi?
    ensures w.blocks[f.block].one.first <= f.start
  {
    hide Text;
  }

  lemma MoveStep(w: World, u: nat)
    requires Consistent(w) && CanAdvance(w, u) && Top(w.stacks[u]).phase == Locked
    ensures Consistent(Advance(w, u))
  {
    hide FrameOk, HandleOk, BlockOk, Text, SetPosition;
    TopIsLinked(w, u);
    var s := w.stacks[u];
    var f := Top(s);
    var v := Advance(w, u);
    var k := |s| - 1;
    ChildIsThere(w, f);
    var inner := Inner(w.blocks[f.block], f.child.value, f.start + |f.got|);
    MoveChildIs(w, f);
    RepositionedIsWellFormed(w.blocks, f.block, f.child.value, inner);
    BlocksBelow(w, u);
    BelowKept(w, v, u, k);
    if k > 0 {
      LinkedAt(w, u, k - 1);
      SlotKept(w, v, f.place);
    }
    MovedFrame(w, v, f);
    assert Linked(v, u, v.stacks[u], k) by { assert k > 0 ==> v.stacks[u][k - 1] == s[k - 1]; }
    HandleKept(w.blocks, v.blocks, w.users[u]);
    OwnStepConsistent(w, v, u);
  }

  lemma LinkedAt(w: World, u: nat, i: nat)
    requires Consistent(w) && u < |w.stacks| && i < |w.stacks[u]|
    ensures Linked(w, u, w.stacks[u], i)
  {
    hide Linked;
    assert StackOk(w, u);
  }

  lemma ChildIsThere(w: World, f: Frame)
    requires FrameOk(w, f) && f.phase != Looping
    ensures f.block < |w.blocks| && w.blocks[f.block].Multi? && f.child.Some? && PlaceOk(w, f.place)
    ensures Within(w.blocks[f.block], f.child.value, f.start + |f.got|) && |f.got| < f.want
  {
    hide Text;
  }

  lemma MovedFrame(w: World, v: World, f: Frame)
    requires FrameOk(w, f) && f.phase == Locked && f.child.Some? && w.blocks[f.block].Multi?
    requires Extends(w.blocks, v.blocks) && PlaceOk(v, f.place) && At(v, f.place) == At(w, f.place)
    requires Within(w.blocks[f.block], f.child.value, f.start + |f.got|)
    requires var inner := Inner(w.blocks[f.block], f.child.value, f.start + |f.got|);
      v.blocks == Repositioned(w.blocks, f.block, f.child.value, inner)
    ensures FrameOk(v, f.(phase := Positioned))
  {
    hide Text;
    HandleKept(w.blocks, v.blocks, At(w, f.place));
    TextKept(w.blocks, v.blocks, f.block);
  }

  lemma StartStep(w: World, u: nat)
    requires Consistent(w) && CanAdvance(w, u) && Top(w.stacks[u]).phase == Positioned
    ensures Consistent(Advance(w, u))
  {
    hide FrameOk, HandleOk, BlockOk, Text, NewFrame;
    TopIsLinked(w, u);
    var s := w.stacks[u];
    var f := Top(s);
    var v := Advance(w, u);
    var k := |s| - 1;
    ChildIsThere(w, f);
    BlocksBelow(w, u);
    assert forall b :: 0 <= b < |w.blocks| ==> SameBlock(w.blocks[b], v.blocks[b]);
    BelowKept(w, v, u, k);
    ReadingFrame(w, v, f);
    StartedFrame(w, v, f);
    var t := v.stacks[u];
    assert t == s[..k] + [f.(phase := Reading), NewFrame(w, Slot(f.block, f.child.value), f.want - |f.got|)];
    assert Linked(v, u, t, k) by { assert k > 0 ==> t[k - 1] == s[k - 1]; }
    assert Linked(v, u, t, k + 1);
    OwnStepConsistent(w, v, u);
  }

  lemma ReadingFrame(w: World, v: World, f: Frame)
    requires FrameOk(w, f) && f.phase == Positioned && v.blocks == w.blocks && v.users == w.users
    ensures FrameOk(v, f.(phase := Reading))
  {
    hide Text, HandleOk;
  }

  /** The child's read begins at the child's cursor. */
  lemma StartedFrame(w: World, v: World, f: Frame)
    requires WellFormed(w.blocks) && FrameOk(w, f) && f.phase == Positioned && v.blocks == w.blocks
      && v.users == w.users
    ensures f.child.Some? && w.blocks[f.block].Multi? && |f.got| < f.want
    ensures ChildOf(w.blocks[f.block], f.child.value).block < |w.blocks|
    ensures var n := NewFrame(w, Slot(f.block, f.child.value), f.want - |f.got|);
      && FrameOk(v, n) && n.place == Slot(f.block, f.child.value) && n.want == f.want - |f.got| && n.phase == Looping
  {
    hide Text;
    assert BlockOk(w.blocks, f.block);
    var h := ChildOf(w.blocks[f.block], f.child.value);
    assert BlockOk(w.blocks, h.block);
    assert HandleOk(w.blocks, h);
    if w.blocks[h.block].Multi? { TextLength(w.blocks, h.block); }
  }

  // A read returns.

  /** What the read of a frame shall return. */
  function Expected(w: World, f: Frame): (Result, seq<byte>)
    requires FrameOk(w, f)
  {
    ReadResult(Slice(Text(w.blocks, f.block), 0, At(w, f.place).length), f.start, f.want)
  }

  lemma ExpectedSize(w: World, f: Frame)
    requires FrameOk(w, f)
    ensures f.start + |Expected(w, f).1| <= At(w, f.place).length
    ensures Expected(w, f).1 == Text(w.blocks, f.block)[f.start..f.start + |Expected(w, f).1|]
    ensures |Expected(w, f).1| <= f.want
    ensures Expected(w, f).0 == Ok || (Expected(w, f).0 == Eof && Expected(w, f).1 == [])
    ensures |Expected(w, f).1| < f.want ==> f.start + |Expected(w, f).1| == At(w, f.place).length
    ensures Expected(w, f).0 == Ok ==> Expected(w, f).1 != []
  {
    hide Text;
  }

  /** The loop of a multi ends with all it should return. */
  lemma EndIsExpected(w: World, f: Frame)
    requires FrameOk(w, f) && w.blocks[f.block].Multi? && f.phase == Looping && !Continues(f)
    ensures Expected(w, f) == if |f.got| != 0 then (Ok, f.got) else (f.last, [])
  {
    hide Text;
    ReadOf(Text(w.blocks, f.block), At(w, f.place).length, f.start, f.got, f.want);
  }

  lemma ReadOf(text: seq<byte>, length: nat, start: nat, got: seq<byte>, want: nat)
    requires start + |got| <= length <= |text| && got == text[start..start + |got|]
    requires 0 < want && |got| <= want && (|got| < want ==> start + |got| == length)
    ensures ReadResult(Slice(text, 0, length), start, want) == if got == [] then (Eof, []) else (Ok, got)
  {
    PartOfSlice(text, 0, length, start, start + |got|);
  }

  /** The world after the top read of u returned the expected bytes. */
  function Finished(w: World, u: nat): World
    requires Shaped(w) && u < |w.stacks| && w.stacks[u] != [] && FrameOk(w, Top(w.stacks[u]))
  {
    var f := Top(w.stacks[u]);
    var h := At(w, f.place);
    var (result, bytes) := Expected(w, f);
    Return(Put(w, f.place, h.(current := h.current + |bytes|)), u, result, bytes, h)
  }

  lemma EndIsFinished(w: World, u: nat)
    requires Shaped(w) && u < |w.stacks| && w.stacks[u] != []
    requires var f := Top(w.stacks[u]);
      FrameOk(w, f) && f.phase == Looping && (w.blocks[f.block].Multi? ==> !Continues(f))
    ensures var f := Top(w.stacks[u]);
      (if w.blocks[f.block].Leaf? then AdvanceLeaf(w, u, f) else AdvanceEnd(w, u, f)) == Finished(w, u)
  {
    hide Text, Return, HandleOk;
    var f := Top(w.stacks[u]);
    if w.blocks[f.block].Multi? {
      EndIsExpected(w, f);
      var h := At(w, f.place);
      assert h.current + |f.got| < SIZE_T by { AtInRange(w, f); }
      if f.got == [] {
        assert h.(current := h.current + 0) == h;
        PutSame(w, f.place);
      }
    }
  }

  lemma AtInRange(w: World, f: Frame)
    requires FrameOk(w, f)
    ensures f.start + |f.got| <= At(w, f.place).length < SIZE_T
      && At(w, f.place).first <= f.start == At(w, f.place).current
    ensures HandleOk(w.blocks, At(w, f.place))
  {
    hide Text;
  }

  lemma PutSame(w: World, p: Place)
    requires PlaceOk(w, p)
    ensures Put(w, p, At(w, p)) == w
  {
  }

  /** The last frame: the read is complete, and right. */
  lemma FinishLast(w: World, u: nat)
    requires Consistent(w) && u < |w.stacks| && |w.stacks[u]| == 1 && w.stacks[u][0].phase == Looping
    ensures FrameOk(w, Top(w.stacks[u])) && Consistent(Finished(w, u))
  {
    hide Text, HandleOk, BlockOk, FrameOk;
    LinkedAt(w, u, 0);
    var f := w.stacks[u][0];
    var v := Finished(w, u);
    AtInRange(w, f);
    ExpectedSize(w, f);
    hide Expected;
    AdvancedHandle(w.blocks, At(w, f.place), At(w, f.place).current + |Expected(w, f).1|);
    assert forall b :: 0 <= b < |w.blocks| ==> SameBlock(w.blocks[b], v.blocks[b]);
    CompletedIsOk(w, f);
    OwnStepConsistent(w, v, u);
  }

  lemma AdvancedHandle(blocks: seq<Block>, h: Handle, current: nat)
    requires HandleOk(blocks, h) && h.current <= current <= h.length
    ensures HandleOk(blocks, h.(current := current))
  {
    hide Text;
  }

  lemma CompletedIsOk(w: World, f: Frame)
    requires FrameOk(w, f)
    ensures CompletedOk(w.blocks, Completed(At(w, f.place), f.want, Expected(w, f).0, Expected(w, f).1))
  {
    hide Text;
  }

  /** What the return of a child's read changes. */
  lemma FinishedChildIs(w: World, u: nat)
    requires Shaped(w) && u < |w.stacks| && |w.stacks[u]| > 1
    requires var s := w.stacks[u];
      var parent := s[|s| - 2];
      && FrameOk(w, Top(s)) && parent.block < |w.blocks| && w.blocks[parent.block].Multi? && parent.child.Some?
      && Top(s).place == Slot(parent.block, parent.child.value)
    ensures var s := w.stacks[u];
      var f, parent := Top(s), s[|s| - 2];
      var (result, bytes) := Expected(w, f);
      Finished(w, u) == World(Repositioned(w.blocks, parent.block, parent.child.value, f.start + |bytes|), w.users,
                              w.owner[parent.block := None],
                              w.stacks[u := s[..|s| - 2] + [Delivered(parent, result, bytes)]], w.log)
  {
    hide Text, HandleOk, Expected, Delivered;
    var s := w.stacks[u];
    assert s[..|s| - 1][..|s| - 2] == s[..|s| - 2];
  }

  /** The parent gets the bytes, moves to the next child if it needs more, and gives the lock back. */
  lemma FinishChild(w: World, u: nat)
    requires Consistent(w) && u < |w.stacks| && |w.stacks[u]| > 1 && Top(w.stacks[u]).phase == Looping
    ensures FrameOk(w, Top(w.stacks[u])) && Consistent(Finished(w, u))
  {
    hide Text, HandleOk, BlockOk, FrameOk, Expected, Delivered, Finished;
    var s := w.stacks[u];
    var k := |s| - 2;
    var f, parent := s[k + 1], s[k];
    LinkedAt(w, u, k + 1);
    LinkedAt(w, u, k);
    ChildIsThere(w, parent);
    AtInRange(w, f);
    ExpectedSize(w, f);
    FinishedChildIs(w, u);
    var v := Finished(w, u);
    RepositionedIsWellFormed(w.blocks, parent.block, parent.child.value, f.start + |Expected(w, f).1|);
    FramesApart(w, u, k);
    BelowKept(w, v, u, k);
    if k > 0 {
      LinkedAt(w, u, k - 1);
      SlotKept(w, v, parent.place);
    }
    DeliveredFrame(w, v, f, parent);
    LinkedOnTop(w, v, u, k);
    HandleKept(w.blocks, v.blocks, w.users[u]);
    OwnStepConsistent(w, v, u);
  }

  /** The parent is on top now, without its lock. */
  lemma LinkedOnTop(w: World, v: World, u: nat, k: nat)
    requires Shaped(w) && Shaped(v) && u < |w.stacks| && u < |v.stacks| && k < |w.stacks[u]| && |v.stacks[u]| == k + 1
    requires Linked(w, u, w.stacks[u], k) && FrameOk(v, v.stacks[u][k]) && v.stacks[u][..k] == w.stacks[u][..k]
    requires v.stacks[u][k].phase == Looping
    requires v.stacks[u][k].place == w.stacks[u][k].place && v.stacks[u][k].want == w.stacks[u][k].want
    ensures Linked(v, u, v.stacks[u], k)
  {
    hide FrameOk;
    assert k > 0 ==> v.stacks[u][k - 1] == w.stacks[u][k - 1];
  }

  lemma FramesApart(w: World, u: nat, k: nat)
    requires Consistent(w) && u < |w.stacks| && k < |w.stacks[u]|
    ensures forall i :: 0 <= i < k ==> w.stacks[u][k].block < w.stacks[u][i].block < |w.blocks|
  {
    hide Consistent;
    forall i | 0 <= i < k ensures w.stacks[u][k].block < w.stacks[u][i].block < |w.blocks| {
      BlocksDecrease(w, u, i, k);
    }
  }

  lemma DeliveredFrame(w: World, v: World, f: Frame, parent: Frame)
    requires WellFormed(w.blocks) && FrameOk(w, f) && FrameOk(w, parent) && parent.phase == Reading
    requires parent.child.Some? && f.place == Slot(parent.block, parent.child.value)
    requires |parent.got| + f.want == parent.want
    requires Extends(w.blocks, v.blocks) && PlaceOk(v, parent.place) && At(v, parent.place) == At(w, parent.place)
    ensures var next := Delivered(parent, Expected(w, f).0, Expected(w, f).1);
      && FrameOk(v, next) && next.place == parent.place && next.phase == Looping
      && next.want == parent.want && next.block == parent.block
  {
    hide Text, HandleOk, BlockOk, Within, Inner;
    var (result, bytes) := Expected(w, f);
    ExpectedSize(w, f);
    ChildIsThere(w, parent);
    AtInRange(w, parent);
    DeliveredText(w, f, parent);
    DeliveredFits(w, f, parent);
    var next := Delivered(parent, result, bytes);
    hide Expected, Delivered, ChildFits;
    DeliveredShape(parent, result, bytes);
    LengthIsText(w, parent);
    assert FrameOk(w, next);
    FrameKept(w, v, next);
  }

  lemma DeliveredShape(f: Frame, result: Result, bytes: seq<byte>)
    ensures var next := Delivered(f, result, bytes);
      && next.place == f.place && next.block == f.block && next.start == f.start && next.want == f.want
      && next.phase == Looping && next.got == (if result == Ok then f.got + bytes else f.got)
      && (next.last == Ok || next.last == result)
  {
  }

  /** The bytes of the child continue the parent's text. */
  lemma DeliveredText(w: World, f: Frame, parent: Frame)
    requires WellFormed(w.blocks) && FrameOk(w, f) && FrameOk(w, parent) && parent.phase == Reading
    requires parent.child.Some? && f.place == Slot(parent.block, parent.child.value)
    ensures var got := parent.got + Expected(w, f).1;
      && parent.start + |got| <= |Text(w.blocks, parent.block)|
      && got == Text(w.blocks, parent.block)[parent.start..parent.start + |got|]
  {
    hide Text, HandleOk;
    var p := parent.start + |parent.got|;
    var bytes := Expected(w, f).1;
    ExpectedSize(w, f);
    hide Expected;
    assert BlockOk(w.blocks, parent.block);
    ChildIsThere(w, parent);
    ChildText(w.blocks, parent.block, parent.child.value, p, p + |bytes|);
    JoinSlices(Text(w.blocks, parent.block), parent.start, p, p + |bytes|);
  }

  /** The next child begins where this one ended. */
  lemma DeliveredFits(w: World, f: Frame, parent: Frame)
    requires WellFormed(w.blocks) && FrameOk(w, f) && FrameOk(w, parent) && parent.phase == Reading
    requires parent.child.Some? && f.place == Slot(parent.block, parent.child.value)
      && |parent.got| + f.want == parent.want
    ensures ChildFits(w.blocks, Delivered(parent, Expected(w, f).0, Expected(w, f).1))
    ensures parent.start + |parent.got| + |Expected(w, f).1| <= |Text(w.blocks, parent.block)|
  {
    hide Text;
    ExpectedSize(w, f);
    var (result, bytes) := Expected(w, f);
    hide Expected;
    assert BlockOk(w.blocks, parent.block);
    TextLength(w.blocks, parent.block);
    hide HandleOk;
    ChildIsThere(w, parent);
  }

  lemma LengthIsText(w: World, f: Frame)
    requires FrameOk(w, f) && w.blocks[f.block].Multi?
    ensures At(w, f.place).length == |Text(w.blocks, f.block)|
  {
    hide Text;
  }

  lemma AdvanceKeepsConsistent(w: World, u: nat)
    requires Consistent(w) && CanAdvance(w, u)
    ensures Consistent(Advance(w, u))
  {
    hide FrameOk, BlockOk, Text, HandleOk, AdvanceLeaf, AdvanceEnd, Finished;
    TopIsLinked(w, u);
    var f := Top(w.stacks[u]);
    FramePlaces(w, f);
    match f.phase
    case Looping =>
      if w.blocks[f.block].Multi? && Continues(f) {
        LockStep(w, u);
      } else {
        EndIsFinished(w, u);
        if |w.stacks[u]| == 1 { FinishLast(w, u); } else { FinishChild(w, u); }
      }
    case Locked => MoveStep(w, u);
    case Positioned => StartStep(w, u);
    case Reading =>
  }

  // Everything the users can do.

  datatype Action =
    | Creating(data: seq<byte>, dataRelease: bool, blockRelease: bool)
    | Cloning(u: nat, offset: nat)
    | Joining(u: nat, other: nat, dataRelease: bool)
    | Seeking(u: nat, position: nat)
    | Resetting(u: nat)
    | Releasing(u: nat, position: nat)
    | Starting(u: nat, want: nat)
    | Advancing(u: nat)

  predicate Idle(w: World, u: nat) { u < |w.users| && u < |w.stacks| && w.stacks[u] == [] }

  /** One thread per handle; concat takes two different operands, the first with offset_diff 0, and its
      clone is accepted. */
  predicate Allowed(w: World, a: Action)
    requires Consistent(w)
  {
    match a
    case Creating(data, _, _) => 0 < |data| < SIZE_T
    case Cloning(u, offset) => Idle(w, u) && CloneAccepted(w.users[u], offset)
    case Joining(u, other, _) =>
      Idle(w, u) && Idle(w, other) && u != other && w.users[u].offsetDiff == 0
      && CloneAccepted(w.users[other], w.users[u].length)
    case Seeking(u, _) => Idle(w, u)
    case Resetting(u) => Idle(w, u)
    case Releasing(u, _) => Idle(w, u)
    case Starting(u, want) => Idle(w, u) && want > 0
    case Advancing(u) => CanAdvance(w, u)
  }

  function Step(w: World, a: Action): World
    requires Consistent(w) && Allowed(w, a)
  {
    match a
    case Creating(data, dataRelease, blockRelease) =>
      var (blocks, h) := Init(w.blocks, data, dataRelease, blockRelease);
      World(blocks, w.users + [h], w.owner + [None], w.stacks + [[]], w.log)
    case Cloning(u, offset) =>
      var (blocks, h) := Clone(w.blocks, w.users[u], offset);
      World(blocks, w.users + [h], w.owner, w.stacks + [[]], w.log)
    case Joining(u, other, dataRelease) =>
      var (blocks, h) := Concat(w.blocks, w.users[u], w.users[other], dataRelease);
      World(blocks, w.users[u := h], w.owner + [None], w.stacks, w.log)
    case Seeking(u, position) => w.(users := w.users[u := SetPosition(w.users[u], position).0])
    case Resetting(u) => w.(users := w.users[u := Reset(w.users[u])])
    case Releasing(u, position) => w.(users := w.users[u := ReleaseTo(w.users[u], position).0])
    case Starting(u, want) => w.(stacks := w.stacks[u := [NewFrame(w, User(u), want)]])
    case Advancing(u) => Advance(w, u)
  }

  /** Idle handles change, blocks and handles are added, locks and cursors stay. */
  predicate Grows(w: World, v: World) {
    && Shaped(w) && Shaped(v) && Extends(w.blocks, v.blocks) && WellFormed(v.blocks) && |v.users| >= |w.users|
    && (forall b :: 0 <= b < |w.blocks| ==> v.owner[b] == w.owner[b] && SameCursors(w.blocks[b], v.blocks[b]))
    && (forall t :: 0 <= t < |w.users| ==>
         v.stacks[t] == w.stacks[t] && (v.users[t] == w.users[t] || w.stacks[t] == []))
    && (forall t :: |w.users| <= t < |v.users| ==> v.stacks[t] == [])
    && (forall t :: 0 <= t < |v.users| ==> HandleOk(v.blocks, v.users[t]))
    && v.log == w.log
  }

  lemma GrowsConsistent(w: World, v: World)
    requires Consistent(w) && Grows(w, v)
    ensures Consistent(v)
  {
    hide Linked, HandleOk, BlockOk;
    forall t | 0 <= t < |v.users| ensures StackOk(v, t) {
      if t < |w.users| && w.stacks[t] != [] { StackKept(w, v, t); }
    }
    forall k | 0 <= k < |v.log| ensures CompletedOk(v.blocks, v.log[k]) {
      CompletedKept(w.blocks, v.blocks, w.log[k]);
    }
  }

  lemma UsersKept(w: World, blocks: seq<Block>)
    requires Consistent(w) && Extends(w.blocks, blocks)
    ensures forall t :: 0 <= t < |w.users| ==> HandleOk(blocks, w.users[t])
  {
    hide HandleOk, Extends;
    forall t | 0 <= t < |w.users| ensures HandleOk(blocks, w.users[t]) { HandleKept(w.blocks, blocks, w.users[t]); }
  }

  lemma HandleMovesOk(blocks: seq<Block>, h: Handle, position: nat)
    requires HandleOk(blocks, h)
    ensures HandleOk(blocks, SetPosition(h, position).0) && HandleOk(blocks, Reset(h))
      && HandleOk(blocks, ReleaseTo(h, position).0)
  {
    hide Text;
  }

  lemma CloneKeepsCursors(blocks: seq<Block>, h: Handle, offset: nat)
    requires h.block < |blocks| && CloneAccepted(h, offset)
    ensures |Clone(blocks, h, offset).0| == |blocks|
    ensures forall b :: 0 <= b < |blocks| ==> SameCursors(blocks[b], Clone(blocks, h, offset).0[b])
  {
  }

  lemma ConcatKeepsCursors(blocks: seq<Block>, g: Handle, h: Handle, dataRelease: bool)
    requires h.block < |blocks| && CloneAccepted(h, g.length)
    ensures |Concat(blocks, g, h, dataRelease).0| == |blocks| + 1
    ensures forall b :: 0 <= b < |blocks| ==> SameCursors(blocks[b], Concat(blocks, g, h, dataRelease).0[b])
  {
    CloneKeepsCursors(blocks, h, g.length);
    assert forall b :: 0 <= b < |blocks| ==> Concat(blocks, g, h, dataRelease).0[b] == Clone(blocks, h, g.length).0[b];
  }

  lemma CreateKeepsConsistent(w: World, data: seq<byte>, dataRelease: bool, blockRelease: bool)
    requires Consistent(w) && 0 < |data| < SIZE_T
    ensures Consistent(Step(w, Creating(data, dataRelease, blockRelease)))
  {
    hide HandleOk, BlockOk, Text, StackOk, CompletedOk;
    var v := Step(w, Creating(data, dataRelease, blockRelease));
    InitIsOk(w.blocks, data, dataRelease, blockRelease);
    UsersKept(w, v.blocks);
    GrowsConsistent(w, v);
  }

  lemma CloneKeepsConsistent(w: World, u: nat, offset: nat)
    requires Consistent(w) && Allowed(w, Cloning(u, offset))
    ensures Consistent(Step(w, Cloning(u, offset)))
  {
    hide HandleOk, BlockOk, Text, StackOk, CompletedOk, Clone;
    HandleInRange(w.blocks, w.users[u]);
    var v := Step(w, Cloning(u, offset));
    CloneIsOk(w.blocks, w.users[u], offset);
    CloneKeepsCursors(w.blocks, w.users[u], offset);
    UsersKept(w, v.blocks);
    GrowsConsistent(w, v);
  }

  lemma JoinKeepsConsistent(w: World, u: nat, other: nat, dataRelease: bool)
    requires Consistent(w) && Allowed(w, Joining(u, other, dataRelease))
    ensures Consistent(Step(w, Joining(u, other, dataRelease)))
  {
    hide HandleOk, BlockOk, Text, StackOk, CompletedOk, Concat;
    HandleInRange(w.blocks, w.users[other]);
    var v := Step(w, Joining(u, other, dataRelease));
    ConcatIsOk(w.blocks, w.users[u], w.users[other], dataRelease);
    ConcatKeepsCursors(w.blocks, w.users[u], w.users[other], dataRelease);
    UsersKept(w, v.blocks);
    GrowsConsistent(w, v);
  }

  lemma StepKeepsConsistent(w: World, a: Action)
    requires Consistent(w) && Allowed(w, a)
    ensures Consistent(Step(w, a))
  {
    hide HandleOk, BlockOk, Text, Advance, CanAdvance, StackOk, SetPosition, Reset, ReleaseTo, CompletedOk;
    var v := Step(w, a);
    match a
    case Creating(data, dataRelease, blockRelease) => CreateKeepsConsistent(w, data, dataRelease, blockRelease);
    case Cloning(u, offset) => CloneKeepsConsistent(w, u, offset);
    case Joining(u, other, dataRelease) => JoinKeepsConsistent(w, u, other, dataRelease);
    case Seeking(u, position) =>
      HandleMovesOk(w.blocks, w.users[u], position);
      MovedUser(w, v, u);
    case Resetting(u) =>
      HandleMovesOk(w.blocks, w.users[u], 0);
      MovedUser(w, v, u);
    case Releasing(u, position) =>
      HandleMovesOk(w.blocks, w.users[u], position);
      MovedUser(w, v, u);
    case Starting(u, want) => StartKeepsConsistent(w, u, want);
    case Advancing(u) => AdvanceKeepsConsistent(w, u);
  }

  lemma MovedUser(w: World, v: World, u: nat)
    requires Consistent(w) && Idle(w, u) && u < |v.users| && HandleOk(w.blocks, v.users[u])
    requires v == w.(users := w.users[u := v.users[u]])
    ensures Consistent(v)
  {
    hide HandleOk, BlockOk, StackOk, CompletedOk;
    assert forall b :: 0 <= b < |w.blocks| ==> SameBlock(w.blocks[b], v.blocks[b]);
    GrowsConsistent(w, v);
  }

  lemma StartKeepsConsistent(w: World, u: nat, want: nat)
    requires Consistent(w) && Idle(w, u) && want > 0
    ensures HandleOk(w.blocks, w.users[u]) && Consistent(Step(w, Starting(u, want)))
  {
    hide Text, BlockOk;
    var v := Step(w, Starting(u, want));
    var f := NewFrame(w, User(u), want);
    var h := w.users[u];
    assert BlockOk(w.blocks, h.block);
    if w.blocks[h.block].Multi? { TextLength(w.blocks, h.block); }
    assert FrameOk(v, f);
    hide HandleOk, FrameOk, NewFrame;
    assert forall b :: 0 <= b < |w.blocks| ==> SameBlock(w.blocks[b], v.blocks[b]);
    assert v.stacks[u] == [f] && f.place == User(u) && f.phase == Looping by { StartShape(w, u, want); }
    OwnStepConsistent(w, v, u);
  }

  lemma StartShape(w: World, u: nat, want: nat)
    requires u < |w.users| && w.users[u].block < |w.blocks|
    ensures NewFrame(w, User(u), want).place == User(u) && NewFrame(w, User(u), want).phase == Looping
  {
  }

  lemma LogIsRight(w: World)
    requires Consistent(w)
    ensures forall k :: 0 <= k < |w.log| ==> CompletedOk(w.blocks, w.log[k])
  {
  }

  // No deadlock, and no endless read.

  /** Thread u is past the lock of block b in frame i. */
  predicate HoldsLock(w: World, u: nat, i: nat, b: nat) {
    u < |w.stacks| && i < |w.stacks[u]| && w.stacks[u][i].block == b && w.stacks[u][i].phase != Looping
  }

  /** Every lock that is taken is taken by a read in progress. */
  ghost predicate LocksHeld(w: World)
    requires Shaped(w)
  {
    forall b :: 0 <= b < |w.owner| && w.owner[b].Some? ==> exists i: nat :: HoldsLock(w, w.owner[b].value, i, b)
  }

  /** The lock at the top changes hands, or a frame moves on within its phases. */
  lemma AdvanceKeepsLocksHeld(w: World, u: nat)
    requires Consistent(w) && LocksHeld(w) && CanAdvance(w, u)
    ensures Consistent(Advance(w, u)) && LocksHeld(Advance(w, u))
  {
    hide BlockOk, Text, HandleOk, AdvanceLeaf, AdvanceEnd, Finished, NewFrame, StackOk, SetPosition;
    AdvanceKeepsConsistent(w, u);
    TopIsLinked(w, u);
    var s := w.stacks[u];
    var k := |s| - 1;
    var f := s[k];
    var v := Advance(w, u);
    FramePlaces(w, f);
    if f.phase != Looping { ChildIsThere(w, f); }
    if f.phase == Looping && (w.blocks[f.block].Leaf? || !Continues(f)) {
      EndIsFinished(w, u);
      FinishKeepsLocksHeld(w, u);
    } else {
      hide FrameOk;
      assert |v.stacks[u]| >= |s| && v.stacks[u][..k] == s[..k];
      assert v.stacks[u][k].block == f.block && v.stacks[u][k].phase != Looping;
      assert forall t :: 0 <= t < |w.stacks| && t != u ==> v.stacks[t] == w.stacks[t];
      forall b | 0 <= b < |v.owner| && v.owner[b].Some? ensures exists i: nat :: HoldsLock(v, v.owner[b].value, i, b) {
        if w.owner[b].Some? {
          var i: nat :| HoldsLock(w, w.owner[b].value, i, b);
          assert i < k && w.owner[b].value == u ==> v.stacks[u][i] == s[i];
          assert HoldsLock(v, v.owner[b].value, i, b);
        } else {
          assert HoldsLock(v, u, k, b);
        }
      }
    }
  }

  lemma FinishKeepsLocksHeld(w: World, u: nat)
    requires Consistent(w) && LocksHeld(w) && u < |w.stacks| && w.stacks[u] != [] && Top(w.stacks[u]).phase == Looping
    ensures FrameOk(w, Top(w.stacks[u])) && Shaped(Finished(w, u)) && LocksHeld(Finished(w, u))
  {
    hide BlockOk, Text, HandleOk, FrameOk, Expected, Delivered;
    var s := w.stacks[u];
    var k := |s| - 1;
    LinkedAt(w, u, k);
    if k > 0 {
      LinkedAt(w, u, k - 1);
      ChildIsThere(w, s[k - 1]);
      FinishedChildIs(w, u);
      FramesApart(w, u, k - 1);
    }
    var v := Finished(w, u);
    forall b | 0 <= b < |v.owner| && v.owner[b].Some? ensures exists i: nat :: HoldsLock(v, v.owner[b].value, i, b) {
      var i: nat :| HoldsLock(w, w.owner[b].value, i, b);
      assert HoldsLock(v, v.owner[b].value, i, b);
    }
  }

  /** While any read is in progress some thread can take a step. */
  lemma NoDeadlock(w: World, u: nat) returns (t: nat)
    requires Consistent(w) && LocksHeld(w) && u < |w.stacks| && w.stacks[u] != []
    ensures CanAdvance(w, t)
    decreases Top(w.stacks[u]).block
  {
    hide BlockOk, Text, HandleOk, FrameOk;
    TopIsLinked(w, u);
    var f := Top(w.stacks[u]);
    FramePlaces(w, f);
    if Blocked(w, f) {
      var other := w.owner[f.block].value;
      var i: nat :| HoldsLock(w, other, i, f.block);
      var k := |w.stacks[other]| - 1;
      TopIsLinked(w, other);
      if i < k {
        BlocksDecrease(w, other, i, k);
        t := NoDeadlock(w, other);
      } else {
        t := other;
      }
    } else {
      t := u;
    }
  }

  lemma StepKeepsLocksHeld(w: World, a: Action)
    requires Consistent(w) && LocksHeld(w) && Allowed(w, a)
    ensures Consistent(Step(w, a)) && LocksHeld(Step(w, a))
  {
    hide BlockOk, Text, HandleOk, StackOk, CompletedOk, CanAdvance, Advance, NewFrame, SetPosition, Reset, ReleaseTo;
    StepKeepsConsistent(w, a);
    if a.Advancing? {
      AdvanceKeepsLocksHeld(w, a.u);
    } else {
      var v := Step(w, a);
      forall b | 0 <= b < |v.owner| && v.owner[b].Some? ensures exists i: nat :: HoldsLock(v, v.owner[b].value, i, b) {
        var i: nat :| HoldsLock(w, w.owner[b].value, i, b);
        assert HoldsLock(v, v.owner[b].value, i, b);
      }
    }
  }

  /** The most steps a read of the block can take: a child costs a lock, a set_position, a start and its own read. */
  function Cost(blocks: seq<Block>, b: nat): (n: nat)
    ensures n >= 1
  {
    if b >= |blocks| || blocks[b].Leaf? || blocks[b].one.block >= b || blocks[b].two.block >= b then 1
    else 1 + (3 + Cost(blocks, blocks[b].one.block)) + (3 + Cost(blocks, blocks[b].two.block))
  }

  /** What follows once the current child is read. */
  function After(blocks: seq<Block>, f: Frame): nat
    requires f.block < |blocks| && blocks[f.block].Multi?
  {
    if f.child == Some(One) then 4 + Cost(blocks, blocks[f.block].two.block) else 1
  }

  /** The steps a frame still takes, without those of the frames above it. */
  function Left(blocks: seq<Block>, f: Frame): (n: nat)
    requires f.block < |blocks|
  {
    if blocks[f.block].Leaf? || f.child.None? then 1
    else
      var child := Cost(blocks, ChildOf(blocks[f.block], f.child.value).block);
      match f.phase
      case Looping => if Continues(f) then 3 + child + After(blocks, f) else 1
      case Locked => 2 + child + After(blocks, f)
      case Positioned => 1 + child + After(blocks, f)
      case Reading => After(blocks, f)
  }

  function Work(blocks: seq<Block>, stack: seq<Frame>): nat
    requires forall f :: f in stack ==> f.block < |blocks|
  {
    if stack == [] then 0 else Work(blocks, stack[..|stack| - 1]) + Left(blocks, Top(stack))
  }

  lemma {:induction false} CostKept(a: seq<Block>, b: seq<Block>, i: nat)
    requires Extends(a, b) && i < |a|
    ensures Cost(a, i) == Cost(b, i)
    decreases i
  {
    assert SameBlock(a[i], b[i]);
    if a[i].Multi? && a[i].one.block < i && a[i].two.block < i {
      CostKept(a, b, a[i].one.block);
      CostKept(a, b, a[i].two.block);
    }
  }

  lemma LeftKept(a: seq<Block>, b: seq<Block>, f: Frame)
    requires Extends(a, b) && WellFormed(a) && f.block < |a|
    ensures Left(a, f) == Left(b, f)
  {
    hide Cost, Text, HandleOk;
    assert SameBlock(a[f.block], b[f.block]) && BlockOk(a, f.block);
    if a[f.block].Multi? {
      CostKept(a, b, a[f.block].one.block);
      CostKept(a, b, a[f.block].two.block);
    }
  }

  lemma {:induction false} WorkKept(a: seq<Block>, b: seq<Block>, stack: seq<Frame>)
    requires Extends(a, b) && WellFormed(a) && forall f :: f in stack ==> f.block < |a|
    ensures Work(a, stack) == Work(b, stack)
  {
    hide Left, WellFormed;
    if stack != [] {
      WorkKept(a, b, stack[..|stack| - 1]);
      LeftKept(a, b, Top(stack));
    }
  }

  lemma FramesInRange(w: World, u: nat)
    requires Consistent(w) && u < |w.stacks|
    ensures forall f :: f in w.stacks[u] ==> f.block < |w.blocks|
  {
    hide Consistent;
    forall i | 0 <= i < |w.stacks[u]| ensures w.stacks[u][i].block < |w.blocks| {
      assert w.stacks[u][i].block < |w.blocks| by {
        LinkedAt(w, u, i);
        FramePlaces(w, w.stacks[u][i]);
      }
    }
  }

  /** A new read has at most the cost of its block ahead of it. */
  lemma NewFrameCost(w: World, p: Place, want: nat)
    requires WellFormed(w.blocks) && PlaceOk(w, p) && At(w, p).block < |w.blocks|
    ensures Left(w.blocks, NewFrame(w, p, want)) <= Cost(w.blocks, At(w, p).block)
  {
    hide Text, HandleOk;
    assert BlockOk(w.blocks, At(w, p).block);
  }

  lemma WorkOfTwo(blocks: seq<Block>, below: seq<Frame>, f: Frame, g: Frame)
    requires (forall h :: h in below ==> h.block < |blocks|) && f.block < |blocks| && g.block < |blocks|
    ensures Work(blocks, below + [f]) == Work(blocks, below) + Left(blocks, f)
    ensures Work(blocks, below + [f, g]) == Work(blocks, below) + Left(blocks, f) + Left(blocks, g)
  {
    assert (below + [f])[..|below|] == below;
    assert (below + [f, g])[..|below| + 1] == below + [f];
  }

  /** After the child's bytes are in, no more is left to the parent than what followed that child. */
  lemma DeliveredLeft(blocks: seq<Block>, f: Frame, result: Result, bytes: seq<byte>)
    requires f.block < |blocks| && blocks[f.block].Multi? && f.child.Some? && f.phase == Reading
    requires |f.got| < f.want && (result == Ok || result == Eof) && (result == Ok ==> bytes != [])
    ensures Left(blocks, Delivered(f, result, bytes)) <= Left(blocks, f)
  {
    hide Cost;
  }

  lemma FinishUsesWork(w: World, u: nat)
    requires Consistent(w) && u < |w.stacks| && w.stacks[u] != [] && Top(w.stacks[u]).phase == Looping
    requires forall f :: f in w.stacks[u] ==> f.block < |w.blocks|
    ensures FrameOk(w, Top(w.stacks[u]))
    ensures var v := Finished(w, u);
      && Extends(w.blocks, v.blocks) && u < |v.stacks| && (forall f :: f in v.stacks[u] ==> f.block < |w.blocks|)
      && Work(w.blocks, v.stacks[u]) < Work(w.blocks, w.stacks[u])
  {
    hide BlockOk, Text, HandleOk, FrameOk, Expected, Delivered, Left, StackOk, Finished, Work;
    var k := |w.stacks[u]| - 1;
    LinkedAt(w, u, k);
    if k > 0 { FinishChildUsesWork(w, u); } else { FinishLastUsesWork(w, u); }
  }

  lemma FinishLastUsesWork(w: World, u: nat)
    requires Shaped(w) && u < |w.stacks| && |w.stacks[u]| == 1 && FrameOk(w, w.stacks[u][0])
      && w.stacks[u][0].place == User(u)
    ensures var v := Finished(w, u);
      && Extends(w.blocks, v.blocks) && u < |v.stacks| && v.stacks[u] == []
      && Work(w.blocks, v.stacks[u]) < Work(w.blocks, w.stacks[u])
  {
    hide Text, HandleOk, Left, Expected, FrameOk;
    FramePlaces(w, w.stacks[u][0]);
    LeftIsPositive(w.blocks, w.stacks[u][0]);
  }

  lemma FinishChildUsesWork(w: World, u: nat)
    requires Consistent(w) && u < |w.stacks| && |w.stacks[u]| > 1 && Top(w.stacks[u]).phase == Looping
    requires forall f :: f in w.stacks[u] ==> f.block < |w.blocks|
    ensures FrameOk(w, Top(w.stacks[u]))
    ensures var v := Finished(w, u);
      && Extends(w.blocks, v.blocks) && u < |v.stacks| && (forall f :: f in v.stacks[u] ==> f.block < |w.blocks|)
      && Work(w.blocks, v.stacks[u]) < Work(w.blocks, w.stacks[u])
  {
    hide BlockOk, Text, HandleOk, FrameOk, Expected, Delivered, Left, StackOk, Finished, Work;
    var s := w.stacks[u];
    var k := |s| - 1;
    var f, parent := s[k], s[k - 1];
    LinkedAt(w, u, k);
    LinkedAt(w, u, k - 1);
    ChildIsThere(w, parent);
    AtInRange(w, f);
    ExpectedSize(w, f);
    FinishedChildIs(w, u);
    var (result, bytes) := Expected(w, f);
    RepositionedIsWellFormed(w.blocks, parent.block, parent.child.value, f.start + |bytes|);
    DeliveredLeft(w.blocks, parent, result, bytes);
    DeliveredShape(parent, result, bytes);
    var below := s[..k - 1];
    WorkOfTwo(w.blocks, below, parent, f);
    WorkOfTwo(w.blocks, below, Delivered(parent, result, bytes), f);
    assert s == below + [parent, f];
    LeftIsPositive(w.blocks, f);
  }

  lemma LeftIsPositive(blocks: seq<Block>, f: Frame)
    requires f.block < |blocks|
    ensures Left(blocks, f) >= 1
  {
  }

  lemma PhaseUsesWork(w: World, u: nat)
    requires Consistent(w) && CanAdvance(w, u)
    requires forall f :: f in w.stacks[u] ==> f.block < |w.blocks|
    requires var f := Top(w.stacks[u]);
      f.phase == Looping ==> w.blocks[f.block].Multi? && Continues(f)
    ensures var v := Advance(w, u);
      && u < |v.stacks| && (forall f :: f in v.stacks[u] ==> f.block < |w.blocks|)
      && Work(w.blocks, v.stacks[u]) < Work(w.blocks, w.stacks[u])
  {
    hide BlockOk, Text, HandleOk, NewFrame, StackOk, SetPosition, Work, Cost, Left;
    var s := w.stacks[u];
    var k := |s| - 1;
    var f := s[k];
    var below := s[..k];
    var v := Advance(w, u);
    TopIsLinked(w, u);
    if f.phase != Looping { ChildIsThere(w, f); }
    assert s == below + [f];
    WorkOfTwo(w.blocks, below, f, f);
    PhaseLeft(w.blocks, f);
    match f.phase
    case Looping => WorkOfTwo(w.blocks, below, f.(phase := Locked), f);
    case Locked => WorkOfTwo(w.blocks, below, f.(phase := Positioned), f);
    case Positioned =>
      StartedFrame(w, w, f);
      var slot := Slot(f.block, f.child.value);
      var n := NewFrame(w, slot, f.want - |f.got|);
      NewFrameCost(w, slot, f.want - |f.got|);
      hide FrameOk;
      assert n.block < |w.blocks| by { FramePlaces(w, n); }
      WorkOfTwo(w.blocks, below, f.(phase := Reading), n);
      assert v.stacks[u] == below + [f.(phase := Reading), n];
    case Reading =>
  }

  lemma PhaseLeft(blocks: seq<Block>, f: Frame)
    requires f.block < |blocks| && blocks[f.block].Multi? && f.child.Some? && (f.phase == Looping ==> Continues(f))
    ensures f.phase == Looping ==> Left(blocks, f.(phase := Locked)) < Left(blocks, f)
    ensures f.phase == Locked ==> Left(blocks, f.(phase := Positioned)) < Left(blocks, f)
    ensures f.phase == Positioned ==>
      Left(blocks, f.(phase := Reading)) + Cost(blocks, ChildOf(blocks[f.block], f.child.value).block) < Left(blocks, f)
  {
    hide Cost;
  }

  /** Every own step of a read uses up some of its work. */
  lemma AdvanceUsesWork(w: World, u: nat)
    requires Consistent(w) && CanAdvance(w, u)
    ensures var v := Advance(w, u);
      && Extends(w.blocks, v.blocks) && u < |v.stacks|
      && (forall f :: f in w.stacks[u] ==> f.block < |w.blocks|)
      && (forall f :: f in v.stacks[u] ==> f.block < |w.blocks|)
      && Work(w.blocks, v.stacks[u]) < Work(w.blocks, w.stacks[u])
  {
    hide BlockOk, Text, HandleOk, AdvanceLeaf, AdvanceEnd, Finished, NewFrame, StackOk, SetPosition, Work, Left;
    var f := Top(w.stacks[u]);
    FramesInRange(w, u);
    TopIsLinked(w, u);
    if f.phase != Looping { ChildIsThere(w, f); }
    if f.phase == Looping && (w.blocks[f.block].Leaf? || !Continues(f)) {
      EndIsFinished(w, u);
      FinishUsesWork(w, u);
    } else {
      StepExtends(w, u);
      PhaseUsesWork(w, u);
    }
  }

  lemma StepExtends(w: World, u: nat)
    requires Consistent(w) && CanAdvance(w, u)
    requires var f := Top(w.stacks[u]);
      f.block < |w.blocks| && (f.phase == Looping ==> w.blocks[f.block].Multi? && Continues(f))
    ensures Extends(w.blocks, Advance(w, u).blocks)
  {
    hide BlockOk, Text, HandleOk, NewFrame, SetPosition, StackOk;
    TopIsLinked(w, u);
    var f := Top(w.stacks[u]);
    if f.phase == Locked {
      ChildIsThere(w, f);
      MoveChildIs(w, f);
      RepositionedIsWellFormed(w.blocks, f.block, f.child.value,
          Inner(w.blocks[f.block], f.child.value, f.start + |f.got|));
    }
  }
  /** What the read of handle u still has to do. */
  function WorkOf(w: World, u: nat): nat
    requires Consistent(w) && u < |w.stacks|
  {
    FramesInRange(w, u);
    Work(w.blocks, w.stacks[u])
  }

  /** Whatever else happens to the memory, a read whose frames stay has as much to do as before. */
  lemma WorkStays(w: World, v: World, u: nat)
    requires Consistent(w) && Consistent(v) && u < |w.stacks| && u < |v.stacks|
    requires v.stacks[u] == w.stacks[u] && Extends(w.blocks, v.blocks)
    ensures WorkOf(v, u) == WorkOf(w, u)
  {
    hide Work, BlockOk, StackOk, CompletedOk;
    FramesInRange(w, u);
    WorkKept(w.blocks, v.blocks, w.stacks[u]);
  }

  lemma OthersExtend(w: World, a: Action)
    requires Consistent(w) && Allowed(w, a)
    ensures Extends(w.blocks, Step(w, a).blocks)
  {
    hide HandleOk, BlockOk, Text, StackOk, CompletedOk, Advance, CanAdvance, Clone, Concat, SetPosition, Reset,
        ReleaseTo;
    match a
    case Creating(data, dataRelease, blockRelease) => InitIsOk(w.blocks, data, dataRelease, blockRelease);
    case Cloning(u, offset) => CloneIsOk(w.blocks, w.users[u], offset);
    case Joining(u, other, dataRelease) => ConcatIsOk(w.blocks, w.users[u], w.users[other], dataRelease);
    case Advancing(u) => AdvanceUsesWork(w, u);
    case _ => NothingMoved(w.blocks);
  }

  lemma NothingMoved(blocks: seq<Block>)
    ensures Extends(blocks, blocks)
  {
  }

  /** A read in progress: the steps of others leave it its work, and each of its own uses up some. */
  lemma StepKeepsWork(w: World, a: Action, u: nat)
    requires Consistent(w) && Allowed(w, a) && u < |w.stacks| && w.stacks[u] != []
    ensures Consistent(Step(w, a)) && u < |Step(w, a).stacks|
    ensures a != Advancing(u) ==> Step(w, a).stacks[u] == w.stacks[u] && WorkOf(Step(w, a), u) == WorkOf(w, u)
    ensures a == Advancing(u) ==> WorkOf(Step(w, a), u) < WorkOf(w, u)
  {
    hide Consistent, Work, CanAdvance;
    StepKeepsConsistent(w, a);
    OthersExtend(w, a);
    if a == Advancing(u) {
      AdvanceUsesWork(w, u);
      FramesInRange(Step(w, a), u);
      WorkKept(w.blocks, Step(w, a).blocks, Step(w, a).stacks[u]) by { WellFormedBlocks(w); }
    } else {
      OtherStack(w, a, u);
      WorkStays(w, Step(w, a), u);
    }
  }

  lemma WellFormedBlocks(w: World)
    requires Consistent(w)
    ensures Shaped(w) && WellFormed(w.blocks)
  {
  }

  lemma OtherStack(w: World, a: Action, u: nat)
    requires Consistent(w) && Allowed(w, a) && u < |w.stacks| && w.stacks[u] != [] && a != Advancing(u)
    ensures u < |Step(w, a).stacks| && Step(w, a).stacks[u] == w.stacks[u]
  {
    hide HandleOk, BlockOk, Text, StackOk, CompletedOk, NewFrame, Clone, Concat, SetPosition;
    if a.Advancing? { AdvanceIsOwn(w, a.u); }
  }

  lemma AdvanceIsOwn(w: World, u: nat)
    requires Consistent(w) && CanAdvance(w, u)
    ensures var v := Advance(w, u);
      |v.stacks| == |w.stacks| && forall t :: 0 <= t < |w.stacks| && t != u ==> v.stacks[t] == w.stacks[t]
  {
    hide HandleOk, BlockOk, Text, StackOk, CompletedOk, NewFrame, SetPosition, ReadResult;
    TopIsLinked(w, u);
  }

  /** A read leaves every instance on its block. */
  lemma AdvanceKeepsBlocks(w: World, u: nat)
    requires Consistent(w) && CanAdvance(w, u)
    ensures var v := Advance(w, u);
      |v.users| == |w.users| && forall t :: 0 <= t < |w.users| ==> v.users[t].block == w.users[t].block
  {
    hide HandleOk, BlockOk, Text, StackOk, CompletedOk, NewFrame, SetPosition, ReadResult;
    TopIsLinked(w, u);
  }

  /** A new read has at most the cost of its block to do. */
  lemma StartWork(w: World, u: nat, want: nat)
    requires Consistent(w) && Allowed(w, Starting(u, want))
    ensures Consistent(Step(w, Starting(u, want))) && w.users[u].block < |w.blocks|
    ensures WorkOf(Step(w, Starting(u, want)), u) <= Cost(w.blocks, w.users[u].block)
  {
    hide HandleOk, BlockOk, Text, StackOk, CompletedOk, NewFrame, Left, Cost;
    StepKeepsConsistent(w, Starting(u, want));
    UserInRange(w, u);
    var v := Step(w, Starting(u, want));
    var f := NewFrame(w, User(u), want);
    FramesInRange(v, u);
    NewFrameCost(w, User(u), want);
    assert v.stacks[u] == [] + [f] && f in v.stacks[u];
    WorkOfTwo(w.blocks, [], f, f);
    assert Work(w.blocks, []) == 0;
  }

  lemma UserInRange(w: World, u: nat)
    requires Consistent(w) && u < |w.users|
    ensures w.users[u].block < |w.blocks| && HandleOk(w.blocks, w.users[u])
  {
    hide Text;
  }
}
