/** Streams over shared immutable data: handles, control blocks, and the text a handle reads.

    A control block is a leaf with its data or a multi with two child handles.  Blocks are numbered
    in the order of their creation, so children come before their parent.  size_t has 32 bits. */
module UstreamSpec {
  type byte = x: nat | x < 256

  const SIZE_T := 0x1_0000_0000
  const UINT32_MAX := 0xFFFF_FFFF

  function Plus(a: nat, b: nat): nat { (a + b) % SIZE_T }

  function Minus(a: nat, b: nat): nat { (a - b) % SIZE_T }

  datatype Result = Ok | Eof | NotFound | Argument

  /** An instance; `current`, `first` and `length` are inner positions. */
  datatype Handle = Handle(block: nat, offsetDiff: nat, current: nat, first: nat, length: nat)

  datatype Block =
    | Leaf(data: seq<byte>, refCount: int, dataRelease: bool, blockRelease: bool)
    | Multi(one: Handle, two: Handle, oneRefs: int, twoRefs: int, refCount: int, dataRelease: bool)

  datatype Child = One | Two

  function ChildOf(b: Block, child: Child): Handle
    requires b.Multi?
  {
    if child == One then b.one else b.two
  }

  function WithChild(b: Block, child: Child, h: Handle): Block
    requires b.Multi?
  {
    if child == One then b.(one := h) else b.(two := h)
  }

  function Slice(s: seq<byte>, from: nat, to: nat): seq<byte> { if from <= to <= |s| then s[from..to] else [] }

  /** The whole text of a block: the first child from its very start, the second from its first valid position. */
  function Text(blocks: seq<Block>, b: nat): seq<byte> {
    if b >= |blocks| then []
    else
      match blocks[b]
      case Leaf(data, _, _, _) => data
      case Multi(one, two, _, _, _, _) =>
        if one.block < b && two.block < b
        then Slice(Text(blocks, one.block), 0, one.length) + Slice(Text(blocks, two.block), two.first, two.length)
        else []
  }

  /** The least position a handle on the block may have. */
  function Base(blocks: seq<Block>, b: nat): nat
    requires b < |blocks|
  {
    if blocks[b].Leaf? then 0 else blocks[b].one.first
  }

  predicate HandleOk(blocks: seq<Block>, h: Handle) {
    && h.block < |blocks| && h.offsetDiff < SIZE_T
    && Base(blocks, h.block) <= h.first <= h.current <= h.length <= |Text(blocks, h.block)|
    && h.length < SIZE_T
    && (blocks[h.block].Multi? ==> h.length == |Text(blocks, h.block)|)
  }

  /** The children of a multi as concat leaves them, when its first operand has offset_diff 0. */
  predicate BlockOk(blocks: seq<Block>, b: nat)
    requires b < |blocks|
  {
    match blocks[b]
    case Leaf(data, _, _, _) => 0 < |data| < SIZE_T
    case Multi(one, two, _, _, _, _) =>
      && one.block < b && two.block < b && HandleOk(blocks, one) && HandleOk(blocks, two)
      && one.offsetDiff == 0 && two.offsetDiff == Minus(one.length, two.first)
      && one.length + two.length - two.first < SIZE_T
  }

  predicate WellFormed(blocks: seq<Block>) { forall b :: 0 <= b < |blocks| ==> BlockOk(blocks, b) }

  // The operations of an instance; leaves and multis have the same ones.

  function SetPosition(h: Handle, position: nat): (Handle, Result) {
    var inner := Minus(position, h.offsetDiff);
    if inner > h.length || inner < h.first then (h, NotFound) else (h.(current := inner), Ok)
  }

  function Reset(h: Handle): Handle { h.(current := h.first) }

  function Position(h: Handle): nat { Plus(h.current, h.offsetDiff) }

  function RemainingSize(h: Handle): nat { Minus(h.length, h.current) }

  function ReleaseTo(h: Handle, position: nat): (Handle, Result) {
    var inner := Minus(position, h.offsetDiff);
    if inner >= h.current || inner < h.first then (h, Argument) else (h.(first := Plus(inner, 1)), Ok)
  }

  /** What is left to read. */
  function Remaining(blocks: seq<Block>, h: Handle): seq<byte> {
    Slice(Text(blocks, h.block), h.current, h.length)
  }

  /** What a read of at most `want` bytes shall return. */
  function ReadResult(text: seq<byte>, current: nat, want: nat): (Result, seq<byte>) {
    if current >= |text| then (Eof, [])
    else (Ok, text[current..if current + want < |text| then current + want else |text|])
  }

  /** An instance as a read takes it: the read of a multi goes by its children and never looks at the instance's
      own length. */
  function AsRead(blocks: seq<Block>, h: Handle): Handle {
    if h.block < |blocks| && blocks[h.block].Multi? then h.(length := |Text(blocks, h.block)|) else h
  }

  lemma OkIsAsRead(blocks: seq<Block>, h: Handle)
    requires HandleOk(blocks, h)
    ensures AsRead(blocks, h) == h
  {
    hide Text;
  }

  /** What a read on the handle shall return. */
  ghost function ReadOf(blocks: seq<Block>, h: Handle, want: nat): (Result, seq<byte>) {
    ReadResult(Slice(Text(blocks, h.block), 0, h.length), h.current, want)
  }

  // Children and positions.

  /** Where position p of a multi lies in its child. */
  function Inner(b: Block, child: Child, p: nat): nat
    requires b.Multi? && (child == Two ==> p >= b.one.length)
  {
    if child == One then p else p - b.one.length + b.two.first
  }

  predicate Within(b: Block, child: Child, p: nat)
    requires b.Multi?
  {
    if child == One then b.one.first <= p <= b.one.length
    else b.one.length <= p <= b.one.length + (b.two.length - b.two.first)
  }

  /** set_position through the child's offset finds that place. */
  lemma ChildPosition(blocks: seq<Block>, b: nat, child: Child, p: nat)
    requires b < |blocks| && BlockOk(blocks, b) && blocks[b].Multi? && Within(blocks[b], child, p)
    ensures var h := ChildOf(blocks[b], child);
      SetPosition(h, p) == (h.(current := Inner(blocks[b], child, p)), Ok)
  {
    var multi := blocks[b];
    if child == One {
      assert Minus(p, 0) == p;
    } else {
      MinusMinus(p, multi.one.length, multi.two.first);
    }
  }

  lemma MinusMinus(p: nat, a: nat, b: nat)
    requires 0 <= p - a + b < SIZE_T
    ensures Minus(p, Minus(a, b)) == p - a + b
  {
    var m := Minus(a, b);
    assert m == (a - b) - (a - b) / SIZE_T * SIZE_T;
    assert p - m == (p - a + b) + (a - b) / SIZE_T * SIZE_T;
    ModOfShifted(p - a + b, (a - b) / SIZE_T);
  }

  lemma ModOfShifted(x: nat, k: int)
    requires x < SIZE_T
    ensures (x + k * SIZE_T) % SIZE_T == x
  {
  }

  /** The text of a multi is made of two slices. */
  lemma TextParts(blocks: seq<Block>, b: nat)
    requires b < |blocks| && BlockOk(blocks, b) && blocks[b].Multi?
    ensures var one, two := blocks[b].one, blocks[b].two;
      && one.length <= |Text(blocks, one.block)| && two.first <= two.length <= |Text(blocks, two.block)|
      && Text(blocks, b) == Text(blocks, one.block)[..one.length] + Text(blocks, two.block)[two.first..two.length]
  {
  }

  /** Text under a child is text of the multi. */
  lemma ChildText(blocks: seq<Block>, b: nat, child: Child, p: nat, q: nat)
    requires b < |blocks| && BlockOk(blocks, b) && blocks[b].Multi?
    requires p <= q && Within(blocks[b], child, p) && Within(blocks[b], child, q)
    ensures var h := ChildOf(blocks[b], child);
      && Inner(blocks[b], child, q) <= h.length <= |Text(blocks, h.block)| && q <= |Text(blocks, b)|
      && Text(blocks, b)[p..q] == Text(blocks, h.block)[Inner(blocks[b], child, p)..Inner(blocks[b], child, q)]
  {
    TextParts(blocks, b);
    hide Text, BlockOk, HandleOk;
    var multi := blocks[b];
    var s, t := Text(blocks, multi.one.block), Text(blocks, multi.two.block);
    if child == One {
      UnderFirst(s, multi.one.length, t[multi.two.first..multi.two.length], p, q);
    } else {
      UnderSecond(s[..multi.one.length], t, multi.two.first, multi.two.length, p, q);
    }
  }

  lemma UnderFirst(s: seq<byte>, n: nat, t: seq<byte>, p: nat, q: nat)
    requires p <= q <= n <= |s|
    ensures (s[..n] + t)[p..q] == s[p..q]
  {
    PartOfFirst(s[..n], t, p, q);
    PartOfSlice(s, 0, n, p, q);
  }

  lemma UnderSecond(s: seq<byte>, t: seq<byte>, from: nat, to: nat, p: nat, q: nat)
    requires from <= to <= |t| && |s| <= p <= q <= |s| + (to - from)
    ensures (s + t[from..to])[p..q] == t[p - |s| + from..q - |s| + from]
  {
    PartOfSecond(s, t[from..to], p, q);
    PartOfSlice(t, from, to, p - |s|, q - |s|);
  }

  lemma PartOfFirst(s: seq<byte>, t: seq<byte>, p: nat, q: nat)
    requires p <= q <= |s|
    ensures (s + t)[p..q] == s[p..q]
  {
  }

  lemma PartOfSecond(s: seq<byte>, t: seq<byte>, p: nat, q: nat)
    requires |s| <= p <= q <= |s + t|
    ensures (s + t)[p..q] == t[p - |s|..q - |s|]
  {
  }

  lemma PartOfSlice(s: seq<byte>, from: nat, to: nat, p: nat, q: nat)
    requires from <= to <= |s| && p <= q <= to - from
    ensures s[from..to][p..q] == s[from + p..from + q]
  {
    assert forall i :: 0 <= i < q - p ==> s[from..to][p..q][i] == s[from + p..from + q][i];
  }

  lemma TextLength(blocks: seq<Block>, b: nat)
    requires b < |blocks| && BlockOk(blocks, b) && blocks[b].Multi?
    ensures |Text(blocks, b)| == blocks[b].one.length + (blocks[b].two.length - blocks[b].two.first)
  {
  }

  // Cursors and counters do not matter to the text.

  predicate SameHandle(g: Handle, h: Handle) {
    g.block == h.block && g.offsetDiff == h.offsetDiff && g.first == h.first && g.length == h.length
  }

  /** The same block but for the children's cursors and the counters. */
  predicate SameBlock(a: Block, b: Block) {
    match a
    case Leaf(data, _, _, _) => b.Leaf? && b.data == data
    case Multi(one, two, _, _, _, _) => b.Multi? && SameHandle(one, b.one) && SameHandle(two, b.two)
  }

  /** The first list is kept, but for cursors and counters, as a part of the second. */
  predicate Extends(a: seq<Block>, b: seq<Block>) {
    |a| <= |b| && forall i :: 0 <= i < |a| ==> SameBlock(a[i], b[i])
  }

  lemma {:induction false} TextKept(a: seq<Block>, b: seq<Block>, i: nat)
    requires Extends(a, b) && i < |a|
    ensures Text(a, i) == Text(b, i)
    decreases i
  {
    assert SameBlock(a[i], b[i]);
    if a[i].Multi? && a[i].one.block < i && a[i].two.block < i {
      TextKept(a, b, a[i].one.block);
      TextKept(a, b, a[i].two.block);
    }
  }

  lemma HandleKept(a: seq<Block>, b: seq<Block>, h: Handle)
    requires Extends(a, b) && HandleOk(a, h)
    ensures HandleOk(b, h)
  {
    hide Text;
    TextKept(a, b, h.block);
    assert SameBlock(a[h.block], b[h.block]);
  }

  /** Cursors inside their range keep a block well formed. */
  predicate CursorsOk(b: Block) {
    b.Multi? ==> b.one.first <= b.one.current <= b.one.length && b.two.first <= b.two.current <= b.two.length
  }

  lemma BlockKept(a: seq<Block>, b: seq<Block>, i: nat)
    requires Extends(a, b) && i < |a| && BlockOk(a, i) && CursorsOk(b[i])
    ensures BlockOk(b, i)
  {
    hide Text;
    assert SameBlock(a[i], b[i]);
    if a[i].Multi? {
      TextKept(a, b, a[i].one.block);
      TextKept(a, b, a[i].two.block);
      assert SameBlock(a[a[i].one.block], b[a[i].one.block]);
      assert SameBlock(a[a[i].two.block], b[a[i].two.block]);
    }
  }

  lemma KeptIsWellFormed(a: seq<Block>, b: seq<Block>)
    requires Extends(a, b) && WellFormed(a)
    requires forall i :: 0 <= i < |a| ==> CursorsOk(b[i])
    requires forall i :: |a| <= i < |b| ==> BlockOk(b, i)
    ensures WellFormed(b)
  {
    hide BlockOk;
    forall i | 0 <= i < |b| ensures BlockOk(b, i) {
      if i < |a| { BlockKept(a, b, i); }
    }
  }

  lemma WellFormedCursors(blocks: seq<Block>, i: nat)
    requires WellFormed(blocks) && i < |blocks|
    ensures CursorsOk(blocks[i])
  {
    hide Text;
    assert BlockOk(blocks, i);
  }

  // init, clone, concat and split.

  function Init(blocks: seq<Block>, data: seq<byte>, dataRelease: bool, blockRelease: bool): (seq<Block>, Handle)
    requires 0 < |data| < SIZE_T
  {
    (blocks + [Leaf(data, 1, dataRelease, blockRelease)], Handle(|blocks|, 0, 0, 0, |data|))
  }

  predicate CloneAccepted(h: Handle, offset: nat) { offset <= Minus(UINT32_MAX, h.length) }

  function CloneOf(h: Handle, offset: nat): Handle {
    Handle(h.block, Minus(offset, h.current), h.current, h.current, h.length)
  }

  /** One more reference to the block, and to both children of a multi. */
  function Referenced(b: Block): Block {
    match b
    case Leaf(data, refs, dataRelease, blockRelease) => Leaf(data, refs + 1, dataRelease, blockRelease)
    case Multi(one, two, oneRefs, twoRefs, refs, dataRelease) =>
      Multi(one, two, oneRefs + 1, twoRefs + 1, refs + 1, dataRelease)
  }

  function Clone(blocks: seq<Block>, h: Handle, offset: nat): (seq<Block>, Handle)
    requires h.block < |blocks| && CloneAccepted(h, offset)
  {
    (blocks[h.block := Referenced(blocks[h.block])], CloneOf(h, offset))
  }

  /** g takes over the text of a clone of h; the new multi keeps g as it was. */
  function Concat(blocks: seq<Block>, g: Handle, h: Handle, dataRelease: bool): (seq<Block>, Handle)
    requires h.block < |blocks| && CloneAccepted(h, g.length)
  {
    var (referenced, two) := Clone(blocks, h, g.length);
    (referenced + [Multi(g, two, 1, 1, 1, dataRelease)],
     g.(block := |blocks|, length := Plus(g.length, RemainingSize(two))))
  }

  /** What concat leaves when the clone is refused: g is on the new block already, and that block's second child
      slot is empty, here an instance of the block itself. */
  function HalfConcat(blocks: seq<Block>, g: Handle, dataRelease: bool): (seq<Block>, Handle) {
    (blocks + [Multi(g, Handle(|blocks|, 0, 0, 0, 0), 1, 0, 1, dataRelease)], g.(block := |blocks|))
  }

  datatype SplitResult = SplitResult(blocks: seq<Block>, left: Handle, right: Handle, result: Result)

  /** When the split is refused there is no right half; the field then repeats the left one. */
  function Split(blocks: seq<Block>, h: Handle, position: nat): SplitResult
    requires h.block < |blocks|
  {
    var before := Position(h);
    if position == before then SplitResult(blocks, h, h, Argument)
    else if Plus(before, RemainingSize(h)) == position then SplitResult(blocks, h, h, Argument)
    else
      var (moved, found) := SetPosition(h, position);
      if found != Ok then SplitResult(blocks, moved, moved, found)
      else if !CloneAccepted(moved, position) then
        var restored := SetPosition(moved, before).0;
        SplitResult(blocks, restored, restored, Argument)
      else
        var (cloned, right) := Clone(blocks, moved, position);
        var (restored, back) := SetPosition(moved, before);
        if back == Ok then SplitResult(cloned, restored.(length := Minus(position, restored.first)), right, Ok)
        else SplitResult(blocks, restored, restored, back)
  }

  lemma InitIsOk(blocks: seq<Block>, data: seq<byte>, dataRelease: bool, blockRelease: bool)
    requires WellFormed(blocks) && 0 < |data| < SIZE_T
    ensures var (after, h) := Init(blocks, data, dataRelease, blockRelease);
      WellFormed(after) && Extends(blocks, after) && HandleOk(after, h) && Remaining(after, h) == data
  {
    var (after, h) := Init(blocks, data, dataRelease, blockRelease);
    forall i | 0 <= i < |blocks| ensures CursorsOk(after[i]) { WellFormedCursors(blocks, i); }
    KeptIsWellFormed(blocks, after);
    assert after[|blocks|] == Leaf(data, 1, dataRelease, blockRelease);
  }

  /** A clone reads the rest of the original, from the given logical position. */
  lemma CloneIsOk(blocks: seq<Block>, h: Handle, offset: nat)
    requires WellFormed(blocks) && HandleOk(blocks, h) && CloneAccepted(h, offset)
    ensures var (after, clone) := Clone(blocks, h, offset);
      && WellFormed(after) && Extends(blocks, after) && HandleOk(after, clone)
      && Remaining(after, clone) == Remaining(blocks, h) && Position(clone) == offset
  {
    hide Text, BlockOk;
    var (after, clone) := Clone(blocks, h, offset);
    forall i | 0 <= i < |blocks| ensures CursorsOk(after[i]) { WellFormedCursors(blocks, i); }
    KeptIsWellFormed(blocks, after);
    HandleKept(blocks, after, h);
    TextKept(blocks, after, h.block);
    MinusThenPlus(offset, h.current);
  }

  lemma MinusThenPlus(a: nat, b: nat)
    requires a < SIZE_T
    ensures Plus(b, Minus(a, b)) == a
  {
    var q := (a - b) / SIZE_T;
    assert Minus(a, b) == a - b - q * SIZE_T;
    ModOfShifted(a, -q);
    assert b + Minus(a, b) == a + (-q) * SIZE_T;
  }

  /** A concatenation reads the rest of the first operand and then the rest of the second. */
  lemma ConcatIsOk(blocks: seq<Block>, g: Handle, h: Handle, dataRelease: bool)
    requires WellFormed(blocks) && HandleOk(blocks, g) && HandleOk(blocks, h)
    requires g.offsetDiff == 0 && CloneAccepted(h, g.length)
    ensures var (after, c) := Concat(blocks, g, h, dataRelease);
      && WellFormed(after) && Extends(blocks, after) && HandleOk(after, c)
      && Remaining(after, c) == Remaining(blocks, g) + Remaining(blocks, h)
      && Position(c) == Position(g) && c.first == g.first
  {
    hide Text, BlockOk, WellFormed, HandleOk;
    HandleInRange(blocks, g);
    HandleInRange(blocks, h);
    CloneIsOk(blocks, h, g.length);
    var (referenced, two) := Clone(blocks, h, g.length);
    HandleKept(blocks, referenced, g);
    ConcatBlock(referenced, g, two, dataRelease);
    var (after, c) := Concat(blocks, g, h, dataRelease);
    TextKept(blocks, referenced, g.block);
    assert forall i :: 0 <= i < |blocks| ==> SameBlock(blocks[i], referenced[i]);
    assert forall i :: 0 <= i < |blocks| ==> after[i] == referenced[i];
  }

  /** The clone is accepted exactly when both lengths together have 32 bits. */
  lemma ConcatFits(blocks: seq<Block>, g: Handle, h: Handle)
    requires HandleOk(blocks, g) && HandleOk(blocks, h)
    ensures CloneAccepted(h, g.length) <==> g.length + h.length < SIZE_T
  {
    hide Text;
    assert Minus(UINT32_MAX, h.length) == UINT32_MAX - h.length;
  }

  lemma HandleInRange(blocks: seq<Block>, h: Handle)
    requires HandleOk(blocks, h)
    ensures h.block < |blocks| && h.first <= h.current <= h.length < SIZE_T
  {
  }

  lemma ConcatBlock(blocks: seq<Block>, g: Handle, two: Handle, dataRelease: bool)
    requires WellFormed(blocks) && HandleOk(blocks, g) && HandleOk(blocks, two) && g.offsetDiff == 0
    requires two.offsetDiff == Minus(g.length, two.first) && two.current == two.first
    requires g.length + two.length < SIZE_T
    ensures var after := blocks + [Multi(g, two, 1, 1, 1, dataRelease)];
      var c := g.(block := |blocks|, length := Plus(g.length, RemainingSize(two)));
      && WellFormed(after) && HandleOk(after, c)
      && Remaining(after, c) == Remaining(blocks, g) + Remaining(blocks, two)
  {
    var after := blocks + [Multi(g, two, 1, 1, 1, dataRelease)];
    var b := |blocks|;
    assert Extends(blocks, after);
    TextKept(blocks, after, g.block);
    TextKept(blocks, after, two.block);
    HandleKept(blocks, after, g);
    HandleKept(blocks, after, two);
    assert after[b] == Multi(g, two, 1, 1, 1, dataRelease);
    assert BlockOk(after, b);
    forall i | 0 <= i < b ensures CursorsOk(after[i]) { WellFormedCursors(blocks, i); }
    KeptIsWellFormed(blocks, after);
    var first, second := Text(blocks, g.block)[..g.length], Text(blocks, two.block)[two.first..two.length];
    assert Text(after, b) == first + second;
    assert RemainingSize(two) == |second|;
    assert Plus(g.length, |second|) == g.length + |second|;
    hide Text;
    DropOfConcat(first, second, g.current);
    assert first[g.current..] == Text(blocks, g.block)[g.current..g.length];
  }

  lemma DropOfConcat(s: seq<byte>, t: seq<byte>, p: nat)
    requires p <= |s|
    ensures (s + t)[p..|s + t|] == s[p..] + t
  {
  }

  // Split.

  /** A refused split leaves everything as it was. */
  lemma RefusedSplitChangesNothing(blocks: seq<Block>, h: Handle, position: nat)
    requires WellFormed(blocks) && HandleOk(blocks, h) && position < SIZE_T
    requires Split(blocks, h, position).result != Ok
    ensures Split(blocks, h, position).blocks == blocks && Split(blocks, h, position).left == h
  {
    hide Text, BlockOk;
    PositionFindsItself(h);
  }

  lemma PositionFindsItself(h: Handle)
    requires h.current < SIZE_T && h.offsetDiff < SIZE_T
    ensures Minus(Position(h), h.offsetDiff) == h.current
  {
    var q := (h.current + h.offsetDiff) / SIZE_T;
    ModOfShifted(h.current, -q);
    assert Position(h) - h.offsetDiff == h.current + (-q) * SIZE_T;
  }

  lemma MinusIsInjective(p: nat, a: nat, b: nat)
    requires a < SIZE_T && b < SIZE_T && Minus(p, a) == Minus(p, b)
    ensures a == b
  {
    var i, j := (p - a) / SIZE_T, (p - b) / SIZE_T;
    assert p - a == i * SIZE_T + Minus(p, a);
    assert p - b == j * SIZE_T + Minus(p, b);
    assert b - a == (i - j) * SIZE_T;
  }

  /** The right half is always right; the left half has the right length exactly when the instance
      numbers its positions from its first valid one, and the split lies after the current position. */
  lemma SplitIsExact(blocks: seq<Block>, h: Handle, position: nat)
    requires WellFormed(blocks) && HandleOk(blocks, h) && blocks[h.block].Leaf? && position < SIZE_T
    requires Split(blocks, h, position).result == Ok
    ensures var s := Split(blocks, h, position);
      var at := Minus(position, h.offsetDiff);
      && WellFormed(s.blocks) && Extends(blocks, s.blocks)
      && h.first <= at < h.length && at != h.current
      && HandleOk(s.blocks, s.right) && Position(s.right) == position && Position(s.left) == Position(h)
      && Remaining(s.blocks, s.right) == Text(blocks, h.block)[at..h.length]
      && (HandleOk(s.blocks, s.left)
          && Remaining(s.blocks, s.left) + Remaining(s.blocks, s.right) == Remaining(blocks, h)
          <==> h.offsetDiff == h.first && h.current < at)
  {
    hide Text, BlockOk, WellFormed;
    var at := Minus(position, h.offsetDiff);
    var moved := SetPosition(h, position).0;
    PositionFindsItself(h);
    PositionFindsItself(moved);
    SplitPlace(h, position);
    CloneIsOk(blocks, moved, position);
    var s := Split(blocks, h, position);
    TextKept(blocks, s.blocks, h.block);
    var text := Text(blocks, h.block);
    if h.offsetDiff == h.first && h.current < at {
      assert s.left == h.(length := at);
      JoinSlices(text, h.current, at, h.length);
    } else if HandleOk(s.blocks, s.left)
        && Remaining(s.blocks, s.left) + Remaining(s.blocks, s.right) == Remaining(blocks, h) {
      assert |Remaining(s.blocks, s.left)| == s.left.length - h.current;
      assert s.left.length == at;
      MinusIsInjective(position, h.first, h.offsetDiff);
    }
  }

  /** The left half of a split multi reads as if there had been no split: where the split would be exact on a leaf,
      what it returns is the text of its own length if and only if the read stays before the split. */
  lemma SplitMultiReadsOn(blocks: seq<Block>, h: Handle, position: nat, want: nat)
    requires WellFormed(blocks) && HandleOk(blocks, h) && blocks[h.block].Multi? && position < SIZE_T && want > 0
    requires Split(blocks, h, position).result == Ok
    ensures var s := Split(blocks, h, position);
      && s.left == h.(length := s.left.length) && AsRead(s.blocks, s.left) == h && HandleOk(s.blocks, h)
      && ReadOf(s.blocks, AsRead(s.blocks, s.left), want) == ReadOf(blocks, h, want)
      && (h.offsetDiff == h.first && h.current < Minus(position, h.offsetDiff) ==>
           && !HandleOk(s.blocks, s.left)
           && (ReadOf(s.blocks, AsRead(s.blocks, s.left), want) == ReadOf(s.blocks, s.left, want)
               <==> h.current + want <= s.left.length))
  {
    hide Text, BlockOk, WellFormed;
    var at := Minus(position, h.offsetDiff);
    PositionFindsItself(h);
    SplitPlace(h, position);
    var moved := SetPosition(h, position).0;
    CloneIsOk(blocks, moved, position);
    var s := Split(blocks, h, position);
    HandleKept(blocks, s.blocks, h);
    TextKept(blocks, s.blocks, h.block);
    OkIsAsRead(s.blocks, h);
    hide Split, Clone;
    assert AsRead(s.blocks, s.left) == h;
    if h.offsetDiff == h.first && h.current < at { ReadPart(Text(blocks, h.block), at, h.length, h.current, want); }
  }

  /** Reading from a part of a text and from more of it give the same exactly when the part is not used up. */
  lemma ReadPart(text: seq<byte>, n: nat, m: nat, current: nat, want: nat)
    requires current < n < m <= |text| && want > 0
    ensures ReadResult(Slice(text, 0, m), current, want) == ReadResult(Slice(text, 0, n), current, want)
      <==> current + want <= n
  {
    if current + want <= n {
      PartOfSlice(text, 0, m, current, current + want);
      PartOfSlice(text, 0, n, current, current + want);
    } else {
      assert |ReadResult(Slice(text, 0, n), current, want).1| == n - current;
      assert |ReadResult(Slice(text, 0, m), current, want).1| > n - current;
    }
  }

  /** For example: an instance whose first byte is released loses a byte when it is split. */
  lemma ReleasedThenSplit(blocks: seq<Block>)
    requires blocks == [Leaf([10, 11, 12, 13], 1, false, false)]
    ensures var h := ReleaseTo(SetPosition(Handle(0, 0, 0, 0, 4), 1).0, 0).0;
      var s := Split(blocks, h, 3);
      && s.result == Ok && Remaining(blocks, h) == [11, 12, 13]
      && Remaining(s.blocks, s.left) == [11] && Remaining(s.blocks, s.right) == [13]
  {
    var h := ReleaseTo(SetPosition(Handle(0, 0, 0, 0, 4), 1).0, 0).0;
    assert h == Handle(0, 0, 1, 1, 4);
    var s := Split(blocks, h, 3);
    assert s.left == Handle(0, 0, 1, 1, 2) && s.right == Handle(0, 0, 3, 3, 4);
    assert Text(blocks, 0) == [10, 11, 12, 13] && Text(s.blocks, 0) == [10, 11, 12, 13];
  }

  lemma JoinSlices(s: seq<byte>, a: nat, b: nat, c: nat)
    requires a <= b <= c <= |s|
    ensures s[a..b] + s[b..c] == s[a..c]
  {
  }

  /** Where an accepted split lies. */
  lemma SplitPlace(h: Handle, position: nat)
    requires h.first <= h.current <= h.length < SIZE_T && h.offsetDiff < SIZE_T && position < SIZE_T
    requires position != Position(h) && Plus(Position(h), RemainingSize(h)) != position
      && SetPosition(h, position).1 == Ok
    ensures h.first <= Minus(position, h.offsetDiff) < h.length && Minus(position, h.offsetDiff) != h.current
  {
    var at := Minus(position, h.offsetDiff);
    MinusThenPlus(position, h.offsetDiff);
    assert Plus(h.offsetDiff, at) == position;
    assert RemainingSize(h) == h.length - h.current;
    PlusPlus(h.current, h.offsetDiff, h.length - h.current);
  }

  lemma PlusPlus(a: nat, b: nat, c: nat)
    ensures Plus(Plus(a, b), c) == Plus(b, a + c)
  {
    var q := (a + b) / SIZE_T;
    assert Plus(a, b) + c == (b + (a + c)) + (-q) * SIZE_T;
    ModShift(b + (a + c), -q);
  }

  lemma ModShift(x: int, k: int)
    ensures (x + k * SIZE_T) % SIZE_T == x % SIZE_T
  {
    ModOfShifted(x % SIZE_T, x / SIZE_T + k);
    assert x + k * SIZE_T == x % SIZE_T + (x / SIZE_T + k) * SIZE_T;
  }

  /** Splitting a leaf instance that counts from 0 and joining the halves gives the instance back, on a
      new block with the same text. */
  lemma SplitThenConcat(blocks: seq<Block>, h: Handle, position: nat, dataRelease: bool)
    requires WellFormed(blocks) && HandleOk(blocks, h) && blocks[h.block].Leaf?
    requires h.offsetDiff == 0 && h.first == 0 && h.current < position < h.length && CloneAccepted(h, position)
    ensures var s := Split(blocks, h, position);
      && s.result == Ok && CloneAccepted(s.right, s.left.length)
      && var (after, c) := Concat(s.blocks, s.left, s.right, dataRelease);
      && WellFormed(after) && HandleOk(after, c)
      && c == h.(block := |blocks|)
      && Text(after, c.block) == Text(blocks, h.block)[..h.length]
  {
    hide Text, BlockOk, WellFormed;
    HandleInRange(blocks, h);
    PlainSplit(blocks, h, position);
    SplitIsExact(blocks, h, position);
    hide Split, HandleOk;
    var s := Split(blocks, h, position);
    ConcatIsOk(s.blocks, s.left, s.right, dataRelease);
    TextKept(blocks, s.blocks, h.block);
    ConcatText(s.blocks, s.left, s.right, dataRelease);
    SameText(blocks, h);
    JoinSlices(Text(blocks, h.block), 0, position, h.length);
  }

  lemma SameText(blocks: seq<Block>, h: Handle)
    requires HandleOk(blocks, h)
    ensures h.length <= |Text(blocks, h.block)|
  {
    hide Text;
  }

  /** The halves of an instance that counts from 0. */
  lemma PlainSplit(blocks: seq<Block>, h: Handle, position: nat)
    requires h.block < |blocks| && h.length < SIZE_T
    requires h.offsetDiff == 0 && h.first == 0 && h.current < position < h.length && CloneAccepted(h, position)
    ensures var s := Split(blocks, h, position);
      && s.result == Ok && |s.blocks| == |blocks| && s.left == h.(length := position)
      && s.right == CloneOf(h.(current := position), position) == Handle(h.block, 0, position, position, h.length)
      && CloneAccepted(s.right, s.left.length) && Minus(position, h.offsetDiff) == position
      && Plus(s.left.length, RemainingSize(s.right)) == h.length
  {
    assert Position(h) == h.current && Minus(position, 0) == position;
    assert Plus(Position(h), RemainingSize(h)) == h.length;
  }

  lemma ConcatText(blocks: seq<Block>, g: Handle, h: Handle, dataRelease: bool)
    requires WellFormed(blocks) && HandleOk(blocks, g) && HandleOk(blocks, h)
    requires g.offsetDiff == 0 && CloneAccepted(h, g.length)
    ensures Text(Concat(blocks, g, h, dataRelease).0, |blocks|)
         == Text(blocks, g.block)[..g.length] + Remaining(blocks, h)
  {
    hide BlockOk, WellFormed;
    var after := Concat(blocks, g, h, dataRelease).0;
    assert Extends(blocks, after);
    TextKept(blocks, after, g.block);
    TextKept(blocks, after, h.block);
  }
}
