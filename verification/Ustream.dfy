/** The stream API over memory updated in place.

    `blocks` are the control blocks, `users` the instances users hold, `calls` the release callbacks
    made.  An instance is addressed by its place: with a user, or in a child slot of a multi. */
module Ustream {
  import opened Common
  import opened UstreamSpec
  import opened UstreamOwnership
  import Runs = UstreamRuns
  import Solo = UstreamSolo

  /** The bytes at `from`, everything else as before. */
  ghost predicate Copied(before: seq<byte>, after: seq<byte>, from: nat, bytes: seq<byte>) {
    from + |bytes| <= |before| && after == before[..from] + bytes + before[from + |bytes|..]
  }

  lemma CopiedNothing(before: seq<byte>, from: nat)
    requires from <= |before|
    ensures Copied(before, before, from, [])
  {
  }

  lemma CopiedOn(a: seq<byte>, b: seq<byte>, c: seq<byte>, from: nat, size: nat, bytes: seq<byte>)
    requires size <= |bytes| && Copied(a, b, from, bytes[..size]) && Copied(b, c, from + size, bytes[size..])
    ensures Copied(a, c, from, bytes)
  {
    assert bytes[..size] + bytes[size..] == bytes;
    assert b[..from + size] == a[..from] + bytes[..size];
    assert b[from + |bytes|..] == a[from + |bytes|..];
  }

  /** What a read on a handle of block b may change in the blocks: cursors of smaller blocks. */
  ghost predicate OnlyBelow(before: seq<Block>, after: seq<Block>, b: nat) {
    && |before| == |after| && Extends(before, after) && WellFormed(after)
    && (forall i :: 0 <= i < |before| ==> SameCounters(before[i], after[i]))
    && forall i :: b <= i < |before| ==> after[i] == before[i]
  }

  lemma OnlyBelowTwice(a: seq<Block>, b: seq<Block>, c: seq<Block>, n: nat, m: nat)
    requires OnlyBelow(a, b, n) && OnlyBelow(b, c, m)
    ensures OnlyBelow(a, c, if m < n then n else m)
  {
    hide BlockOk;
    forall i | 0 <= i < |a| ensures SameBlock(a[i], c[i]) && SameCounters(a[i], c[i]) {
      assert SameBlock(a[i], b[i]) && SameBlock(b[i], c[i]);
    }
  }

  /** The world with the instance at p replaced. */
  function Replaced(w: World, p: Runs.Place, h: Handle): World {
    match p
    case User(u) => if u < |w.users| then w.(users := w.users[u := h]) else w
    case Slot(b, child) =>
      if b < |w.m.blocks| && w.m.blocks[b].Multi?
      then w.(m := w.m.(blocks := w.m.blocks[b := WithChild(w.m.blocks[b], child, h)])) else w
  }

  /** What a read may change: its own instance, and cursors of the blocks it reads. */
  ghost predicate ReadFrame(before: World, after: World, p: Runs.Place, h: Handle) {
    && after.m.calls == before.m.calls
    && match p
       case User(u) =>
         && u < |before.users| && after.users == before.users[u := h]
         && OnlyBelow(before.m.blocks, after.m.blocks, h.block + 1)
       case Slot(b, child) =>
         && after.users == before.users && b < |before.m.blocks| && before.m.blocks[b].Multi?
         && OnlyBelow(before.m.blocks, after.m.blocks, b + 1)
         && after.m.blocks[b] == WithChild(before.m.blocks[b], child, h)
  }

  // One pass of the multi loop, in terms of the frames of a run.

  ghost predicate InLoop(w: Runs.World, f: Runs.Frame) {
    && Runs.Shaped(w) && WellFormed(w.blocks) && Runs.FrameOk(w, f) && f.phase == Runs.Looping && Runs.Continues(f)
    && (f.place.Slot? ==> f.block < f.place.block)
  }

  function ChildSlot(f: Runs.Frame): Runs.Place
    requires f.child.Some?
  {
    Runs.Slot(f.block, f.child.value)
  }

  lemma BeforeChild(w: Runs.World, f: Runs.Frame)
    requires InLoop(w, f)
    ensures f.block < |w.blocks| && w.blocks[f.block].Multi?
    ensures Runs.PlaceOk(w, f.place) && Runs.At(w, f.place).current == f.start
    ensures ChildOf(w.blocks[f.block], f.child.value).block < f.block && f.start + |f.got| < SIZE_T
  {
    hide Text, HandleOk;
    assert BlockOk(w.blocks, f.block);
    Runs.AtInRange(w, f);
  }

  /** The child stands where the multi's position lies in it; its read can begin. */
  lemma AfterPosition(w: Runs.World, v: Runs.World, f: Runs.Frame)
    requires InLoop(w, f) && v == Runs.MoveChild(w, f)
    ensures WellFormed(v.blocks) && OnlyBelow(w.blocks, v.blocks, f.block + 1)
    ensures Runs.FrameOk(v, f.(phase := Runs.Reading))
    ensures Runs.PlaceOk(v, f.place) && Runs.At(v, f.place) == Runs.At(w, f.place)
    ensures Runs.PlaceOk(v, ChildSlot(f)) && Runs.At(v, ChildSlot(f)).block < f.block < |v.blocks|
    ensures Runs.FrameOk(v, Runs.NewFrame(v, ChildSlot(f), f.want - |f.got|))
      && HandleOk(v.blocks, Runs.At(v, ChildSlot(f)))
  {
    hide Text, HandleOk, BlockOk, Runs.FrameOk, SetPosition, Runs.NewFrame;
    BeforeChild(w, f);
    Runs.LockedFrame(w, w, f);
    var locked := f.(phase := Runs.Locked);
    Runs.ChildIsThere(w, locked);
    Runs.MoveChildIs(w, f);
    var inner := Inner(w.blocks[f.block], f.child.value, f.start + |f.got|);
    Runs.RepositionedIsWellFormed(w.blocks, f.block, f.child.value, inner);
    if f.place.Slot? { Runs.SlotKept(w, v, f.place); }
    Runs.MovedFrame(w, v, locked);
    var moved := f.(phase := Runs.Positioned);
    Runs.ReadingFrame(v, v, moved);
    Runs.StartedFrame(v, v, moved);
    BeforeChild(v, f) by { Runs.FrameKept(w, v, f); }
    NewFrameHandle(v, ChildSlot(f), f.want - |f.got|);
  }

  lemma NewFrameHandle(w: Runs.World, p: Runs.Place, want: nat)
    requires Runs.PlaceOk(w, p) && Runs.At(w, p).block < |w.blocks| && Runs.FrameOk(w, Runs.NewFrame(w, p, want))
    ensures HandleOk(w.blocks, Runs.At(w, p))
    ensures var n := Runs.NewFrame(w, p, want);
      n.place == p && n.block == Runs.At(w, p).block && n.start == Runs.At(w, p).current && n.want == want
  {
    hide HandleOk;
  }

  /** The child's bytes are delivered. */
  lemma AfterRead(w: Runs.World, v: Runs.World, x: Runs.World, f: Runs.Frame, result: Result, copied: nat)
    returns (bytes: seq<byte>)
    requires InLoop(w, f) && v == Runs.MoveChild(w, f) && Runs.Shaped(x)
    requires Runs.PlaceOk(v, ChildSlot(f)) && HandleOk(v.blocks, Runs.At(v, ChildSlot(f)))
    requires var h := Runs.At(v, ChildSlot(f));
      && (result, copied) == (ReadOf(v.blocks, h, f.want - |f.got|).0, |ReadOf(v.blocks, h, f.want - |f.got|).1|)
      && x.users == v.users && OnlyBelow(v.blocks, x.blocks, f.block + 1)
    ensures bytes == ReadOf(v.blocks, Runs.At(v, ChildSlot(f)), f.want - |f.got|).1 && |bytes| == copied
    ensures result == Ok || (result == Eof && bytes == [])
    ensures result == Ok ==> bytes != []
    ensures |f.got| + copied <= f.want
    ensures OnlyBelow(w.blocks, x.blocks, f.block + 1) && WellFormed(x.blocks)
    ensures Runs.PlaceOk(x, f.place) && Runs.At(x, f.place) == Runs.At(w, f.place)
    ensures Runs.FrameOk(x, Runs.Delivered(f.(phase := Runs.Reading), result, bytes))
  {
    hide Text, HandleOk, BlockOk, Runs.FrameOk, Runs.MoveChild, Runs.NewFrame, Runs.Delivered;
    BeforeChild(w, f);
    AfterPosition(w, v, f);
    var n := Runs.NewFrame(v, ChildSlot(f), f.want - |f.got|);
    NewFrameHandle(v, ChildSlot(f), f.want - |f.got|);
    assert Runs.Expected(v, n) == ReadOf(v.blocks, Runs.At(v, ChildSlot(f)), f.want - |f.got|);
    Runs.ExpectedSize(v, n);
    hide Runs.Expected, ReadOf;
    bytes := Runs.Expected(v, n).1;
    OnlyBelowTwice(w.blocks, v.blocks, x.blocks, f.block + 1, f.block + 1);
    if f.place.Slot? { Runs.SlotKept(v, x, f.place); }
    Runs.DeliveredFrame(v, x, n, f.(phase := Runs.Reading));
  }

  /** That is one pass of the loop of a reader alone. */
  lemma DeliveredIsPass(w: Runs.World, v: Runs.World, f: Runs.Frame)
    requires InLoop(w, f) && v == Runs.MoveChild(w, f) && Runs.PlaceOk(v, ChildSlot(f))
    ensures Solo.InLoop(w.blocks, f)
    ensures var (result, bytes) := ReadOf(v.blocks, Runs.At(v, ChildSlot(f)), f.want - |f.got|);
      Runs.Delivered(f.(phase := Runs.Reading), result, bytes) == Solo.Pass(w.blocks, f)
  {
    hide Text, HandleOk, Runs.NewFrame;
    BeforeChild(w, f);
    assert BlockOk(w.blocks, f.block);
    hide BlockOk;
    Solo.ChildIsPositioned(w.blocks, f);
    AfterPosition(w, v, f);
    TextKept(w.blocks, v.blocks, ChildOf(w.blocks[f.block], f.child.value).block);
  }

  lemma DeliveredGot(f: Runs.Frame, result: Result, bytes: seq<byte>)
    requires result == Ok || bytes == []
    ensures var got := Runs.Delivered(f.(phase := Runs.Reading), result, bytes).got;
      |got| == |f.got| + |bytes| && got[..|f.got|] == f.got && got[|f.got|..] == bytes
  {
  }

  lemma LeafReadIs(blocks: seq<Block>, h: Handle, want: nat)
    requires h.block < |blocks| && HandleOk(blocks, h) && blocks[h.block].Leaf?
    ensures h.length <= |blocks[h.block].data|
    ensures ReadOf(blocks, h, want) ==
      if h.current >= h.length then (Eof, [])
      else
        var end := h.current + if want < h.length - h.current then want else h.length - h.current;
        (Ok, blocks[h.block].data[h.current..end])
  {
    var size := if want < h.length - h.current then want else h.length - h.current;
    PartOfSlice(blocks[h.block].data, 0, h.length, h.current, h.current + size);
  }

  lemma StartFrame(w: Runs.World, p: Runs.Place, want: nat)
    requires WellFormed(w.blocks) && Runs.PlaceOk(w, p) && HandleOk(w.blocks, Runs.At(w, p)) && want > 0
    ensures Runs.FrameOk(w, Runs.NewFrame(w, p, want))
  {
    hide Text;
    var h := Runs.At(w, p);
    assert BlockOk(w.blocks, h.block);
    if w.blocks[h.block].Multi? { TextLength(w.blocks, h.block); }
  }

  lemma NothingChanged(blocks: seq<Block>, n: nat)
    requires WellFormed(blocks)
    ensures OnlyBelow(blocks, blocks, n)
  {
    hide BlockOk;
  }

  /** After the loop the bytes are those expected at the start. */
  lemma EndFrame(w: Runs.World, v: Runs.World, f: Runs.Frame)
    requires Runs.FrameOk(v, f) && f.phase == Runs.Looping && !Runs.Continues(f)
    requires Runs.PlaceOk(w, f.place) && Runs.At(w, f.place) == Runs.At(v, f.place)
    requires OnlyBelow(w.blocks, v.blocks, f.block + 1)
    requires HandleOk(w.blocks, Runs.At(w, f.place)) && w.blocks[f.block].Multi?
    ensures ReadOf(w.blocks, Runs.At(w, f.place), f.want) == if |f.got| != 0 then (Ok, f.got) else (f.last, [])
    ensures f.start + |f.got| == Plus(f.start, |f.got|) <= Runs.At(w, f.place).length
  {
    hide Text;
    TextKept(w.blocks, v.blocks, f.block);
    assert SameBlock(w.blocks[f.block], v.blocks[f.block]);
    Runs.EndIsExpected(v, f);
    Runs.AtInRange(v, f);
  }

  /** Moving the instance itself is all that is left to do. */
  lemma EndReadFrame(w: Runs.World, v: Runs.World, p: Runs.Place, h: Handle, size: nat, calls: seq<Callback>)
    requires WellFormed(w.blocks) && Runs.PlaceOk(w, p) && h == Runs.At(w, p) && h.block < |w.blocks|
    requires p.Slot? ==> HandleOk(w.blocks, h) && h.current + size <= h.length
    requires (p.Slot? ==> h.block < p.block) && v.users == w.users && OnlyBelow(w.blocks, v.blocks, h.block + 1)
    ensures var after := Replaced(World(Memory(v.blocks, calls), v.users), p, h.(current := h.current + size));
      && ReadFrame(World(Memory(w.blocks, calls), w.users), after, p, h.(current := h.current + size))
      && (size == 0 ==> after == World(Memory(v.blocks, calls), v.users))
  {
    hide Text, BlockOk, HandleOk;
    if p.Slot? {
      HandleInRange(w.blocks, h);
      assert v.blocks[p.block] == w.blocks[p.block];
      Runs.RepositionedIsWellFormed(v.blocks, p.block, p.child, h.current + size);
      var after := Runs.Repositioned(v.blocks, p.block, p.child, h.current + size);
      OnlyBelowTwice(w.blocks, v.blocks, after, h.block + 1, p.block + 1);
    }
  }

  lemma SameUsers(users: seq<Handle>, u: nat)
    requires u < |users|
    ensures users[u := users[u]] + [] == users
  {
  }

  predicate InRange(h: Handle) { h.first <= h.current <= h.length < SIZE_T && h.offsetDiff < SIZE_T }

  /** The outcomes of a split of an instance in range: going back to the old position always works. */
  lemma SplitCases(blocks: seq<Block>, h: Handle, position: nat)
    requires h.block < |blocks| && InRange(h)
    ensures var (moved, found) := SetPosition(h, position);
      UstreamSpec.Split(blocks, h, position) ==
        if position == Position(h) || Plus(Position(h), RemainingSize(h)) == position
        then SplitResult(blocks, h, h, Argument)
        else if found != Ok then SplitResult(blocks, h, h, found)
        else if !CloneAccepted(moved, position) then SplitResult(blocks, h, h, Argument)
        else SplitResult(blocks[h.block := Referenced(blocks[h.block])], h.(length := Minus(position, h.first)),
                         CloneOf(moved, position), Ok)
  {
    PositionFindsItself(h);
    hide Minus, Plus;
  }

  lemma SetBack(h: Handle, moved: Handle, position: nat)
    requires InRange(h) && SetPosition(h, position) == (moved, Ok)
    ensures SetPosition(moved, Position(h)) == (h, Ok) && moved.block == h.block
  {
    PositionFindsItself(h);
  }

  class Streams {
    var blocks: seq<Block>
    var users: seq<Handle>
    var calls: seq<Callback>

    constructor ()
      ensures blocks == [] && users == [] && calls == []
    {
      blocks, users, calls := [], [], [];
    }

    ghost function Snapshot(): World
      reads this
    {
      World(Memory(blocks, calls), users)
    }

    predicate Has(p: Runs.Place)
      reads this
    {
      match p
      case User(u) => u < |users|
      case Slot(b, _) => b < |blocks| && blocks[b].Multi?
    }

    function At(p: Runs.Place): Handle
      requires Has(p)
      reads this
    {
      match p
      case User(u) => users[u]
      case Slot(b, child) => ChildOf(blocks[b], child)
    }

    method Put(p: Runs.Place, h: Handle)
      requires Has(p)
      modifies this
      ensures Snapshot() == Replaced(old(Snapshot()), p, h)
    {
      match p
      case User(u) => users := users[u := h];
      case Slot(b, child) => blocks := blocks[b := WithChild(blocks[b], child, h)];
    }

    method SetPosition(p: Runs.Place, position: nat) returns (result: Result)
      requires Has(p)
      modifies this
      ensures var (h, r) := UstreamSpec.SetPosition(old(At(p)), position);
        result == r && Snapshot() == Replaced(old(Snapshot()), p, h)
    {
      var h := At(p);
      var inner := Minus(position, h.offsetDiff);
      if inner > h.length || inner < h.first {
        Put(p, h);
        result := NotFound;
      } else {
        Put(p, h.(current := inner));
        result := Ok;
      }
    }

    method Reset(p: Runs.Place)
      requires Has(p)
      modifies this
      ensures Snapshot() == Replaced(old(Snapshot()), p, UstreamSpec.Reset(old(At(p))))
    {
      var h := At(p);
      Put(p, h.(current := h.first));
    }

    method Release(p: Runs.Place, position: nat) returns (result: Result)
      requires Has(p)
      modifies this
      ensures var (h, r) := ReleaseTo(old(At(p)), position);
        result == r && Snapshot() == Replaced(old(Snapshot()), p, h)
    {
      var h := At(p);
      var inner := Minus(position, h.offsetDiff);
      if inner >= h.current || inner < h.first {
        Put(p, h);
        result := Argument;
      } else {
        Put(p, h.(first := Plus(inner, 1)));
        result := Ok;
      }
    }

    /** The same blocks and users, seen as a world without reads in progress. */
    ghost function Quiet(): Runs.World
      reads this
    {
      Runs.World(blocks, users, seq(|blocks|, _ => None), seq(|users|, _ => []), [])
    }

    /** The same, with the instance at p taken as h. */
    ghost function Seen(p: Runs.Place, h: Handle): Runs.World
      reads this
    {
      if p.User? && p.u < |users| then Quiet().(users := users[p.u := h]) else Quiet()
    }

    /** The instance at p as a read takes it is one. */
    ghost predicate Readable(p: Runs.Place)
      reads this
    {
      && Has(p) && WellFormed(blocks) && HandleOk(blocks, AsRead(blocks, At(p)))
      && (p.Slot? ==> At(p).block < p.block && HandleOk(blocks, At(p)))
    }

    method ReadLeaf(p: Runs.Place, buffer: array<byte>, from: nat, want: nat) returns (result: Result, size: nat)
      requires Has(p) && HandleOk(blocks, At(p)) && blocks[At(p).block].Leaf?
      requires 0 < want && from + want <= buffer.Length
      modifies this, buffer
      ensures var (r, bytes) := ReadOf(old(blocks), old(At(p)), want);
        result == r && size == |bytes| && Copied(old(buffer[..]), buffer[..], from, bytes)
      ensures Snapshot() == Replaced(old(Snapshot()), p, old(At(p)).(current := old(At(p)).current + size))
    {
      hide Text, ReadOf, HandleOk, Copied;
      var h := At(p);
      HandleInRange(blocks, h);
      LeafReadIs(blocks, h, want);
      var data := blocks[h.block].data;
      if h.current >= h.length {
        size, result := 0, Eof;
        CopiedNothing(buffer[..], from);
        assert h.(current := h.current + size) == h;
        Put(p, h);
      } else {
        var remaining := h.length - h.current;
        size := if want < remaining then want else remaining;
        CopyIn(buffer, from, data[h.current..h.current + size]);
        Put(p, h.(current := h.current + size));
        result := Ok;
      }
    }

    /** memcpy into the buffer. */
    method CopyIn(buffer: array<byte>, from: nat, bytes: seq<byte>)
      requires from + |bytes| <= buffer.Length
      modifies buffer
      ensures Copied(old(buffer[..]), buffer[..], from, bytes)
    {
      forall i | 0 <= i < |bytes| { buffer[from + i] := bytes[i]; }
    }

    /** The read of an instance, whatever its block. */
    method Read(p: Runs.Place, buffer: array<byte>, from: nat, want: nat) returns (result: Result, size: nat)
      requires Readable(p) && 0 < want && from + want <= buffer.Length
      modifies this, buffer
      ensures var (r, bytes) := old(ReadOf(blocks, AsRead(blocks, At(p)), want));
        result == r && size == |bytes| && Copied(old(buffer[..]), buffer[..], from, bytes)
      ensures ReadFrame(old(Snapshot()), Snapshot(), p, old(At(p)).(current := old(At(p)).current + size))
      decreases At(p).block, 2
    {
      hide WellFormed, Text, OnlyBelow, ReadFrame, Copied, HandleOk;
      HandleInRange(blocks, AsRead(blocks, At(p)));
      if blocks[At(p).block].Leaf? {
        ghost var w, h := Quiet(), At(p);
        NothingChanged(blocks, h.block + 1);
        LeafReadIs(blocks, h, want);
        result, size := ReadLeaf(p, buffer, from, want);
        EndReadFrame(w, w, p, h, size, calls);
      } else {
        result, size := ReadMulti(p, buffer, from, want);
      }
    }

    /** One pass of the loop of a multi's read: position the child, read it, and move on when it has no more. */
    method ReadChild(p: Runs.Place, buffer: array<byte>, from: nat, want: nat, size: nat, c: Child,
                     ghost h: Handle, ghost f: Runs.Frame)
      returns (last: Result, total: nat, child: Option<Child>, ghost g: Runs.Frame)
      requires Has(p) && WellFormed(blocks) && (p.Slot? ==> At(p).block < p.block && h == At(p))
      requires h == At(p).(length := h.length)
      requires f == Runs.Frame(p, At(p).block, At(p).current, want, f.got, Some(c), Runs.Looping, Ok)
      requires Runs.FrameOk(Seen(p, h), f) && size == |f.got| < want && from + want <= buffer.Length
      modifies this, buffer
      ensures Has(p) && At(p) == old(At(p)) && users == old(users) && calls == old(calls)
      ensures WellFormed(blocks) && OnlyBelow(old(blocks), blocks, f.block + 1)
      ensures g == f.(got := g.got, child := child, last := last) && total == |g.got|
      ensures Runs.FrameOk(Seen(p, h), g)
      ensures Solo.InLoop(old(blocks), f) && g == Solo.Pass(old(blocks), f)
      ensures size <= total && g.got[..size] == f.got && Copied(old(buffer[..]), buffer[..], from + size, g.got[size..])
      ensures size < total || (child != f.child && (c == Two ==> child == None))
      decreases At(p).block, 0
    {
      hide WellFormed, Text, Copied, OnlyBelow, HandleOk, Runs.FrameOk, BlockOk;
      var slot := Runs.Slot(At(p).block, c);
      ghost var w0 := Seen(p, h);
      BeforeChild(w0, f);
      var ignored := SetPosition(slot, Plus(At(p).current, size));
      ghost var w1 := Seen(p, h);
      AfterPosition(w0, w1, f);
      OkIsAsRead(blocks, At(slot));
      var result, copied := Read(slot, buffer, from + size, want - size);
      ghost var w2 := Seen(p, h);
      ghost var bytes := AfterRead(w0, w1, w2, f, result, copied);
      total := size;
      last, child := result, Some(c);
      if result == Ok { total := total + copied; }
      if (result == Ok || result == Eof) && total < want {
        if c == One { child, last := Some(Two), Ok; } else { child := None; }
      }
      g := Runs.Delivered(f.(phase := Runs.Reading), result, bytes);
      DeliveredIsPass(w0, w1, f);
      DeliveredGot(f, result, bytes);
    }

    /** The loop over the two children, one lock section each. */
    method ReadMulti(p: Runs.Place, buffer: array<byte>, from: nat, want: nat) returns (result: Result, size: nat)
      requires Readable(p) && At(p).block < |blocks| && blocks[At(p).block].Multi?
      requires 0 < want && from + want <= buffer.Length
      modifies this, buffer
      ensures var (r, bytes) := old(ReadOf(blocks, AsRead(blocks, At(p)), want));
        result == r && size == |bytes| && Copied(old(buffer[..]), buffer[..], from, bytes)
      ensures ReadFrame(old(Snapshot()), Snapshot(), p, old(At(p)).(current := old(At(p)).current + size))
      decreases At(p).block, 1
    {
      hide WellFormed, Text, Copied, OnlyBelow, HandleOk, Runs.FrameOk, ReadOf, ReadFrame, Solo.InLoop, Solo.Pass;
      hide Replaced, Plus;
      var b := At(p).block;
      ghost var own, h := At(p), AsRead(blocks, At(p));
      if p.Slot? { OkIsAsRead(blocks, own); }
      ghost var quiet, w := Quiet(), Seen(p, h);
      HandleInRange(blocks, h);
      ghost var f := Runs.NewFrame(w, p, want);
      var child := if At(p).current < blocks[b].one.length then Some(One) else Some(Two);
      var last := Ok;
      size := 0;
      StartFrame(w, p, want);
      CopiedNothing(buffer[..], from);
      NothingChanged(blocks, b + 1);
      while last == Ok && size < want && child.Some?
        invariant f == Runs.Frame(p, b, h.current, want, f.got, child, Runs.Looping, last) && size == |f.got|
        invariant Has(p) && Runs.FrameOk(Seen(p, h), f) && WellFormed(blocks)
        invariant At(p) == own && users == old(users) && calls == old(calls)
        invariant OnlyBelow(old(blocks), blocks, b + 1)
        invariant Copied(old(buffer[..]), buffer[..], from, f.got)
        decreases want - size, if child == Some(One) then 2 else if child == Some(Two) then 1 else 0
      {
        ghost var sizeBefore, blocksBefore, bufferBefore := size, blocks, buffer[..];
        last, size, child, f := ReadChild(p, buffer, from, want, size, child.value, h, f);
        OnlyBelowTwice(old(blocks), blocksBefore, blocks, b + 1, b + 1);
        CopiedOn(old(buffer[..]), bufferBefore, buffer[..], from, sizeBefore, f.got);
      }
      EndFrame(w, Seen(p, h), f);
      ghost var v := Quiet();
      if size != 0 {
        Put(p, At(p).(current := Plus(At(p).current, size)));
        result := Ok;
      } else {
        result := last;
      }
      EndReadFrame(quiet, v, p, own, size, old(calls));
    }

    method Create(data: seq<byte>, dataRelease: bool, blockRelease: bool) returns (u: nat)
      requires Placed(Snapshot()) && 0 < |data| < SIZE_T
      modifies this
      ensures u == old(|users|) && Snapshot() == Step(old(Snapshot()), Creating(data, dataRelease, blockRelease))
    {
      var b := |blocks|;
      blocks := blocks + [Leaf(data, 0, dataRelease, blockRelease)];
      u := InitInstance(b, 0, 0, |data|);
      assert blocks == Init(old(blocks), data, dataRelease, blockRelease).0;
    }

    /** init_instance of a leaf: a new instance and one more reference. */
    method InitInstance(b: nat, position: nat, offset: nat, length: nat) returns (u: nat)
      requires b < |blocks| && blocks[b].Leaf?
      modifies this
      ensures u == old(|users|) && calls == old(calls)
      ensures users == old(users) + [Handle(b, Minus(offset, position), position, position, length)]
      ensures blocks == old(blocks)[b := Referenced(old(blocks)[b])]
    {
      u := |users|;
      users := users + [Handle(b, Minus(offset, position), position, position, length)];
      blocks := blocks[b := WithRefs(blocks[b], blocks[b].refCount + 1)];
    }

    method Clone(u: nat, offset: nat) returns (result: Result, clone: nat)
      requires Placed(Snapshot()) && u < |users|
      modifies this
      ensures result == (if CloneAccepted(old(users)[u], offset) then Ok else Argument)
      ensures result == Ok ==> clone == old(|users|)
      ensures Snapshot() == Step(old(Snapshot()), Cloning(u, offset))
    {
      var h := users[u];
      if offset > Minus(UINT32_MAX, h.length) { return Argument, u; }
      if blocks[h.block].Leaf? {
        clone := InitInstance(h.block, h.current, offset, h.length);
      } else {
        clone := |users|;
        users := users + [Handle(h.block, Minus(offset, h.current), h.current, h.current, h.length)];
        CountUp(h.block);
      }
      result := Ok;
    }

    /** The clone of a multi counts for the block and for both children. */
    method CountUp(b: nat)
      requires b < |blocks| && blocks[b].Multi?
      modifies this
      ensures users == old(users) && calls == old(calls) && blocks == old(blocks)[b := Referenced(old(blocks)[b])]
    {
      var m := blocks[b];
      m := WithRefs(m, m.refCount + 1);
      m := m.(oneRefs := m.oneRefs + 1);
      m := m.(twoRefs := m.twoRefs + 1);
      blocks := blocks[b := m];
    }

    /** concat of two different instances.  The first goes to the new block before the second is cloned, and stays
        there when the clone is refused. */
    method Concat(u: nat, other: nat, dataRelease: bool) returns (result: Result)
      requires Placed(Snapshot()) && u < |users| && other < |users| && u != other
      modifies this
      ensures result == if CloneAccepted(old(users)[other], old(users)[u].length) then Ok else Argument
      ensures result == Ok ==> Snapshot() == Step(old(Snapshot()), Joining(u, other, dataRelease))
      ensures result != Ok ==>
        var (after, g) := HalfConcat(old(blocks), old(users)[u], dataRelease);
        blocks == after && users == old(users)[u := g] && calls == old(calls)
    {
      var g, h := users[u], users[other];
      var b := |blocks|;
      blocks := blocks + [Multi(g, Handle(b, 0, 0, 0, 0), 1, 0, 1, dataRelease)];
      users := users[u := g.(block := b)];
      if g.length > Minus(UINT32_MAX, h.length) { return Argument; }
      var two := Handle(h.block, Minus(g.length, h.current), h.current, h.current, h.length);
      if blocks[h.block].Leaf? {
        blocks := blocks[h.block := WithRefs(blocks[h.block], blocks[h.block].refCount + 1)];
      } else {
        CountUp(h.block);
      }
      blocks := blocks[b := blocks[b].(two := two)];
      users := users[u := users[u].(length := Plus(users[u].length, Minus(two.length, two.current)))];
      blocks := blocks[b := blocks[b].(twoRefs := blocks[b].twoRefs + 1)];
      ghost var (joined, c) := UstreamSpec.Concat(old(blocks), g, h, dataRelease);
      assert blocks == joined && users == old(users)[u := c];
      result := Ok;
    }

    method Split(u: nat, position: nat) returns (result: Result, right: nat)
      requires Placed(Snapshot()) && u < |users| && InRange(users[u])
      modifies this
      ensures result == UstreamSpec.Split(old(blocks), old(users)[u], position).result
      ensures result == Ok ==> right == old(|users|)
      ensures Snapshot() == Step(old(Snapshot()), Splitting(u, position))
    {
      hide UstreamSpec.SetPosition, Position, RemainingSize, CloneAccepted;
      ghost var h := users[u];
      right := u;
      var before := Position(users[u]);
      SplitCases(blocks, h, position);
      SameUsers(users, u);
      if position == before { return Argument, u; }
      if Plus(before, RemainingSize(users[u])) == position { return Argument, u; }
      result := SetPosition(Runs.User(u), position);
      ghost var moved := users[u];
      if result != Ok { return result, u; }
      SetBack(h, moved, position);
      result, right := Clone(u, position);
      if result != Ok {
        var ignored := SetPosition(Runs.User(u), before);
        assert users == old(users);
        return Argument, u;
      }
      result := SetPosition(Runs.User(u), before);
      assert users == old(users) + [CloneOf(moved, position)];
      users := users[u := users[u].(length := Minus(position, users[u].first))];
      assert users == old(users)[u := h.(length := Minus(position, h.first))] + [CloneOf(moved, position)];
    }

    /** One reference less; at zero the block is destroyed. */
    method DropReference(b: nat)
      requires b < |blocks| && Ranked(blocks)
      modifies this
      ensures users == old(users) && Memory(blocks, calls) == DropBlock(old(Memory(blocks, calls)), b)
    {
      blocks := blocks[b := WithRefs(blocks[b], blocks[b].refCount - 1)];
      if blocks[b].refCount == 0 {
        ghost var before := calls;
        if blocks[b].dataRelease { calls := calls + [DataRelease(b)]; }
        if blocks[b].Leaf? && blocks[b].blockRelease { calls := calls + [BlockRelease(b)]; }
        assert calls == before + CallsOf(blocks, b);
      }
    }

    /** Dispose of an instance on block b. */
    method DisposeBlock(b: nat)
      requires b < |blocks| && Ranked(blocks)
      modifies this
      ensures users == old(users) && Memory(blocks, calls) == Dispose(old(Memory(blocks, calls)), b)
      decreases b
    {
      hide DropBlock;
      if blocks[b].Multi? {
        blocks := blocks[b := blocks[b].(oneRefs := blocks[b].oneRefs - 1, twoRefs := blocks[b].twoRefs - 1)];
        if blocks[b].oneRefs == 0 { DisposeBlock(blocks[b].one.block); }
        if blocks[b].twoRefs == 0 { DisposeBlock(blocks[b].two.block); }
      }
      DropReference(b);
    }

    /** Dispose of a user's instance. */
    method DisposeInstance(u: nat)
      requires Placed(Snapshot()) && u < |users|
      modifies this
      ensures Snapshot() == Step(old(Snapshot()), Disposing(u))
    {
      DisposeBlock(users[u].block);
      users := users[..u] + users[u + 1..];
    }
  }
}
