/** A reader alone, on whatever multi block concat leaves behind.

    The loop of a multi's read as a function, in terms of the frames of `UstreamRuns`: it does not ask that the
    first operand's offset is 0, nor that the second child slot is filled. */
module UstreamSolo {
  import opened Common
  import opened UstreamSpec
  import Runs = UstreamRuns

  /** set_position before a child's read; its result is not looked at. */
  function Positioned(h: Handle, p: nat): Handle { SetPosition(h, p).0 }

  predicate InLoop(blocks: seq<Block>, f: Runs.Frame) {
    f.block < |blocks| && blocks[f.block].Multi? && |f.got| <= f.want
  }

  /** The child of the frame, positioned as a pass reads it. */
  ghost function AtChild(blocks: seq<Block>, f: Runs.Frame): Handle
    requires InLoop(blocks, f) && f.child.Some?
  {
    AsRead(blocks, Positioned(ChildOf(blocks[f.block], f.child.value), Plus(f.start, |f.got|)))
  }

  /** One pass of the loop. */
  ghost function Pass(blocks: seq<Block>, f: Runs.Frame): (g: Runs.Frame)
    requires InLoop(blocks, f) && f.child.Some?
    ensures g.block == f.block && g.start == f.start && g.want == f.want && |f.got| <= |g.got| <= g.want
    ensures |f.got| < |g.got| || |g.got| == g.want || Turns(g.child) < Turns(f.child)
  {
    var (result, bytes) := ReadOf(blocks, AtChild(blocks, f), f.want - |f.got|);
    Runs.Delivered(f, result, bytes)
  }

  /** The children that are still to come. */
  function Turns(child: Option<Child>): nat {
    match child
    case None => 0
    case Some(c) => if c == One then 2 else 1
  }

  /** The blocks after that pass: the child's cursor is behind the bytes it gave. */
  ghost function Moves(blocks: seq<Block>, f: Runs.Frame): seq<Block>
    requires InLoop(blocks, f) && f.child.Some?
  {
    var h := AtChild(blocks, f);
    Runs.Repositioned(blocks, f.block, f.child.value, h.current + |ReadOf(blocks, h, f.want - |f.got|).1|)
  }

  /** What the read gives back and the blocks it leaves, or the child slot without an instance that it runs into. */
  datatype Outcome = Returned(result: Result, bytes: seq<byte>, blocks: seq<Block>) | NoInstance(bytes: seq<byte>)

  predicate Gives(outcome: Outcome, result: Result, bytes: seq<byte>) {
    outcome.Returned? && outcome.result == result && outcome.bytes == bytes
  }

  /** The loop to its end.  A child slot that names its own block is empty. */
  ghost function Loop(blocks: seq<Block>, f: Runs.Frame): Outcome
    requires InLoop(blocks, f)
    decreases f.want - |f.got|, Turns(f.child)
  {
    if !Runs.Continues(f) then Returned(if f.got != [] then Ok else f.last, f.got, blocks)
    else if ChildOf(blocks[f.block], f.child.value).block == f.block then NoInstance(f.got)
    else Loop(Moves(blocks, f), Pass(blocks, f))
  }

  /** The frame of a new read of the instance h. */
  function First(blocks: seq<Block>, h: Handle, want: nat): Runs.Frame
    requires h.block < |blocks|
  {
    Runs.NewFrame(Runs.World(blocks, [h], [], [], []), Runs.User(0), want)
  }

  ghost function Read(blocks: seq<Block>, h: Handle, want: nat): Outcome
    requires h.block < |blocks| && blocks[h.block].Multi?
  {
    Loop(blocks, First(blocks, h, want))
  }

  // Pass by pass.

  /** The part of a text that a read of at most `want` bytes from `current` on returns. */
  function Part(text: seq<byte>, current: nat, length: nat, want: nat): seq<byte> {
    Slice(text, current, if current + want < length then current + want else length)
  }

  lemma ReadIsPart(blocks: seq<Block>, h: Handle, want: nat)
    requires HandleOk(blocks, h)
    ensures ReadOf(blocks, h, want)
         == (if h.current < h.length then Ok else Eof, Part(Text(blocks, h.block), h.current, h.length, want))
    ensures want > 0 ==> (h.current == h.length <==> Part(Text(blocks, h.block), h.current, h.length, want) == [])
  {
    hide Text;
    var text := Text(blocks, h.block);
    if h.current < h.length {
      PartOfSlice(text, 0, h.length, h.current, if h.current + want < h.length then h.current + want else h.length);
    } else {
      assert text[h.length..h.length] == [];
    }
  }

  lemma ChildIsPositioned(blocks: seq<Block>, f: Runs.Frame)
    requires InLoop(blocks, f) && f.child.Some? && HandleOk(blocks, ChildOf(blocks[f.block], f.child.value))
    ensures AtChild(blocks, f) == Positioned(ChildOf(blocks[f.block], f.child.value), Plus(f.start, |f.got|))
    ensures HandleOk(blocks, AtChild(blocks, f))
  {
    hide HandleOk, SetPosition;
    var h := ChildOf(blocks[f.block], f.child.value);
    Runs.HandleMovesOk(blocks, h, Plus(f.start, |f.got|));
    OkIsAsRead(blocks, Positioned(h, Plus(f.start, |f.got|)));
  }

  lemma Shift(blocks: seq<Block>, b: nat, child: Child, current: nat)
    requires b < |blocks| && blocks[b].Multi?
    ensures var moved := Runs.Repositioned(blocks, b, child, current);
      && Extends(blocks, moved) && moved[b].Multi?
      && (child == One ==> moved[b].two == blocks[b].two && moved[b].one == blocks[b].one.(current := current))
      && (child == Two ==> moved[b].one == blocks[b].one)
  {
  }

  /** From the first child the loop takes what its cursor finds, and goes on to the second for the rest. */
  lemma LoopInFirst(blocks: seq<Block>, h: Handle, want: nat)
    requires h.block < |blocks| && blocks[h.block].Multi? && want > 0 && h.current < SIZE_T
    requires var one := blocks[h.block].one;
      HandleOk(blocks, one) && one.block < h.block && h.current < one.length
    ensures var one := blocks[h.block].one;
      var q, text := Positioned(one, h.current).current, Text(blocks, one.block);
      && q <= one.length <= |text|
      && Read(blocks, h, want) ==
         if q + want <= one.length
         then Returned(Ok, text[q..q + want], Runs.Repositioned(blocks, h.block, One, q + want))
         else Loop(Runs.Repositioned(blocks, h.block, One, one.length),
                   First(blocks, h, want).(got := text[q..one.length], child := Some(Two)))
  {
    hide Text, HandleOk, AtChild, Positioned, ReadOf, Loop, Part, Runs.Repositioned;
    var one, f := blocks[h.block].one, First(blocks, h, want);
    var q := Positioned(one, h.current).current;
    assert Plus(f.start, |f.got|) == h.current;
    PositionedIsValid(blocks, one, h.current);
    ChildIsPositioned(blocks, f);
    ReadIsPart(blocks, AtChild(blocks, f), want);
    FirstPass(blocks, f);
    PartFits(Text(blocks, one.block), q, one.length, want);
  }

  lemma PositionedIsValid(blocks: seq<Block>, h: Handle, p: nat)
    requires HandleOk(blocks, h)
    ensures Positioned(h, p) == h.(current := Positioned(h, p).current)
    ensures h.first <= Positioned(h, p).current <= h.length <= |Text(blocks, h.block)|
  {
    hide Text;
  }

  lemma PartFits(text: seq<byte>, current: nat, length: nat, want: nat)
    requires current <= length <= |text|
    ensures Part(text, current, length, want)
         == if current + want <= length then text[current..current + want] else text[current..length]
  {
  }

  /** The pass over the first child hands over to the second unless the read is complete. */
  lemma FirstPass(blocks: seq<Block>, f: Runs.Frame)
    requires InLoop(blocks, f) && f.child == Some(One) && f.last == Ok && f.got == [] && f.want > 0
    requires blocks[f.block].one.block < f.block && f.phase == Runs.Looping
    ensures var bytes := ReadOf(blocks, AtChild(blocks, f), f.want).1;
      Loop(blocks, f) == if |bytes| == f.want then Returned(Ok, bytes, Moves(blocks, f))
                         else Loop(Moves(blocks, f), f.(got := bytes, child := Some(Two)))
  {
    hide AtChild;
    var bytes := ReadOf(blocks, AtChild(blocks, f), f.want).1;
    assert [] + bytes == bytes;
    assert Loop(blocks, f) == Loop(Moves(blocks, f), Pass(blocks, f));
  }

  /** The second child is the last. */
  lemma LoopInSecond(blocks: seq<Block>, f: Runs.Frame)
    requires InLoop(blocks, f) && f.child == Some(Two) && f.last == Ok && |f.got| < f.want
    requires var two := blocks[f.block].two; HandleOk(blocks, two) && two.block < f.block
    ensures var two := blocks[f.block].two;
      var q := Positioned(two, Plus(f.start, |f.got|)).current;
      var part := Part(Text(blocks, two.block), q, two.length, f.want - |f.got|);
      Loop(blocks, f) == Returned(if f.got + part != [] then Ok else Eof, f.got + part,
                                  Runs.Repositioned(blocks, f.block, Two, q + |part|))
  {
    hide Text, HandleOk, AtChild, Positioned, ReadOf, Part, Loop, Runs.Repositioned;
    ChildIsPositioned(blocks, f);
    PositionedIsValid(blocks, blocks[f.block].two, Plus(f.start, |f.got|));
    ReadIsPart(blocks, AtChild(blocks, f), f.want - |f.got|);
    LastPass(blocks, f);
    assert f.got + [] == f.got;
  }

  /** The pass over the second child ends the loop. */
  lemma LastPass(blocks: seq<Block>, f: Runs.Frame)
    requires InLoop(blocks, f) && f.child == Some(Two) && f.last == Ok && |f.got| < f.want
    requires blocks[f.block].two.block < f.block
    ensures var (result, bytes) := ReadOf(blocks, AtChild(blocks, f), f.want - |f.got|);
      var all := if result == Ok then f.got + bytes else f.got;
      Loop(blocks, f) == Returned(if all != [] then Ok else result, all, Moves(blocks, f))
  {
    hide AtChild, ReadOf;
    var g := Pass(blocks, f);
    assert !Runs.Continues(g);
    assert Loop(blocks, f) == Loop(Moves(blocks, f), g);
  }

  // A refused concat.

  /** A refused concat has put the first operand on a block whose second child slot is empty.  A read from then on
      takes bytes of the operand, and runs into the empty slot unless the operand has all of them. */
  lemma RefusedConcatReads(blocks: seq<Block>, g: Handle, dataRelease: bool, want: nat)
    requires WellFormed(blocks) && HandleOk(blocks, g) && want > 0
    ensures var (after, c) := HalfConcat(blocks, g, dataRelease);
      var q, text := Positioned(g, g.current).current, Text(blocks, g.block);
      && q <= g.length <= |text|
      && (if g.current < g.length && q + want <= g.length then Gives(Read(after, c, want), Ok, text[q..q + want])
          else Read(after, c, want) == NoInstance(if g.current < g.length then text[q..g.length] else []))
  {
    hide Text;
    var (after, c) := HalfConcat(blocks, g, dataRelease);
    assert Extends(blocks, after);
    HandleKept(blocks, after, g);
    TextKept(blocks, after, g.block);
    Runs.HandleMovesOk(blocks, g, g.current);
    if g.current < g.length {
      LoopInFirst(after, c, want);
      hide SetPosition, HandleOk, WellFormed;
      Shift(after, c.block, One, g.length);
    }
  }

  /** So an operand that counts from 0 reads on as before if and only if it is asked for no more than it has left. */
  lemma RefusedConcatKeepsWhatIsLeft(blocks: seq<Block>, g: Handle, h: Handle, dataRelease: bool, want: nat)
    requires WellFormed(blocks) && HandleOk(blocks, g) && HandleOk(blocks, h) && g.offsetDiff == 0 && want > 0
    ensures CloneAccepted(h, g.length) <==> g.length + h.length < SIZE_T
    ensures var (after, c) := HalfConcat(blocks, g, dataRelease);
      && (Gives(Read(after, c, want), ReadOf(blocks, g, want).0, ReadOf(blocks, g, want).1)
          <==> g.current + want <= g.length)
      && (Read(after, c, want).NoInstance? <==> g.current + want > g.length)
  {
    hide Text;
    hide HandleOk, WellFormed, Read, HalfConcat, ReadOf;
    ConcatFits(blocks, g, h);
    HandleInRange(blocks, g);
    FindsItself(g);
    RefusedConcatReads(blocks, g, dataRelease, want);
    ReadIsPart(blocks, g, want);
  }

  lemma FindsItself(g: Handle)
    requires g.first <= g.current <= g.length < SIZE_T && g.offsetDiff == 0
    ensures Positioned(g, g.current) == g
  {
    assert Minus(g.current, 0) == g.current;
  }

  // An operand that does not count from 0.

  /** The pass at position p delivers from p if and only if set_position finds p where it is, which only the offset 0
      does, or refuses it while the cursor is there already. */
  lemma PassDeliversFrom(one: Handle, k: nat, p: nat)
    requires p < SIZE_T && one.offsetDiff < SIZE_T
    ensures Positioned(one.(current := k), p).current == p <==>
      if SetPosition(one, p).1 == Ok then one.offsetDiff == 0 else k == p
  {
    if Minus(p, one.offsetDiff) == p {
      MinusIsInjective(p, one.offsetDiff, 0);
    }
    assert Minus(p, 0) == p;
  }

  /** So wherever other readers have left the cursor, every pass delivers from its place exactly when the offset
      is 0. */
  lemma SharedReadsNeedZeroOffset(one: Handle)
    requires one.first < one.length < SIZE_T && one.offsetDiff < SIZE_T
    ensures (forall k, p :: one.first <= k <= one.length && one.first <= p <= one.length ==>
              Positioned(one.(current := k), p).current == p)
      <==> one.offsetDiff == 0
  {
    hide SetPosition, Positioned;
    if one.offsetDiff == 0 {
      forall k, p | one.first <= k <= one.length && one.first <= p <= one.length
        ensures Positioned(one.(current := k), p).current == p
      {
        PassDeliversFrom(one, k, p);
        ZeroFinds(one, p);
      }
    } else {
      PassDeliversFrom(one, one.first, one.length);
      assert Positioned(one.(current := one.first), one.length).current != one.length;
    }
  }

  lemma ZeroFinds(one: Handle, p: nat)
    requires one.first <= p <= one.length < SIZE_T && one.offsetDiff == 0
    ensures SetPosition(one, p).1 == Ok
  {
    assert Minus(p, 0) == p;
  }

  /** A reader alone finds its cursor where its last pass left it.  set_position stays out of its way, refusing every
      position still to be read, exactly when the offset lies past the valid range on one side and does not come
      round to it on the other. */
  lemma OutOfTheWay(one: Handle)
    requires one.first <= one.current < one.length < SIZE_T && 0 < one.offsetDiff < SIZE_T
    ensures (forall p :: one.current <= p < one.length ==> SetPosition(one, p).1 != Ok)
      <==> one.length - one.first <= one.offsetDiff && one.offsetDiff + (one.length - one.current) < SIZE_T
  {
    var d := one.offsetDiff;
    if one.length - one.first <= d && d + (one.length - one.current) < SIZE_T {
      forall p | one.current <= p < one.length ensures SetPosition(one, p).1 != Ok {
        if p < d { ModOfShifted(p - d + SIZE_T, -1); } else { ModOfShifted(p - d, 0); }
      }
    } else if d < one.length - one.first {
      ModOfShifted(one.length - 1 - d, 0);
      assert SetPosition(one, one.length - 1).1 == Ok;
    } else {
      if one.current < d { ModOfShifted(one.current - d + SIZE_T, -1); }
      assert SetPosition(one, one.current).1 == Ok;
    }
  }

  /** The children as concat leaves them, whatever the first operand's offset. */
  predicate Joined(blocks: seq<Block>, b: nat) {
    && b < |blocks| && blocks[b].Multi?
    && var one, two := blocks[b].one, blocks[b].two;
      && one.block < b && two.block < b && HandleOk(blocks, one) && HandleOk(blocks, two)
      && two.offsetDiff == Minus(one.length, two.first) && one.length + two.length - two.first < SIZE_T
  }

  lemma ConcatIsJoined(blocks: seq<Block>, g: Handle, h: Handle, dataRelease: bool)
    requires WellFormed(blocks) && HandleOk(blocks, g) && HandleOk(blocks, h) && CloneAccepted(h, g.length)
    ensures var (after, c) := Concat(blocks, g, h, dataRelease);
      && Joined(after, c.block) && c.current == g.current && after[c.block].one == g
      && c.length == |Text(after, c.block)|
  {
    hide Text, HandleOk, WellFormed;
    HandleInRange(blocks, g);
    HandleInRange(blocks, h);
    CloneIsOk(blocks, h, g.length);
    ConcatFits(blocks, g, h);
    var (referenced, two) := Clone(blocks, h, g.length);
    var (after, c) := Concat(blocks, g, h, dataRelease);
    HandleKept(blocks, referenced, g);
    assert forall i :: 0 <= i < |referenced| ==> SameBlock(referenced[i], after[i]);
    HandleKept(referenced, after, g);
    HandleKept(referenced, after, two);
    assert RemainingSize(two) == two.length - two.first;
    JoinedText(after, c.block);
    hide Clone, Extends;
  }

  lemma JoinedText(blocks: seq<Block>, b: nat)
    requires Joined(blocks, b)
    ensures var one, two := blocks[b].one, blocks[b].two;
      && one.length <= |Text(blocks, one.block)| && two.first <= two.length <= |Text(blocks, two.block)|
      && Text(blocks, b) == Text(blocks, one.block)[..one.length] + Text(blocks, two.block)[two.first..two.length]
  {
  }

  /** The next read of the instance finds the first child's cursor in its place, or does not need that child. */
  predicate InPlace(blocks: seq<Block>, h: Handle)
    requires h.block < |blocks| && blocks[h.block].Multi?
  {
    h.current < blocks[h.block].one.length ==> Positioned(blocks[h.block].one, h.current).current == h.current
  }

  /** The second child always finds its place. */
  lemma SecondFinds(blocks: seq<Block>, b: nat, p: nat)
    requires Joined(blocks, b)
    requires blocks[b].one.length <= p <= blocks[b].one.length + (blocks[b].two.length - blocks[b].two.first)
    ensures Positioned(blocks[b].two, p).current == p - blocks[b].one.length + blocks[b].two.first
  {
    MinusMinus(p, blocks[b].one.length, blocks[b].two.first);
  }

  lemma TwoParts(s: seq<byte>, t: seq<byte>, p: nat, want: nat)
    requires p <= |s| < p + want
    ensures s[p..] + Part(t, 0, |t|, want - (|s| - p)) == Part(s + t, p, |s + t|, want)
  {
  }

  lemma OnePart(s: seq<byte>, t: seq<byte>, p: nat, want: nat)
    requires |s| <= p <= |s + t|
    ensures Part(s + t, p, |s + t|, want) == Part(t, p - |s|, |t|, want)
  {
  }

  lemma PartOfPart(t: seq<byte>, from: nat, to: nat, p: nat, want: nat)
    requires from <= to <= |t| && p <= to - from
    ensures Part(t[from..to], p, to - from, want) == Part(t, p + from, to, want)
  {
    PartOfSlice(t, from, to, p, if p + want < to - from then p + want else to - from);
  }

  lemma WholeRead(blocks: seq<Block>, h: Handle, want: nat)
    requires h.current <= h.length == |Text(blocks, h.block)|
    ensures ReadOf(blocks, h, want)
         == (if h.current < h.length then Ok else Eof, Part(Text(blocks, h.block), h.current, h.length, want))
  {
    hide Text;
    var text := Text(blocks, h.block);
    assert Slice(text, 0, h.length) == text && text[h.length..h.length] == [];
  }

  lemma StaysJoined(blocks: seq<Block>, b: nat, child: Child, current: nat)
    requires Joined(blocks, b) && ChildOf(blocks[b], child).first <= current <= ChildOf(blocks[b], child).length
    ensures Joined(Runs.Repositioned(blocks, b, child, current), b)
    ensures Extends(blocks, Runs.Repositioned(blocks, b, child, current))
  {
    hide Text, HandleOk;
    var moved := Runs.Repositioned(blocks, b, child, current);
    Shift(blocks, b, child, current);
    MovedIsOk(blocks, ChildOf(blocks[b], child), current);
    HandleKept(blocks, moved, moved[b].one);
    HandleKept(blocks, moved, moved[b].two);
  }

  lemma MovedIsOk(blocks: seq<Block>, h: Handle, current: nat)
    requires HandleOk(blocks, h) && h.first <= current <= h.length
    ensures HandleOk(blocks, h.(current := current))
  {
    hide Text;
  }

  /** What a read in place does: the outcome it shall have, and a first child whose cursor goes along. */
  predicate Right(blocks: seq<Block>, h: Handle, outcome: Outcome, result: Result, bytes: seq<byte>)
    requires h.block < |blocks| && blocks[h.block].Multi?
  {
    && Gives(outcome, result, bytes) && h.current + |bytes| <= h.length
    && Extends(blocks, outcome.blocks) && Joined(outcome.blocks, h.block)
    && (h.current < blocks[h.block].one.length && h.current + |bytes| < blocks[h.block].one.length ==>
         outcome.blocks[h.block].one == blocks[h.block].one.(current := h.current + |bytes|))
    && SameHandle(outcome.blocks[h.block].one, blocks[h.block].one)
  }

  lemma RightInFirst(blocks: seq<Block>, h: Handle, want: nat)
    requires Joined(blocks, h.block) && h.current <= h.length == |Text(blocks, h.block)| && want > 0
    requires InPlace(blocks, h) && h.current + want <= blocks[h.block].one.length
    ensures Right(blocks, h, Read(blocks, h, want), ReadOf(blocks, h, want).0, ReadOf(blocks, h, want).1)
  {
    hide Text, HandleOk, Part, Positioned, Loop, ReadOf, Runs.Repositioned;
    var one, two := blocks[h.block].one, blocks[h.block].two;
    FoundIsValid(blocks, h);
    LoopInFirst(blocks, h, want);
    StaysJoined(blocks, h.block, One, h.current + want);
    Shift(blocks, h.block, One, h.current + want);
    WholeRead(blocks, h, want);
    InFirst(blocks, h.block, h.current, want);
    hide Joined, Positioned, Runs.Repositioned, ReadOf, Read, Part;
  }

  /** Where a part of the joined text lies. */
  lemma InFirst(blocks: seq<Block>, b: nat, p: nat, want: nat)
    requires Joined(blocks, b) && p + want <= blocks[b].one.length && want > 0
    ensures p + want <= |Text(blocks, b)| && p + want <= |Text(blocks, blocks[b].one.block)|
    ensures Part(Text(blocks, b), p, |Text(blocks, b)|, want) == Text(blocks, blocks[b].one.block)[p..p + want]
  {
    JoinedText(blocks, b);
    hide Text, HandleOk;
    var one, two := blocks[b].one, blocks[b].two;
    UnderFirst(Text(blocks, one.block), one.length, Text(blocks, two.block)[two.first..two.length], p, p + want);
    assert Part(Text(blocks, b), p, |Text(blocks, b)|, want) == Text(blocks, b)[p..p + want];
  }

  lemma FoundIsValid(blocks: seq<Block>, h: Handle)
    requires Joined(blocks, h.block) && InPlace(blocks, h) && h.current < blocks[h.block].one.length
    ensures blocks[h.block].one.first <= h.current < SIZE_T
  {
    Runs.HandleMovesOk(blocks, blocks[h.block].one, h.current);
  }

  lemma InSecond(blocks: seq<Block>, b: nat, p: nat, want: nat)
    requires Joined(blocks, b) && blocks[b].one.length <= p <= |Text(blocks, b)|
    ensures var two := blocks[b].two;
      var q := p - blocks[b].one.length + two.first;
      && q <= two.length <= |Text(blocks, two.block)| && two.first <= q
      && |Text(blocks, b)| == blocks[b].one.length + (two.length - two.first)
      && Part(Text(blocks, b), p, |Text(blocks, b)|, want) == Part(Text(blocks, two.block), q, two.length, want)
  {
    JoinedText(blocks, b);
    hide Text, HandleOk;
    var one, two := blocks[b].one, blocks[b].two;
    var s, t := Text(blocks, one.block)[..one.length], Text(blocks, two.block)[two.first..two.length];
    OnePart(s, t, p, want);
    PartOfPart(Text(blocks, two.block), two.first, two.length, p - one.length, want);
  }

  lemma InBoth(blocks: seq<Block>, b: nat, p: nat, want: nat)
    requires Joined(blocks, b) && p < blocks[b].one.length < p + want
    ensures var one, two := blocks[b].one, blocks[b].two;
      && p < one.length <= |Text(blocks, one.block)|
      && Part(Text(blocks, b), p, |Text(blocks, b)|, want)
         == Text(blocks, one.block)[p..one.length]
            + Part(Text(blocks, two.block), two.first, two.length, want - (one.length - p))
  {
    JoinedText(blocks, b);
    hide Text, HandleOk;
    var one, two := blocks[b].one, blocks[b].two;
    var s, t := Text(blocks, one.block)[..one.length], Text(blocks, two.block)[two.first..two.length];
    TwoParts(s, t, p, want);
    assert s[p..] == Text(blocks, one.block)[p..one.length];
    PartOfPart(Text(blocks, two.block), two.first, two.length, 0, want - (one.length - p));
  }

  lemma PartIsShort(text: seq<byte>, current: nat, length: nat, want: nat)
    requires current <= length <= |text|
    ensures current + |Part(text, current, length, want)| <= length
    ensures want > 0 ==> (Part(text, current, length, want) == [] <==> current == length)
  {
  }

  /** Position p of a joined text in its second child, and what is to be had from there. */
  lemma SecondPlace(blocks: seq<Block>, b: nat, p: nat, want: nat)
    requires Joined(blocks, b) && blocks[b].one.length <= p <= |Text(blocks, b)| && want > 0
    ensures var two := blocks[b].two;
      var q := p - blocks[b].one.length + two.first;
      var part := Part(Text(blocks, two.block), q, two.length, want);
      && two.first <= q <= q + |part| <= two.length && p + |part| <= |Text(blocks, b)|
      && (part == [] <==> p == |Text(blocks, b)|) && Positioned(two, p).current == q
  {
    hide Text, HandleOk, Part;
    var two := blocks[b].two;
    InSecond(blocks, b, p, want);
    SecondFinds(blocks, b, p);
    hide Joined, Positioned;
    PartIsShort(Text(blocks, two.block), p - blocks[b].one.length + two.first, two.length, want);
  }

  /** The second child's part of a read that has `got` so far. */
  lemma SecondReads(blocks: seq<Block>, f: Runs.Frame)
    requires InLoop(blocks, f) && Joined(blocks, f.block) && f.child == Some(Two) && f.last == Ok && |f.got| < f.want
    requires blocks[f.block].one.length <= f.start + |f.got| <= |Text(blocks, f.block)| < SIZE_T
    ensures var two := blocks[f.block].two;
      var q := f.start + |f.got| - blocks[f.block].one.length + two.first;
      var part := Part(Text(blocks, two.block), q, two.length, f.want - |f.got|);
      Loop(blocks, f) == Returned(if f.got + part != [] then Ok else Eof, f.got + part,
                                  Runs.Repositioned(blocks, f.block, Two, q + |part|))
  {
    hide Text, HandleOk, Part, Loop, Runs.Repositioned, Positioned;
    assert Plus(f.start, |f.got|) == f.start + |f.got|;
    SecondFinds(blocks, f.block, f.start + |f.got|) by { InSecond(blocks, f.block, f.start + |f.got|, 1); }
    LoopInSecond(blocks, f);
  }

  lemma JoinedIsShort(blocks: seq<Block>, b: nat)
    requires Joined(blocks, b)
    ensures blocks[b].one.length <= |Text(blocks, b)| < SIZE_T
  {
    JoinedText(blocks, b);
  }

  lemma RightInSecond(blocks: seq<Block>, h: Handle, want: nat)
    requires Joined(blocks, h.block) && h.current <= h.length == |Text(blocks, h.block)| && want > 0
    requires h.current >= blocks[h.block].one.length
    ensures Right(blocks, h, Read(blocks, h, want), ReadOf(blocks, h, want).0, ReadOf(blocks, h, want).1)
  {
    hide Text, HandleOk, Part, Positioned, Loop, ReadOf;
    var two, f := blocks[h.block].two, First(blocks, h, want);
    JoinedIsShort(blocks, h.block);
    SecondReads(blocks, f);
    SecondPlace(blocks, h.block, h.current, want);
    InSecond(blocks, h.block, h.current, want);
    WholeRead(blocks, h, want);
    var q := h.current - blocks[h.block].one.length + two.first;
    var part := Part(Text(blocks, two.block), q, two.length, want);
    StaysJoined(blocks, h.block, Two, q + |part|);
    Shift(blocks, h.block, Two, q + |part|);
    assert [] + part == part;
    hide Joined, Runs.Repositioned;
  }

  /** The first pass of a read over both children. */
  lemma FirstReads(blocks: seq<Block>, h: Handle, want: nat)
    requires Joined(blocks, h.block) && h.current <= h.length == |Text(blocks, h.block)| && want > 0
    requires InPlace(blocks, h) && h.current < blocks[h.block].one.length < h.current + want
    ensures var one := blocks[h.block].one;
      var moved := Runs.Repositioned(blocks, h.block, One, one.length);
      && one.length <= |Text(blocks, one.block)|
      && Extends(blocks, moved) && Joined(moved, h.block) && moved[h.block].one == one.(current := one.length)
      && moved[h.block].two == blocks[h.block].two && Text(moved, h.block) == Text(blocks, h.block)
      && Text(moved, blocks[h.block].two.block) == Text(blocks, blocks[h.block].two.block)
      && Read(blocks, h, want)
         == Loop(moved, First(blocks, h, want).(got := Text(blocks, one.block)[h.current..one.length],
                                                child := Some(Two)))
  {
    hide Text, HandleOk, Part, Loop;
    var one := blocks[h.block].one;
    var moved := Runs.Repositioned(blocks, h.block, One, one.length);
    FoundIsValid(blocks, h);
    JoinedIsShort(blocks, h.block);
    LoopInFirst(blocks, h, want);
    StaysJoined(blocks, h.block, One, one.length);
    Shift(blocks, h.block, One, one.length);
    TextKept(blocks, moved, blocks[h.block].two.block);
    TextKept(blocks, moved, h.block);
  }

  lemma RightInBoth(blocks: seq<Block>, h: Handle, want: nat)
    requires Joined(blocks, h.block) && h.current <= h.length == |Text(blocks, h.block)| && want > 0
    requires InPlace(blocks, h) && h.current < blocks[h.block].one.length < h.current + want
    ensures Right(blocks, h, Read(blocks, h, want), ReadOf(blocks, h, want).0, ReadOf(blocks, h, want).1)
  {
    hide Text, HandleOk, Part, Positioned, Loop, ReadOf, Runs.Repositioned, InPlace, Read;
    var one, two := blocks[h.block].one, blocks[h.block].two;
    var moved := Runs.Repositioned(blocks, h.block, One, one.length);
    FirstReads(blocks, h, want);
    var f := First(blocks, h, want).(got := Text(blocks, one.block)[h.current..one.length], child := Some(Two));
    JoinedIsShort(blocks, h.block);
    SecondReads(moved, f);
    SecondPlace(moved, h.block, one.length, want - (one.length - h.current));
    InBoth(blocks, h.block, h.current, want);
    WholeRead(blocks, h, want);
    var part := Part(Text(blocks, two.block), two.first, two.length, want - (one.length - h.current));
    StaysJoined(moved, h.block, Two, two.first + |part|);
    Shift(moved, h.block, Two, two.first + |part|);
    ExtendsTwice(blocks, moved, Runs.Repositioned(moved, h.block, Two, two.first + |part|));
    hide Joined, Extends;
  }

  lemma ExtendsTwice(a: seq<Block>, b: seq<Block>, c: seq<Block>)
    requires Extends(a, b) && Extends(b, c)
    ensures Extends(a, c)
  {
    forall i | 0 <= i < |a| ensures SameBlock(a[i], c[i]) { assert SameBlock(a[i], b[i]) && SameBlock(b[i], c[i]); }
  }

  /** A read in place returns what it shall, and leaves the cursor in place for the next. */
  lemma InPlaceIsRight(blocks: seq<Block>, h: Handle, want: nat)
    requires Joined(blocks, h.block) && h.current <= h.length == |Text(blocks, h.block)| && want > 0
    requires InPlace(blocks, h)
    ensures Right(blocks, h, Read(blocks, h, want), ReadOf(blocks, h, want).0, ReadOf(blocks, h, want).1)
  {
    hide Right, Read, ReadOf, Positioned, Text, HandleOk;
    if h.current >= blocks[h.block].one.length {
      RightInSecond(blocks, h, want);
    } else if h.current + want <= blocks[h.block].one.length {
      RightInFirst(blocks, h, want);
    } else {
      RightInBoth(blocks, h, want);
    }
  }

  // Read after read.

  predicate Positive(wants: seq<nat>) { forall i :: 0 <= i < |wants| ==> wants[i] > 0 }

  predicate OnMulti(blocks: seq<Block>, h: Handle) { h.block < |blocks| && blocks[h.block].Multi? }

  /** Every read of the sequence finds the cursor in its place. */
  ghost predicate AllInPlace(blocks: seq<Block>, h: Handle, wants: seq<nat>)
    requires OnMulti(blocks, h)
    decreases wants
  {
    wants == [] ||
    (InPlace(blocks, h) &&
     var outcome := Read(blocks, h, wants[0]);
     outcome.Returned? && OnMulti(outcome.blocks, h)
     && AllInPlace(outcome.blocks, h.(current := h.current + |outcome.bytes|), wants[1..]))
  }

  /** Every read of the sequence returns what it shall. */
  ghost predicate AllRight(blocks: seq<Block>, h: Handle, wants: seq<nat>)
    requires OnMulti(blocks, h)
    decreases wants
  {
    wants == [] ||
    (var outcome := Read(blocks, h, wants[0]);
     Gives(outcome, ReadOf(blocks, h, wants[0]).0, ReadOf(blocks, h, wants[0]).1) && OnMulti(outcome.blocks, h)
     && AllRight(outcome.blocks, h.(current := h.current + |outcome.bytes|), wants[1..]))
  }

  /** The offset is 0, or so far off that set_position refuses every position still to be read. */
  predicate Untouched(one: Handle) {
    || one.offsetDiff == 0
    || (one.length - one.first <= one.offsetDiff && one.offsetDiff + (one.length - one.current) < SIZE_T)
  }

  /** A reader alone: the first child's cursor is where the instance is, until that child is used up. */
  predicate Alone(blocks: seq<Block>, h: Handle) {
    && Joined(blocks, h.block) && h.current <= h.length == |Text(blocks, h.block)|
    && var one := blocks[h.block].one;
      h.current < one.length ==> one.first <= h.current == one.current
  }

  lemma AloneInPlace(blocks: seq<Block>, h: Handle)
    requires Alone(blocks, h) && (h.current < blocks[h.block].one.length ==> Untouched(blocks[h.block].one))
    ensures InPlace(blocks, h)
  {
    hide Text, SetPosition;
    var one := blocks[h.block].one;
    if h.current < one.length {
      HandleInRange(blocks, one);
      if one.offsetDiff == 0 { ZeroFinds(one, h.current); } else { OutOfTheWay(one); }
      PassDeliversFrom(one, h.current, h.current);
    }
  }

  lemma StaysAlone(blocks: seq<Block>, h: Handle, want: nat)
    requires Alone(blocks, h) && InPlace(blocks, h) && want > 0
    ensures var outcome := Read(blocks, h, want);
      && Gives(outcome, ReadOf(blocks, h, want).0, ReadOf(blocks, h, want).1)
      && var next := h.(current := h.current + |outcome.bytes|);
        && OnMulti(outcome.blocks, h) && Alone(outcome.blocks, next)
        && SameHandle(blocks[h.block].one, outcome.blocks[h.block].one)
        && (next.current < blocks[h.block].one.length ==>
             outcome.blocks[h.block].one == blocks[h.block].one.(current := next.current))
  {
    hide Text, Read, ReadOf, InPlace, HandleOk;
    InPlaceIsRight(blocks, h, want);
    TextKept(blocks, Read(blocks, h, want).blocks, h.block);
  }

  lemma {:induction false} UntouchedReads(blocks: seq<Block>, h: Handle, wants: seq<nat>)
    requires Alone(blocks, h) && (h.current < blocks[h.block].one.length ==> Untouched(blocks[h.block].one))
    requires Positive(wants)
    ensures AllInPlace(blocks, h, wants) && AllRight(blocks, h, wants)
    decreases wants
  {
    hide Text, Read, ReadOf, InPlace, HandleOk;
    if wants != [] {
      AloneInPlace(blocks, h);
      StaysAlone(blocks, h, wants[0]);
      var outcome := Read(blocks, h, wants[0]);
      UntouchedReads(outcome.blocks, h.(current := h.current + |outcome.bytes|), wants[1..]);
    }
  }

  /** A first child that set_position moves to a wrong place is found out of place by the second read at the latest. */
  lemma TouchedReads(blocks: seq<Block>, h: Handle) returns (wants: seq<nat>)
    requires Alone(blocks, h) && h.current < blocks[h.block].one.length && !Untouched(blocks[h.block].one)
    ensures Positive(wants) && !AllInPlace(blocks, h, wants)
  {
    hide Text, Read, ReadOf, HandleOk, SetPosition, Positioned;
    var one := blocks[h.block].one;
    assert one.length < SIZE_T && one.offsetDiff < SIZE_T by { JoinedRange(blocks, h.block); }
    OutOfTheWay(one);
    var p :| one.current <= p < one.length && SetPosition(one, p).1 == Ok;
    PassDeliversFrom(one, h.current, h.current);
    if SetPosition(one, h.current).1 == Ok {
      wants := [1];
    } else {
      wants := [p - h.current, 1];
      StaysAlone(blocks, h, p - h.current);
      InFirstReads(blocks, h, p - h.current);
      PassDeliversFrom(one, p, p);
      SameAnswer(one, p);
      assert wants[1..] == [1];
    }
  }

  lemma JoinedRange(blocks: seq<Block>, b: nat)
    requires Joined(blocks, b)
    ensures var one := blocks[b].one; one.first <= one.current <= one.length < SIZE_T && one.offsetDiff < SIZE_T
  {
    hide Text;
  }

  lemma SameAnswer(one: Handle, p: nat)
    ensures SetPosition(one.(current := p), p).1 == SetPosition(one, p).1
  {
  }

  lemma InFirstReads(blocks: seq<Block>, h: Handle, want: nat)
    requires Alone(blocks, h) && InPlace(blocks, h) && want > 0 && h.current + want < blocks[h.block].one.length
    ensures |ReadOf(blocks, h, want).1| == want
  {
    hide Text, HandleOk, Part;
    WholeRead(blocks, h, want);
    InFirst(blocks, h.block, h.current, want);
  }

  /** The first operand is used up, or set_position leaves its cursor alone. */
  predicate Undisturbed(current: nat, one: Handle) { current < one.length ==> Untouched(one) }

  /** A reader alone on a concatenation: all its reads, however it divides them, are in place, and then return what
      they shall, if and only if the first operand counted from 0 or so far off that set_position never moves it. */
  lemma AloneIsExact(blocks: seq<Block>, h: Handle)
    requires Alone(blocks, h)
    ensures var calm := Undisturbed(h.current, blocks[h.block].one);
      && ((forall wants :: Positive(wants) ==> AllInPlace(blocks, h, wants)) <==> calm)
      && (calm ==> forall wants :: Positive(wants) ==> AllRight(blocks, h, wants))
  {
    hide Text, HandleOk, Untouched, AllInPlace, AllRight, Positive;
    if Undisturbed(h.current, blocks[h.block].one) {
      forall wants | Positive(wants) ensures AllInPlace(blocks, h, wants) && AllRight(blocks, h, wants) {
        UntouchedReads(blocks, h, wants);
      }
    } else {
      var wants := TouchedReads(blocks, h);
    }
  }

  /** So it is for the instance that concat makes of two others. */
  lemma ConcatReadAlone(blocks: seq<Block>, g: Handle, h: Handle, dataRelease: bool)
    requires WellFormed(blocks) && HandleOk(blocks, g) && HandleOk(blocks, h) && CloneAccepted(h, g.length)
    ensures var (after, c) := Concat(blocks, g, h, dataRelease);
      && OnMulti(after, c)
      && ((forall wants :: Positive(wants) ==> AllInPlace(after, c, wants)) <==> Undisturbed(g.current, g))
      && (Undisturbed(g.current, g) ==> forall wants :: Positive(wants) ==> AllRight(after, c, wants))
  {
    hide Untouched, Undisturbed, AllInPlace, AllRight, Positive, WellFormed, HandleOk, Text;
    HandleInRange(blocks, g);
    HandleInRange(blocks, h);
    ConcatIsJoined(blocks, g, h, dataRelease);
    var (after, c) := Concat(blocks, g, h, dataRelease);
    JoinedIsShort(after, c.block);
    hide Concat;
    AloneIsExact(after, c);
  }

  /** For example: a clone at offset 1 of four bytes, joined with one more.  The first read of two is right, the
      second begins a byte too early. */
  lemma OffsetExample(blocks: seq<Block>)
    requires blocks == [Leaf([10, 11, 12, 13], 2, false, false), Leaf([20], 1, false, false)]
    ensures var (joined, c) := Concat(blocks, CloneOf(Handle(0, 0, 0, 0, 4), 1), Handle(1, 0, 0, 0, 1), false);
      && c.block == 2 && OnMulti(joined, c) && Gives(Read(joined, c, 2), Ok, [10, 11])
      && var moved := Read(joined, c, 2).blocks;
        && OnMulti(moved, c) && Gives(Read(moved, c.(current := 2), 2), Ok, [11, 12])
  {
    var one := Handle(0, 1, 0, 0, 4);
    var (joined, c) := Concat(blocks, CloneOf(Handle(0, 0, 0, 0, 4), 1), Handle(1, 0, 0, 0, 1), false);
    assert joined[2].one == one && c == Handle(2, 1, 0, 0, 5) && joined[0] == blocks[0];
    assert Text(joined, 0) == [10, 11, 12, 13];
    assert Minus(0, 1) == SIZE_T - 1 && Minus(2, 1) == 1;
    LoopInFirst(joined, c, 2);
    var moved := Runs.Repositioned(joined, 2, One, 2);
    Shift(joined, 2, One, 2);
    TextKept(joined, moved, 0);
    HandleKept(joined, moved, one.(current := 2));
    LoopInFirst(moved, c.(current := 2), 2);
  }
}
