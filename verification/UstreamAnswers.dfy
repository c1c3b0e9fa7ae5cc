/** What the operations of one instance answer and do, by the logical positions that their caller sees. */
module UstreamAnswers {
  import opened UstreamSpec

  /** The logical position of inner position i. */
  function Logical(h: Handle, i: nat): nat { (h.offsetDiff + i) % 0x1_0000_0000 }

  /** The positions a caller may go to. */
  predicate Valid(h: Handle, position: nat) { exists i :: h.first <= i <= h.length && Logical(h, i) == position }

  /** An instance in range: offsets and positions of 32 bits. */
  predicate InRange(h: Handle) { h.first <= h.current <= h.length < SIZE_T && h.offsetDiff < SIZE_T }

  lemma InnerOfLogical(h: Handle, i: nat)
    requires i < SIZE_T && h.offsetDiff < SIZE_T
    ensures Minus(Logical(h, i), h.offsetDiff) == i
  {
    PositionFindsItself(h.(current := i));
  }

  lemma LogicalOfInner(h: Handle, position: nat)
    requires position < SIZE_T
    ensures Logical(h, Minus(position, h.offsetDiff)) == position
  {
    MinusThenPlus(position, h.offsetDiff);
  }

  /** Valid positions are those whose inner place is in range. */
  lemma ValidIsInside(h: Handle, position: nat)
    requires h.length < SIZE_T && h.offsetDiff < SIZE_T && position < SIZE_T
    ensures Valid(h, position) <==> h.first <= Minus(position, h.offsetDiff) <= h.length
  {
    LogicalOfInner(h, position);
    if Valid(h, position) {
      var i :| h.first <= i <= h.length && Logical(h, i) == position;
      InnerOfLogical(h, i);
    }
  }

  /** set_position goes to every valid position and to no other; get_position then answers it. */
  lemma SetPositionAnswers(h: Handle, position: nat)
    requires InRange(h) && position < SIZE_T
    ensures var (g, result) := SetPosition(h, position);
      && result == (if Valid(h, position) then Ok else NotFound)
      && (result == Ok ==>
           Position(g) == position && h.first <= g.current <= h.length && g == h.(current := g.current))
      && (result != Ok ==> g == h)
  {
    ValidIsInside(h, position);
    LogicalOfInner(h, position);
    var g := SetPosition(h, position).0;
    assert Position(g) == Logical(h, g.current);
  }

  /** Of everything a caller can go to, reset goes to the first: whatever can be read from a valid position is the end
      of what can be read after a reset. */
  lemma ResetAnswers(blocks: seq<Block>, h: Handle, position: nat)
    requires HandleOk(blocks, h) && position < SIZE_T
    ensures HandleOk(blocks, Reset(h)) && Valid(h, Position(Reset(h)))
    ensures Remaining(blocks, Reset(h)) == Text(blocks, h.block)[h.first..h.length]
    ensures var (g, result) := SetPosition(h, position);
      result == Ok ==>
        var n := |Remaining(blocks, Reset(h))| - |Remaining(blocks, g)|;
        n >= 0 && Remaining(blocks, Reset(h))[n..] == Remaining(blocks, g)
  {
    hide Text;
    assert Position(Reset(h)) == Logical(h, h.first);
    var (g, result) := SetPosition(h, position);
    if result == Ok { SuffixOfSlice(Text(blocks, h.block), h.first, g.current, h.length); }
  }

  lemma SuffixOfSlice(s: seq<byte>, a: nat, b: nat, c: nat)
    requires a <= b <= c <= |s|
    ensures s[a..c][b - a..] == s[b..c]
  {
  }

  /** release takes a valid position that has been read, and then exactly the positions up to it are valid no more. */
  lemma ReleaseAnswers(h: Handle, position: nat, other: nat)
    requires InRange(h) && position < SIZE_T && other < SIZE_T
    ensures var (g, result) := ReleaseTo(h, position);
      && result == (if Valid(h, position) && Minus(position, h.offsetDiff) < h.current then Ok else Argument)
      && (result != Ok ==> g == h)
      && (result == Ok ==>
           && InRange(g) && g.current == h.current && Position(g) == Position(h)
           && (Valid(g, other) <==> Valid(h, other) && Minus(other, h.offsetDiff) > Minus(position, h.offsetDiff)))
  {
    ValidIsInside(h, position);
    ValidIsInside(h, other);
    var g := ReleaseTo(h, position).0;
    ValidIsInside(g, other);
  }

  /** So what is released cannot be read again and what is not can. */
  lemma ReleasedIsGone(h: Handle, position: nat, other: nat)
    requires InRange(h) && position < SIZE_T && other < SIZE_T && ReleaseTo(h, position).1 == Ok
    ensures SetPosition(ReleaseTo(h, position).0, other).1 == Ok <==>
      SetPosition(h, other).1 == Ok && Minus(other, h.offsetDiff) > Minus(position, h.offsetDiff)
  {
    hide SetPosition, ReleaseTo;
    ReleaseAnswers(h, position, other);
    SetPositionAnswers(h, other);
    SetPositionAnswers(ReleaseTo(h, position).0, other);
  }

  /** get_remaining_size is the number of bytes left, and reading takes bytes from the front of them. */
  lemma ReadTakes(blocks: seq<Block>, h: Handle, want: nat)
    requires HandleOk(blocks, h) && want > 0
    ensures var (result, bytes) := ReadOf(blocks, h, want);
      && RemainingSize(h) == |Remaining(blocks, h)|
      && |bytes| == (if want < RemainingSize(h) then want else RemainingSize(h))
      && result == (if Remaining(blocks, h) == [] then Eof else Ok)
      && Remaining(blocks, h) == bytes + Remaining(blocks, h.(current := h.current + |bytes|))
  {
    hide Text;
    var text, size := Text(blocks, h.block), h.length - h.current;
    assert RemainingSize(h) == size;
    var n := if want < size then want else size;
    if h.current < h.length { PartOfSlice(text, 0, h.length, h.current, h.current + n); }
    assert text[h.current..h.current + n] + text[h.current + n..h.length] == text[h.current..h.length];
  }

  /** A clone can go to its offset and the positions behind it, one for each byte left and the end, and to no others. */
  lemma ClonePositions(blocks: seq<Block>, h: Handle, offset: nat, position: nat)
    requires HandleOk(blocks, h) && CloneAccepted(h, offset) && position < SIZE_T
    ensures offset + |Remaining(blocks, h)| < SIZE_T
    ensures SetPosition(CloneOf(h, offset), position).1 == Ok
       <==> offset <= position <= offset + |Remaining(blocks, h)|
    ensures offset <= position <= offset + |Remaining(blocks, h)| ==>
      Remaining(blocks, SetPosition(CloneOf(h, offset), position).0) == Remaining(blocks, h)[position - offset..]
  {
    hide Text;
    var c := CloneOf(h, offset);
    assert h.length + offset < SIZE_T by { assert Minus(UINT32_MAX, h.length) == UINT32_MAX - h.length; }
    PlaceInClone(position, offset, h.current, h.length);
    var inner := Minus(position, c.offsetDiff);
    if h.current <= inner <= h.length { SuffixOfSlice(Text(blocks, h.block), h.current, inner, h.length); }
  }

  /** Where position lies in a clone at offset whose first inner position is a. */
  lemma PlaceInClone(position: nat, offset: nat, a: nat, end: nat)
    requires a <= end && end + offset < SIZE_T && position < SIZE_T
    ensures var inner := Minus(position, Minus(offset, a));
      && (offset <= position <= offset + (end - a) ==> inner == position - offset + a)
      && (a <= inner <= end ==> position == inner - a + offset)
  {
    if 0 <= position - offset + a < SIZE_T {
      MinusMinus(position, offset, a);
    } else {
      var m := Minus(offset, a);
      assert m == offset - a || m == offset - a + SIZE_T;
    }
  }

  /** A concatenation keeps the positions of its first operand, over the same bytes, and adds one for each byte of the
      second operand's rest. */
  lemma ConcatPositions(blocks: seq<Block>, g: Handle, h: Handle, dataRelease: bool, position: nat)
    requires WellFormed(blocks) && HandleOk(blocks, g) && HandleOk(blocks, h)
    requires g.offsetDiff == 0 && CloneAccepted(h, g.length) && position < SIZE_T
    ensures var (after, c) := Concat(blocks, g, h, dataRelease);
      && (SetPosition(c, position).1 == Ok <==> g.first <= position <= g.length + |Remaining(blocks, h)|)
      && (SetPosition(g, position).1 == Ok ==>
           && SetPosition(c, position).1 == Ok
           && Remaining(after, SetPosition(c, position).0)
              == Remaining(blocks, SetPosition(g, position).0) + Remaining(blocks, h))
  {
    hide Text, BlockOk, WellFormed;
    assert Minus(position, 0) == position;
    HandleInRange(blocks, g);
    var moved := SetPosition(g, position).0;
    JoinedEnd(blocks, g, h, dataRelease);
    if SetPosition(g, position).1 == Ok {
      hide HandleOk;
      MovedOk(blocks, g, position);
      ConcatIsOk(blocks, moved, h, dataRelease);
      SameJoined(blocks, g, moved, h, dataRelease);
    }
  }

  lemma MovedOk(blocks: seq<Block>, g: Handle, position: nat)
    requires HandleOk(blocks, g) && SetPosition(g, position).1 == Ok
    ensures HandleOk(blocks, SetPosition(g, position).0)
  {
    hide Text;
  }

  lemma JoinedEnd(blocks: seq<Block>, g: Handle, h: Handle, dataRelease: bool)
    requires WellFormed(blocks) && HandleOk(blocks, g) && HandleOk(blocks, h)
    requires g.offsetDiff == 0 && CloneAccepted(h, g.length)
    ensures var c := Concat(blocks, g, h, dataRelease).1;
      c.length == g.length + |Remaining(blocks, h)| < SIZE_T && c == g.(block := c.block, length := c.length)
  {
    hide Text, BlockOk, WellFormed;
    assert Minus(UINT32_MAX, h.length) == UINT32_MAX - h.length;
  }

  /** The cursor of the first operand does not matter to the text of the concatenation. */
  lemma SameJoined(blocks: seq<Block>, g: Handle, moved: Handle, h: Handle, dataRelease: bool)
    requires moved == g.(current := moved.current) && h.block < |blocks| && CloneAccepted(h, g.length)
    ensures var (after, c) := Concat(blocks, g, h, dataRelease);
      var (after2, c2) := Concat(blocks, moved, h, dataRelease);
      && c2 == c.(current := moved.current) && Remaining(after2, c2) == Remaining(after, c2)
  {
    var (after, c) := Concat(blocks, g, h, dataRelease);
    var (after2, c2) := Concat(blocks, moved, h, dataRelease);
    assert forall i :: 0 <= i < |after| ==> SameBlock(after[i], after2[i]);
    TextKept(after, after2, c.block);
    hide Text;
  }

  /** split takes the positions inside the range but for the current one and the end, as long as they leave room for the
      length in 32 bits; NOT_FOUND is for positions out of range. */
  lemma SplitAnswers(h: Handle, blocks: seq<Block>, position: nat)
    requires h.block < |blocks| && InRange(h) && position < SIZE_T
    ensures var result := Split(blocks, h, position).result;
      var at := Minus(position, h.offsetDiff);
      && (result == NotFound <==> !Valid(h, position))
      && (result == Argument <==>
           Valid(h, position) && (at == h.current || at == h.length || position + h.length > 0xFFFF_FFFF))
      && (result == Ok <==>
           Valid(h, position) && at != h.current && at != h.length && position + h.length <= 0xFFFF_FFFF)
  {
    ValidIsInside(h, position);
    PositionFindsItself(h);
    LogicalOfInner(h, position);
    InnerOfLogical(h, h.length);
    EndPosition(h);
    CloneRoom(h, position);
    hide Minus, Plus, Valid, CloneAccepted;
  }

  lemma CloneRoom(h: Handle, offset: nat)
    requires h.length < SIZE_T
    ensures forall current :: CloneAccepted(h.(current := current), offset) <==> offset + h.length <= 0xFFFF_FFFF
  {
  }

  lemma EndPosition(h: Handle)
    requires InRange(h)
    ensures Plus(Position(h), RemainingSize(h)) == Logical(h, h.length) && Position(h) == Logical(h, h.current)
  {
    assert RemainingSize(h) == h.length - h.current;
    PlusPlus(h.current, h.offsetDiff, h.length - h.current);
  }
}
