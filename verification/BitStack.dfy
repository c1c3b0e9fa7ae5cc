/** The nesting stack of the JSON reader: one bit per open container in a 64-bit word. */
module BitStack {
  import opened JsonScan

  const LOW_BIT: bv64 := 1
  const TOP_BIT: bv64 := 0x8000_0000_0000_0000

  function Bit(c: Container): bv64 { if c == Object then 1 else 0 }

  /** The word that holds a stack, innermost container in bit 0 and zeros above the depth. */
  function Word(items: seq<Container>): bv64 {
    if items == [] then 0 else (Word(items[1..]) << 1) | Bit(items[0])
  }

  /** The bits at or above a depth. */
  function Above(depth: nat): bv64 {
    if depth == 0 then 0xFFFF_FFFF_FFFF_FFFF else Above(depth - 1) << 1
  }

  lemma {:induction false} AboveShrinks(d: nat, e: nat)
    requires d <= e
    ensures Above(e) & !Above(d) == 0
    decreases e - d
  {
    if d < e {
      AboveShrinks(d, e - 1);
      ShiftStaysAbove(e - 1);
    }
  }

  lemma {:induction false} ShiftStaysAbove(d: nat)
    ensures (Above(d) << 1) & !Above(d) == 0
  {
    if d > 0 { ShiftStaysAbove(d - 1); }
  }

  lemma {:induction false} TopBitIsAbove(d: nat)
    requires d < MAX_DEPTH
    ensures Above(d) & TOP_BIT == TOP_BIT
  {
    AboveShrinks(d, 63);
    assert Above(8) == 0xFFFF_FFFF_FFFF_FF00;
    assert Above(16) == 0xFFFF_FFFF_FFFF_0000;
    assert Above(24) == 0xFFFF_FFFF_FF00_0000;
    assert Above(32) == 0xFFFF_FFFF_0000_0000;
    assert Above(40) == 0xFFFF_FF00_0000_0000;
    assert Above(48) == 0xFFFF_0000_0000_0000;
    assert Above(56) == 0xFF00_0000_0000_0000;
    assert Above(63) == TOP_BIT;
  }

  /** The word of a stack has only zeros at and above its depth. */
  lemma {:induction false} ZeroAboveDepth(items: seq<Container>)
    ensures Word(items) & Above(|items|) == 0
  {
    if items != [] { ZeroAboveDepth(items[1..]); }
  }

  lemma ShiftBack(w: bv64, b: bv64)
    requires w & TOP_BIT == 0 && (b == 0 || b == 1)
    ensures ((w << 1) | b) >> 1 == w
    ensures ((w << 1) | b) & LOW_BIT == b
  {
  }

  lemma MaskedOut(w: bv64, mask: bv64)
    requires w & mask == 0 && mask & TOP_BIT == TOP_BIT
    ensures w & TOP_BIT == 0
  {
  }

  lemma TopBitClear(items: seq<Container>)
    requires |items| < MAX_DEPTH
    ensures Word(items) & TOP_BIT == 0
  {
    ZeroAboveDepth(items);
    TopBitIsAbove(|items|);
    MaskedOut(Word(items), Above(|items|));
  }

  /** Up to depth 64 the shifted-out bit is always zero, so popping restores the word below. */
  lemma PopRestores(items: seq<Container>)
    requires 0 < |items| <= MAX_DEPTH
    ensures Word(items) >> 1 == Word(items[1..])
    ensures Word(items) & LOW_BIT == Bit(items[0])
  {
    TopBitClear(items[1..]);
    ShiftBack(Word(items[1..]), Bit(items[0]));
  }

  /** No two stacks of at most 64 containers share a depth and a word. */
  lemma {:induction false} WordIsInjective(a: seq<Container>, b: seq<Container>)
    requires |a| == |b| <= MAX_DEPTH && Word(a) == Word(b)
    ensures a == b
  {
    if a != [] {
      PopRestores(a);
      PopRestores(b);
      WordIsInjective(a[1..], b[1..]);
    }
  }

  class JsonBitStack {
    var word: bv64
    var currentDepth: nat

    constructor ()
      ensures Represents([])
    {
      word, currentDepth := 0, 0;
    }

    ghost predicate Represents(items: seq<Container>)
      reads this
    {
      currentDepth == |items| <= MAX_DEPTH && word == Word(items)
    }

    method Push(item: Container, ghost items: seq<Container>)
      requires Represents(items) && |items| < MAX_DEPTH
      modifies this
      ensures Represents([item] + items)
    {
      currentDepth := currentDepth + 1;
      word := word << 1;
      word := word | Bit(item);
    }

    /** Returns the container below the one removed: an array when nothing is left. */
    method Pop(ghost items: seq<Container>) returns (item: Container)
      requires Represents(items) && items != []
      modifies this
      ensures Represents(items[1..])
      ensures item == if |items| == 1 then Array else items[1]
    {
      PopRestores(items);
      hide Word, Bit;
      if currentDepth != 0 {
        word := word >> 1;
        currentDepth := currentDepth - 1;
      }
      item := Peek(items[1..]);
    }

    method Peek(ghost items: seq<Container>) returns (item: Container)
      requires Represents(items)
      ensures item == if items == [] then Array else items[0]
    {
      if items != [] { PopRestores(items); }
      item := if word & LOW_BIT != 0 then Object else Array;
    }
  }
}
