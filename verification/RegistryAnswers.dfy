/** When an add has room, what exactly it leaves on the flash, and what an interrupted one does to those after it. */
module RegistryAnswers {
  import opened Flash
  import opened RegistrySpec

  function Words64(size: nat): nat { (size + 7) / 8 }

  lemma WordsForIs(size: nat)
    ensures WordsFor(size) == Words64(size)
  {
  }

  /** The words of all entries, live and deleted, that are on the flash. */
  function Taken(f: Flash, used: nat): nat
    requires used <= |f.nodes|
  {
    Held(f, used, true) + Held(f, used, false)
  }

  /** DUPLICATE for a key that is there, OUT_OF_MEMORY when the words do not fit what is left of the data, exactly full
      still fitting, and NOT_ENOUGH_SPACE when only a node is missing. */
  lemma AddAnswers(f: Flash, used: nat, key: seq<byte>, value: seq<byte>)
    requires Sound(f, used) && Fits(key, value)
    ensures var result := AddResult(f, key, value);
      var room := Taken(f, used) + Words64(|key|) + Words64(|value|) <= |f.data|;
      && (result == Duplicate <==> key in Abstract(f))
      && (result == OutOfMemory <==> key !in Abstract(f) && !room)
      && (result == NotEnoughSpace <==> key !in Abstract(f) && room && used == |f.nodes|)
      && (result == Ok <==> key !in Abstract(f) && room && used < |f.nodes|)
  {
    hide Find, Visible, Held;
    FindIsLookup(f, key, 0);
    FreeStartIsTop(f, used);
    FirstEmptyIsUsed(f, used, 0);
    Balance(f, used, used);
    WordsForIs(|key|);
    WordsForIs(|value|);
  }

  /** Byte b of what is stored: the byte of the source, and zeros up to the end of its last word. */
  lemma PackedBytes(s: seq<byte>, b: nat)
    requires b < 8 * Words64(|s|)
    ensures |Packed(s)| == Words64(|s|)
    ensures Packed(s)[b / 8][b % 8] == if b < |s| then s[b] else 0
  {
    WordsForIs(|s|);
  }

  /** The node and the data words of an add: behind all others, the key first. */
  lemma AddLeaves(f: Flash, used: nat, key: seq<byte>, value: seq<byte>)
    requires Sound(f, used) && Addressable(f) && Fits(key, value) && AddResult(f, key, value) == Ok
    ensures var g := ApplyAll(f, AddWrites(f, key, value));
      var top, k, v := Taken(f, used), Words64(|key|), Words64(|value|);
      && used < |f.nodes| && top + k + v <= |f.data| && |g.data| == |f.data|
      && g.nodes == f.nodes[used := Node(0, 0xFFFF_FFFF_FFFF_FFFF, top, |key|, top + k, |value|)]
      && g.data[..top] == f.data[..top] && g.data[top..top + k] == Packed(key)
      && g.data[top + k..top + k + v] == Packed(value) && g.data[top + k + v..] == f.data[top + k + v..]
  {
    hide ApplyAll, AddWrites, AddResult, Packed, Held;
    AddWritesAdd(f, used, key, value);
    Balance(f, used, used);
    WordsForIs(|key|);
    WordsForIs(|value|);
    var g := ApplyAll(f, AddWrites(f, key, value));
    var top := Begin(f, used);
    PackedSize(key);
    PackedSize(value);
    assert g.data == f.data[..top] + (Packed(key) + Packed(value)) + f.data[top + |Packed(key)| + |Packed(value)|..];
  }

  lemma PackedSize(s: seq<byte>)
    ensures |Packed(s)| == Words64(|s|)
  {
    WordsForIs(|s|);
  }

  /** A delete finds a key exactly if the map has it, and clears one word of its node. */
  lemma DeleteLeaves(f: Flash, key: seq<byte>)
    ensures OpResult(f, Delete(key)) == if key in Abstract(f) then Ok else NotFound
    ensures key in Abstract(f) && Addressable(f) ==>
      exists k :: 0 <= k < |f.nodes| && IsLive(f.nodes[k]) && KeyOf(f, f.nodes[k]) == key
        && Perform(f, Delete(key)) == f.(nodes := f.nodes[k := f.nodes[k].(deleted := 0)])
  {
    FindIsLookup(f, key, 0);
    var found := Find(f, key, 0);
    if found.At? && Addressable(f) {
      assert Perform(f, Delete(key)) == f.(nodes := f.nodes[found.index := f.nodes[found.index].(deleted := 0)]);
    }
  }

  // An interrupted add.

  /** Writes behind the node that stops the scan and behind the data before it. */
  predicate Behind(w: Write, used: nat, top: nat) {
    match w
    case NodeWord(i, _, _) => i > used
    case DataWord(j, _) => top <= j
  }

  /** The nodes up to the one at index used and the data below top are as they were. */
  ghost predicate SameBelow(f: Flash, g: Flash, used: nat, top: nat) {
    && used < |f.nodes| == |g.nodes| && top <= |f.data| == |g.data|
    && g.nodes[..used + 1] == f.nodes[..used + 1] && g.data[..top] == f.data[..top]
  }

  lemma BehindStep(f: Flash, g: Flash, w: Write, used: nat, top: nat)
    requires SameBelow(f, g, used, top) && Behind(w, used, top)
    ensures SameBelow(f, Apply(g, w), used, top)
  {
  }

  lemma {:induction false} BehindKeeps(f: Flash, ws: seq<Write>, used: nat, top: nat)
    requires used < |f.nodes| && top <= |f.data| && forall w :: w in ws ==> Behind(w, used, top)
    ensures SameBelow(f, ApplyAll(f, ws), used, top)
  {
    if ws != [] {
      BehindKeeps(f, ws[..|ws| - 1], used, top);
      BehindStep(f, ApplyAll(f, ws[..|ws| - 1]), ws[|ws| - 1], used, top);
    }
  }

  /** A node that is begun and not ready ends what a reader sees. */
  lemma {:induction false} ScanStops(f: Flash, g: Flash, used: nat, i: nat)
    requires LaidOut(f, used) && i <= used < |f.nodes| == |g.nodes| && |f.data| == |g.data|
    requires Begin(f, used) <= |f.data|
    requires g.nodes[..used] == f.nodes[..used] && StopsScan(g.nodes[used]) && f.nodes[used] == EMPTY_NODE
    requires g.data[..Begin(f, used)] == f.data[..Begin(f, used)]
    ensures Visible(g, i) == Visible(f, i)
    decreases used - i
  {
    if i < used {
      assert g.nodes[i] == g.nodes[..used][i] == f.nodes[i];
      ScanStops(f, g, used, i + 1);
      SpansUnchanged(f, g, used, i);
    }
  }

  /** The first write of an add marks its node, and the others up to the commit leave the mark. */
  lemma {:induction false} Marked(f: Flash, ws: seq<Write>, used: nat, top: uint64)
    requires used < |f.nodes| && ws != [] && ws[0] == NodeWord(used, KeyPtr, top)
    requires forall k :: 0 < k < |ws| ==> ws[k].DataWord? || ws[k].field != KeyPtr
    ensures ApplyAll(f, ws).nodes[used].keyPtr == top
  {
    if |ws| > 1 {
      Marked(f, ws[..|ws| - 1], used, top);
    } else {
      assert ws[..0] == [];
    }
  }

  lemma FirstEmptyBeyond(f: Flash, used: nat, i: nat)
    requires i <= used < |f.nodes| && forall k :: i <= k <= used ==> f.nodes[k] != EMPTY_NODE
    ensures FirstEmpty(f, i) > used
    decreases used - i
  {
    if i < used { FirstEmptyBeyond(f, used, i + 1); }
  }

  /** Where a second add writes after one that broke off behind its first write. */
  lemma SecondAddIsBehind(f: Flash, g: Flash, used: nat, key2: seq<byte>, value2: seq<byte>)
    requires Sound(f, used) && Hidden(f, g, used) && g.nodes[used] != EMPTY_NODE
    requires Addressable(g) && Fits(key2, value2)
    ensures forall w :: w in AddWrites(g, key2, value2) ==> Behind(w, used, Begin(f, used))
  {
    hide Packed, FirstEmpty, FreeStart;
    forall k | 0 <= k <= used ensures g.nodes[k] != EMPTY_NODE {
      if k < used { assert NodeOk(f, k); }
    }
    FirstEmptyBeyond(g, used, 0);
    var top := Begin(f, used);
    assert FreeStart(g.data, |g.data|) >= top by {
      if top > 0 { assert g.data[top - 1] == g.data[..top][top - 1] == f.data[top - 1] != FREE_WORD; }
    }
  }

  /** An add that breaks off before its first write leaves no trace.  One that breaks off later, before the commit,
      makes every add after it invisible, although it answers AZ_OK: the scan stops at the node that was begun. */
  lemma InterruptedAdd(f: Flash, used: nat, key: seq<byte>, value: seq<byte>, n: nat,
                       key2: seq<byte>, value2: seq<byte>)
    requires Sound(f, used) && Addressable(f) && Fits(key, value) && AddResult(f, key, value) == Ok
    requires n < |AddWrites(f, key, value)| && Fits(key2, value2)
    requires AddResult(ApplyAll(f, AddWrites(f, key, value)[..n]), key2, value2) == Ok
    ensures var g := ApplyAll(f, AddWrites(f, key, value)[..n]);
      var h := ApplyAll(g, AddWrites(g, key2, value2));
      Abstract(h) == if n == 0 then Abstract(f)[key2 := value2] else Abstract(f)
  {
    hide AddResult, Find, FreeStart, FirstEmpty, Visible;
    var ws := AddWrites(f, key, value)[..n];
    var g := ApplyAll(f, ws);
    if n == 0 {
      assert ws == [] && g == f;
      AddRefinesInsert(f, used, key2, value2);
    } else {
      BrokenOff(f, used, key, value, n);
      SecondAddIsBehind(f, g, used, key2, value2);
      hide AddWrites, ApplyAll, Sound;
      BehindKeeps(g, AddWrites(g, key2, value2), used, Begin(f, used));
      SeenBelow(f, g, ApplyAll(g, AddWrites(g, key2, value2)), used);
    }
  }

  lemma SeenBelow(f: Flash, g: Flash, h: Flash, used: nat)
    requires Sound(f, used) && Hidden(f, g, used) && SameBelow(g, h, used, Begin(f, used))
    ensures Abstract(h) == Abstract(f)
  {
    hide Visible;
    assert h.nodes[used] == h.nodes[..used + 1][used] == g.nodes[..used + 1][used];
    assert h.nodes[..used] == h.nodes[..used + 1][..used] == g.nodes[..used + 1][..used] == f.nodes[..used];
    ScanStops(f, h, used, 0);
  }

  /** The flash an add leaves that breaks off between its first write and the commit. */
  lemma BrokenOff(f: Flash, used: nat, key: seq<byte>, value: seq<byte>, n: nat)
    requires Sound(f, used) && Addressable(f) && Fits(key, value) && AddResult(f, key, value) == Ok
    requires 0 < n < |AddWrites(f, key, value)|
    ensures var g := ApplyAll(f, AddWrites(f, key, value)[..n]);
      Hidden(f, g, used) && g.nodes[used] != EMPTY_NODE && Addressable(g)
  {
    hide Find, FreeStart, FirstEmpty, Packed;
    FirstEmptyIsUsed(f, used, 0);
    FreeStartIsTop(f, used);
    var ws := AddWrites(f, key, value)[..n];
    var all := Preparation(used, Begin(f, used), key, value);
    assert forall k :: 0 <= k < n ==> ws[k] == all[k];
    forall w | w in ws ensures Early(w, used, Begin(f, used)) {
      var k :| 0 <= k < n && ws[k] == w;
    }
    EarlyWritesStayHidden(f, ws, used);
    Marked(f, ws, used, Begin(f, used));
  }

  /** It does happen: an add cut off behind its first write, and another one, on an erased flash. */
  lemma InterruptedExample()
    ensures var f := ErasedFlash();
      && AddResult(f, [1], [3]) == Ok
      && var g := ApplyAll(f, AddWrites(f, [1], [3])[..1]);
      && AddResult(g, [2], [4]) == Ok
      && [2] !in Abstract(ApplyAll(g, AddWrites(g, [2], [4])))
  {
    hide AddWrites, ApplyAll, AddResult, Sound, Abstract, Held, Hidden;
    var f := ErasedFlash();
    ErasedIsSound(f);
    FirstFits(f);
    OneWrite(f);
    var g := ApplyAll(f, AddWrites(f, [1], [3])[..1]);
    BrokenOff(f, 0, [1], [3], 1);
    PreparationIsInvisible(f, 0, [1], [3], 1);
    NextFits(g);
    InterruptedAdd(f, 0, [1], [3], 1, [2], [4]);
  }

  lemma FirstFits(f: Flash)
    requires f == ErasedFlash() && Sound(f, 0) && Abstract(f) == map[]
    ensures AddResult(f, [1], [3]) == Ok && Addressable(f) && Fits([1], [3]) && Fits([2], [4])
  {
    hide AddResult, Sound, Abstract;
    AddAnswers(f, 0, [1], [3]);
  }

  lemma OneWrite(f: Flash)
    requires f == ErasedFlash() && Addressable(f) && Fits([1], [3])
    ensures 1 < |AddWrites(f, [1], [3])| && ApplyAll(f, AddWrites(f, [1], [3])[..1]).data == f.data
  {
    hide FirstEmpty, FreeStart;
    var ws := AddWrites(f, [1], [3]);
    assert ws[..1] == [] + [ws[0]] && ws[0].NodeWord?;
    ApplyNext(f, [], ws[0]);
  }

  lemma NextFits(g: Flash)
    requires Hidden(ErasedFlash(), g, 0) && g.nodes[0] != EMPTY_NODE && Abstract(g) == map[]
    requires g.data == ErasedFlash().data
    ensures AddResult(g, [2], [4]) == Ok
  {
    FindIsLookup(g, [2], 0);
    assert g.nodes[1] == EMPTY_NODE;
    assert FirstEmpty(g, 0) == FirstEmpty(g, 1) == 1;
  }
}
