/** The memory of the registry: a log of node control words and a log of data words.

    Flash is written one 64-bit word at a time.  A data word is its eight bytes; a node is the six
    words of the source's node structure on a 64-bit machine, and a pointer into the data is the
    offset of the word it points at. */
module Flash {
  type byte = x: int | 0 <= x < 256
  type uint64 = x: int | 0 <= x < 0x1_0000_0000_0000_0000
  type word = w: seq<byte> | |w| == 8 witness [0, 0, 0, 0, 0, 0, 0, 0]

  const FREE: uint64 := 0xFFFF_FFFF_FFFF_FFFF
  const READY: uint64 := 0
  const DELETED: uint64 := 0
  const FREE_WORD: word := [0xFF, 0xFF, 0xFF, 0xFF, 0xFF, 0xFF, 0xFF, 0xFF]

  datatype Node = Node(ready: uint64, deleted: uint64, keyPtr: uint64, keySize: uint64,
                       valuePtr: uint64, valueSize: uint64)

  const EMPTY_NODE := Node(FREE, FREE, FREE, FREE, FREE, FREE)

  datatype Flash = Flash(nodes: seq<Node>, data: seq<word>)

  datatype Field = Ready | Deleted | KeyPtr | KeySize | ValuePtr | ValueSize

  /** One write of one word: everything a power loss can fall between. */
  datatype Write = NodeWord(index: nat, field: Field, value: uint64) | DataWord(offset: nat, contents: word)

  function SetField(n: Node, field: Field, value: uint64): Node {
    match field
    case Ready => n.(ready := value)
    case Deleted => n.(deleted := value)
    case KeyPtr => n.(keyPtr := value)
    case KeySize => n.(keySize := value)
    case ValuePtr => n.(valuePtr := value)
    case ValueSize => n.(valueSize := value)
  }

  function Apply(f: Flash, w: Write): (g: Flash)
    ensures |g.nodes| == |f.nodes| && |g.data| == |f.data|
  {
    match w
    case NodeWord(i, field, value) =>
      if i < |f.nodes| then f.(nodes := f.nodes[i := SetField(f.nodes[i], field, value)]) else f
    case DataWord(j, contents) =>
      if j < |f.data| then f.(data := f.data[j := contents]) else f
  }

  function ApplyAll(f: Flash, ws: seq<Write>): (g: Flash)
    ensures |g.nodes| == |f.nodes| && |g.data| == |f.data|
  {
    if ws == [] then f else Apply(ApplyAll(f, ws[..|ws| - 1]), ws[|ws| - 1])
  }

  lemma {:induction false} ApplyAppend(f: Flash, a: seq<Write>, b: seq<Write>)
    ensures ApplyAll(f, a + b) == ApplyAll(ApplyAll(f, a), b)
  {
    if b == [] {
      assert a + b == a;
    } else {
      assert (a + b)[..|a + b| - 1] == a + b[..|b| - 1];
      ApplyAppend(f, a, b[..|b| - 1]);
    }
  }

  // Bytes and words.

  function WordsFor(size: nat): nat { size / 8 + (if size % 8 == 0 then 0 else 1) }

  /** Word i of a byte string, the last one padded with zeros. */
  function PackedWord(s: seq<byte>, i: nat): word
    requires i < WordsFor(|s|)
  {
    seq(8, k requires 0 <= k < 8 => if 8 * i + k < |s| then s[8 * i + k] else 0)
  }

  function Packed(s: seq<byte>): (p: seq<word>)
    ensures |p| == WordsFor(|s|)
    ensures forall i :: 0 <= i < |p| ==> p[i] == PackedWord(s, i)
  {
    seq(WordsFor(|s|), i requires 0 <= i < WordsFor(|s|) => PackedWord(s, i))
  }

  function Padded(s: seq<byte>): word
    requires |s| < 8
  {
    s + seq(8 - |s|, k => 0)
  }

  /** Packing goes word by word. */
  lemma PackedStep(s: seq<byte>)
    ensures s == [] ==> Packed(s) == []
    ensures 0 < |s| < 8 ==> Packed(s) == [Padded(s)]
    ensures 8 <= |s| ==> Packed(s) == [s[..8]] + Packed(s[8..])
  {
    if 8 <= |s| {
      assert PackedWord(s, 0) == s[..8];
      forall i | 0 < i < WordsFor(|s|) ensures PackedWord(s, i) == PackedWord(s[8..], i - 1) {
      }
    } else if s != [] {
      assert PackedWord(s, 0) == Padded(s);
    }
  }

  /** The `size` bytes that a span at word offset `ptr` refers to. */
  function Load(data: seq<word>, ptr: nat, size: nat): (s: seq<byte>)
    ensures |s| == size
  {
    seq(size, i requires 0 <= i < size => if ptr + i / 8 < |data| then data[ptr + i / 8][i % 8] else 0)
  }

  predicate Stored(data: seq<word>, at: nat, p: seq<word>) { at + |p| <= |data| && data[at..at + |p|] == p }

  /** What was packed is loaded back. */
  lemma LoadPacked(data: seq<word>, ptr: nat, s: seq<byte>)
    requires Stored(data, ptr, Packed(s))
    ensures Load(data, ptr, |s|) == s
  {
    forall i | 0 <= i < |s| ensures Load(data, ptr, |s|)[i] == s[i] {
      assert data[ptr + i / 8] == data[ptr..ptr + WordsFor(|s|)][i / 8] == PackedWord(s, i / 8);
    }
  }

  /** Loading below `top` does not see what happens at or above it. */
  lemma LoadBelow(a: seq<word>, b: seq<word>, top: nat, ptr: nat, size: nat)
    requires top <= |a| && top <= |b| && a[..top] == b[..top] && ptr + WordsFor(size) <= top
    ensures Load(a, ptr, size) == Load(b, ptr, size)
  {
    forall i | 0 <= i < size ensures Load(a, ptr, size)[i] == Load(b, ptr, size)[i] {
      assert a[ptr + i / 8] == a[..top][ptr + i / 8] == b[..top][ptr + i / 8] == b[ptr + i / 8];
    }
  }

  // What a reader of the flash sees.

  predicate IsLive(n: Node) { n.deleted == FREE && n.ready == READY }

  /** The scan stops at the first node that is neither deleted nor ready: an empty or half-written one. */
  predicate StopsScan(n: Node) { n.deleted == FREE && n.ready == FREE }

  function KeyOf(f: Flash, n: Node): seq<byte> { Load(f.data, n.keyPtr, n.keySize) }

  function ValueOf(f: Flash, n: Node): seq<byte> { Load(f.data, n.valuePtr, n.valueSize) }

  /** The finite map of the nodes from index i on; the first node with a key wins. */
  function Visible(f: Flash, i: nat): map<seq<byte>, seq<byte>>
    requires i <= |f.nodes|
    decreases |f.nodes| - i
  {
    if i == |f.nodes| then map[]
    else
      var n := f.nodes[i];
      if IsLive(n) then Visible(f, i + 1)[KeyOf(f, n) := ValueOf(f, n)]
      else if StopsScan(n) then map[]
      else Visible(f, i + 1)
  }

  function Abstract(f: Flash): map<seq<byte>, seq<byte>> { Visible(f, 0) }

  datatype Found = At(index: nat) | Absent

  /** find_node_in_registry from node i on. */
  function Find(f: Flash, key: seq<byte>, i: nat): (r: Found)
    requires i <= |f.nodes|
    ensures r.At? ==> i <= r.index < |f.nodes| && IsLive(f.nodes[r.index]) && KeyOf(f, f.nodes[r.index]) == key
    decreases |f.nodes| - i
  {
    if i == |f.nodes| then Absent
    else
      var n := f.nodes[i];
      if IsLive(n) && KeyOf(f, n) == key then At(i)
      else if StopsScan(n) then Absent
      else Find(f, key, i + 1)
  }

  /** The scan computes map lookup, on every flash. */
  lemma {:induction false} FindIsLookup(f: Flash, key: seq<byte>, i: nat)
    requires i <= |f.nodes|
    ensures Find(f, key, i).At? <==> key in Visible(f, i)
    ensures Find(f, key, i).At? ==> Visible(f, i)[key] == ValueOf(f, f.nodes[Find(f, key, i).index])
    decreases |f.nodes| - i
  {
    if i < |f.nodes| { FindIsLookup(f, key, i + 1); }
  }

  // The layout that add and delete keep.

  function End(n: Node): nat { n.valuePtr + WordsFor(n.valueSize) }

  /** Where the data of node i begins: at the end of the data of the node before it. */
  function Begin(f: Flash, i: nat): nat
    requires i <= |f.nodes|
  {
    if i == 0 then 0 else End(f.nodes[i - 1])
  }

  predicate NodeOk(f: Flash, i: nat)
    requires i < |f.nodes|
  {
    var n := f.nodes[i];
    && n.ready == READY
    && n.keyPtr == Begin(f, i) && n.valuePtr == n.keyPtr + WordsFor(n.keySize)
    && 0 < n.keySize && 0 < n.valueSize && End(n) <= |f.data|
  }

  /** `used` nodes are written, one after the other in both logs; everything after them is erased. */
  ghost predicate LaidOut(f: Flash, used: nat) {
    && used <= |f.nodes|
    && (forall i :: 0 <= i < used ==> NodeOk(f, i))
    && (forall i :: used <= i < |f.nodes| ==> f.nodes[i] == EMPTY_NODE)
    && (forall j :: Begin(f, used) <= j < |f.data| ==> f.data[j] == FREE_WORD)
  }

  ghost predicate DistinctKeys(f: Flash, used: nat)
    requires used <= |f.nodes|
  {
    forall i, j :: 0 <= i < j < used && IsLive(f.nodes[i]) && IsLive(f.nodes[j]) ==>
      KeyOf(f, f.nodes[i]) != KeyOf(f, f.nodes[j])
  }

  /** The last stored word is not an erased one: without this the free space cannot be found. */
  ghost predicate TopIsMarked(f: Flash, used: nat)
    requires used <= |f.nodes|
  {
    0 < Begin(f, used) ==> Begin(f, used) <= |f.data| && f.data[Begin(f, used) - 1] != FREE_WORD
  }

  ghost predicate Sound(f: Flash, used: nat) {
    LaidOut(f, used) && DistinctKeys(f, used) && TopIsMarked(f, used)
  }

  /** get_start_registry_data_free_space: one past the last word below n that is not erased. */
  function FreeStart(data: seq<word>, n: nat): (s: nat)
    requires n <= |data|
    ensures s <= n && (0 < s ==> data[s - 1] != FREE_WORD)
    ensures forall j :: s <= j < n ==> data[j] == FREE_WORD
  {
    if n == 0 then 0 else if data[n - 1] != FREE_WORD then n else FreeStart(data, n - 1)
  }

  lemma FreeStartIsTop(f: Flash, used: nat)
    requires LaidOut(f, used) && TopIsMarked(f, used)
    ensures FreeStart(f.data, |f.data|) == Begin(f, used) <= |f.data|
  {
    var s := FreeStart(f.data, |f.data|);
    if used > 0 { assert NodeOk(f, used - 1); }
  }

  /** store_registry_node: the first empty node. */
  function FirstEmpty(f: Flash, i: nat): (r: nat)
    requires i <= |f.nodes|
    ensures i <= r <= |f.nodes| && (r < |f.nodes| ==> f.nodes[r] == EMPTY_NODE)
    decreases |f.nodes| - i
  {
    if i == |f.nodes| || f.nodes[i] == EMPTY_NODE then i else FirstEmpty(f, i + 1)
  }

  lemma {:induction false} FirstEmptyIsUsed(f: Flash, used: nat, i: nat)
    requires LaidOut(f, used) && i <= used
    ensures FirstEmpty(f, i) == used
    decreases used - i
  {
    if i < used {
      assert NodeOk(f, i);
      FirstEmptyIsUsed(f, used, i + 1);
    }
  }
}
