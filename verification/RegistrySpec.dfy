/** What add and delete write, and what every reader sees in between. */
module RegistrySpec {
  import opened Flash

  datatype Result = Ok | Duplicate | NotFound | OutOfMemory | NotEnoughSpace

  /** The checks of add, in its order. */
  function AddResult(f: Flash, key: seq<byte>, value: seq<byte>): Result {
    if Find(f, key, 0).At? then Duplicate
    else if FreeStart(f.data, |f.data|) + WordsFor(|key|) + WordsFor(|value|) > |f.data| then OutOfMemory
    else if FirstEmpty(f, 0) == |f.nodes| then NotEnoughSpace
    else Ok
  }

  function DataWrites(at: nat, p: seq<word>): (ws: seq<Write>)
    ensures |ws| == |p| && forall i :: 0 <= i < |p| ==> ws[i] == DataWord(at + i, p[i])
  {
    seq(|p|, i requires 0 <= i < |p| => DataWord(at + i, p[i]))
  }

  predicate Fits(key: seq<byte>, value: seq<byte>) {
    0 < |key| < 0x8000_0000 && 0 < |value| < 0x8000_0000
  }

  /** The two spans of the node, word by word. */
  function NodeWrites(i: nat, top: nat, key: seq<byte>, value: seq<byte>): (ws: seq<Write>)
    requires Fits(key, value) && top < 0x1_0000_0000_0000
  {
    [NodeWord(i, KeyPtr, top), NodeWord(i, KeySize, |key|),
     NodeWord(i, ValuePtr, top + WordsFor(|key|)), NodeWord(i, ValueSize, |value|)]
  }

  /** Everything before the commit: the node's spans, the key and the value. */
  function Preparation(i: nat, top: nat, key: seq<byte>, value: seq<byte>): seq<Write>
    requires Fits(key, value) && top < 0x1_0000_0000_0000
  {
    NodeWrites(i, top, key, value) + DataWrites(top, Packed(key))
    + DataWrites(top + WordsFor(|key|), Packed(value))
  }

  function Commit(i: nat): Write { NodeWord(i, Ready, READY) }

  /** A flash small enough for its offsets to be words. */
  predicate Addressable(f: Flash) { |f.data| < 0x1_0000_0000_0000 }

  function AddWrites(f: Flash, key: seq<byte>, value: seq<byte>): seq<Write>
    requires Fits(key, value) && Addressable(f)
  {
    Preparation(FirstEmpty(f, 0), FreeStart(f.data, |f.data|), key, value) + [Commit(FirstEmpty(f, 0))]
  }

  // Before the commit nothing shows.

  /** The writes of an add that are not the commit: the spans of a fresh node, and words of free space. */
  predicate Early(w: Write, used: nat, top: nat) {
    match w
    case NodeWord(i, field, _) => i == used && field != Ready && field != Deleted
    case DataWord(j, _) => top <= j
  }

  /** g differs from f only in the fresh node, still unready, and in the free space. */
  ghost predicate Hidden(f: Flash, g: Flash, used: nat) {
    && used < |f.nodes| == |g.nodes| && |f.data| == |g.data| && Begin(f, used) <= |f.data|
    && f.nodes[used] == EMPTY_NODE
    && (forall i :: 0 <= i < |f.nodes| && i != used ==> g.nodes[i] == f.nodes[i])
    && StopsScan(g.nodes[used])
    && g.data[..Begin(f, used)] == f.data[..Begin(f, used)]
  }

  lemma EarlyStaysHidden(f: Flash, g: Flash, w: Write, used: nat)
    requires Hidden(f, g, used) && Early(w, used, Begin(f, used))
    ensures Hidden(f, Apply(g, w), used)
  {
  }

  lemma {:induction false} EarlyWritesStayHidden(f: Flash, ws: seq<Write>, used: nat)
    requires used < |f.nodes| && f.nodes[used] == EMPTY_NODE && Begin(f, used) <= |f.data|
    requires forall w :: w in ws ==> Early(w, used, Begin(f, used))
    ensures Hidden(f, ApplyAll(f, ws), used)
  {
    if ws != [] {
      EarlyWritesStayHidden(f, ws[..|ws| - 1], used);
      EarlyStaysHidden(f, ApplyAll(f, ws[..|ws| - 1]), ws[|ws| - 1], used);
    }
  }

  /** The data of a written node lies below the free space. */
  lemma {:induction false} BeginsGrow(f: Flash, i: nat, used: nat)
    requires i <= used && LaidOut(f, used)
    ensures Begin(f, i) <= Begin(f, used) <= |f.data|
    decreases used
  {
    if used > 0 { assert NodeOk(f, used - 1); }
    if i < used {
      BeginsGrowTo(f, i, used, used);
    }
  }

  lemma {:induction false} BeginsGrowTo(f: Flash, i: nat, m: nat, used: nat)
    requires i <= m <= used && LaidOut(f, used)
    ensures Begin(f, i) <= Begin(f, m)
    decreases m
  {
    if i < m {
      assert NodeOk(f, m - 1);
      BeginsGrowTo(f, i, m - 1, used);
    }
  }

  lemma SpansUnchanged(f: Flash, g: Flash, used: nat, i: nat)
    requires i < used && LaidOut(f, used)
    requires |f.data| == |g.data| && Begin(f, used) <= |f.data|
    requires g.data[..Begin(f, used)] == f.data[..Begin(f, used)]
    ensures KeyOf(g, f.nodes[i]) == KeyOf(f, f.nodes[i]) && ValueOf(g, f.nodes[i]) == ValueOf(f, f.nodes[i])
  {
    assert NodeOk(f, i);
    BeginsGrow(f, i + 1, used);
    var n := f.nodes[i];
    LoadBelow(f.data, g.data, Begin(f, used), n.keyPtr, n.keySize);
    LoadBelow(f.data, g.data, Begin(f, used), n.valuePtr, n.valueSize);
  }

  lemma {:induction false} HiddenIsInvisible(f: Flash, g: Flash, used: nat, i: nat)
    requires LaidOut(f, used) && Hidden(f, g, used) && i <= used
    ensures Visible(g, i) == Visible(f, i)
    decreases used - i
  {
    if i < used {
      HiddenIsInvisible(f, g, used, i + 1);
      SpansUnchanged(f, g, used, i);
    }
  }

  /** Commit atomicity: after any number of the writes of an add short of the last, the flash shows
      the map it showed before. */
  lemma PreparationIsInvisible(f: Flash, used: nat, key: seq<byte>, value: seq<byte>, n: nat)
    requires Sound(f, used) && Addressable(f) && Fits(key, value) && AddResult(f, key, value) == Ok
    requires n < |AddWrites(f, key, value)|
    ensures Abstract(ApplyAll(f, AddWrites(f, key, value)[..n])) == Abstract(f)
  {
    FirstEmptyIsUsed(f, used, 0);
    FreeStartIsTop(f, used);
    var ws := AddWrites(f, key, value)[..n];
    forall w | w in ws ensures Early(w, used, Begin(f, used)) {
      var k :| 0 <= k < n && ws[k] == w;
      assert w == Preparation(used, Begin(f, used), key, value)[k];
    }
    EarlyWritesStayHidden(f, ws, used);
    HiddenIsInvisible(f, ApplyAll(f, ws), used, 0);
  }

  // The commit shows exactly the new entry.

  function Splice(data: seq<word>, at: nat, p: seq<word>): (d: seq<word>)
    requires at + |p| <= |data|
    ensures |d| == |data|
  {
    data[..at] + p + data[at + |p|..]
  }

  lemma SpliceNext(data: seq<word>, at: nat, p: seq<word>, w: word)
    requires at + |p| < |data|
    ensures Splice(data, at, p)[at + |p| := w] == Splice(data, at, p + [w])
  {
    var rest := data[at + |p|..];
    assert rest == [rest[0]] + data[at + |p| + 1..];
  }

  lemma {:induction false} DataWritten(f: Flash, at: nat, p: seq<word>, n: nat)
    requires n <= |p| && at + |p| <= |f.data|
    ensures ApplyAll(f, DataWrites(at, p)[..n]) == f.(data := Splice(f.data, at, p[..n]))
    decreases n
  {
    hide ApplyAll, Splice;
    var ws := DataWrites(at, p);
    if n == 0 {
      NothingWritten(f, at);
      assert ws[..0] == [] && p[..0] == [];
    } else {
      DataWritten(f, at, p, n - 1);
      assert ws[..n] == ws[..n - 1] + [DataWord(at + n - 1, p[n - 1])] && p[..n] == p[..n - 1] + [p[n - 1]];
      ApplyNext(f, ws[..n - 1], DataWord(at + n - 1, p[n - 1]));
      SpliceNext(f.data, at, p[..n - 1], p[n - 1]);
    }
  }

  lemma NothingWritten(f: Flash, at: nat)
    requires at <= |f.data|
    ensures ApplyAll(f, []) == f.(data := Splice(f.data, at, []))
  {
  }

  lemma DataWrittenWhole(f: Flash, at: nat, p: seq<word>)
    requires at + |p| <= |f.data|
    ensures ApplyAll(f, DataWrites(at, p)) == f.(data := Splice(f.data, at, p))
  {
    hide ApplyAll, Splice;
    DataWritten(f, at, p, |p|);
    assert DataWrites(at, p)[..|p|] == DataWrites(at, p) && p[..|p|] == p;
  }

  lemma SpliceTwice(data: seq<word>, at: nat, p: seq<word>, q: seq<word>)
    requires at + |p| + |q| <= |data|
    ensures Splice(Splice(data, at, p), at + |p|, q) == Splice(data, at, p + q)
  {
    var d := Splice(data, at, p);
    assert d[..at + |p|] == data[..at] + p;
    assert d[at + |p| + |q|..] == data[at + |p| + |q|..];
  }

  function NewNode(top: nat, key: seq<byte>, value: seq<byte>): Node
    requires Fits(key, value) && top < 0x1_0000_0000_0000
  {
    Node(READY, FREE, top, |key|, top + WordsFor(|key|), |value|)
  }

  /** The flash after a whole add, written out. */
  function Added(f: Flash, used: nat, top: nat, key: seq<byte>, value: seq<byte>): Flash
    requires Fits(key, value) && Addressable(f) && used < |f.nodes|
    requires top + WordsFor(|key|) + WordsFor(|value|) <= |f.data|
  {
    Flash(f.nodes[used := NewNode(top, key, value)], Splice(f.data, top, Packed(key) + Packed(value)))
  }

  lemma ApplyNext(f: Flash, ws: seq<Write>, w: Write)
    ensures ApplyAll(f, ws + [w]) == Apply(ApplyAll(f, ws), w)
    ensures ApplyAll(f, []) == f
  {
    assert (ws + [w])[..|ws|] == ws;
  }

  lemma FourWrites(f: Flash, a: Write, b: Write, c: Write, d: Write)
    ensures ApplyAll(f, [a, b, c, d]) == Apply(Apply(Apply(Apply(f, a), b), c), d)
  {
    hide *;
    ApplyNext(f, [], a);
    ApplyNext(f, [] + [a], b);
    ApplyNext(f, [] + [a] + [b], c);
    ApplyNext(f, [] + [a] + [b] + [c], d);
    assert [] + [a] + [b] + [c] + [d] == [a, b, c, d];
  }

  lemma NodeWritten(f: Flash, used: nat, top: nat, key: seq<byte>, value: seq<byte>)
    requires Fits(key, value) && top < 0x1_0000_0000_0000 && used < |f.nodes| && f.nodes[used] == EMPTY_NODE
    ensures ApplyAll(f, NodeWrites(used, top, key, value))
         == f.(nodes := f.nodes[used := NewNode(top, key, value).(ready := FREE)])
  {
    hide ApplyAll;
    var ws := NodeWrites(used, top, key, value);
    FourWrites(f, ws[0], ws[1], ws[2], ws[3]);
    assert ws == [ws[0], ws[1], ws[2], ws[3]];
  }

  lemma PreparationWrites(f: Flash, used: nat, top: nat, key: seq<byte>, value: seq<byte>)
    requires Fits(key, value) && Addressable(f) && used < |f.nodes| && f.nodes[used] == EMPTY_NODE
    requires top + WordsFor(|key|) + WordsFor(|value|) <= |f.data|
    ensures ApplyAll(f, Preparation(used, top, key, value))
         == Flash(f.nodes[used := NewNode(top, key, value).(ready := FREE)],
             Splice(f.data, top, Packed(key) + Packed(value)))
  {
    hide Packed, Splice, NodeWrites, ApplyAll;
    var mid := top + WordsFor(|key|);
    var nw, ks, vs := NodeWrites(used, top, key, value), DataWrites(top, Packed(key)), DataWrites(mid, Packed(value));
    NodeWritten(f, used, top, key, value);
    var g1 := ApplyAll(f, nw);
    DataWrittenWhole(g1, top, Packed(key));
    var g2 := ApplyAll(g1, ks);
    DataWrittenWhole(g2, mid, Packed(value));
    ApplyAppend(f, nw, ks);
    ApplyAppend(f, nw + ks, vs);
    SpliceTwice(f.data, top, Packed(key), Packed(value));
  }

  lemma AddWritesAdd(f: Flash, used: nat, key: seq<byte>, value: seq<byte>)
    requires LaidOut(f, used) && TopIsMarked(f, used) && Addressable(f) && Fits(key, value)
    requires AddResult(f, key, value) == Ok
    ensures used < |f.nodes| && Begin(f, used) + WordsFor(|key|) + WordsFor(|value|) <= |f.data|
    ensures ApplyAll(f, AddWrites(f, key, value)) == Added(f, used, Begin(f, used), key, value)
  {
    FirstEmptyIsUsed(f, used, 0);
    FreeStartIsTop(f, used);
    var top := Begin(f, used);
    var ws := Preparation(used, top, key, value);
    hide Preparation, Splice, Packed;
    PreparationWrites(f, used, top, key, value);
    assert (ws + [Commit(used)])[..|ws|] == ws;
    var g := ApplyAll(f, ws);
    assert g.nodes[used := SetField(g.nodes[used], Ready, READY)] == f.nodes[used := NewNode(top, key, value)];
  }

  lemma {:induction false} AddedIsVisible(f: Flash, used: nat, key: seq<byte>, value: seq<byte>, i: nat)
    requires LaidOut(f, used) && Addressable(f) && Fits(key, value) && i <= used < |f.nodes|
    requires Begin(f, used) + WordsFor(|key|) + WordsFor(|value|) <= |f.data| && key !in Visible(f, i)
    ensures Visible(Added(f, used, Begin(f, used), key, value), i) == Visible(f, i)[key := value]
    decreases used - i
  {
    var top := Begin(f, used);
    var g := Added(f, used, top, key, value);
    if i == used {
      var mid := top + WordsFor(|key|);
      assert Stored(g.data, top, Packed(key)) by { assert g.data[top..mid] == Packed(key); }
      assert Stored(g.data, mid, Packed(value)) by { assert g.data[mid..mid + WordsFor(|value|)] == Packed(value); }
      LoadPacked(g.data, top, key);
      LoadPacked(g.data, mid, value);
      assert Visible(g, used + 1) == map[] by {
        if used + 1 < |g.nodes| { assert g.nodes[used + 1] == EMPTY_NODE; }
      }
    } else {
      assert NodeOk(f, i);
      AddedIsVisible(f, used, key, value, i + 1);
      assert g.data[..top] == f.data[..top];
      SpansUnchanged(f, g, used, i);
    }
  }

  /** The value does not end in a word of eight 0xFF bytes, so its end can be told from erased flash. */
  predicate EndsMarked(value: seq<byte>) {
    value == [] || PackedWord(value, WordsFor(|value|) - 1) != FREE_WORD
  }

  lemma AddedIsLaidOut(f: Flash, used: nat, key: seq<byte>, value: seq<byte>)
    requires LaidOut(f, used) && Addressable(f) && Fits(key, value) && used < |f.nodes|
    requires Begin(f, used) + WordsFor(|key|) + WordsFor(|value|) <= |f.data|
    ensures var g := Added(f, used, Begin(f, used), key, value);
      LaidOut(g, used + 1) && (TopIsMarked(g, used + 1) <==> EndsMarked(value))
  {
    var top := Begin(f, used);
    var g := Added(f, used, top, key, value);
    var end := top + WordsFor(|key|) + WordsFor(|value|);
    forall i | 0 <= i < used + 1 ensures NodeOk(g, i) {
      if i < used { assert NodeOk(f, i); }
    }
    assert Begin(g, used + 1) == end;
    forall j | end <= j < |g.data| ensures g.data[j] == FREE_WORD {
      assert g.data[j] == f.data[j];
    }
    assert g.data[end - 1] == Packed(value)[WordsFor(|value|) - 1];
  }

  lemma KeysAreVisible(f: Flash, used: nat, i: nat, j: nat)
    requires LaidOut(f, used) && i <= j < used && IsLive(f.nodes[j])
    ensures KeyOf(f, f.nodes[j]) in Visible(f, i)
    decreases j - i
  {
    assert NodeOk(f, i);
    if i < j { KeysAreVisible(f, used, i + 1, j); }
  }

  lemma AddedIsDistinct(f: Flash, used: nat, key: seq<byte>, value: seq<byte>)
    requires LaidOut(f, used) && DistinctKeys(f, used) && Addressable(f) && Fits(key, value) && used < |f.nodes|
    requires Begin(f, used) + WordsFor(|key|) + WordsFor(|value|) <= |f.data| && key !in Abstract(f)
    ensures DistinctKeys(Added(f, used, Begin(f, used), key, value), used + 1)
  {
    var top := Begin(f, used);
    var g := Added(f, used, top, key, value);
    var mid := top + WordsFor(|key|);
    assert Stored(g.data, top, Packed(key)) by { assert g.data[top..mid] == Packed(key); }
    LoadPacked(g.data, top, key);
    assert g.data[..top] == f.data[..top];
    forall i | 0 <= i < used && IsLive(g.nodes[i])
      ensures KeyOf(g, g.nodes[i]) == KeyOf(f, f.nodes[i]) != key
    {
      SpansUnchanged(f, g, used, i);
      KeysAreVisible(f, used, 0, i);
    }
  }

  /** A whole add: the map gains exactly the new entry, and the registry stays valid. */
  lemma AddRefinesInsert(f: Flash, used: nat, key: seq<byte>, value: seq<byte>)
    requires Sound(f, used) && Addressable(f) && Fits(key, value) && AddResult(f, key, value) == Ok
    ensures var g := ApplyAll(f, AddWrites(f, key, value));
      && key !in Abstract(f) && Abstract(g) == Abstract(f)[key := value]
      && Addressable(g) && LaidOut(g, used + 1) && DistinctKeys(g, used + 1)
      && (Sound(g, used + 1) <==> EndsMarked(value))
  {
    AddWritesAdd(f, used, key, value);
    FindIsLookup(f, key, 0);
    AddedIsVisible(f, used, key, value, 0);
    AddedIsLaidOut(f, used, key, value);
    AddedIsDistinct(f, used, key, value);
  }

  // Delete.

  function DeleteWrite(i: nat): Write { NodeWord(i, Deleted, DELETED) }

  lemma {:induction false} DeletedIsInvisible(f: Flash, used: nat, k: nat, i: nat)
    requires Sound(f, used) && k < used && IsLive(f.nodes[k]) && i <= used
    ensures Visible(Apply(f, DeleteWrite(k)), i)
         == if i <= k then Visible(f, i) - {KeyOf(f, f.nodes[k])} else Visible(f, i)
    ensures k < i ==> KeyOf(f, f.nodes[k]) !in Visible(f, i)
    decreases used - i
  {
    var g := Apply(f, DeleteWrite(k));
    if i < used {
      assert NodeOk(f, i);
      DeletedIsInvisible(f, used, k, i + 1);
      assert KeyOf(g, f.nodes[i]) == KeyOf(f, f.nodes[i]) && ValueOf(g, f.nodes[i]) == ValueOf(f, f.nodes[i]);
    }
  }

  /** A delete is one write: the map loses exactly the entry, and the registry stays valid. */
  lemma DeleteRefinesRemove(f: Flash, used: nat, key: seq<byte>)
    requires Sound(f, used) && Find(f, key, 0).At?
    ensures var g := Apply(f, DeleteWrite(Find(f, key, 0).index));
      Sound(g, used) && key in Abstract(f) && Abstract(g) == Abstract(f) - {key}
  {
    var k := Find(f, key, 0).index;
    FindIsLookup(f, key, 0);
    assert k < used;
    DeletedIsInvisible(f, used, k, 0);
    var g := Apply(f, DeleteWrite(k));
    forall i | 0 <= i < used ensures NodeOk(g, i) { assert NodeOk(f, i); }
  }

  // Whole runs.

  datatype Op = Add(key: seq<byte>, value: seq<byte>) | Delete(key: seq<byte>)

  function OpResult(f: Flash, op: Op): Result {
    match op
    case Add(key, value) => AddResult(f, key, value)
    case Delete(key) => if Find(f, key, 0).At? then Ok else NotFound
  }

  predicate OpFits(op: Op) { op.Add? ==> Fits(op.key, op.value) && EndsMarked(op.value) }

  function Perform(f: Flash, op: Op): (g: Flash)
    requires OpFits(op) && Addressable(f)
    ensures Addressable(g)
  {
    if OpResult(f, op) != Ok then f
    else match op
      case Add(key, value) => ApplyAll(f, AddWrites(f, key, value))
      case Delete(key) => Apply(f, DeleteWrite(Find(f, key, 0).index))
  }

  function PerformAll(f: Flash, ops: seq<Op>): (g: Flash)
    requires Addressable(f) && forall op :: op in ops ==> OpFits(op)
    ensures Addressable(g)
  {
    if ops == [] then f else Perform(PerformAll(f, ops[..|ops| - 1]), ops[|ops| - 1])
  }

  /** The same operation on a finite map, given whether the flash had room for it. */
  function OnMap(m: map<seq<byte>, seq<byte>>, op: Op, r: Result): map<seq<byte>, seq<byte>> {
    if r != Ok then m
    else match op
      case Add(key, value) => m[key := value]
      case Delete(key) => m - {key}
  }

  /** Every operation on a valid flash is the map operation, and reports by the map alone whether the
      key is there: only the two out-of-space results depend on the layout. */
  lemma OpRefines(f: Flash, used: nat, op: Op) returns (used': nat)
    requires Sound(f, used) && Addressable(f) && OpFits(op)
    ensures Sound(Perform(f, op), used') && used <= used' <= used + 1
    ensures Abstract(Perform(f, op)) == OnMap(Abstract(f), op, OpResult(f, op))
    ensures OpResult(f, op) == Duplicate <==> op.Add? && op.key in Abstract(f)
    ensures OpResult(f, op) == NotFound <==> op.Delete? && op.key !in Abstract(f)
  {
    used' := used;
    FindIsLookup(f, op.key, 0);
    if OpResult(f, op) == Ok {
      match op
      case Add(key, value) =>
        AddRefinesInsert(f, used, key, value);
        used' := used + 1;
      case Delete(key) =>
        DeleteRefinesRemove(f, used, key);
    }
  }

  /** The map a run of operations leaves behind. */
  function Replayed(f: Flash, ops: seq<Op>): map<seq<byte>, seq<byte>>
    requires Addressable(f) && forall op :: op in ops ==> OpFits(op)
  {
    if ops == [] then Abstract(f)
    else
      var before := ops[..|ops| - 1];
      OnMap(Replayed(f, before), ops[|ops| - 1], OpResult(PerformAll(f, before), ops[|ops| - 1]))
  }

  /** Any run of adds and deletes refines the run on the map; keys may be added again after a delete. */
  lemma {:induction false} RunRefines(f: Flash, used: nat, ops: seq<Op>) returns (used': nat)
    requires Sound(f, used) && Addressable(f) && forall op :: op in ops ==> OpFits(op)
    ensures Sound(PerformAll(f, ops), used')
    ensures Abstract(PerformAll(f, ops)) == Replayed(f, ops)
  {
    used' := used;
    if ops != [] {
      used' := RunRefines(f, used, ops[..|ops| - 1]);
      used' := OpRefines(PerformAll(f, ops[..|ops| - 1]), used', ops[|ops| - 1]);
    }
  }

  lemma ErasedIsSound(f: Flash)
    requires (forall i :: 0 <= i < |f.nodes| ==> f.nodes[i] == EMPTY_NODE)
    requires (forall j :: 0 <= j < |f.data| ==> f.data[j] == FREE_WORD)
    ensures Sound(f, 0) && Abstract(f) == map[]
  {
  }

  // Where the code fails: an entry that ends in an erased word.

  /** The flash after a second add, whose data starts at s whatever lies there. */
  lemma SecondAddWrites(g: Flash, used: nat, key2: seq<byte>, value2: seq<byte>, s: nat)
    requires LaidOut(g, used) && Addressable(g) && Fits(key2, value2) && AddResult(g, key2, value2) == Ok
    requires s == FreeStart(g.data, |g.data|)
    ensures used < |g.nodes| && s + |Packed(key2) + Packed(value2)| <= |g.data|
    ensures ApplyAll(g, AddWrites(g, key2, value2))
         == Flash(g.nodes[used := NewNode(s, key2, value2)], Splice(g.data, s, Packed(key2) + Packed(value2)))
  {
    FirstEmptyIsUsed(g, used, 0);
    PreparationWrites(g, used, s, key2, value2);
    var ws := Preparation(used, s, key2, value2);
    hide Preparation, Splice, Packed;
    assert (ws + [Commit(used)])[..|ws|] == ws;
    var h := ApplyAll(g, ws);
    assert h.nodes[used := SetField(h.nodes[used], Ready, READY)] == g.nodes[used := NewNode(s, key2, value2)];
  }

  /** How many words at the end look erased. */
  function ErasedTail(p: seq<word>): (n: nat)
    ensures n <= |p|
  {
    if p == [] || p[|p| - 1] != FREE_WORD then 0 else 1 + ErasedTail(p[..|p| - 1])
  }

  lemma {:induction false} TailIsAllErased(p: seq<word>)
    ensures var n := ErasedTail(p);
      && (n < |p| ==> p[|p| - n - 1] != FREE_WORD)
      && forall i :: |p| - n <= i < |p| ==> p[i] == FREE_WORD
  {
    if p != [] && p[|p| - 1] == FREE_WORD {
      var init := p[..|p| - 1];
      TailIsAllErased(init);
      assert forall i :: 0 <= i < |init| ==> init[i] == p[i];
    }
  }

  function Words(key: seq<byte>, value: seq<byte>): (p: seq<word>)
    ensures |p| == WordsFor(|key|) + WordsFor(|value|)
  {
    Packed(key) + Packed(value)
  }

  /** Where the added key and value are. */
  lemma AddedShape(f: Flash, used: nat, key: seq<byte>, value: seq<byte>)
    requires Fits(key, value) && Addressable(f) && used < |f.nodes|
    requires Begin(f, used) + WordsFor(|key|) + WordsFor(|value|) <= |f.data|
    ensures var g := Added(f, used, Begin(f, used), key, value);
      var end := Begin(f, used) + WordsFor(|key|) + WordsFor(|value|);
      && |g.nodes| == |f.nodes| && |g.data| == |f.data| && Begin(g, used + 1) == end
      && g.data[..Begin(f, used)] == f.data[..Begin(f, used)]
      && g.data[Begin(f, used)..end] == Words(key, value)
      && g.nodes == f.nodes[used := NewNode(Begin(f, used), key, value)]
  {
    hide Packed;
  }

  /** The next add begins at the first of the erased words that end the last entry. */
  lemma NextStart(g: Flash, used: nat, top: nat, p: seq<word>)
    requires used <= |g.nodes| && LaidOut(g, used) && Begin(g, used) == top + |p| <= |g.data|
    requires g.data[top..top + |p|] == p && (top > 0 ==> g.data[top - 1] != FREE_WORD)
    ensures FreeStart(g.data, |g.data|) == top + |p| - ErasedTail(p)
  {
    hide FreeStart, ErasedTail;
    TailIsAllErased(p);
    var s, n, end := FreeStart(g.data, |g.data|), ErasedTail(p), top + |p|;
    forall j | end - n <= j < |g.data| ensures g.data[j] == FREE_WORD {
      if j < end { assert g.data[j] == p[j - top]; }
    }
    if n < |p| { assert g.data[end - n - 1] == p[|p| - n - 1]; }
  }

  /** The second add, written into the erased end of the first, leaves that entry's words as they are. */
  predicate Harmless(first: seq<word>, second: seq<word>) {
    forall j :: 0 <= j < ErasedTail(first) && j < |second| ==> second[j] == FREE_WORD
  }

  lemma HarmlessKeeps(data: seq<word>, top: nat, p: seq<word>, q: seq<word>, s: nat, end: nat)
    requires end == top + |p| <= |data| && data[top..end] == p && s + ErasedTail(p) == end && s + |q| <= |data|
    requires Harmless(p, q)
    ensures Splice(data, s, q)[..end] == data[..end]
  {
    hide *;
    var n := ErasedTail(p);
    var m := if n < |q| then n else |q|;
    TailIsErased(p);
    HeadIsErased(p, q, m);
    ErasedPart(n, m);
    SliceOfSlice(data, top, end, |p| - n, |p| - n + m);
    SliceOfDrop(p, |p| - n, m);
    assert data[s..s + m] == q[..m];
    SpliceSame(data, s, q, m, end);
  }

  lemma SliceOfSlice(d: seq<word>, a: nat, b: nat, i: nat, j: nat)
    requires a <= b <= |d| && i <= j <= b - a
    ensures d[a..b][i..j] == d[a + i..a + j]
  {
    assert forall k :: 0 <= k < j - i ==> d[a..b][i..j][k] == d[a + i..a + j][k];
  }

  lemma SliceOfDrop(d: seq<word>, i: nat, m: nat)
    requires i + m <= |d|
    ensures d[i..][..m] == d[i..i + m]
  {
  }

  function Erased(n: nat): seq<word> { seq(n, _ => FREE_WORD) }

  lemma ErasedPart(n: nat, m: nat)
    requires m <= n
    ensures Erased(n)[..m] == Erased(m)
  {
  }

  lemma TailIsErased(p: seq<word>)
    ensures p[|p| - ErasedTail(p)..] == Erased(ErasedTail(p))
  {
    TailIsAllErased(p);
    hide ErasedTail;
  }

  lemma HeadIsErased(p: seq<word>, q: seq<word>, m: nat)
    requires Harmless(p, q) && m <= ErasedTail(p) && m <= |q|
    ensures q[..m] == Erased(m)
  {
    hide ErasedTail;
  }

  lemma SpliceSame(data: seq<word>, s: nat, q: seq<word>, m: nat, end: nat)
    requires s + |q| <= |data| && m <= |q| && s + m <= end <= |data| && data[s..s + m] == q[..m]
    requires m == |q| || s + m == end
    ensures Splice(data, s, q)[..end] == data[..end]
  {
    if m == |q| {
      assert q[..m] == q;
      assert data == data[..s] + data[s..s + m] + data[s + m..];
    } else {
      assert Splice(data, s, q)[..end] == data[..s] + q[..m];
    }
  }

  lemma {:induction false} FoundAt(h: Flash, key: seq<byte>, k: nat, i: nat)
    requires i <= k < |h.nodes| && IsLive(h.nodes[k]) && KeyOf(h, h.nodes[k]) == key
    requires forall j :: i <= j < k ==> !StopsScan(h.nodes[j]) && (IsLive(h.nodes[j]) ==> KeyOf(h, h.nodes[j]) != key)
    ensures Find(h, key, i) == At(k)
    decreases k - i
  {
    if i < k { FoundAt(h, key, k, i + 1); }
  }

  lemma {:induction false} NotFoundBelow(h: Flash, key: seq<byte>, n: nat, i: nat)
    requires i <= n <= |h.nodes| && (n < |h.nodes| ==> h.nodes[n] == EMPTY_NODE)
    requires forall j :: i <= j < n && IsLive(h.nodes[j]) ==> KeyOf(h, h.nodes[j]) != key
    ensures Find(h, key, i) == Absent
    decreases n - i
  {
    if i < n { NotFoundBelow(h, key, n, i + 1); }
  }

  /** A word that looked erased and no longer does changes the bytes that are loaded. */
  lemma ChangedWordShows(data: seq<word>, at: nat, bytes: seq<byte>, i: nat)
    requires at <= i < at + WordsFor(|bytes|) && i < |data|
    requires PackedWord(bytes, i - at) == FREE_WORD != data[i]
    ensures Load(data, at, |bytes|) != bytes
  {
    var w := data[i];
    var k: nat :| k < 8 && w[k] != 0xFF;
    var b := 8 * (i - at) + k;
    assert PackedWord(bytes, i - at)[k] == 0xFF;
    assert b < |bytes| && bytes[b] == 0xFF;
    assert Load(data, at, |bytes|)[b] == w[k];
  }

  /** The flash after the first add, and after a second one whose data begin at s. */
  ghost predicate TwoAdds(f: Flash, g: Flash, h: Flash, used: nat, key: seq<byte>, value: seq<byte>,
                          key2: seq<byte>, value2: seq<byte>, s: nat)
  {
    && LaidOut(f, used) && Addressable(f) && Fits(key, value) && Fits(key2, value2) && used + 1 < |f.nodes|
    && Begin(f, used) + WordsFor(|key|) + WordsFor(|value|) <= |f.data|
    && g == Added(f, used, Begin(f, used), key, value) && LaidOut(g, used + 1) && DistinctKeys(g, used + 1)
    && key2 != key && s + |Words(key2, value2)| <= |g.data| && s < 0x1_0000_0000_0000
    && s == Begin(f, used) + |Words(key, value)| - ErasedTail(Words(key, value))
    && h == Flash(g.nodes[used + 1 := NewNode(s, key2, value2)], Splice(g.data, s, Words(key2, value2)))
  }

  /** The nodes before the two adds keep their keys, none of which is the first add's. */
  lemma OldKeysStay(f: Flash, g: Flash, h: Flash, used: nat, key: seq<byte>, value: seq<byte>,
                    key2: seq<byte>, value2: seq<byte>, s: nat)
    requires TwoAdds(f, g, h, used, key, value, key2, value2, s)
    ensures |h.nodes| == |f.nodes| && |h.data| == |f.data| && h.data[..Begin(f, used)] == f.data[..Begin(f, used)]
    ensures h.nodes[used] == NewNode(Begin(f, used), key, value) && h.nodes[used + 1] == NewNode(s, key2, value2)
    ensures used + 2 < |h.nodes| ==> h.nodes[used + 2] == EMPTY_NODE
    ensures forall j :: 0 <= j < used ==>
      !StopsScan(h.nodes[j]) && (IsLive(h.nodes[j]) ==> KeyOf(h, h.nodes[j]) != key)
    ensures KeyOf(h, h.nodes[used + 1]) == key2
  {
    hide Packed, PackedWord, ErasedTail, Load, Visible;
    var top := Begin(f, used);
    AddedShape(f, used, key, value);
    AddedKey(g, top, key, value);
    assert h.data[..top] == f.data[..top] by { assert g.data[..top] == f.data[..top] && top <= s; }
    forall j | 0 <= j < used
      ensures !StopsScan(h.nodes[j]) && (IsLive(h.nodes[j]) ==> KeyOf(h, h.nodes[j]) != key)
    {
      assert NodeOk(f, j) && h.nodes[j] == g.nodes[j] == f.nodes[j];
      SpansUnchanged(f, g, used, j);
      SpansUnchanged(f, h, used, j);
    }
    assert h.data[s..s + |Words(key2, value2)|] == Words(key2, value2);
    AddedKey(h, s, key2, value2);
  }

  /** The entry whose words lie at `top` is loaded from there. */
  lemma AddedKey(g: Flash, top: nat, key: seq<byte>, value: seq<byte>)
    requires Fits(key, value) && top < 0x1_0000_0000_0000 && top + |Words(key, value)| <= |g.data|
    requires g.data[top..top + |Words(key, value)|] == Words(key, value)
    ensures KeyOf(g, NewNode(top, key, value)) == key && ValueOf(g, NewNode(top, key, value)) == value
  {
    hide Load;
    var mid, end := top + WordsFor(|key|), top + |Words(key, value)|;
    assert Stored(g.data, top, Packed(key)) by { assert g.data[top..mid] == g.data[top..end][..mid - top]; }
    assert Stored(g.data, mid, Packed(value)) by { assert g.data[mid..end] == g.data[top..end][mid - top..]; }
    LoadPacked(g.data, top, key);
    LoadPacked(g.data, mid, value);
  }

  lemma HarmlessSurvives(f: Flash, g: Flash, h: Flash, used: nat, key: seq<byte>, value: seq<byte>,
                         key2: seq<byte>, value2: seq<byte>, s: nat)
    requires TwoAdds(f, g, h, used, key, value, key2, value2, s) && Harmless(Words(key, value), Words(key2, value2))
    ensures key in Abstract(h) && Abstract(h)[key] == value
  {
    hide Packed, PackedWord, ErasedTail, Load, Visible, Find, Harmless, LaidOut, DistinctKeys;
    var top := Begin(f, used);
    OldKeysStay(f, g, h, used, key, value, key2, value2, s);
    AddedShape(f, used, key, value);
    var end := top + |Words(key, value)|;
    HarmlessKeeps(g.data, top, Words(key, value), Words(key2, value2), s, end);
    assert h.data[top..end] == h.data[..end][top..] == g.data[..end][top..] == g.data[top..end];
    AddedKey(h, top, key, value);
    FoundAt(h, key, used, 0);
    FindIsLookup(h, key, 0);
  }

  lemma HarmLoses(f: Flash, g: Flash, h: Flash, used: nat, key: seq<byte>, value: seq<byte>,
                  key2: seq<byte>, value2: seq<byte>, s: nat)
    requires TwoAdds(f, g, h, used, key, value, key2, value2, s) && !Harmless(Words(key, value), Words(key2, value2))
    ensures key in Abstract(h) ==> Abstract(h)[key] != value
  {
    hide PackedWord, ErasedTail, Load, Visible, Find, LaidOut, DistinctKeys;
    var top, mid := Begin(f, used), Begin(f, used) + WordsFor(|key|);
    var p, q := Words(key, value), Words(key2, value2);
    OldKeysStay(f, g, h, used, key, value, key2, value2, s);
    TailIsAllErased(p);
    var j :| 0 <= j < ErasedTail(p) && j < |q| && q[j] != FREE_WORD;
    var i := s + j;
    assert h.data[i] == q[j] && p[i - top] == FREE_WORD;
    FindIsLookup(h, key, 0);
    if KeyOf(h, h.nodes[used]) == key {
      if i < mid { ChangedWordShows(h.data, top, key, i); }
      ChangedWordShows(h.data, mid, value, i);
      FoundAt(h, key, used, 0);
    } else {
      NotFoundBelow(h, key, used + 2, 0);
    }
  }

  /** After two adds the first entry is still there if and only if the second writes nothing but erased words over
      the words at its end that look erased. */
  lemma FirstSurvives(f: Flash, used: nat, key: seq<byte>, value: seq<byte>, key2: seq<byte>, value2: seq<byte>)
    requires Sound(f, used) && Addressable(f) && Fits(key, value) && Fits(key2, value2)
    requires AddResult(f, key, value) == Ok
    requires AddResult(ApplyAll(f, AddWrites(f, key, value)), key2, value2) == Ok
    ensures var g := ApplyAll(f, AddWrites(f, key, value));
      var after := Abstract(ApplyAll(g, AddWrites(g, key2, value2)));
      && key in Abstract(g) && Abstract(g)[key] == value
      && (key in after && after[key] == value <==> Harmless(Words(key, value), Words(key2, value2)))
  {
    hide AddWrites, ApplyAll, PackedWord, EndsMarked, Added, Packed, Splice;
    AddWritesAdd(f, used, key, value);
    AddRefinesInsert(f, used, key, value);
    var g := ApplyAll(f, AddWrites(f, key, value));
    hide Find, Visible, FreeStart, FirstEmpty, LaidOut, DistinctKeys, AddResult, Abstract, Begin, ErasedTail, Harmless;
    var h := ApplyAll(g, AddWrites(g, key2, value2));
    var s := SecondAddIs(f, g, used, key, value, key2, value2);
    if Harmless(Words(key, value), Words(key2, value2)) {
      HarmlessSurvives(f, g, h, used, key, value, key2, value2, s);
    } else {
      HarmLoses(f, g, h, used, key, value, key2, value2, s);
    }
  }

  /** The second add as two writes over the flash that the first one leaves. */
  lemma SecondAddIs(f: Flash, g: Flash, used: nat, key: seq<byte>, value: seq<byte>, key2: seq<byte>, value2: seq<byte>)
    returns (s: nat)
    requires Sound(f, used) && Addressable(f) && Fits(key, value) && Fits(key2, value2) && used < |f.nodes|
    requires Begin(f, used) + WordsFor(|key|) + WordsFor(|value|) <= |f.data|
    requires g == Added(f, used, Begin(f, used), key, value) && LaidOut(g, used + 1) && DistinctKeys(g, used + 1)
    requires key in Abstract(g) && AddResult(g, key2, value2) == Ok
    ensures TwoAdds(f, g, ApplyAll(g, AddWrites(g, key2, value2)), used, key, value, key2, value2, s)
  {
    hide AddWrites, ApplyAll, Added, Packed, Splice, ErasedTail;
    SecondKeyIsNew(g, key, key2, value2);
    AddedShape(f, used, key, value);
    hide Find, Visible, FreeStart, FirstEmpty, LaidOut, DistinctKeys, AddResult, Abstract;
    s := Begin(f, used) + |Words(key, value)| - ErasedTail(Words(key, value));
    MarkBelow(f, g, used);
    NextStart(g, used + 1, Begin(f, used), Words(key, value));
    SecondAddWrites(g, used + 1, key2, value2, s);
  }

  lemma SecondKeyIsNew(g: Flash, key: seq<byte>, key2: seq<byte>, value2: seq<byte>)
    requires key in Abstract(g) && AddResult(g, key2, value2) == Ok
    ensures key2 != key
  {
    FindIsLookup(g, key2, 0);
  }

  lemma MarkBelow(f: Flash, g: Flash, used: nat)
    requires used <= |f.nodes| && TopIsMarked(f, used) && Begin(f, used) <= |f.data| == |g.data|
    requires g.data[..Begin(f, used)] == f.data[..Begin(f, used)]
    ensures Begin(f, used) > 0 ==> g.data[Begin(f, used) - 1] != FREE_WORD
  {
    if Begin(f, used) > 0 { assert g.data[Begin(f, used) - 1] == g.data[..Begin(f, used)][Begin(f, used) - 1]; }
  }

  lemma MarkedTail(key: seq<byte>, value: seq<byte>)
    requires Fits(key, value)
    ensures ErasedTail(Words(key, value)) == 0 <==> EndsMarked(value)
  {
    var p := Words(key, value);
    assert p[|p| - 1] == PackedWord(value, WordsFor(|value|) - 1);
  }

  /** So before an add whose first word is not erased, a mark at the end of the value is necessary and sufficient. */
  lemma MarkedSurvives(f: Flash, used: nat, key: seq<byte>, value: seq<byte>, key2: seq<byte>, value2: seq<byte>)
    requires Sound(f, used) && Addressable(f) && Fits(key, value) && Fits(key2, value2)
    requires AddResult(f, key, value) == Ok
    requires AddResult(ApplyAll(f, AddWrites(f, key, value)), key2, value2) == Ok && PackedWord(key2, 0) != FREE_WORD
    ensures var g := ApplyAll(f, AddWrites(f, key, value));
      var after := Abstract(ApplyAll(g, AddWrites(g, key2, value2)));
      key in after && after[key] == value <==> EndsMarked(value)
  {
    hide AddWrites, ApplyAll, PackedWord, EndsMarked, ErasedTail, AddResult, Abstract, Sound;
    FirstSurvives(f, used, key, value, key2, value2);
    MarkedTail(key, value);
    assert Words(key2, value2)[0] == PackedWord(key2, 0);
  }

  const ERASED_VALUE: seq<byte> := [255, 255, 255, 255, 255, 255, 255, 255]

  function ErasedFlash(): Flash { Flash([EMPTY_NODE, EMPTY_NODE], [FREE_WORD, FREE_WORD, FREE_WORD, FREE_WORD]) }

  /** It does happen, with two nodes and four words of erased flash. */
  lemma ValueLostExample()
    ensures var f := ErasedFlash();
      && AddResult(f, [1], ERASED_VALUE) == Ok
      && var g := ApplyAll(f, AddWrites(f, [1], ERASED_VALUE));
      && AddResult(g, [2], [3]) == Ok
      && var after := Abstract(ApplyAll(g, AddWrites(g, [2], [3])));
      && Abstract(g) == map[[1] := ERASED_VALUE] && !([1] in after && after[[1]] == ERASED_VALUE)
  {
    var f := ErasedFlash();
    ErasedIsSound(f);
    FindIsLookup(f, [1], 0);
    FreeStartIsTop(f, 0);
    FirstEmptyIsUsed(f, 0, 0);
    ExampleWords();
    assert Begin(f, 0) == 0;
    assert AddResult(f, [1], ERASED_VALUE) == Ok;
    hide AddResult, PackedWord, EndsMarked, Find, FreeStart, FirstEmpty;
    AddRefinesInsert(f, 0, [1], ERASED_VALUE);
    AddWritesAdd(f, 0, [1], ERASED_VALUE);
    hide ApplyAll, AddWrites;
    var g := ApplyAll(f, AddWrites(f, [1], ERASED_VALUE));
    SecondExampleAdd(f, g);
    MarkedSurvives(f, 0, [1], ERASED_VALUE, [2], [3]);
    assert map[][[1] := ERASED_VALUE] == map[[1] := ERASED_VALUE];
  }

  lemma ExampleWords()
    ensures PackedWord([1], 0) != FREE_WORD && PackedWord([2], 0) != FREE_WORD
      && PackedWord(ERASED_VALUE, 0) == FREE_WORD
    ensures WordsFor(1) == 1 && WordsFor(8) == 1
    ensures EndsMarked([1]) && !EndsMarked(ERASED_VALUE)
  {
    assert PackedWord([1], 0)[0] == 1 && PackedWord([2], 0)[0] == 2;
  }

  lemma SecondExampleAdd(f: Flash, g: Flash)
    requires f == ErasedFlash() && Sound(f, 0) && g == Added(f, 0, 0, [1], ERASED_VALUE)
    requires Abstract(g) == Abstract(f)[[1] := ERASED_VALUE] && Abstract(f) == map[] && LaidOut(g, 1)
    ensures AddResult(g, [2], [3]) == Ok
  {
    hide PackedWord, Find, FreeStart, FirstEmpty, EndsMarked, LaidOut, Visible, Abstract, Added;
    ExampleWords();
    assert Begin(f, 0) == 0;
    AddedShape(f, 0, [1], ERASED_VALUE);
    NextStart(g, 1, 0, Words([1], ERASED_VALUE));
    MarkedTail([1], ERASED_VALUE);
    FindIsLookup(g, [2], 0);
    FirstEmptyIsUsed(g, 1, 0);
    assert [2] !in Abstract(g) by { assert [1] != [2] by { assert [1][0] != [2][0]; } }
    assert FirstEmpty(g, 0) == 1;
    VisibleIsAbstract(g);
  }

  lemma VisibleIsAbstract(f: Flash)
    ensures Abstract(f) == Visible(f, 0)
  {
  }

  // Accounting.

  /** Data words held by the live, or the deleted, nodes below index i. */
  function Held(f: Flash, i: nat, live: bool): nat
    requires i <= |f.nodes|
  {
    if i == 0 then 0
    else
      var n := f.nodes[i - 1];
      Held(f, i - 1, live) + (if IsLive(n) == live then WordsFor(n.keySize) + WordsFor(n.valueSize) else 0)
  }

  function Count(f: Flash, i: nat, live: bool): nat
    requires i <= |f.nodes|
  {
    if i == 0 then 0 else Count(f, i - 1, live) + (if IsLive(f.nodes[i - 1]) == live then 1 else 0)
  }

  /** Data words and node slots both balance: live, deleted and free make up the whole. */
  lemma {:induction false} Balance(f: Flash, used: nat, i: nat)
    requires LaidOut(f, used) && i <= used
    ensures Held(f, i, true) + Held(f, i, false) == Begin(f, i)
    ensures Count(f, i, true) + Count(f, i, false) == i
    decreases i
  {
    if i > 0 {
      assert NodeOk(f, i - 1);
      Balance(f, used, i - 1);
    }
  }
}
