/** The registry over a live flash, and the driver that packs bytes into its words.

    `origin` is the flash at power-on and `log` every word written since, so each prefix of `log`
    is a flash that a power loss could leave behind. */
module Registry {
  import opened Flash
  import opened RegistrySpec

  /** The control block of the flash driver: a word being filled and where it will go. */
  class DriverControlBlock {
    var writeBuffer: seq<byte>
    var remainderCount: nat
    var destination: nat

    constructor ()
      ensures |writeBuffer| == 8
    {
      writeBuffer := [0, 0, 0, 0, 0, 0, 0, 0];
      remainderCount, destination := 0, 0;
    }

    ghost predicate Valid()
      reads this
    {
      |writeBuffer| == 8 && remainderCount < 8
    }

    ghost function Pending(): seq<byte>
      requires Valid()
      reads this
    {
      writeBuffer[..remainderCount]
    }

    /** The writes still to come once `rest` is the only input left. */
    ghost function Due(rest: seq<byte>): seq<Write>
      requires Valid()
      reads this
    {
      DataWrites(destination, Packed(Pending() + rest))
    }
  }

  lemma DueStep(at: nat, s: seq<byte>)
    ensures s == [] ==> DataWrites(at, Packed(s)) == []
    ensures 0 < |s| < 8 ==> DataWrites(at, Packed(s)) == [DataWord(at, Padded(s))]
    ensures 8 <= |s| ==> DataWrites(at, Packed(s)) == [DataWord(at, s[..8])] + DataWrites(at + 1, Packed(s[8..]))
  {
    PackedStep(s);
    hide Packed;
  }

  lemma BufferStep(buffer: seq<byte>, count: nat, value: byte, rest: seq<byte>)
    requires |buffer| == 8 && count < 8
    ensures var all := buffer[..count] + ([value] + rest);
      && buffer[count := value][..count + 1] + rest == all
      && (count == 7 ==> all[..8] == buffer[count := value] && all[8..] == rest)
  {
    assert buffer[count := value][..count + 1] == buffer[..count] + [value];
    assert (buffer[..count] + [value]) + rest == buffer[..count] + ([value] + rest);
  }

  /** What is due after one more byte is in the buffer. */
  lemma DueAfterByte(at: nat, buffer: seq<byte>, count: nat, value: byte, rest: seq<byte>)
    requires |buffer| == 8 && count < 8
    ensures DataWrites(at, Packed(buffer[..count] + ([value] + rest)))
         == if count < 7 then DataWrites(at, Packed(buffer[count := value][..count + 1] + rest))
            else [DataWord(at, buffer[count := value])] + DataWrites(at + 1, Packed(rest))
  {
    hide Packed, DataWrites;
    BufferStep(buffer, count, value, rest);
    DueStep(at, buffer[..count] + ([value] + rest));
  }

  lemma NothingPending(buffer: seq<byte>, rest: seq<byte>)
    ensures buffer[..0] + rest == rest
  {
  }

  lemma OneMore(before: seq<Write>, w: Write, later: seq<Write>)
    ensures before + [w] + later == before + ([w] + later)
  {
  }

  class Registry {
    const nodes: array<Node>
    const data: array<word>
    ghost const origin: Flash
    ghost var log: seq<Write>

    constructor (nodes: array<Node>, data: array<word>)
      ensures this.nodes == nodes && this.data == data && log == [] && origin == Snapshot() && Valid()
    {
      this.nodes := nodes;
      this.data := data;
      log := [];
      origin := Flash(nodes[..], data[..]);
    }

    ghost function Snapshot(): Flash
      reads nodes, data
    {
      Flash(nodes[..], data[..])
    }

    ghost predicate Valid()
      reads this, nodes, data
    {
      Snapshot() == ApplyAll(origin, log)
    }

    /** The log since `before`, applied to the flash of that moment, gives the flash of now. */
    lemma LogSince(before: Flash, prefix: seq<Write>, ws: seq<Write>)
      requires Valid() && before == ApplyAll(origin, prefix) && log == prefix + ws
      ensures Snapshot() == ApplyAll(before, ws)
    {
      ApplyAppend(origin, prefix, ws);
    }

    lemma LogStep(w: Write)
      ensures ApplyAll(origin, log + [w]) == Apply(ApplyAll(origin, log), w)
    {
      assert (log + [w])[..|log|] == log;
    }

    method WriteNodeWord(index: nat, field: Field, value: uint64)
      requires Valid() && index < nodes.Length
      modifies nodes, this`log
      ensures Valid() && log == old(log) + [NodeWord(index, field, value)]
    {
      LogStep(NodeWord(index, field, value));
      nodes[index] := SetField(nodes[index], field, value);
      log := log + [NodeWord(index, field, value)];
    }

    method WriteDataWord(offset: nat, contents: word)
      requires Valid() && offset < data.Length
      modifies data, this`log
      ensures Valid() && log == old(log) + [DataWord(offset, contents)]
    {
      LogStep(DataWord(offset, contents));
      data[offset] := contents;
      log := log + [DataWord(offset, contents)];
    }

    method DriverOpen(cb: DriverControlBlock, destination: nat)
      requires |cb.writeBuffer| == 8
      modifies cb
      ensures cb.Valid() && cb.Pending() == [] && cb.destination == destination
    {
      cb.destination := destination;
      cb.remainderCount := 0;
    }

    /** One byte more; a full word goes out. */
    method PutByte(cb: DriverControlBlock, value: byte, ghost rest: seq<byte>)
      requires Valid() && cb.Valid()
      requires cb.destination + |cb.Due([value] + rest)| <= data.Length
      modifies data, this`log, cb
      ensures Valid() && cb.Valid()
      ensures log + cb.Due(rest) == old(log) + old(cb.Due([value] + rest))
      ensures cb.destination + |cb.Due(rest)| <= data.Length
    {
      hide Packed, DataWrites;
      DueAfterByte(cb.destination, cb.writeBuffer, cb.remainderCount, value, rest);
      cb.writeBuffer := cb.writeBuffer[cb.remainderCount := value];
      cb.remainderCount := cb.remainderCount + 1;
      if cb.remainderCount == 8 {
        ghost var later := DataWrites(cb.destination + 1, Packed(rest));
        ghost var before := log;
        WriteDataWord(cb.destination, cb.writeBuffer);
        OneMore(before, log[|before|], later);
        cb.destination := cb.destination + 1;
        cb.remainderCount := 0;
        NothingPending(cb.writeBuffer, rest);
      }
    }

    /** Bytes go out as soon as they fill a word. */
    method DriverWrite(cb: DriverControlBlock, source: seq<byte>)
      requires Valid() && cb.Valid()
      requires cb.destination + |cb.Due(source)| <= data.Length
      modifies data, this`log, cb
      ensures Valid() && cb.Valid()
      ensures log + cb.Due([]) == old(log) + old(cb.Due(source))
      ensures cb.destination + |cb.Due([])| <= data.Length
    {
      hide Packed, DataWrites;
      var i := 0;
      assert source[0..] == source;
      while i < |source|
        invariant 0 <= i <= |source|
        invariant Valid() && cb.Valid() && cb.destination + |cb.Due(source[i..])| <= data.Length
        invariant log + cb.Due(source[i..]) == old(log) + old(cb.Due(source))
      {
        assert source[i..] == [source[i]] + source[i + 1..];
        PutByte(cb, source[i], source[i + 1..]);
        i := i + 1;
      }
      assert source[i..] == [];
    }

    /** A word that is not full is padded and goes out last. */
    method DriverClose(cb: DriverControlBlock)
      requires Valid() && cb.Valid() && cb.destination + |cb.Due([])| <= data.Length
      modifies data, this`log, cb
      ensures Valid() && log == old(log) + old(cb.Due([]))
    {
      hide Packed;
      ghost var pending := cb.Pending();
      assert pending + [] == pending;
      DueStep(cb.destination, pending);
      if cb.remainderCount != 0 {
        for i := cb.remainderCount to 8
          invariant cb.remainderCount == |pending| && |cb.writeBuffer| == 8
          invariant cb.destination == old(cb.destination) && Valid() && log == old(log)
          invariant cb.writeBuffer[..i] == pending + seq(i - |pending|, k => 0)
        {
          cb.writeBuffer := cb.writeBuffer[i := 0];
        }
        assert cb.writeBuffer == Padded(pending);
        WriteDataWord(cb.destination, cb.writeBuffer);
      }
    }

    /** Open, write and close: the packed bytes, word by word. */
    method Store(destination: nat, source: seq<byte>)
      requires Valid() && destination + WordsFor(|source|) <= data.Length
      modifies data, this`log
      ensures Valid() && log == old(log) + DataWrites(destination, Packed(source))
    {
      var cb := new DriverControlBlock();
      DriverOpen(cb, destination);
      assert cb.Pending() + source == source;
      DriverWrite(cb, source);
      DriverClose(cb);
    }

    method FindNode(key: seq<byte>) returns (r: Found)
      ensures r == Find(Snapshot(), key, 0)
    {
      var runner := 0;
      while runner < nodes.Length
        invariant runner <= nodes.Length
        invariant Find(Snapshot(), key, 0) == Find(Snapshot(), key, runner)
      {
        var n := nodes[runner];
        if n.deleted == FREE {
          if n.ready == READY {
            if key == Load(data[..], n.keyPtr, n.keySize) {
              return At(runner);
            }
          } else if n.ready == FREE {
            return Absent;
          }
        }
        runner := runner + 1;
      }
      r := Absent;
    }

    method GetStartOfFreeSpace() returns (s: nat)
      ensures s == FreeStart(data[..], data.Length)
    {
      s := data.Length;
      while s > 0 && data[s - 1] == FREE_WORD
        invariant s <= data.Length && FreeStart(data[..], data.Length) == FreeStart(data[..], s)
      {
        s := s - 1;
      }
    }

    method StoreNode(top: nat, key: seq<byte>, value: seq<byte>) returns (r: Result, index: nat)
      requires Valid() && Fits(key, value) && top + WordsFor(|key|) < 0x1_0000_0000_0000
      modifies nodes, this`log
      ensures Valid() && index == FirstEmpty(old(Snapshot()), 0) <= nodes.Length
      ensures r == if index == nodes.Length then NotEnoughSpace else Ok
      ensures log == old(log) + if r == Ok then NodeWrites(index, top, key, value) else []
    {
      index := 0;
      while index < nodes.Length && nodes[index] != EMPTY_NODE
        invariant index <= nodes.Length && FirstEmpty(Snapshot(), 0) == FirstEmpty(Snapshot(), index)
      {
        index := index + 1;
      }
      if index == nodes.Length {
        return NotEnoughSpace, index;
      }
      WriteNodeWord(index, KeyPtr, top);
      WriteNodeWord(index, KeySize, |key|);
      WriteNodeWord(index, ValuePtr, top + WordsFor(|key|));
      WriteNodeWord(index, ValueSize, |value|);
      r := Ok;
    }

    /** Adds write their preparation and then the ready flag, and nothing on any failure. */
    method Add(key: seq<byte>, value: seq<byte>) returns (r: Result)
      requires Valid() && Fits(key, value) && Addressable(Snapshot())
      modifies nodes, data, this`log
      ensures Valid() && r == AddResult(old(Snapshot()), key, value)
      ensures log == old(log) + if r == Ok then AddWrites(old(Snapshot()), key, value) else []
      ensures Snapshot() == if r == Ok then ApplyAll(old(Snapshot()), AddWrites(old(Snapshot()), key, value))
                            else old(Snapshot())
    {
      hide Packed, Find, DataWrites, NodeWrites, ApplyAll, FreeStart, FirstEmpty;
      ghost var before, prefix := Snapshot(), log;
      assert log == prefix + [];
      var found := FindNode(key);
      if found != Absent {
        return Duplicate;
      }
      var keyWords, valueWords := WordsFor(|key|), WordsFor(|value|);
      var keyDestination := GetStartOfFreeSpace();
      var valueDestination := keyDestination + keyWords;
      if valueDestination + valueWords > data.Length {
        return OutOfMemory;
      }
      var index;
      r, index := StoreNode(keyDestination, key, value);
      if r != Ok {
        return;
      }
      Store(keyDestination, key);
      Store(valueDestination, value);
      WriteNodeWord(index, Ready, READY);
      LogSince(before, prefix, AddWrites(before, key, value));
    }

    method Delete(key: seq<byte>) returns (r: Result)
      requires Valid()
      modifies nodes, this`log
      ensures Valid() && r == if Find(old(Snapshot()), key, 0).At? then Ok else NotFound
      ensures log == old(log) + if r == Ok then [DeleteWrite(Find(old(Snapshot()), key, 0).index)] else []
      ensures Snapshot() == if r == Ok then Apply(old(Snapshot()), DeleteWrite(Find(old(Snapshot()), key, 0).index))
                            else old(Snapshot())
    {
      var found := FindNode(key);
      if found == Absent {
        return NotFound;
      }
      WriteNodeWord(found.index, Deleted, DELETED);
      r := Ok;
    }

    method TryGetValue(key: seq<byte>) returns (r: Result, value: seq<byte>)
      ensures r == Ok <==> key in Abstract(Snapshot())
      ensures r == Ok ==> value == Abstract(Snapshot())[key]
      ensures r != Ok ==> r == NotFound
    {
      value := [];
      var found := FindNode(key);
      FindIsLookup(Snapshot(), key, 0);
      if found == Absent {
        return NotFound, value;
      }
      var n := nodes[found.index];
      value := Load(data[..], n.valuePtr, n.valueSize);
      r := Ok;
    }

    /** The counters of get_info, in words rather than bytes. */
    method GetInfo(ghost used: nat)
      returns (totalInfo: nat, inUseInfo: nat, freeInfo: nat, totalData: nat, inUseData: nat, freeData: nat)
      requires LaidOut(Snapshot(), used) && TopIsMarked(Snapshot(), used)
      ensures totalInfo == inUseInfo + Count(Snapshot(), used, false) + freeInfo
      ensures totalData == inUseData + Held(Snapshot(), used, false) + freeData
      ensures inUseInfo == Count(Snapshot(), used, true) && inUseData == Held(Snapshot(), used, true)
      ensures totalInfo == nodes.Length && totalData == data.Length && freeInfo == nodes.Length - used
    {
      totalInfo, totalData := nodes.Length, data.Length;
      var start := GetStartOfFreeSpace();
      FreeStartIsTop(Snapshot(), used);
      freeData := totalData - start;
      freeInfo, inUseInfo, inUseData := 0, 0, 0;
      for runner := 0 to nodes.Length
        invariant freeInfo == if runner <= used then 0 else runner - used
        invariant inUseInfo == Count(Snapshot(), if runner <= used then runner else used, true)
        invariant inUseData == Held(Snapshot(), if runner <= used then runner else used, true)
      {
        var n := nodes[runner];
        if runner < used { assert NodeOk(Snapshot(), runner); }
        if n == EMPTY_NODE {
          freeInfo := freeInfo + 1;
        } else if n.deleted == FREE && n.ready == READY {
          inUseInfo := inUseInfo + 1;
          inUseData := inUseData + (n.valuePtr + WordsFor(n.valueSize) - n.keyPtr);
        }
      }
      Balance(Snapshot(), used, used);
    }

    /** Both regions are erased. */
    method CleanAll()
      modifies nodes, data
      ensures Sound(Snapshot(), 0) && Abstract(Snapshot()) == map[]
    {
      var i := 0;
      while i < nodes.Length
        invariant i <= nodes.Length && forall k :: 0 <= k < i ==> nodes[k] == EMPTY_NODE
      {
        nodes[i] := EMPTY_NODE;
        i := i + 1;
      }
      i := 0;
      while i < data.Length
        invariant i <= data.Length && forall k :: 0 <= k < i ==> data[k] == FREE_WORD
        invariant forall k :: 0 <= k < nodes.Length ==> nodes[k] == EMPTY_NODE
      {
        data[i] := FREE_WORD;
        i := i + 1;
      }
      ErasedIsSound(Snapshot());
    }
  }
}
