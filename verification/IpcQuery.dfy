/** The paged listing of the published interfaces, and the loop that takes a page apart again. */
module IpcQuery {
  import opened Common
  import opened IpcSpec
  import opened Names
  import Ipc

  function Mark(slot: Slot): string { if slot.isDefault then "*" else " " }

  /** An entry of the listing: quotes around a default mark and the full name. */
  function Entry(slot: Slot): (e: string)
    requires slot.descriptor.Some?
    ensures |e| >= 2
  {
    var d := slot.descriptor.value;
    "\"" + (Mark(slot) + Dotted(d.package, Decimal(d.packageVersion), d.intf, Decimal(d.intfVersion) + "\""))
  }

  lemma EntryIsQuotedName(slot: Slot)
    requires slot.descriptor.Some?
    ensures var d := slot.descriptor.value;
      Entry(slot) == "\"" + Mark(slot) + ListedName(d.package, d.packageVersion, d.intf, d.intfVersion) + "\""
  {
    hide Decimal;
  }

  /** The entries of the published slots from a to b, in slot order. */
  function Listing(slots: seq<Slot>, a: nat, b: nat): (es: seq<string>)
    requires a <= b <= |slots|
    ensures |es| <= b - a && forall e :: e in es ==> |e| >= 2
    decreases b
  {
    if a == b then []
    else Listing(slots, a, b - 1) + if slots[b - 1].descriptor.Some? then [Entry(slots[b - 1])] else []
  }

  function Join(entries: seq<string>): string {
    if entries == [] then ""
    else if |entries| == 1 then entries[0]
    else Join(entries[..|entries| - 1]) + ("," + entries[|entries| - 1])
  }

  lemma JoinAppend(entries: seq<string>, e: string)
    ensures Join(entries + [e]) == if entries == [] then e else Join(entries) + ("," + e)
  {
    assert (entries + [e])[..|entries|] == entries;
  }

  lemma {:induction false} JoinFront(entries: seq<string>)
    requires |entries| > 1
    ensures Join(entries) == entries[0] + ("," + Join(entries[1..]))
  {
    var init, last := entries[..|entries| - 1], entries[|entries| - 1];
    var rest := entries[1..];
    if |entries| == 2 {
      assert rest == [last] && init == [entries[0]];
    } else {
      JoinFront(init);
      assert init[1..] == rest[..|rest| - 1] && rest[|rest| - 1] == last;
      assert Join(rest) == Join(init[1..]) + ("," + last);
    }
  }

  lemma {:induction false} ListingSplits(slots: seq<Slot>, a: nat, b: nat, c: nat)
    requires a <= b <= c <= |slots|
    ensures Listing(slots, a, c) == Listing(slots, a, b) + Listing(slots, b, c)
    decreases c
  {
    if b < c { ListingSplits(slots, a, b, c - 1); }
  }

  /** The entries of the slots from start to i as one text. */
  function Page(slots: seq<Slot>, start: nat, i: nat): string
    requires start <= i <= |slots|
  {
    Join(Listing(slots, start, i))
  }

  datatype PageResult = PageOk | Eof | PageTooSmall | NotSupported

  /** Every entry from `start` up to `next`, and no more would fit. */
  predicate FullPage(slots: seq<Slot>, start: nat, next: nat, size: nat)
    requires start <= next <= |slots|
  {
    && Listing(slots, start, next) != [] && |Page(slots, start, next)| <= size
    && (next < |slots| ==> slots[next].descriptor.Some? && |Page(slots, start, next + 1)| > size)
  }

  /** What a page holds, by result. */
  ghost predicate Reported(slots: seq<Slot>, start: nat, next: nat, text: string, result: PageResult, size: nat)
  {
    match result
    case PageOk =>
      start < next <= |slots| && FullPage(slots, start, next, size) && text == Page(slots, start, next)
    case Eof =>
      (start <= |slots| ==> Listing(slots, start, |slots|) == []) && text == ""
    case PageTooSmall =>
      text == "" && start <= |slots|
      && exists i :: start <= i < |slots| && slots[i].descriptor.Some?
                     && Listing(slots, start, i) == [] && |Entry(slots[i])| > size
    case NotSupported => false
  }

  /** The text at pos, everything else as before. */
  ghost predicate Wrote(before: seq<char>, after: seq<char>, pos: nat, text: string) {
    pos + |text| <= |before| && after == before[..pos] + text + before[pos + |text|..]
  }

  lemma WroteTwice(a: seq<char>, b: seq<char>, c: seq<char>, pos: nat, first: string, middle: nat, second: string)
    requires Wrote(a, b, pos, first) && Wrote(b, c, middle, second) && middle == pos + |first|
    ensures Wrote(a, c, pos, first + second)
  {
    var end := middle + |second|;
    assert b[..middle] == a[..pos] + first;
    assert b[end..] == a[end..];
  }

  /** memcpy into the buffer. */
  method Put(buffer: array<char>, pos: nat, text: string) returns (end: nat)
    requires pos + |text| <= buffer.Length
    modifies buffer
    ensures end == pos + |text| <= buffer.Length
    ensures Wrote(old(buffer[..]), buffer[..], pos, text)
  {
    forall i | 0 <= i < |text| { buffer[pos + i] := text[i]; }
    end := pos + |text|;
  }

  /** One entry, piece by piece. */
  method WriteEntry(buffer: array<char>, pos: nat, slot: Slot, packageVersion: string, intfVersion: string)
    returns (end: nat)
    requires slot.descriptor.Some? && pos + |Entry(slot)| <= buffer.Length
    requires packageVersion == Decimal(slot.descriptor.value.packageVersion)
    requires intfVersion == Decimal(slot.descriptor.value.intfVersion)
    modifies buffer
    ensures end == pos + |Entry(slot)|
    ensures Wrote(old(buffer[..]), buffer[..], pos, Entry(slot))
  {
    hide Decimal, Wrote;
    var d := slot.descriptor.value;
    ghost var b0 := buffer[..];
    var p1 := Put(buffer, pos, "\"");
    ghost var b1 := buffer[..];
    var p2 := Put(buffer, p1, Mark(slot));
    ghost var b2 := buffer[..];
    var p3 := Put(buffer, p2, d.package);
    ghost var b3 := buffer[..];
    var p4 := Put(buffer, p3, ".");
    ghost var b4 := buffer[..];
    var p5 := Put(buffer, p4, packageVersion);
    ghost var b5 := buffer[..];
    var p6 := Put(buffer, p5, ".");
    ghost var b6 := buffer[..];
    var p7 := Put(buffer, p6, d.intf);
    ghost var b7 := buffer[..];
    var p8 := Put(buffer, p7, ".");
    ghost var b8 := buffer[..];
    var p9 := Put(buffer, p8, intfVersion);
    ghost var b9 := buffer[..];
    end := Put(buffer, p9, "\"");
    ghost var b := buffer[..];
    ghost var t9 := intfVersion + "\"";
    ghost var t8 := "." + t9;
    ghost var t7 := d.intf + t8;
    ghost var t6 := "." + t7;
    ghost var t5 := packageVersion + t6;
    ghost var t4 := "." + t5;
    ghost var t3 := d.package + t4;
    WroteTwice(b8, b9, b, p8, intfVersion, p9, "\"");
    WroteTwice(b7, b8, b, p7, ".", p8, t9);
    WroteTwice(b6, b7, b, p6, d.intf, p7, t8);
    WroteTwice(b5, b6, b, p5, ".", p6, t7);
    WroteTwice(b4, b5, b, p4, packageVersion, p5, t6);
    WroteTwice(b3, b4, b, p3, ".", p4, t5);
    WroteTwice(b2, b3, b, p2, d.package, p3, t4);
    WroteTwice(b1, b2, b, p1, Mark(slot), p2, t3);
    WroteTwice(b0, b1, b, pos, "\"", p1, Mark(slot) + t3);
  }

  /** An entry, after a comma unless it is the first. */
  function Piece(first: bool, slot: Slot): string
    requires slot.descriptor.Some?
  {
    if first then Entry(slot) else "," + Entry(slot)
  }

  method WritePiece(buffer: array<char>, pos: nat, slot: Slot, packageVersion: string, intfVersion: string)
    returns (end: nat)
    requires slot.descriptor.Some? && pos + |Piece(pos == 0, slot)| <= buffer.Length
    requires packageVersion == Decimal(slot.descriptor.value.packageVersion)
    requires intfVersion == Decimal(slot.descriptor.value.intfVersion)
    modifies buffer
    ensures end == pos + |Piece(pos == 0, slot)| <= buffer.Length
    ensures Wrote(old(buffer[..]), buffer[..], pos, Piece(pos == 0, slot))
  {
    hide Entry, Decimal, Wrote;
    if pos == 0 {
      end := WriteEntry(buffer, pos, slot, packageVersion, intfVersion);
    } else {
      var entry := Put(buffer, pos, ",");
      ghost var middle := buffer[..];
      end := WriteEntry(buffer, entry, slot, packageVersion, intfVersion);
      WroteTwice(old(buffer[..]), middle, buffer[..], pos, ",", entry, Entry(slot));
    }
  }

  lemma PageStart(slots: seq<Slot>, start: nat)
    requires start <= |slots|
    ensures Page(slots, start, start) == "" && Listing(slots, start, start) == []
  {
  }

  /** The step of the listing at slot i. */
  lemma ListingStep(slots: seq<Slot>, start: nat, i: nat)
    requires start <= i < |slots|
    ensures Page(slots, start, i) == "" <==> Listing(slots, start, i) == []
    ensures slots[i].descriptor.None? ==>
      Listing(slots, start, i + 1) == Listing(slots, start, i) && Page(slots, start, i + 1) == Page(slots, start, i)
    ensures slots[i].descriptor.Some? ==>
      && Listing(slots, start, i + 1) != [] && Page(slots, start, i + 1) != ""
      && Page(slots, start, i + 1) == Page(slots, start, i) + Piece(Page(slots, start, i) == "", slots[i])
  {
    hide Entry;
    var entries := Listing(slots, start, i);
    if entries != [] { JoinNotEmpty(entries); }
    if slots[i].descriptor.Some? { JoinAppend(entries, Entry(slots[i])); }
  }

  lemma JoinNotEmpty(entries: seq<string>)
    requires entries != [] && forall e :: e in entries ==> |e| >= 2
    ensures Join(entries) != ""
  {
    assert entries[0] in entries;
  }

  /** report_interfaces: fills the buffer with as many entries as fit, from slot `start` on. */
  method ReportInterfaces(block: Ipc.ControlBlock, start: nat, buffer: array<char>)
    returns (result: PageResult, next: nat, length: nat)
    requires block.Valid()
    modifies buffer
    ensures length <= buffer.Length
    ensures Reported(block.interfaceList[..], start, next, buffer[..length], result, buffer.Length)
    ensures Wrote(old(buffer[..]), buffer[..], 0, buffer[..length])
  {
    hide Listing, Page, Piece, Decimal, Wrote, Reported;
    ghost var slots := block.interfaceList[..];
    ghost var before := buffer[..];
    var pos: nat := 0;
    result, next, length := Eof, start, 0;
    var i := start;
    WroteNothing(before);
    if start > SLOTS { // the loop does not run
      BeyondTheTable(slots, start, buffer.Length);
      return;
    }
    PageStart(slots, start);
    while i < SLOTS
      invariant start <= i <= SLOTS && pos <= buffer.Length && slots == block.interfaceList[..]
      invariant result == (if Listing(slots, start, i) == [] then Eof else PageOk)
      invariant (Listing(slots, start, i) == []) == (Page(slots, start, i) == "")
      invariant pos == |Page(slots, start, i)|
      invariant Wrote(before, buffer[..], 0, Page(slots, start, i))
    {
      var slot := block.interfaceList[i];
      ListingStep(slots, start, i);
      if slot.descriptor.Some? {
        var d := slot.descriptor.value;
        var packageVersion, intfVersion := Decimal(d.packageVersion), Decimal(d.intfVersion);
        var size := |d.package| + |d.intf| + 6 + |packageVersion| + |intfVersion|;
        PieceSize(slot, pos == 0);
        if pos == 0 {
          if size > buffer.Length {
            TooSmall(slots, start, i, buffer.Length);
            return PageTooSmall, i, 0;
          }
        } else {
          size := size + 1;
          if size > buffer.Length - pos { break; }
        }
        ghost var middle := buffer[..];
        result := PageOk;
        pos := WritePiece(buffer, pos, slot, packageVersion, intfVersion);
        ghost var page := Page(slots, start, i);
        WroteTwice(before, middle, buffer[..], 0, page, |page|, Piece(page == "", slot));
      }
      i := i + 1;
    }
    if result == PageOk { next, length := i, pos; }
    WroteAtStart(before, buffer[..], Page(slots, start, i));
    Done(slots, start, i, result, buffer.Length);
  }

  lemma TooSmall(slots: seq<Slot>, start: nat, i: nat, size: nat)
    requires start <= i < |slots| && slots[i].descriptor.Some? && Listing(slots, start, i) == []
      && |Entry(slots[i])| > size
    ensures Reported(slots, start, i, "", PageTooSmall, size)
  {
  }

  lemma Done(slots: seq<Slot>, start: nat, i: nat, result: PageResult, size: nat)
    requires start <= i <= |slots| && |Page(slots, start, i)| <= size
    requires result == if Listing(slots, start, i) == [] then Eof else PageOk
    requires i < |slots| ==> result == PageOk && slots[i].descriptor.Some? && |Page(slots, start, i + 1)| > size
    ensures Reported(slots, start, if result == PageOk then i else start, Page(slots, start, i), result, size)
  {
  }

  lemma PieceSize(slot: Slot, first: bool)
    requires slot.descriptor.Some?
    ensures var d := slot.descriptor.value;
      var size := |d.package| + |d.intf| + 6 + |Decimal(d.packageVersion)| + |Decimal(d.intfVersion)|;
      |Entry(slot)| == size && |Piece(first, slot)| == if first then size else size + 1
  {
    hide Decimal;
  }

  lemma WroteNothing(before: seq<char>)
    ensures Wrote(before, before, 0, "")
  {
  }

  lemma WroteAtStart(before: seq<char>, after: seq<char>, text: string)
    requires Wrote(before, after, 0, text)
    ensures |text| <= |after| && after[..|text|] == text
  {
  }

  lemma BeyondTheTable(slots: seq<Slot>, start: nat, size: nat)
    requires start > |slots|
    ensures Reported(slots, start, start, "", Eof, size)
  {
  }

  /** The continuation token, byte by byte. */
  datatype Token = Token(queryType: nat, reserved: nat, count: nat)

  const QUERY_ALL := 0xFF

  /** The token as the caller's 32-bit number, its first byte the lowest. */
  function TokenWord(t: Token): nat { t.queryType + 0x100 * t.reserved + 0x1_0000 * t.count }

  method Query(block: Ipc.ControlBlock, query: string, buffer: array<char>, token: Token)
    returns (result: PageResult, length: nat, out: Token)
    requires block.Valid()
    modifies buffer
    ensures length <= buffer.Length && Wrote(old(buffer[..]), buffer[..], 0, buffer[..length])
    ensures query != "" ==> result == NotSupported && length == 0
    ensures query == "" ==> Reported(block.interfaceList[..], 0, out.count, buffer[..length], result, buffer.Length)
    ensures out == if result == PageOk then Token(0xFF, 0, out.count) else token
  {
    hide Listing, Page, Wrote, Reported;
    out, length := token, 0;
    if query == "" {
      var next;
      result, next, length := ReportInterfaces(block, 0, buffer);
      if result == PageOk {
        out := Token(QUERY_ALL, 0, next);
      } else {
        NextIsIrrelevant(block.interfaceList[..], 0, next, buffer[..length], result, buffer.Length, out.count);
      }
    } else {
      WroteNothing(buffer[..]);
      result := NotSupported;
    }
  }

  method QueryNext(block: Ipc.ControlBlock, token: Token, buffer: array<char>)
    returns (result: PageResult, length: nat, out: Token)
    requires block.Valid()
    modifies buffer
    ensures length <= buffer.Length && Wrote(old(buffer[..]), buffer[..], 0, buffer[..length])
    ensures token.queryType != QUERY_ALL ==> result == NotSupported && length == 0
    ensures token.queryType == QUERY_ALL ==>
      Reported(block.interfaceList[..], token.count, out.count, buffer[..length], result, buffer.Length)
    ensures out == if result == PageOk then token.(count := out.count) else token
  {
    hide Listing, Page, Wrote, Reported;
    out, length := token, 0;
    if token.queryType == QUERY_ALL {
      var next;
      result, next, length := ReportInterfaces(block, token.count, buffer);
      if result == PageOk {
        out := token.(count := next);
      } else {
        NextIsIrrelevant(block.interfaceList[..], token.count, next, buffer[..length], result, buffer.Length,
            out.count);
      }
    } else {
      WroteNothing(buffer[..]);
      result := NotSupported;
    }
  }

  lemma NextIsIrrelevant(slots: seq<Slot>, start: nat, next: nat, text: string, result: PageResult, size: nat,
                         other: nat)
    requires Reported(slots, start, next, text, result, size) && result != PageOk
    ensures Reported(slots, start, other, text, result, size)
  {
  }

  lemma {:induction false} PageGrows(slots: seq<Slot>, start: nat, i: nat, j: nat)
    requires start <= i <= j <= |slots|
    ensures |Page(slots, start, i)| <= |Page(slots, start, j)|
    decreases j
  {
    hide Page, Listing, Entry, Piece;
    if i < j {
      PageGrows(slots, start, i, j - 1);
      ListingStep(slots, start, j - 1);
    }
  }

  /** Before the call: the page reaches the end of the table if and only if all that is left fits the buffer. */
  lemma RestFits(slots: seq<Slot>, start: nat, next: nat, text: string, size: nat)
    requires Reported(slots, start, next, text, PageOk, size)
    ensures next == |slots| <==> |Page(slots, start, |slots|)| <= size
  {
    hide Page, Listing;
    if next < |slots| { PageGrows(slots, start, next + 1, |slots|); }
  }

  /** The token of a page is never 0, so it keeps the header's promise, 0 exactly when nothing is left, if and only
      if the buffer was too small for all that was left when the page was asked for. */
  lemma TokenPromise(slots: seq<Slot>, start: nat, next: nat, text: string, size: nat)
    requires Reported(slots, start, next, text, PageOk, size)
    ensures start <= next <= |slots| && (next < |slots| <==> |Page(slots, start, |slots|)| > size)
    ensures (TokenWord(Token(QUERY_ALL, 0, next)) == 0 <==> Listing(slots, next, |slots|) == [])
       <==> |Page(slots, start, |slots|)| > size
  {
    hide Page, Listing;
    RestFits(slots, start, next, text, size);
    if next < |slots| {
      PublishedIsListed(slots, next, next);
    } else {
      PageStart(slots, next);
    }
  }

  lemma PublishedIsListed(slots: seq<Slot>, start: nat, i: nat)
    requires start <= i < |slots| && slots[i].descriptor.Some?
    ensures Listing(slots, start, |slots|) != []
  {
    hide Entry;
    ListingSplits(slots, start, i + 1, |slots|);
  }

  /** The call after a page is an EOF exactly when the page's buffer had room for all that was left, which is when the
      token's count has reached the size of the table. */
  lemma NextCallEnds(slots: seq<Slot>, start: nat, next: nat, text: string, size: nat,
                     after: nat, text2: string, result: PageResult, size2: nat)
    requires Reported(slots, start, next, text, PageOk, size) && Reported(slots, next, after, text2, result, size2)
    ensures start <= |slots| && (result == Eof <==> |Page(slots, start, |slots|)| <= size)
    ensures result == Eof <==> next == |slots|
  {
    TokenPromise(slots, start, next, text, size);
    hide Page, Entry;
    if result == PageOk {
      ListingSplits(slots, next, after, |slots|);
    } else if result == PageTooSmall {
      var i :| next <= i < |slots| && slots[i].descriptor.Some? && Listing(slots, next, i) == [];
      PublishedIsListed(slots, next, i);
    }
  }

  /** A table with a single interface: its only page fits, the token is not 0, and the next call is an EOF. */
  lemma LastTokenExample(d: Descriptor) returns (slots: seq<Slot>, token: Token)
    ensures slots == Initial(map[]).slots[0 := Slot(Some(d), 1, true, false, 1)]
    ensures token == Token(0xFF, 0, 10) && TokenWord(token) == 0x000A_00FF
    ensures var entry := Entry(slots[0]);
      && Reported(slots, 0, token.count, entry, PageOk, |entry|)
      && forall size :: Reported(slots, token.count, SLOTS, "", Eof, size)
  {
    hide Entry;
    slots := Initial(map[]).slots[0 := Slot(Some(d), 1, true, false, 1)];
    token := Token(QUERY_ALL, 0, SLOTS);
    NothingElse(slots, SLOTS);
  }

  lemma {:induction false} NothingElse(slots: seq<Slot>, i: nat)
    requires 1 <= i <= |slots| && slots[0].descriptor.Some? && forall j :: 0 < j < |slots| ==> slots[j].descriptor.None?
    ensures Listing(slots, 0, i) == [Entry(slots[0])]
    decreases i
  {
    hide Entry;
    if i > 1 { NothingElse(slots, i - 1); }
  }

  // Paging to the end.

  /** The slots at which the pages start, and the last one's end. */
  predicate Cuts(starts: seq<nat>, n: nat) {
    && starts != [] && starts[0] == 0
    && (forall k :: 0 <= k < |starts| ==> starts[k] <= n)
    && forall k :: 0 < k < |starts| ==> starts[k - 1] < starts[k]
  }

  /** Page k is the text of the slots between two cuts. */
  predicate Pages(slots: seq<Slot>, pages: seq<string>, starts: seq<nat>)
    requires Cuts(starts, |slots|) && |pages| + 1 == |starts|
  {
    forall k :: 0 <= k < |pages| ==> pages[k] == Page(slots, starts[k], starts[k + 1])
  }

  ghost predicate EveryEntryFits(slots: seq<Slot>, sizes: nat -> nat) {
    forall i, k :: 0 <= i < |slots| && slots[i].descriptor.Some? ==> |Entry(slots[i])| <= sizes(k)
  }

  lemma {:induction false} CutsAreFew(starts: seq<nat>, n: nat)
    requires Cuts(starts, n)
    ensures |starts| <= n + 1 && starts[|starts| - 1] >= |starts| - 1
  {
    if |starts| > 1 {
      CutsAreFew(starts[..|starts| - 1], n);
      assert starts[|starts| - 1 - 1] < starts[|starts| - 1];
    }
  }

  /** query, then query_next until EOF, with a buffer of size sizes(k) for call k. */
  method ListAll(block: Ipc.ControlBlock, sizes: nat -> nat) returns (pages: seq<string>, starts: seq<nat>)
    requires block.Valid() && EveryEntryFits(block.interfaceList[..], sizes)
    ensures |pages| + 1 == |starts| && |pages| <= SLOTS && Cuts(starts, SLOTS)
    ensures Pages(block.interfaceList[..], pages, starts)
    ensures forall k :: 0 <= k < |pages| ==> |pages[k]| <= sizes(k)
    ensures Listing(block.interfaceList[..], starts[|starts| - 1], SLOTS) == []
  {
    hide Listing, Page, Wrote, Reported, EveryEntryFits;
    pages, starts := [], [0];
    ghost var slots := block.interfaceList[..];
    var buffer := new char[sizes(0)](_ => ' ');
    var result, length, token := Query(block, "", buffer, Token(0, 0, 0));
    NeverTooSmall(slots, 0, token.count, buffer[..length], result, sizes, 0);
    while result == PageOk
      invariant slots == block.interfaceList[..] && fresh(buffer) && length <= buffer.Length
      invariant |pages| + 1 == |starts| && Cuts(starts, SLOTS) && Pages(slots, pages, starts)
      invariant forall k :: 0 <= k < |pages| ==> |pages[k]| <= sizes(k)
      invariant token.queryType == QUERY_ALL || result != PageOk
      invariant buffer.Length == sizes(|pages|) && result != PageTooSmall && result != NotSupported
      invariant Reported(slots, starts[|starts| - 1], token.count, buffer[..length], result, buffer.Length)
      decreases SLOTS - starts[|starts| - 1], if result == PageOk then 1 else 0
    {
      PageAdvances(slots, starts[|starts| - 1], token.count, buffer[..length], result, buffer.Length);
      pages, starts := pages + [buffer[..length]], starts + [token.count];
      buffer := new char[sizes(|pages|)](_ => ' ');
      result, length, token := QueryNext(block, token, buffer);
      NeverTooSmall(slots, starts[|starts| - 1], token.count, buffer[..length], result, sizes, |pages|);
    }
    AtEnd(slots, starts[|starts| - 1], token.count, buffer[..length], buffer.Length);
    CutsAreFew(starts, SLOTS);
  }

  lemma NeverTooSmall(slots: seq<Slot>, start: nat, next: nat, text: string, result: PageResult, sizes: nat -> nat,
                      k: nat)
    requires Reported(slots, start, next, text, result, sizes(k)) && EveryEntryFits(slots, sizes)
    ensures result == PageOk || result == Eof
  {
    hide Entry, Listing;
  }

  lemma PageAdvances(slots: seq<Slot>, start: nat, next: nat, text: string, result: PageResult, size: nat)
    requires Reported(slots, start, next, text, result, size) && result == PageOk
    ensures start < next <= |slots| && text == Page(slots, start, next) && |text| <= size
  {
  }

  lemma AtEnd(slots: seq<Slot>, start: nat, next: nat, text: string, size: nat)
    requires Reported(slots, start, next, text, Eof, size) && start <= |slots|
    ensures Listing(slots, start, |slots|) == []
  {
  }

  // Taking a page apart.

  /** What the marshalling loop takes out of an entry: everything between the quotes. */
  function Inner(e: string): string
    requires |e| >= 2
  {
    e[1..|e| - 1]
  }

  function Inners(entries: seq<string>): (names: seq<string>)
    requires forall e :: e in entries ==> |e| >= 2
    ensures |names| == |entries| && forall k :: 0 <= k < |entries| ==> names[k] == Inner(entries[k])
  {
    seq(|entries|, k requires 0 <= k < |entries| => Inner(entries[k]))
  }

  /** The published slots' names as the JSON writer gets them: the default mark and the full name. */
  function MarkedName(slot: Slot): string
    requires slot.descriptor.Some?
  {
    var d := slot.descriptor.value;
    Mark(slot) + ListedName(d.package, d.packageVersion, d.intf, d.intfVersion)
  }

  function MarkedNames(slots: seq<Slot>, n: nat): seq<string>
    requires n <= |slots|
  {
    if n == 0 then []
    else MarkedNames(slots, n - 1) + if slots[n - 1].descriptor.Some? then [MarkedName(slots[n - 1])] else []
  }

  lemma {:induction false} InnersAreNames(slots: seq<Slot>, n: nat)
    requires n <= |slots|
    ensures Inners(Listing(slots, 0, n)) == MarkedNames(slots, n)
  {
    hide Entry, Inner, MarkedName;
    if n == 0 {
      InnersOfNothing();
    } else {
      InnersAreNames(slots, n - 1);
      if slots[n - 1].descriptor.Some? {
        var e := Entry(slots[n - 1]);
        EntryInner(slots[n - 1]);
        InnersConcat(Listing(slots, 0, n - 1), [e]);
        assert Inners([e]) == [Inner(e)];
      }
    }
  }

  lemma EntryInner(slot: Slot)
    requires slot.descriptor.Some?
    ensures Inner(Entry(slot)) == MarkedName(slot)
  {
    hide Entry, ListedName;
    EntryIsQuotedName(slot);
  }

  /** Behind the mark, the parser of method names finds the parts of the descriptor. */
  lemma MarkedNameSplits(slot: Slot)
    requires slot.descriptor.Some? && slot.descriptor.value.packageVersion < UINT32
    requires slot.descriptor.value.intfVersion < UINT32
    requires var d := slot.descriptor.value;
      NameOk(d.package) && NameOk(d.intf) && Without(d.package, '@') && Without(d.intf, '@')
    ensures var d := slot.descriptor.value;
      && MarkedName(slot)[0] == (if slot.isDefault then '*' else ' ')
      && SplitMethodName(MarkedName(slot)[1..])
          == Parts(Method("", d.package, d.packageVersion, d.intf, d.intfVersion, ""))
  {
    hide SplitMethodName, ListedName;
    var d := slot.descriptor.value;
    SplitInvertsNames(d.package, d.packageVersion, d.intf, d.intfVersion);
    assert MarkedName(slot)[1..] == ListedName(d.package, d.packageVersion, d.intf, d.intfVersion);
  }

  predicate CommaFree(entries: seq<string>) { forall e :: e in entries ==> Without(e, ',') }

  /** Entries as the listing writes them, without a comma of their own. */
  ghost predicate Splittable(entries: seq<string>) { CommaFree(entries) && forall e :: e in entries ==> |e| >= 2 }

  /** What the loop has to add to the names found so far. */
  ghost predicate Missing(names: seq<string>, rest: seq<string>, entries: seq<string>)
    requires Splittable(rest) && Splittable(entries)
  {
    names + Inners(rest) == Inners(entries)
  }

  /** One turn of the loop: the name up to the end of the first entry. */
  method TakeName(names: seq<string>, text: string, end: nat, ghost rest: seq<string>, ghost entries: seq<string>)
    returns (more: seq<string>)
    requires Splittable(rest) && rest != [] && Splittable(entries) && Missing(names, rest, entries)
    requires 2 <= end <= |text| && text[..end] == rest[0]
    ensures Splittable(rest[1..]) && Missing(more, rest[1..], entries)
  {
    hide CommaFree, Inners, Inner;
    InnersFront(rest);
    SliceIsInner(text, end, rest[0]);
    Move(names, text[1..end - 1], Inners(rest[1..]), Inners(entries));
    more := names + [text[1..end - 1]];
  }

  /** The loop of marshalling_model_out_to_json that hands the names to the JSON writer. */
  method SplitEntries(text: string, ghost entries: seq<string>) returns (names: seq<string>)
    requires text == Join(entries) && CommaFree(entries) && forall e :: e in entries ==> |e| >= 2
    ensures names == Inners(entries)
  {
    hide IndexOf, Join, Inners, CommaFree, Missing;
    names := [];
    var remaining := text;
    ghost var rest := entries;
    NothingTaken(entries);
    FirstComma(rest);
    var comma := IndexOf(remaining, ',');
    while comma != -1
      invariant Splittable(rest) && Missing(names, rest, entries)
      invariant remaining == Join(rest) && comma == IndexOf(remaining, ',')
      decreases |rest|
    {
      FirstComma(rest);
      names := TakeName(names, remaining, comma, rest, entries);
      remaining := remaining[comma + 1..];
      rest := rest[1..];
      comma := IndexOf(remaining, ',');
    }
    FirstComma(rest);
    if |remaining| > 0 {
      assert remaining[..|remaining|] == remaining;
      names := TakeName(names, remaining, |remaining|, rest, entries);
      rest := rest[1..];
    }
    assert rest == [];
    NothingMissing(names, entries);
  }

  lemma NothingTaken(entries: seq<string>)
    requires Splittable(entries)
    ensures Missing([], entries, entries)
  {
  }

  lemma NothingMissing(names: seq<string>, entries: seq<string>)
    requires Splittable(entries) && Splittable([]) && Missing(names, [], entries)
    ensures names == Inners(entries)
  {
  }

  lemma InnersFront(entries: seq<string>)
    requires entries != [] && CommaFree(entries) && forall e :: e in entries ==> |e| >= 2
    ensures CommaFree(entries[1..]) && forall e :: e in entries[1..] ==> |e| >= 2
    ensures Inners(entries) == [Inner(entries[0])] + Inners(entries[1..])
  {
  }

  lemma SliceIsInner(text: string, comma: nat, e: string)
    requires 2 <= comma <= |text| && text[..comma] == e
    ensures text[1..comma - 1] == Inner(e)
  {
    assert text[1..comma - 1] == text[..comma][1..comma - 1];
  }

  lemma Move(names: seq<string>, name: string, rest: seq<string>, all: seq<string>)
    requires names + ([name] + rest) == all
    ensures names + [name] + rest == all
  {
    assert names + [name] + rest == names + ([name] + rest);
  }

  /** The first comma of a joined text ends its first entry. */
  lemma FirstComma(entries: seq<string>)
    requires CommaFree(entries) && forall e :: e in entries ==> |e| >= 2
    ensures var text := Join(entries);
      && (IndexOf(text, ',') == -1 <==> |entries| <= 1)
      && (|entries| == 1 ==> text == entries[0])
      && (entries == [] ==> text == "")
      && (|entries| > 1 ==>
           var comma := IndexOf(text, ',');
           2 <= comma < |text| && text[..comma] == entries[0] && text[comma + 1..] == Join(entries[1..]))
  {
    hide IndexOf;
    if entries != [] { assert entries[0] in entries; }
    if |entries| > 1 {
      JoinFront(entries);
      hide Join;
      IndexAfter(entries[0], ',', Join(entries[1..]));
    }
  }

  /** The names of the whole table, page by page: each published slot once, in slot order. */
  method ListNames(block: Ipc.ControlBlock, sizes: nat -> nat) returns (names: seq<string>)
    requires block.Valid() && EveryEntryFits(block.interfaceList[..], sizes)
    requires CommaFree(Listing(block.interfaceList[..], 0, SLOTS))
    ensures names == MarkedNames(block.interfaceList[..], SLOTS)
  {
    hide Listing, EveryEntryFits, Inners, CommaFree, Join, MarkedNames;
    ghost var slots := block.interfaceList[..];
    var pages, starts := ListAll(block, sizes);
    names := [];
    PageStart(slots, 0);
    var k := 0;
    assert names == Inners(Listing(slots, 0, starts[0])) by { InnersOfNothing(); }
    while k < |pages|
      invariant 0 <= k <= |pages|
      invariant names == Inners(Listing(slots, 0, starts[k]))
    {
      assert starts[k] < starts[k + 1];
      ListingSplits(slots, 0, starts[k], starts[k + 1]);
      ListingSplits(slots, 0, starts[k + 1], SLOTS);
      PartsAreCommaFree(Listing(slots, 0, starts[k]), Listing(slots, starts[k], starts[k + 1]),
                        Listing(slots, starts[k + 1], SLOTS));
      var more := SplitEntries(pages[k], Listing(slots, starts[k], starts[k + 1]));
      InnersConcat(Listing(slots, 0, starts[k]), Listing(slots, starts[k], starts[k + 1]));
      names := names + more;
      k := k + 1;
    }
    ListingSplits(slots, 0, starts[k], SLOTS);
    InnersAreNames(slots, SLOTS);
  }

  lemma InnersOfNothing()
    ensures Inners([]) == []
  {
  }

  lemma InnersConcat(a: seq<string>, b: seq<string>)
    requires forall e :: e in a + b ==> |e| >= 2
    ensures (forall e :: e in a ==> |e| >= 2) && (forall e :: e in b ==> |e| >= 2)
    ensures Inners(a + b) == Inners(a) + Inners(b)
  {
    assert forall e :: e in a ==> e in a + b;
    assert forall e :: e in b ==> e in a + b;
  }

  lemma PartsAreCommaFree(a: seq<string>, b: seq<string>, c: seq<string>)
    requires CommaFree(a + b + c)
    ensures CommaFree(b)
  {
    assert forall e :: e in b ==> e in a + b + c;
  }
}
