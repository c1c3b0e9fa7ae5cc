/** The resumable JSON reader over a list of buffers.

    `base` and `items` are ghost: the absolute offset of the current buffer and the stack the
    64-bit word stands for.  `Position()` is an index into the concatenation of all buffers, so a
    contract that speaks of `Position()` and `text` says nothing about where the buffers are cut.
    Two repeated passages of the C code are written once: AtByte is the "if this segment is used
    up, get the next buffer" step, and FinishIfDelimited the end-of-number test. */
module JsonReader {
  import opened Common
  import opened JsonScan
  import opened BitStack

  /** The first k buffers put together. */
  function Prefix(buffers: seq<string>, k: nat): string
    requires k <= |buffers|
  {
    if k == 0 then "" else Prefix(buffers, k - 1) + buffers[k - 1]
  }

  function Flatten(buffers: seq<string>): string { Prefix(buffers, |buffers|) }

  function Offset(buffers: seq<string>, k: nat): nat
    requires k <= |buffers|
  {
    |Prefix(buffers, k)|
  }

  ghost predicate NoneEmpty(buffers: seq<string>) {
    buffers != [] && forall k :: 0 <= k < |buffers| ==> buffers[k] != ""
  }

  lemma {:induction false} PrefixOf(buffers: seq<string>, k: nat, m: nat)
    requires k <= m <= |buffers|
    ensures Prefix(buffers, k) <= Prefix(buffers, m)
    decreases m
  {
    if k < m { PrefixOf(buffers, k, m - 1); }
  }

  /** Buffer k is a window of the text; only the last buffer reaches the end of the text. */
  lemma Window(buffers: seq<string>, k: nat)
    requires NoneEmpty(buffers) && k < |buffers|
    ensures Offset(buffers, k) + |buffers[k]| == Offset(buffers, k + 1) <= |Flatten(buffers)|
    ensures forall i :: 0 <= i < |buffers[k]| ==> Flatten(buffers)[Offset(buffers, k) + i] == buffers[k][i]
    ensures k + 1 == |buffers| <==> Offset(buffers, k + 1) == |Flatten(buffers)|
  {
    PrefixOf(buffers, k + 1, |buffers|);
    if k + 1 < |buffers| { PrefixOf(buffers, k + 2, |buffers|); }
  }

  function Starts(buffers: seq<string>): (starts: seq<nat>)
    ensures |starts| == |buffers| + 1 && forall k :: 0 <= k <= |buffers| ==> starts[k] == Offset(buffers, k)
  {
    seq(|buffers| + 1, k requires 0 <= k <= |buffers| => Offset(buffers, k))
  }

  /** Buffer k is the window of the text that starts at starts[k]. */
  ghost predicate WindowOf(buffers: seq<string>, text: string, starts: seq<nat>, k: nat)
    requires k < |buffers| && |starts| == |buffers| + 1
  {
    && buffers[k] != ""
    && starts[k] + |buffers[k]| == starts[k + 1] <= |text|
    && (k + 1 == |buffers| <==> starts[k + 1] == |text|)
    && forall i :: 0 <= i < |buffers[k]| ==> text[starts[k] + i] == buffers[k][i]
  }

  lemma FlattenIsLaidOut(buffers: seq<string>)
    requires NoneEmpty(buffers)
    ensures forall k :: 0 <= k < |buffers| ==> WindowOf(buffers, Flatten(buffers), Starts(buffers), k)
  {
    hide Flatten, Offset;
    forall k | 0 <= k < |buffers| ensures WindowOf(buffers, Flatten(buffers), Starts(buffers), k) {
      Window(buffers, k);
    }
  }

  lemma StartsAtZero(buffers: seq<string>)
    requires buffers != []
    ensures Starts(buffers)[0] == 0
  {
  }

  lemma WindowSlice(text: string, base: nat, buffer: string, i: nat, j: nat)
    requires base + |buffer| <= |text| && i <= j <= |buffer|
    requires forall k :: 0 <= k < |buffer| ==> text[base + k] == buffer[k]
    ensures text[base + i..base + j] == buffer[i..j]
  {
    forall k | 0 <= k < j - i ensures text[base + i..base + j][k] == buffer[i..j][k] {
      assert buffer[i..j][k] == buffer[i + k];
    }
  }

  lemma JoinSlices(s: string, i: nat, j: nat, k: nat)
    requires i <= j <= k <= |s|
    ensures s[i..j] + s[j..k] == s[i..k]
  {
  }

  lemma DropTake(s: string, i: nat, n: nat)
    requires i + n <= |s|
    ensures s[i..][..n] == s[i..i + n]
  {
  }

  lemma {:induction false} SkipWhitespaceFrom(t: string, i: nat, k: nat)
    requires i <= k <= |t| && forall m :: i <= m < k ==> IsWhitespace(t[m])
    ensures SkipWhitespace(t, i) == SkipWhitespace(t, k)
    decreases k - i
  {
    if i < k { SkipWhitespaceFrom(t, i + 1, k); }
  }

  lemma {:induction false} SkipDigitsFrom(t: string, i: nat, k: nat)
    requires i <= k <= |t| && forall m :: i <= m < k ==> IsDigit(t[m])
    ensures SkipDigits(t, i) == SkipDigits(t, k)
    decreases k - i
  {
    if i < k { SkipDigitsFrom(t, i + 1, k); }
  }

  /** Comparing k characters at once is k single steps of the literal scan. */
  lemma {:induction false} LiteralStep(t: string, i: nat, literal: string, k: nat)
    requires k <= |literal| && i + k <= |t|
    ensures t[i..i + k] == literal[..k] ==> ScanLiteral(t, i, literal) == ScanLiteral(t, i + k, literal[k..])
    ensures t[i..i + k] != literal[..k] ==> ScanLiteral(t, i, literal) == Fail(UnexpectedChar)
    decreases k
  {
    if k == 0 {
      assert literal[0..] == literal;
    } else {
      LiteralStep(t, i + 1, literal[1..], k - 1);
      assert t[i..i + k] == [t[i]] + t[i + 1..i + k];
      assert literal[..k] == [literal[0]] + literal[1..][..k - 1];
      assert literal[1..][k - 1..] == literal[k..];
    }
  }

  /** One segment more of a literal of which m characters already matched at p. */
  lemma LiteralSegment(t: string, p: nat, literal: string, m: nat, segment: string)
    requires p + m + |segment| <= |t| && m + |segment| <= |literal|
    requires t[p..p + m] == literal[..m] && segment == t[p + m..p + m + |segment|]
    ensures var n := m + |segment|;
      if segment != literal[m..n] then ScanLiteral(t, p, literal) == Fail(UnexpectedChar)
      else
        && t[p..p + n] == literal[..n]
        && (n == |literal| ==> ScanLiteral(t, p, literal) == Upto(p + n))
        && (n < |literal| && p + n == |t| ==> ScanLiteral(t, p, literal) == Fail(UnexpectedEnd))
  {
    var n := m + |segment|;
    assert t[p..p + n] == t[p..p + m] + segment;
    assert literal[..n] == literal[..m] + literal[m..n];
    LiteralStep(t, p, literal, n);
  }

  /** One character of a string, or one escape. */
  lemma StringStep(t: string, i: nat)
    requires i < |t|
    ensures t[i] == '"' ==> ScanString(t, i) == Upto(i)
    ensures t[i] == '\\' ==>
      ScanString(t, i) == if ScanEscape(t, i + 1).Fail? then ScanEscape(t, i + 1)
          else ScanString(t, ScanEscape(t, i + 1).end)
    ensures t[i] != '"' && t[i] != '\\' ==>
      ScanString(t, i) == if t[i] < ' ' then Fail(UnexpectedChar) else ScanString(t, i + 1)
  {
    hide ScanEscape;
  }

  /** What is read at i does not depend on the position the state remembers. */
  lemma ReadFromAnywhere(t: string, i: nat, s: State, p: nat)
    requires i < |t|
    ensures ReadValue(t, i, s) == ReadValue(t, i, s.(pos := p)) && ReadName(t, i, s) == ReadName(t, i, s.(pos := p))
  {
    hide ScanString, ScanNumber, ScanLiteral;
  }

  class Reader {
    // The token.
    var kind: Kind
    var slice: string
    var size: nat
    var isMultisegment: bool
    var startIndex: int
    var startOffset: int
    var endIndex: int
    var endOffset: int

    // The position and the nesting.
    const buffers: seq<string>
    var jsonBuffer: string
    var bufferIndex: nat
    var bytesConsumed: nat
    var isComplex: bool
    const stack: JsonBitStack

    ghost const text: string
    ghost const starts: seq<nat>
    ghost var base: nat
    ghost var items: seq<Container>

    constructor (buffers: seq<string>)
      requires NoneEmpty(buffers)
      ensures this.buffers == buffers && text == Flatten(buffers)
      ensures starts == Starts(buffers)
      ensures fresh(stack) && Valid() && Abstract() == START
    {
      kind, slice, size, isMultisegment := NoToken, "", 0, false;
      startIndex, startOffset, endIndex, endOffset := -1, -1, -1, -1;
      this.buffers := buffers;
      jsonBuffer, bufferIndex, bytesConsumed, isComplex := buffers[0], 0, 0, false;
      stack := new JsonBitStack();
      text, base, items := Flatten(buffers), 0, [];
      starts := Starts(buffers);
      new;
      hide Flatten, Starts, NoneEmpty, LaidOut, InSync;
      assert LaidOut() by { FlattenIsLaidOut(buffers); }
      assert starts[0] == 0 by { StartsAtZero(buffers); }
      FirstWindow();
    }

    lemma FirstWindow()
      requires LaidOut() && buffers != [] && starts[0] == 0
      requires bufferIndex == 0 && base == 0 && bytesConsumed == 0 && jsonBuffer == buffers[0]
      ensures InSync()
    {
      assert WindowAt(0);
    }

    ghost predicate WindowAt(k: nat)
      requires k < |buffers| && |starts| == |buffers| + 1
    {
      WindowOf(buffers, text, starts, k)
    }

    ghost predicate LaidOut() {
      |starts| == |buffers| + 1 && forall k :: 0 <= k < |buffers| ==> WindowOf(buffers, text, starts, k)
    }

    ghost predicate InSync()
      reads this
    {
      && LaidOut()
      && bufferIndex < |buffers| && jsonBuffer == buffers[bufferIndex]
      && base == starts[bufferIndex] && base + |jsonBuffer| <= |text|
      && (forall i :: 0 <= i < |jsonBuffer| ==> text[base + i] == jsonBuffer[i])
      && (bufferIndex + 1 == |buffers| <==> base + |jsonBuffer| == |text|)
      && bytesConsumed <= |jsonBuffer|
    }

    ghost function Position(): nat
      reads this
    {
      base + bytesConsumed
    }

    ghost function Abstract(): State
      reads this
    {
      State(Position(), kind, items, isComplex)
    }

    ghost predicate Valid()
      reads this, stack
    {
      InSync() && stack.Represents(items) && WellFormed(text, Abstract())
    }

    function Remaining(): string
      requires bytesConsumed <= |jsonBuffer|
      reads this
    {
      jsonBuffer[bytesConsumed..]
    }

    /** The token being read began at absolute position p: still in this buffer, or in an earlier
        one that the start index and offset remember. */
    ghost predicate Began(p: nat)
      reads this
    {
      || (startIndex == -1 && Position() == p)
      || (&& 0 <= startIndex < bufferIndex < |buffers| && bytesConsumed == 0
          && 0 <= startOffset <= |buffers[startIndex]|
          && |starts| == |buffers| + 1 && starts[startIndex] + startOffset == p <= base)
    }

    /** The token fields carry `token`, whose text is rebuilt from the indices if it straddles. */
    ghost predicate Holds(token: Token)
      reads this
    {
      && kind == token.kind
      && size == |token.text|
      && if isMultisegment then Straddles() && StraddlingText() == token.text else slice == token.text
    }

    ghost predicate Straddles()
      reads this
    {
      && 0 <= startIndex < endIndex < |buffers|
      && 0 <= startOffset <= |buffers[startIndex]| && 0 <= endOffset <= |buffers[endIndex]|
      && |starts| == |buffers| + 1
      && starts[startIndex] + startOffset <= starts[endIndex] + endOffset <= |text|
    }

    ghost function StraddlingText(): string
      requires Straddles()
      reads this
    {
      text[starts[startIndex] + startOffset..starts[endIndex] + endOffset]
    }

    method GetNextBuffer(skipWhitespace: bool) returns (r: Result, remaining: string)
      requires InSync()
      modifies this`bufferIndex, this`jsonBuffer, this`bytesConsumed, this`base, this`startIndex, this`startOffset
      ensures InSync()
      ensures old(bufferIndex) + 1 == |buffers| ==> r == UnexpectedEnd && unchanged(this)
      ensures old(bufferIndex) + 1 < |buffers| ==>
        && r == Ok && bufferIndex == old(bufferIndex) + 1 && bytesConsumed == 0
        && base == old(base + |jsonBuffer|) && remaining == jsonBuffer != ""
        && if !skipWhitespace && old(startIndex) == -1
           then startIndex == old(bufferIndex) && startOffset == old(bytesConsumed)
           else startIndex == old(startIndex) && startOffset == old(startOffset)
    {
      remaining := "";
      if bufferIndex >= |buffers| - 1 {
        return UnexpectedEnd, remaining;
      }
      if !skipWhitespace && startIndex == -1 {
        startIndex := bufferIndex;
        startOffset := bytesConsumed;
      }
      assert WindowAt(bufferIndex) && WindowAt(bufferIndex + 1);
      base := base + |jsonBuffer|;
      bufferIndex := bufferIndex + 1;
      jsonBuffer := buffers[bufferIndex];
      bytesConsumed := 0;
      remaining := Remaining();
      r := Ok;
    }

    /** Blanks at the head of what is left of the buffer are blanks of the text. */
    lemma BlankHead(n: nat)
      requires InSync() && n <= |Remaining()| && forall k :: 0 <= k < n ==> IsWhitespace(Remaining()[k])
      ensures forall m :: Position() <= m < Position() + n ==> IsWhitespace(text[m])
    {
      hide LaidOut, IsWhitespace;
      forall m | Position() <= m < Position() + n ensures IsWhitespace(text[m]) {
        assert text[m] == Remaining()[m - Position()];
      }
    }

    method SkipBlank() returns (json: string)
      requires InSync()
      modifies this`bufferIndex, this`jsonBuffer, this`bytesConsumed, this`base, this`startIndex, this`startOffset
      ensures InSync() && Position() == SkipWhitespace(text, old(Position()))
      ensures json == Remaining() && (json == "" <==> Position() == |text|)
      ensures startIndex == old(startIndex) && startOffset == old(startOffset)
    {
      hide LaidOut, SkipWhitespace;
      var remaining := Remaining();
      while true
        invariant InSync() && remaining == Remaining()
        invariant old(Position()) <= Position()
        invariant forall m :: old(Position()) <= m < Position() ==> IsWhitespace(text[m])
        invariant startIndex == old(startIndex) && startOffset == old(startOffset)
        decreases |buffers| - bufferIndex
      {
        var consumed := SkipWhitespace(remaining, 0);
        json := remaining[consumed..];
        BlankHead(consumed);
        bytesConsumed := bytesConsumed + consumed;
        if |json| >= 1 {
          break;
        }
        var r;
        r, remaining := GetNextBuffer(true);
        if r != Ok {
          break;
        }
      }
      SkipWhitespaceFrom(text, old(Position()), Position());
      assert json != "" ==> json[0] == text[Position()];
    }

    /** What is left of the buffer is the text from here on. */
    lemma HeadIsText(n: nat)
      requires InSync() && bytesConsumed + n <= |jsonBuffer|
      ensures Position() + n <= |text| && Remaining()[..n] == text[Position()..Position() + n]
    {
      hide LaidOut;
      DropTake(jsonBuffer, bytesConsumed, n);
      WindowSlice(text, base, jsonBuffer, bytesConsumed, bytesConsumed + n);
    }

    method UpdateState(tokenKind: Kind, tokenSlice: string, segmentConsumed: nat, consumed: nat, ghost p: nat)
      requires InSync() && Began(p)
      requires bytesConsumed + segmentConsumed <= |jsonBuffer| && tokenSlice == Remaining()[..segmentConsumed]
      requires p + consumed == Position() + segmentConsumed
      modifies this`kind, this`size, this`bytesConsumed, this`endIndex, this`endOffset, this`isMultisegment, this`slice
      ensures InSync() && kind == tokenKind && size == consumed
      ensures Position() == old(Position()) + segmentConsumed
      ensures Holds(Token(tokenKind, text[p..Position()]))
    {
      hide LaidOut;
      HeadIsText(segmentConsumed);
      kind := tokenKind;
      size := consumed;
      bytesConsumed := bytesConsumed + segmentConsumed;
      endIndex := bufferIndex;
      endOffset := bytesConsumed;
      isMultisegment := false;
      if startIndex != -1 && startIndex < endIndex {
        isMultisegment := true;
      }
      slice := tokenSlice;
    }

    method ProcessContainerEnd(tokenKind: Kind) returns (r: Result)
      requires Valid() && bytesConsumed < |jsonBuffer| && items != [] && startIndex == -1
      requires tokenKind == EndObject || tokenKind == EndArray
      modifies this, stack
      ensures var container := if tokenKind == EndObject then Object else Array;
        Carries(r, ReadEnd(text, old(Position()), old(Abstract()), tokenKind, container))
    {
      hide LaidOut, Word;
      var top := stack.Peek(items);
      if (tokenKind == EndObject && top != Object) || (tokenKind == EndArray && top != Array) {
        return UnexpectedChar;
      }
      var token := Remaining();
      ghost var p := Position();
      var _ := stack.Pop(items);
      items := items[1..];
      UpdateState(tokenKind, token[..1], 1, 1, p);
      assert text[p..p + 1] == [text[p]];
      r := Ok;
    }

    method ProcessContainerStart(tokenKind: Kind, container: Container) returns (r: Result)
      requires Valid() && bytesConsumed < |jsonBuffer| && startIndex == -1 && isComplex
      requires kind != NoToken
      requires tokenKind == if container == Object then BeginObject else BeginArray
      modifies this, stack
      ensures Carries(r, ReadBegin(text, old(Position()), old(Abstract()), tokenKind, container))
    {
      if stack.currentDepth >= MAX_DEPTH {
        return NestingOverflow;
      }
      hide LaidOut;
      var token := Remaining();
      ghost var p := Position();
      stack.Push(container, items);
      items := [container] + items;
      UpdateState(tokenKind, token[..1], 1, 1, p);
      assert text[p..p + 1] == [text[p]];
      r := Ok;
    }

    /** The contract of every reading method: the fields carry out one step of the flat reader. */
    ghost predicate Carries(r: Result, step: Step)
      reads this, stack
    {
      match step
      case Emit(token, next) => r == Ok && Valid() && Abstract() == next && Holds(token)
      case Stop(e) => r == e
    }

    /** Make sure the segment has a byte at `index`, moving to the next buffer if it is used up. */
    method AtByte(token: string, index: nat, ghost p: nat) returns (r: Result, token': string, index': nat)
      requires InSync() && Began(p) && token == Remaining() && index <= |token|
      modifies this`bufferIndex, this`jsonBuffer, this`bytesConsumed, this`base, this`startIndex, this`startOffset
      ensures InSync() && Began(p) && token' == Remaining() && index' <= |token'|
      ensures Position() + index' == old(Position()) + index
      ensures r == if Position() + index' == |text| then UnexpectedEnd else Ok
      ensures r == Ok ==> index' < |token'| && token'[index'] == text[Position() + index']
    {
      r, token', index' := Ok, token, index;
      if index >= |token| {
        r, token' := GetNextBuffer(false);
        if r != Ok {
          token' := token;
          return;
        }
        index' := 0;
      }
    }

    /** The four hexadecimal digits after `\\u`, which may straddle buffers. */
    method ProcessHexDigits(token: string, current: nat, length: nat, ghost p: nat)
      returns (r: Result, token': string, current': nat, length': nat)
      requires InSync() && Began(p) && token == Remaining() && current <= |token|
      modifies this`bufferIndex, this`jsonBuffer, this`bytesConsumed, this`base, this`startIndex, this`startOffset
      ensures match ScanHex(text, old(Position()) + current, 4)
              case Fail(e) => r == e
              case Upto(end) =>
                && r == Ok && InSync() && Began(p) && token' == Remaining() && 0 < current' <= |token'|
                && Position() + current' == end && length' == length + 4
    {
      token', current', length' := token, current, length;
      var i := 0;
      while i < 4
        invariant 0 <= i <= 4
        invariant InSync() && Began(p) && token' == Remaining() && current' <= |token'|
        invariant Position() + current' == old(Position()) + current + i && length' == length + i
        invariant ScanHex(text, old(Position()) + current, 4) == ScanHex(text, Position() + current', 4 - i)
        invariant i > 0 ==> current' > 0
      {
        r, token', current' := AtByte(token', current', p);
        if r != Ok { return; }
        length' := length' + 1;
        var nextByte := token'[current'];
        current' := current' + 1;
        if !IsHex(nextByte) {
          return UnexpectedChar, token', current', length';
        }
        i := i + 1;
      }
      r := Ok;
    }

    /** From a backslash to the last character of its escape. */
    method ProcessEscape(token: string, current: nat, length: nat, ghost p: nat)
      returns (r: Result, token': string, current': nat, length': nat)
      requires InSync() && Began(p) && token == Remaining() && current < |token|
      modifies this`bufferIndex, this`jsonBuffer, this`bytesConsumed, this`base, this`startIndex, this`startOffset
      ensures match ScanEscape(text, old(Position()) + current + 1)
              case Fail(e) => r == e
              case Upto(end) =>
                && r == Ok && InSync() && Began(p) && token' == Remaining() && current' < |token'|
                && Position() + current' + 1 == end && length' == length + end - 1 - old(Position() + current)
    {
      token', current', length' := token, current + 1, length + 1;
      r, token', current' := AtByte(token', current', p);
      if r != Ok { return; }
      var nextByte := token'[current'];
      if nextByte == 'u' {
        current', length' := current' + 1, length' + 1;
        r, token', current', length' := ProcessHexDigits(token', current', length', p);
        if r != Ok { return; }
        current', length' := current' - 1, length' - 1;
      } else {
        if !IsEscape(nextByte) {
          r := UnexpectedChar;
        }
      }
    }

    /** One character of a string, or one escape, and the next byte after it. */
    method ProcessStringByte(token: string, current: nat, length: nat, ghost p: nat)
      returns (r: Result, token': string, current': nat, length': nat)
      requires InSync() && Began(p) && token == Remaining() && current < |token| && token[current] != '"'
      modifies this`bufferIndex, this`jsonBuffer, this`bytesConsumed, this`base, this`startIndex, this`startOffset
      ensures r != Ok ==> ScanString(text, old(Position()) + current) == Fail(r)
      ensures r == Ok ==>
        && InSync() && Began(p) && token' == Remaining() && current' < |token'|
        && old(Position()) + current < Position() + current'
        && length' - length == Position() + current' - old(Position()) - current
        && ScanString(text, old(Position()) + current) == ScanString(text, Position() + current')
    {
      hide LaidOut, ScanEscape;
      r, token', current', length' := Ok, token, current, length;
      StringStep(text, Position() + current);
      if token[current] == '\\' {
        r, token', current', length' := ProcessEscape(token, current, length, p);
        if r != Ok { return; }
      } else {
        if token[current] < ' ' {
          r := UnexpectedChar;
          return;
        }
      }
      current', length' := current' + 1, length' + 1;
      r, token', current' := AtByte(token', current', p);
    }

    /** From just after the opening quote up to the closing one. */
    method ProcessStringBody(ghost p: nat) returns (r: Result, token: string, current: nat, length: nat)
      requires InSync() && startIndex == -1 && Position() == p
      modifies this`bufferIndex, this`jsonBuffer, this`bytesConsumed, this`base, this`startIndex, this`startOffset
      ensures match ScanString(text, p)
              case Fail(e) => r == e
              case Upto(end) =>
                && r == Ok && InSync() && Began(p) && token == Remaining() && current < |token|
                && Position() + current == end && length == end - p
    {
      hide LaidOut, ScanEscape;
      token, current, length := Remaining(), 0, 0;
      r, token, current := AtByte(token, current, p);
      if r != Ok { return; }
      while token[current] != '"'
        invariant InSync() && Began(p) && token == Remaining() && current < |token|
        invariant length == Position() + current - p && p <= Position() + current
        invariant ScanString(text, p) == ScanString(text, Position() + current)
        decreases |text| - Position() - current
      {
        r, token, current, length := ProcessStringByte(token, current, length, p);
        if r != Ok { return; }
      }
      StringStep(text, Position() + current);
      r := Ok;
    }

    /** Record the string text[p..q] and move past its closing quote. */
    method FinishString(token: string, current: nat, length: nat, ghost p: nat)
      requires InSync() && Began(p) && token == Remaining() && current < |token|
      requires length == Position() + current - p && p <= Position() + current
      modifies this`kind, this`size, this`bytesConsumed, this`endIndex, this`endOffset, this`isMultisegment, this`slice
      ensures InSync() && Position() == old(Position()) + current + 1
      ensures Holds(Token(String, text[p..Position() - 1]))
    {
      UpdateState(String, token[..current], current, length, p);
      bytesConsumed := bytesConsumed + 1;
    }

    method ProcessString() returns (r: Result)
      requires Valid() && bytesConsumed < |jsonBuffer| && startIndex == -1
      modifies this`kind, this`size, this`slice, this`isMultisegment, this`endIndex, this`endOffset,
        this`bufferIndex, this`jsonBuffer, this`bytesConsumed, this`base, this`startIndex, this`startOffset
      ensures Carries(r, ReadString(text, old(Position()), old(Abstract())))
    {
      hide ScanString, LaidOut;
      bytesConsumed := bytesConsumed + 1;
      ghost var p := Position();
      var token, current, length;
      r, token, current, length := ProcessStringBody(p);
      if r != Ok { return; }
      FinishString(token, current, length, p);
    }

    /** The rest of a property name: the string was a name, and a colon follows. */
    method ProcessColon(ghost name: string) returns (r: Result)
      requires Valid() && Holds(Token(String, name)) && items != [] && items[0] == Object
      modifies this
      ensures Carries(r, ReadColon(text, name, old(Abstract())))
    {
      hide LaidOut;
      var json := SkipBlank();
      if |json| < 1 {
        return UnexpectedEnd;
      }
      assert json[0] == text[Position()];
      if json[0] != ':' {
        return UnexpectedChar;
      }
      kind := PropertyName;
      bytesConsumed := bytesConsumed + 1;
      r := Ok;
    }

    method ProcessPropertyName() returns (r: Result)
      requires Valid() && bytesConsumed < |jsonBuffer| && startIndex == -1
      requires items != [] && items[0] == Object
      modifies this
      ensures Carries(r, ReadName(text, old(Position()), old(Abstract())))
    {
      hide ScanString, LaidOut, ReadColon;
      ghost var name := ReadString(text, Position(), Abstract());
      r := ProcessString();
      if r != Ok { return; }
      r := ProcessColon(name.token.text);
    }

    method ConsumeDigits(token: string, current: nat, total: nat, ghost p: nat)
      returns (token': string, current': nat, total': nat)
      requires InSync() && Began(p) && token == Remaining() && current <= |token|
      modifies this`bufferIndex, this`jsonBuffer, this`bytesConsumed, this`base, this`startIndex, this`startOffset
      ensures InSync() && Began(p) && token' == Remaining() && current' <= |token'|
      ensures Position() + current' == SkipDigits(text, old(Position()) + current)
      ensures total' - total == Position() + current' - old(Position()) - current
    {
      ghost var from := Position() + current;
      token', current', total' := token, current, total;
      var counter := 0;
      var segment := token[current..];
      while true
        invariant InSync() && Began(p) && token' == Remaining() && current' <= |token'|
        invariant segment == token'[current'..] && counter == 0
        invariant from <= Position() + current' && total' - total == Position() + current' - from
        invariant forall m :: from <= m < Position() + current' ==> IsDigit(text[m])
        decreases |buffers| - bufferIndex
      {
        while counter < |segment| && IsDigit(segment[counter])
          invariant counter <= |segment|
          invariant forall m :: from <= m < Position() + current' + counter ==> IsDigit(text[m])
        {
          assert segment[counter] == text[Position() + current' + counter];
          counter := counter + 1;
        }
        assert counter < |segment| ==> segment[counter] == text[Position() + current' + counter];
        if counter == |segment| {
          var r, next := GetNextBuffer(false);
          if r == Ok {
            token' := next;
            total' := total' + counter;
            counter := 0;
            current' := 0;
            segment := token';
            continue;
          }
        }
        break;
      }
      SkipDigitsFrom(text, from, Position() + current' + counter);
      total' := total' + counter;
      current' := current' + counter;
    }

    method ValidateNextByteIsDigit(token: string, current: nat, ghost p: nat)
      returns (r: Result, token': string, current': nat)
      requires InSync() && Began(p) && token == Remaining() && current <= |token|
      modifies this`bufferIndex, this`jsonBuffer, this`bytesConsumed, this`base, this`startIndex, this`startOffset
      ensures InSync() && Began(p) && token' == Remaining() && current' <= |token'|
      ensures Position() + current' == old(Position()) + current
      ensures r == if Position() + current' == |text| then UnexpectedEnd
                   else if !IsDigit(text[Position() + current']) then UnexpectedChar else Ok
      ensures r == Ok ==> current' < |token'| && token'[current'] == text[Position() + current']
    {
      r, token', current' := AtByte(token, current, p);
      if r != Ok { return; }
      if !IsDigit(token'[current']) {
        r := UnexpectedChar;
      }
    }

    /** The result of reading the rest of a number that began at p. */
    ghost predicate Scanned(r: Result, scan: Scan, p: nat)
      reads this
    {
      && scan == (if r == Ok then Upto(Position()) else Fail(r))
      && (r == Ok ==> InSync() && p <= Position() <= |text| && Holds(Token(Number, text[p..Position()])))
    }

    /** After a run of digits: the number may end here, or go on with one of `expected`. */
    method FinishIfDelimited(token: string, current: nat, total: nat, expected: set<char>, ghost p: nat)
      returns (finished: bool, r: Result, token': string, current': nat)
      requires InSync() && Began(p) && token == Remaining() && current <= |token|
      requires total == Position() + current - p && p <= Position() + current
      requires expected <= {'.', 'e', 'E'}
      modifies this`kind, this`size, this`slice, this`isMultisegment, this`endIndex, this`endOffset,
        this`bufferIndex, this`jsonBuffer, this`bytesConsumed, this`base, this`startIndex, this`startOffset
      ensures var e := old(Position()) + current;
        if e == |text| then finished && Scanned(r, NumberAtEnd(e, isComplex), p)
        else if IsDelimiter(text[e]) then finished && Scanned(r, Upto(e), p)
        else if text[e] !in expected then finished && r == UnexpectedChar
        else
          && !finished && InSync() && Began(p) && token' == Remaining() && current' < |token'|
          && Position() + current' == e && token'[current'] == text[e] && kind == old(kind)
    {
      r, token', current' := AtByte(token, current, p);
      finished := true;
      if r != Ok {
        if isComplex { return; }
        UpdateState(Number, token'[..current'], current', total, p);
        r := Ok;
        return;
      }
      var nextByte := token'[current'];
      if IsDelimiter(nextByte) {
        UpdateState(Number, token'[..current'], current', total, p);
        return;
      }
      if nextByte !in expected {
        r := UnexpectedChar;
        return;
      }
      finished := false;
    }

    method FinishNumber(token: string, current: nat, total: nat, ghost p: nat) returns (r: Result)
      requires InSync() && Began(p) && token == Remaining() && current <= |token|
      requires total == Position() + current - p && p <= Position() + current
      modifies this`kind, this`size, this`slice, this`isMultisegment, this`endIndex, this`endOffset,
        this`bufferIndex, this`jsonBuffer, this`bytesConsumed, this`base, this`startIndex, this`startOffset
      ensures Scanned(r, ScanNumberEnd(text, old(Position()) + current, isComplex), p)
    {
      var finished, token', current';
      finished, r, token', current' := FinishIfDelimited(token, current, total, {}, p);
    }

    method ProcessSign(token: string, current: nat, total: nat, ghost p: nat)
      returns (r: Result, token': string, current': nat, total': nat)
      requires InSync() && Began(p) && token == Remaining() && current <= |token|
      modifies this`bufferIndex, this`jsonBuffer, this`bytesConsumed, this`base, this`startIndex, this`startOffset
      ensures match ScanSign(text, old(Position()) + current)
              case Fail(e) => r == e
              case Upto(a) =>
                && r == Ok && InSync() && Began(p) && token' == Remaining() && current' <= |token'|
                && Position() + current' == a && total' == total + a - old(Position()) - current
    {
      total' := total;
      r, token', current' := AtByte(token, current, p);
      if r != Ok { return; }
      var nextByte := token'[current'];
      if nextByte == '-' || nextByte == '+' {
        total', current' := total' + 1, current' + 1;
        r, token', current' := ValidateNextByteIsDigit(token', current', p);
      }
    }

    method ProcessExponent(token: string, current: nat, total: nat, ghost p: nat) returns (r: Result)
      requires InSync() && Began(p) && token == Remaining() && current <= |token|
      requires total == Position() + current - p && p <= Position() + current
      modifies this`kind, this`size, this`slice, this`isMultisegment, this`endIndex, this`endOffset,
        this`bufferIndex, this`jsonBuffer, this`bytesConsumed, this`base, this`startIndex, this`startOffset
      ensures Scanned(r, ScanExponent(text, old(Position()) + current, isComplex), p)
    {
      ghost var start := Position() + current;
      var token, current, total := token, current, total;
      r, token, current, total := ProcessSign(token, current, total, p);
      if r != Ok { return; }
      token, current, total := ConsumeDigits(token, current, total, p);
      ghost var scan := ScanNumberEnd(text, Position() + current, isComplex);
      assert ScanExponent(text, start, isComplex) == scan;
      r := FinishNumber(token, current, total, p);
      assert Scanned(r, scan, p);
    }

    method ProcessAfterFraction(token: string, current: nat, total: nat, ghost p: nat) returns (r: Result)
      requires InSync() && Began(p) && token == Remaining() && current <= |token|
      requires total == Position() + current - p && p <= Position() + current
      modifies this`kind, this`size, this`slice, this`isMultisegment, this`endIndex, this`endOffset,
        this`bufferIndex, this`jsonBuffer, this`bytesConsumed, this`base, this`startIndex, this`startOffset
      ensures Scanned(r, ScanAfterFraction(text, old(Position()) + current, isComplex), p)
    {
      ghost var b := Position() + current;
      ghost var scan := ScanAfterFraction(text, b, isComplex);
      var finished, token, current := false, token, current;
      finished, r, token, current := FinishIfDelimited(token, current, total, {'e', 'E'}, p);
      if finished { return; }
      assert scan == ScanExponent(text, b + 1, isComplex);
      r := ProcessExponent(token, current + 1, total + 1, p);
      assert Scanned(r, scan, p);
    }

    method ProcessFraction(token: string, current: nat, total: nat, ghost p: nat) returns (r: Result)
      requires InSync() && Began(p) && token == Remaining() && current <= |token|
      requires total == Position() + current - p && p <= Position() + current
      modifies this`kind, this`size, this`slice, this`isMultisegment, this`endIndex, this`endOffset,
        this`bufferIndex, this`jsonBuffer, this`bytesConsumed, this`base, this`startIndex, this`startOffset
      ensures Scanned(r, ScanFraction(text, old(Position()) + current, isComplex), p)
    {
      ghost var start := Position() + current;
      var token, current, total := token, current, total;
      r, token, current := ValidateNextByteIsDigit(token, current, p);
      if r != Ok { return; }
      token, current, total := ConsumeDigits(token, current, total, p);
      ghost var scan := ScanAfterFraction(text, Position() + current, isComplex);
      assert ScanFraction(text, start, isComplex) == scan;
      r := ProcessAfterFraction(token, current, total, p);
      assert Scanned(r, scan, p);
    }

    method ProcessAfterInteger(token: string, current: nat, total: nat, ghost p: nat) returns (r: Result)
      requires InSync() && Began(p) && token == Remaining() && current <= |token|
      requires total == Position() + current - p && p <= Position() + current
      modifies this`kind, this`size, this`slice, this`isMultisegment, this`endIndex, this`endOffset,
        this`bufferIndex, this`jsonBuffer, this`bytesConsumed, this`base, this`startIndex, this`startOffset
      ensures Scanned(r, ScanAfterInteger(text, old(Position()) + current, isComplex), p)
    {
      ghost var b := Position() + current;
      ghost var scan := ScanAfterInteger(text, b, isComplex);
      var finished, token, current := false, token, current;
      finished, r, token, current := FinishIfDelimited(token, current, total, {'.', 'e', 'E'}, p);
      if finished { return; }
      if token[current] == '.' {
        assert scan == ScanFraction(text, b + 1, isComplex);
        r := ProcessFraction(token, current + 1, total + 1, p);
      } else {
        assert scan == ScanExponent(text, b + 1, isComplex);
        r := ProcessExponent(token, current + 1, total + 1, p);
      }
      assert Scanned(r, scan, p);
    }

    method ProcessMinus(ghost p: nat) returns (r: Result, token: string, current: nat, total: nat)
      requires InSync() && startIndex == -1 && Position() == p && bytesConsumed < |jsonBuffer|
      modifies this`bufferIndex, this`jsonBuffer, this`bytesConsumed, this`base, this`startIndex, this`startOffset
      ensures match ScanMinus(text, p)
              case Fail(e) => r == e
              case Upto(a) =>
                && r == Ok && InSync() && Began(p) && token == Remaining() && current < |token|
                && Position() + current == a && total == a - p && token[current] == text[a]
    {
      r, token, current, total := Ok, Remaining(), 0, 0;
      assert token[0] == text[p];
      if token[0] == '-' {
        total, current := 1, 1;
        r, token, current := ValidateNextByteIsDigit(token, current, p);
      }
    }

    method ProcessNumberText(ghost p: nat) returns (r: Result)
      requires InSync() && startIndex == -1 && Position() == p && bytesConsumed < |jsonBuffer|
      requires IsDigit(text[p]) || text[p] == '-'
      modifies this`kind, this`size, this`slice, this`isMultisegment, this`endIndex, this`endOffset,
        this`bufferIndex, this`jsonBuffer, this`bytesConsumed, this`base, this`startIndex, this`startOffset
      ensures Scanned(r, ScanNumber(text, p, isComplex), p)
    {
      hide LaidOut, ScanAfterInteger;
      var token, current, total;
      r, token, current, total := ProcessMinus(p);
      if r != Ok { return; }
      if token[current] == '0' {
        total, current := total + 1, current + 1;
      } else {
        token, current, total := ConsumeDigits(token, current, total, p);
      }
      ghost var scan := ScanAfterInteger(text, Position() + current, isComplex);
      assert ScanNumber(text, p, isComplex) == scan;
      r := ProcessAfterInteger(token, current, total, p);
      assert Scanned(r, scan, p);
    }

    method ProcessNumber() returns (r: Result)
      requires Valid() && bytesConsumed < |jsonBuffer| && startIndex == -1
      requires IsDigit(text[Position()]) || text[Position()] == '-'
      modifies this`kind, this`size, this`slice, this`isMultisegment, this`endIndex, this`endOffset,
        this`bufferIndex, this`jsonBuffer, this`bytesConsumed, this`base, this`startIndex, this`startOffset
      ensures Carries(r,
        Lexeme(text, old(Position()), ScanNumber(text, old(Position()), isComplex), Number, old(Abstract())))
    {
      r := ProcessNumberText(Position());
    }

    /** Compare the literal segment by segment; `token` is the last segment compared. */
    method MatchLiteral(literal: string, ghost p: nat) returns (r: Result, token: string, comparable: nat)
      requires InSync() && startIndex == -1 && Position() == p && literal != ""
      modifies this`bufferIndex, this`jsonBuffer, this`bytesConsumed, this`base, this`startIndex, this`startOffset
      ensures ScanLiteral(text, p, literal) == if r == Ok then Upto(p + |literal|) else Fail(r)
      ensures r == Ok ==> InSync() && Began(p) && bytesConsumed + comparable <= |jsonBuffer|
      ensures r == Ok ==> token == Remaining()[..comparable] && Position() + comparable == p + |literal|
    {
      hide ScanLiteral;
      token := Remaining();
      var matched := 0;
      while true
        invariant InSync() && Began(p) && token == Remaining()
        invariant Position() == p + matched && matched < |literal|
        invariant text[p..p + matched] == literal[..matched]
        decreases |buffers| - bufferIndex
      {
        var left := |literal| - matched;
        comparable := if |token| < left then |token| else left;
        HeadIsText(comparable);
        token := token[..comparable];
        LiteralSegment(text, p, literal, matched, token);
        if token != literal[matched..matched + comparable] {
          return UnexpectedChar, token, comparable;
        }
        matched := matched + comparable;
        if matched == |literal| {
          break;
        }
        r, token := GetNextBuffer(false);
        if r != Ok { return; }
      }
      r := Ok;
    }

    method ProcessLiteral(literal: string, tokenKind: Kind) returns (r: Result)
      requires Valid() && startIndex == -1 && literal != ""
      requires tokenKind == True || tokenKind == False || tokenKind == Null
      modifies this`kind, this`size, this`slice, this`isMultisegment, this`endIndex, this`endOffset,
        this`bufferIndex, this`jsonBuffer, this`bytesConsumed, this`base, this`startIndex, this`startOffset
      ensures Carries(r,
        Lexeme(text, old(Position()), ScanLiteral(text, old(Position()), literal), tokenKind, old(Abstract())))
    {
      hide LaidOut, ScanLiteral;
      ghost var p := Position();
      var token, comparable;
      r, token, comparable := MatchLiteral(literal, p);
      if r != Ok { return; }
      UpdateState(tokenKind, token, comparable, |literal|, p);
    }

    method ProcessValue(nextByte: char) returns (r: Result)
      requires Valid() && bytesConsumed < |jsonBuffer| && startIndex == -1 && nextByte == text[Position()]
      requires nextByte == '{' || nextByte == '[' ==> isComplex && kind != NoToken
      modifies this, stack
      ensures Carries(r, ReadValue(text, old(Position()), old(Abstract())))
    {
      if nextByte == '"' {
        r := ProcessString();
      } else if nextByte == '{' {
        r := ProcessContainerStart(BeginObject, Object);
      } else if nextByte == '[' {
        r := ProcessContainerStart(BeginArray, Array);
      } else if IsDigit(nextByte) || nextByte == '-' {
        r := ProcessNumber();
      } else if nextByte == 'f' {
        r := ProcessLiteral("false", False);
      } else if nextByte == 't' {
        r := ProcessLiteral("true", True);
      } else if nextByte == 'n' {
        r := ProcessLiteral("null", Null);
      } else {
        r := UnexpectedChar;
      }
    }

    /** The container that begins the text. */
    method OpenFirst(json: string, tokenKind: Kind, container: Container)
      requires Valid() && bytesConsumed < |jsonBuffer| && startIndex == -1 && kind == NoToken
      requires json == Remaining()
      requires tokenKind == if container == Object then BeginObject else BeginArray
      modifies this, stack
      ensures Carries(Ok, ReadBegin(text, old(Position()), old(Abstract()), tokenKind, container))
    {
      stack.Push(container, items);
      items := [container] + items;
      UpdateState(tokenKind, json[..1], 1, 1, Position());
      isComplex := true;
    }

    method ReadFirstToken(json: string, firstByte: char) returns (r: Result)
      requires Valid() && bytesConsumed < |jsonBuffer| && startIndex == -1 && kind == NoToken
      requires json == Remaining() && firstByte == text[Position()]
      modifies this, stack
      ensures Carries(r, ReadValue(text, old(Position()), old(Abstract())))
    {
      r := Ok;
      if firstByte == '{' {
        OpenFirst(json, BeginObject, Object);
      } else if firstByte == '[' {
        OpenFirst(json, BeginArray, Array);
      } else {
        r := ProcessValue(firstByte);
      }
    }

    method ProcessNextByte(nextByte: char) returns (r: Result)
      requires Valid() && bytesConsumed < |jsonBuffer| && startIndex == -1 && nextByte == text[Position()]
      requires kind !in {NoToken, BeginObject, BeginArray, PropertyName}
      modifies this, stack
      ensures Carries(r, ReadAfterValue(text, old(Position()), old(Abstract())))
    {
      hide LaidOut, ReadEnd, ReadName, ReadValue;
      ghost var p, s := Position(), Abstract();
      if stack.currentDepth == 0 {
        return UnexpectedChar;
      }
      var top := stack.Peek(items);
      if nextByte == ',' {
        bytesConsumed := bytesConsumed + 1;
        var json := SkipBlank();
        if |json| < 1 {
          return UnexpectedEnd;
        }
        assert json[0] == text[Position()];
        ReadFromAnywhere(text, Position(), s, Position());
        if top == Object {
          if json[0] != '"' {
            return UnexpectedChar;
          }
          r := ProcessPropertyName();
          return;
        }
        r := ProcessValue(json[0]);
        return;
      }
      if nextByte == '}' {
        r := ProcessContainerEnd(EndObject);
        return;
      }
      if nextByte == ']' {
        r := ProcessContainerEnd(EndArray);
        return;
      }
      r := UnexpectedChar;
    }

    method ProcessByKind(json: string) returns (r: Result)
      requires Valid() && bytesConsumed < |jsonBuffer| && startIndex == -1 && json == Remaining()
      modifies this, stack
      ensures Carries(r, Dispatch(text, old(Position()), old(Abstract())))
    {
      var firstByte := json[0];
      assert firstByte == text[Position()];
      match kind {
        case NoToken =>
          r := ReadFirstToken(json, firstByte);
        case BeginObject =>
          if firstByte == '}' {
            r := ProcessContainerEnd(EndObject);
          } else if firstByte != '"' {
            r := UnexpectedChar;
          } else {
            r := ProcessPropertyName();
          }
        case BeginArray =>
          if firstByte == ']' {
            r := ProcessContainerEnd(EndArray);
          } else {
            r := ProcessValue(firstByte);
          }
        case PropertyName =>
          r := ProcessValue(firstByte);
        case _ =>
          r := ProcessNextByte(firstByte);
      }
    }

    /** One call of the reader computes one step of the flat reader on the concatenated text. */
    method NextToken() returns (r: Result)
      requires Valid()
      modifies this, stack
      ensures Carries(r, Next(text, old(Abstract())))
    {
      hide LaidOut, Dispatch, SkipWhitespace;
      var json := SkipBlank();
      if |json| < 1 {
        return if kind == NoToken || stack.currentDepth != 0 then UnexpectedEnd else Done;
      }
      startIndex, startOffset, endIndex, endOffset := -1, -1, -1, -1;
      r := ProcessByKind(json);
    }

    /** Move past the value the reader stands on: a container just begun, or the value of a
        property name. */
    method SkipChildren() returns (r: Result)
      requires Valid()
      modifies this, stack
      ensures SkippedTo(r, SkipValue(text, old(Abstract())))
    {
      hide LaidOut, InSync, SkipWhitespace;
      if kind == PropertyName {
        r := NextToken();
        if r != Ok { return; }
      }
      ghost var from := Abstract();
      if kind == BeginObject || kind == BeginArray {
        var depth := stack.currentDepth;
        while true
          invariant Valid() && kind != NoToken && depth == |from.stack|
          invariant SkipFrom(text, from, depth) == SkipFrom(text, Abstract(), depth)
          decreases |text| - Position()
        {
          NextProgress(text, Abstract());
          r := NextToken();
          if r != Ok { return; }
          if depth > stack.currentDepth {
            break;
          }
        }
      }
      r := Ok;
    }

    ghost predicate SkippedTo(r: Result, skipped: Skipped)
      reads this, stack
    {
      match skipped
      case Landed(state) => r == Ok && Valid() && Abstract() == state
      case Failed(e) => r == e
    }

    /** A part of a buffer is the text at its place. */
    lemma SegmentIsText(k: nat, i: nat, j: nat)
      requires LaidOut() && k < |buffers| && i <= j <= |buffers[k]|
      ensures starts[k] + |buffers[k]| == starts[k + 1] <= |text|
      ensures text[starts[k] + i..starts[k] + j] == buffers[k][i..j]
    {
      assert WindowAt(k);
      WindowSlice(text, starts[k], buffers[k], i, j);
    }

    /** Rebuild the text of the token, also when it straddles buffers. */
    method CopyIntoSpan(ghost token: Token) returns (destination: string)
      requires LaidOut() && Holds(token)
      ensures destination == token.text
    {
      hide LaidOut;
      if !isMultisegment {
        return slice;
      }
      destination := "";
      if size == 0 {
        return;
      }
      var i := startIndex;
      ghost var p := starts[startIndex] + startOffset;
      ghost var q := p;
      while i <= endIndex
        invariant startIndex <= i <= endIndex + 1
        invariant q ==
          if i == startIndex then p else if i <= endIndex then starts[i] else starts[endIndex] + endOffset
        invariant p <= q <= |text| && destination == text[p..q]
      {
        var source := buffers[i];
        ghost var from := if i == startIndex then startOffset else 0;
        ghost var to := if i == endIndex then endOffset else |source|;
        SegmentIsText(i, from, to);
        if i == startIndex {
          source := source[startOffset..];
        } else if i == endIndex {
          source := source[..endOffset];
        }
        assert source == buffers[i][from..to];
        destination := destination + source;
        JoinSlices(text, p, q, starts[i] + to);
        q := starts[i] + to;
        i := i + 1;
      }
    }
  }

  lemma ReadAllStep(t: string, s: State, tokens: seq<Token>)
    requires WellFormed(t, s)
    ensures Next(t, s).Stop? ==> ReadAll(t, s) == Run([], Next(t, s).result)
    ensures Next(t, s).Emit? ==> WellFormed(t, Next(t, s).next)
    ensures Next(t, s).Emit? ==>
      var rest := ReadAll(t, Next(t, s).next);
      var all := ReadAll(t, s);
      Run(tokens + all.tokens, all.end) == Run(tokens + [Next(t, s).token] + rest.tokens, rest.end)
  {
    hide Next;
    NextProgress(t, s);
  }

  /** Read a divided text to its end: the outcome depends on the concatenation alone, so any two
      divisions of one text give the same tokens, the same token texts and the same last result. */
  method ReadDivided(buffers: seq<string>) returns (tokens: seq<Token>, end: Result)
    requires NoneEmpty(buffers)
    ensures Run(tokens, end) == ReadAll(Flatten(buffers), START)
  {
    hide Next, ReadAll, Flatten;
    var reader := new Reader(buffers);
    tokens := [];
    while true
      invariant fresh(reader) && fresh(reader.stack) && reader.Valid() && reader.text == Flatten(buffers)
      invariant var rest := ReadAll(reader.text, reader.Abstract());
        ReadAll(reader.text, START) == Run(tokens + rest.tokens, rest.end)
      decreases |reader.text| - reader.Position()
    {
      ghost var step := Next(reader.text, reader.Abstract());
      NextProgress(reader.text, reader.Abstract());
      ReadAllStep(reader.text, reader.Abstract(), tokens);
      end := reader.NextToken();
      if end != Ok { return; }
      var text := reader.CopyIntoSpan(step.token);
      tokens := tokens + [Token(reader.kind, text)];
    }
  }
}
