/** What the JSON pull parser computes, said about one contiguous text.

    Every function here reads a whole text `t` from an absolute index.  The
    chunked reader (module JsonReader) is proved to compute `Next` whatever way
    the text is cut into buffers.  Bytes are modelled as `char`. */
module JsonScan {
  import opened Common

  datatype Result = Ok | Done | UnexpectedEnd | UnexpectedChar | NestingOverflow

  datatype Kind =
    | NoToken | BeginObject | EndObject | BeginArray | EndArray | PropertyName
    | String | Number | True | False | Null

  datatype Container = Object | Array

  predicate IsError(r: Result) { r != Ok && r != Done }

  predicate IsSyntaxError(r: Result) { r == UnexpectedEnd || r == UnexpectedChar }

  const MAX_DEPTH := 64

  /** A token as a caller sees it; its `size` field is `|text|`. */
  datatype Token = Token(kind: Kind, text: string)

  /** The reader between two calls: absolute position, kind of the last token,
      open containers (innermost first) and whether the text began with a container. */
  datatype State = State(pos: nat, kind: Kind, stack: seq<Container>, complex: bool)

  const START := State(0, NoToken, [], false)

  datatype Step = Emit(token: Token, next: State) | Stop(result: Result)

  /** The outcome of scanning one lexeme: an error, or the index just after it. */
  datatype Scan = Fail(error: Result) | Upto(end: nat)

  predicate IsWhitespace(c: char) { c == ' ' || c == '\t' || c == '\n' || c == '\r' }

  predicate IsHex(c: char) { IsDigit(c) || 'a' <= c <= 'f' || 'A' <= c <= 'F' }

  predicate IsEscape(c: char) {
    c == '\\' || c == '"' || c == '/' || c == 'b' || c == 'f' || c == 'n' || c == 'r' || c == 't'
  }

  /** The characters that may follow a number. */
  predicate IsDelimiter(c: char) { c == ',' || c == '}' || c == ']' || IsWhitespace(c) }

  predicate IsExponentMark(c: char) { c == 'e' || c == 'E' }

  function SkipWhitespace(t: string, i: nat): (j: nat)
    requires i <= |t|
    ensures i <= j <= |t|
    ensures j < |t| ==> !IsWhitespace(t[j])
    ensures forall k :: i <= k < j ==> IsWhitespace(t[k])
    decreases |t| - i
  {
    if i < |t| && IsWhitespace(t[i]) then SkipWhitespace(t, i + 1) else i
  }

  function SkipDigits(t: string, i: nat): (j: nat)
    requires i <= |t|
    ensures i <= j <= |t|
    ensures j < |t| ==> !IsDigit(t[j])
    ensures forall k :: i <= k < j ==> IsDigit(t[k])
    decreases |t| - i
  {
    if i < |t| && IsDigit(t[i]) then SkipDigits(t, i + 1) else i
  }

  function ScanHex(t: string, i: nat, n: nat): (s: Scan)
    requires i <= |t|
    ensures s.Upto? ==> s.end == i + n <= |t|
    ensures s.Fail? ==> IsSyntaxError(s.error)
    decreases n
  {
    if n == 0 then Upto(i)
    else if i == |t| then Fail(UnexpectedEnd)
    else if !IsHex(t[i]) then Fail(UnexpectedChar)
    else ScanHex(t, i + 1, n - 1)
  }

  /** From just after a backslash. */
  function ScanEscape(t: string, i: nat): (s: Scan)
    requires i <= |t|
    ensures s.Upto? ==> i < s.end <= |t|
    ensures s.Fail? ==> IsSyntaxError(s.error)
  {
    if i == |t| then Fail(UnexpectedEnd)
    else if t[i] == 'u' then ScanHex(t, i + 1, 4)
    else if !IsEscape(t[i]) then Fail(UnexpectedChar)
    else Upto(i + 1)
  }

  /** From just after an opening quote to the closing quote. */
  function ScanString(t: string, i: nat): (s: Scan)
    requires i <= |t|
    ensures s.Upto? ==> i <= s.end < |t| && t[s.end] == '"'
    ensures s.Fail? ==> IsSyntaxError(s.error)
    decreases |t| - i
  {
    if i == |t| then Fail(UnexpectedEnd)
    else if t[i] == '"' then Upto(i)
    else if t[i] == '\\' then
      var escape := ScanEscape(t, i + 1);
      if escape.Fail? then escape else ScanString(t, escape.end)
    else if t[i] < ' ' then Fail(UnexpectedChar)
    else ScanString(t, i + 1)
  }

  /** A number may run into the end of the text only when it is the whole payload. */
  function NumberAtEnd(i: nat, complex: bool): Scan {
    if complex then Fail(UnexpectedEnd) else Upto(i)
  }

  /** From just after the last digits. */
  function ScanNumberEnd(t: string, b: nat, complex: bool): (s: Scan)
    requires b <= |t|
    ensures s.Upto? ==> b == s.end
    ensures s.Fail? ==> IsSyntaxError(s.error)
  {
    if b == |t| then NumberAtEnd(b, complex)
    else if IsDelimiter(t[b]) then Upto(b)
    else Fail(UnexpectedChar)
  }

  /** The optional sign of an exponent, which a digit must follow. */
  function ScanSign(t: string, i: nat): (s: Scan)
    requires i <= |t|
    ensures s.Upto? ==> i <= s.end < |t|
    ensures s.Fail? ==> IsSyntaxError(s.error)
  {
    if i == |t| then Fail(UnexpectedEnd)
    else if t[i] != '-' && t[i] != '+' then Upto(i)
    else if i + 1 == |t| then Fail(UnexpectedEnd)
    else if !IsDigit(t[i + 1]) then Fail(UnexpectedChar)
    else Upto(i + 1)
  }

  /** From just after the exponent mark.  No digit is demanded after a bare mark. */
  function ScanExponent(t: string, i: nat, complex: bool): (s: Scan)
    requires i <= |t|
    ensures s.Upto? ==> i <= s.end <= |t|
    ensures s.Fail? ==> IsSyntaxError(s.error)
  {
    var sign := ScanSign(t, i);
    if sign.Fail? then sign else ScanNumberEnd(t, SkipDigits(t, sign.end), complex)
  }

  /** From just after the digits of a fraction. */
  function ScanAfterFraction(t: string, b: nat, complex: bool): (s: Scan)
    requires b <= |t|
    ensures s.Upto? ==> b <= s.end <= |t|
    ensures s.Fail? ==> IsSyntaxError(s.error)
  {
    if b == |t| then NumberAtEnd(b, complex)
    else if IsDelimiter(t[b]) then Upto(b)
    else if IsExponentMark(t[b]) then ScanExponent(t, b + 1, complex)
    else Fail(UnexpectedChar)
  }

  /** From just after the decimal point. */
  function ScanFraction(t: string, i: nat, complex: bool): (s: Scan)
    requires i <= |t|
    ensures s.Upto? ==> i <= s.end <= |t|
    ensures s.Fail? ==> IsSyntaxError(s.error)
  {
    if i == |t| then Fail(UnexpectedEnd)
    else if !IsDigit(t[i]) then Fail(UnexpectedChar)
    else ScanAfterFraction(t, SkipDigits(t, i), complex)
  }

  /** From just after the integer part. */
  function ScanAfterInteger(t: string, b: nat, complex: bool): (s: Scan)
    requires b <= |t|
    ensures s.Upto? ==> b <= s.end <= |t|
    ensures s.Fail? ==> IsSyntaxError(s.error)
  {
    if b == |t| then NumberAtEnd(b, complex)
    else if IsDelimiter(t[b]) then Upto(b)
    else if t[b] == '.' then ScanFraction(t, b + 1, complex)
    else if IsExponentMark(t[b]) then ScanExponent(t, b + 1, complex)
    else Fail(UnexpectedChar)
  }

  /** The optional minus sign of a number, which a digit must follow. */
  function ScanMinus(t: string, i: nat): (s: Scan)
    requires i < |t|
    ensures s.Upto? ==> i <= s.end < |t|
    ensures s.Fail? ==> IsSyntaxError(s.error)
  {
    if t[i] != '-' then Upto(i)
    else if i + 1 == |t| then Fail(UnexpectedEnd)
    else if !IsDigit(t[i + 1]) then Fail(UnexpectedChar)
    else Upto(i + 1)
  }

  function ScanNumber(t: string, i: nat, complex: bool): (s: Scan)
    requires i < |t| && (IsDigit(t[i]) || t[i] == '-')
    ensures s.Upto? ==> i < s.end <= |t|
    ensures s.Fail? ==> IsSyntaxError(s.error)
  {
    var minus := ScanMinus(t, i);
    if minus.Fail? then minus
    else
      var a := minus.end;
      ScanAfterInteger(t, if t[a] == '0' then a + 1 else SkipDigits(t, a), complex)
  }

  function ScanLiteral(t: string, i: nat, literal: string): (s: Scan)
    requires i <= |t|
    ensures s.Upto? ==> s.end == i + |literal| <= |t| && t[i..s.end] == literal
    ensures s.Fail? ==> IsSyntaxError(s.error)
    decreases |literal|
  {
    if literal == "" then Upto(i)
    else if i == |t| then Fail(UnexpectedEnd)
    else if t[i] != literal[0] then Fail(UnexpectedChar)
    else ScanLiteral(t, i + 1, literal[1..])
  }

  function Lexeme(t: string, start: nat, scan: Scan, kind: Kind, s: State): (r: Step)
    requires scan.Upto? ==> start <= scan.end <= |t|
  {
    if scan.Fail? then Stop(scan.error)
    else Emit(Token(kind, t[start..scan.end]), s.(pos := scan.end, kind := kind))
  }

  /** A string token excludes its quotes; the position moves past the closing one. */
  function ReadString(t: string, i: nat, s: State): (r: Step)
    requires i < |t|
  {
    var scan := ScanString(t, i + 1);
    if scan.Fail? then Stop(scan.error)
    else Emit(Token(String, t[i + 1..scan.end]), s.(pos := scan.end + 1, kind := String))
  }

  /** The blanks and the colon after a property name. */
  function ReadColon(t: string, name: string, s: State): (r: Step)
    requires s.pos <= |t|
  {
    var c := SkipWhitespace(t, s.pos);
    if c == |t| then Stop(UnexpectedEnd)
    else if t[c] != ':' then Stop(UnexpectedChar)
    else Emit(Token(PropertyName, name), s.(pos := c + 1, kind := PropertyName))
  }

  function ReadName(t: string, i: nat, s: State): (r: Step)
    requires i < |t|
  {
    var name := ReadString(t, i, s);
    if name.Stop? then name else ReadColon(t, name.token.text, name.next)
  }

  function ReadBegin(t: string, i: nat, s: State, kind: Kind, container: Container): (r: Step)
    requires i < |t|
  {
    if |s.stack| >= MAX_DEPTH then Stop(NestingOverflow)
    else Emit(Token(kind, [t[i]]), State(i + 1, kind, [container] + s.stack, true))
  }

  function ReadEnd(t: string, i: nat, s: State, kind: Kind, container: Container): (r: Step)
    requires i < |t| && s.stack != []
  {
    if s.stack[0] != container then Stop(UnexpectedChar)
    else Emit(Token(kind, [t[i]]), s.(pos := i + 1, kind := kind, stack := s.stack[1..]))
  }

  function ReadValue(t: string, i: nat, s: State): (r: Step)
    requires i < |t|
  {
    var c := t[i];
    if c == '"' then ReadString(t, i, s)
    else if c == '{' then ReadBegin(t, i, s, BeginObject, Object)
    else if c == '[' then ReadBegin(t, i, s, BeginArray, Array)
    else if IsDigit(c) || c == '-' then Lexeme(t, i, ScanNumber(t, i, s.complex), Number, s)
    else if c == 'f' then Lexeme(t, i, ScanLiteral(t, i, "false"), False, s)
    else if c == 't' then Lexeme(t, i, ScanLiteral(t, i, "true"), True, s)
    else if c == 'n' then Lexeme(t, i, ScanLiteral(t, i, "null"), Null, s)
    else Stop(UnexpectedChar)
  }

  function ReadAfterValue(t: string, i: nat, s: State): (r: Step)
    requires i < |t|
  {
    if s.stack == [] then Stop(UnexpectedChar)
    else if t[i] == ',' then
      var j := SkipWhitespace(t, i + 1);
      if j == |t| then Stop(UnexpectedEnd)
      else if s.stack[0] == Object then
        if t[j] != '"' then Stop(UnexpectedChar) else ReadName(t, j, s)
      else ReadValue(t, j, s)
    else if t[i] == '}' then ReadEnd(t, i, s, EndObject, Object)
    else if t[i] == ']' then ReadEnd(t, i, s, EndArray, Array)
    else Stop(UnexpectedChar)
  }

  /** What holds of a reader between calls. */
  predicate WellFormed(t: string, s: State) {
    && s.pos <= |t|
    && |s.stack| <= MAX_DEPTH
    && (s.stack != [] ==> s.complex)
    && (s.kind == BeginObject ==> s.stack != [] && s.stack[0] == Object)
    && (s.kind == BeginArray ==> s.stack != [] && s.stack[0] == Array)
    && (s.kind == PropertyName ==> s.stack != [] && s.stack[0] == Object)
    && (s.kind == NoToken ==> s.stack == [] && !s.complex)
  }

  /** What the last token's kind allows next, at a byte that is not whitespace. */
  function Dispatch(t: string, i: nat, s: State): (r: Step)
    requires WellFormed(t, s) && i < |t|
  {
    match s.kind
    case NoToken => ReadValue(t, i, s)
    case BeginObject =>
      if t[i] == '}' then ReadEnd(t, i, s, EndObject, Object)
      else if t[i] != '"' then Stop(UnexpectedChar)
      else ReadName(t, i, s)
    case BeginArray =>
      if t[i] == ']' then ReadEnd(t, i, s, EndArray, Array)
      else ReadValue(t, i, s)
    case PropertyName => ReadValue(t, i, s)
    case _ => ReadAfterValue(t, i, s)
  }

  /** One call of the reader. */
  function Next(t: string, s: State): (r: Step)
    requires WellFormed(t, s)
  {
    var i := SkipWhitespace(t, s.pos);
    if i == |t| then
      Stop(if s.kind == NoToken || s.stack != [] then UnexpectedEnd else Done)
    else Dispatch(t, i, s.(pos := i))
  }

  /** What a step must do to keep the reader going forward. */
  ghost predicate Advances(t: string, s: State, step: Step) {
    match step
    case Emit(token, next) => s.pos < next.pos && WellFormed(t, next) && token.kind == next.kind
    case Stop(e) => IsError(e)
  }

  lemma ValueAdvances(t: string, i: nat, s: State)
    requires WellFormed(t, s) && s.pos <= i < |t|
    ensures Advances(t, s, ReadValue(t, i, s))
  {
  }

  lemma DispatchAdvances(t: string, i: nat, s: State)
    requires WellFormed(t, s) && s.pos <= i < |t|
    ensures Advances(t, s, Dispatch(t, i, s))
  {
    hide ReadValue;
    ValueAdvances(t, i, s);
    if t[i] == ',' {
      var j := SkipWhitespace(t, i + 1);
      if j < |t| { ValueAdvances(t, j, s); }
    }
  }

  /** Each successful call consumes at least one byte and keeps the reader well formed, so every
      loop over tokens ends; the end of the data is reported only where it is due. */
  lemma NextProgress(t: string, s: State)
    requires WellFormed(t, s)
    ensures Advances(t, s, Next(t, s)) || Next(t, s) == Stop(Done)
    ensures Next(t, s) == Stop(Done) <==>
      SkipWhitespace(t, s.pos) == |t| && s.kind != NoToken && s.stack == []
  {
    hide Dispatch;
    var i := SkipWhitespace(t, s.pos);
    if i < |t| { DispatchAdvances(t, i, s.(pos := i)); }
  }

  /** The whole conversation: tokens up to the first call that does not return OK, and that result. */
  datatype Run = Run(tokens: seq<Token>, end: Result)

  function ReadAll(t: string, s: State): (r: Run)
    requires WellFormed(t, s)
    decreases |t| - s.pos
  {
    var step := Next(t, s);
    NextProgress(t, s);
    if step.Stop? then Run([], step.result)
    else
      var rest := ReadAll(t, step.next);
      Run([step.token] + rest.tokens, rest.end)
  }

  datatype Skipped = Landed(state: State) | Failed(result: Result)

  /** Read on until the depth falls below `depth`. */
  function SkipFrom(t: string, s: State, depth: nat): (r: Skipped)
    requires WellFormed(t, s)
    decreases |t| - s.pos
  {
    var step := Next(t, s);
    NextProgress(t, s);
    if step.Stop? then Failed(step.result)
    else if depth <= |step.next.stack| then SkipFrom(t, step.next, depth)
    else Landed(step.next)
  }

  function SkipContainer(t: string, s: State): (r: Skipped)
    requires WellFormed(t, s)
  {
    if s.kind == BeginObject || s.kind == BeginArray then SkipFrom(t, s, |s.stack|) else Landed(s)
  }

  /** az_json_reader_skip_children: a property name is first left for its value. */
  function SkipValue(t: string, s: State): (r: Skipped)
    requires WellFormed(t, s)
  {
    if s.kind != PropertyName then SkipContainer(t, s)
    else
      var step := Next(t, s);
      NextProgress(t, s);
      if step.Stop? then Failed(step.result) else SkipContainer(t, step.next)
  }
}
