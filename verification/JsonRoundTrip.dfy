/** The reader inverts printing, and reads nothing but printed documents. */
module JsonRoundTrip {
  import opened Common
  import opened JsonScan
  import opened JsonGrammar
  import opened JsonLexemes

  datatype Followed = Reached(state: State) | Lost

  /** Where the reader is after emitting exactly `tokens`, never less than `floor` deep. */
  function Follow(t: string, s: State, tokens: seq<Token>, floor: nat): (f: Followed)
    requires WellFormed(t, s)
    ensures f.Reached? ==> WellFormed(t, f.state)
    decreases tokens
  {
    if tokens == [] then Reached(s)
    else
      NextProgress(t, s);
      FollowStep(t, Next(t, s), tokens, floor)
  }

  function FollowStep(t: string, step: Step, tokens: seq<Token>, floor: nat): (f: Followed)
    requires step.Emit? ==> WellFormed(t, step.next)
    requires tokens != []
    ensures f.Reached? ==> WellFormed(t, f.state)
    decreases tokens, 0
  {
    if step.Emit? && step.token == tokens[0] && floor <= |step.next.stack|
    then Follow(t, step.next, tokens[1..], floor)
    else Lost
  }

  lemma {:induction false} FollowAppend(t: string, s: State, a: seq<Token>, b: seq<Token>, floor: nat)
    requires WellFormed(t, s) && Follow(t, s, a, floor).Reached?
    ensures Follow(t, s, a + b, floor) == Follow(t, Follow(t, s, a, floor).state, b, floor)
    decreases a
  {
    if a == [] {
      assert a + b == b;
    } else {
      NextProgress(t, s);
      assert (a + b)[1..] == a[1..] + b;
      FollowAppend(t, Next(t, s).next, a[1..], b, floor);
    }
  }

  lemma {:induction false} FollowLower(t: string, s: State, tokens: seq<Token>, high: nat, low: nat)
    requires WellFormed(t, s) && low <= high && Follow(t, s, tokens, high).Reached?
    ensures Follow(t, s, tokens, low) == Follow(t, s, tokens, high)
    decreases tokens
  {
    if tokens != [] {
      NextProgress(t, s);
      FollowLower(t, Next(t, s).next, tokens[1..], high, low);
    }
  }

  lemma {:induction false} FollowRead(t: string, s: State, tokens: seq<Token>, floor: nat)
    requires WellFormed(t, s) && Follow(t, s, tokens, floor).Reached?
    ensures var rest := ReadAll(t, Follow(t, s, tokens, floor).state);
      ReadAll(t, s) == Run(tokens + rest.tokens, rest.end)
    decreases tokens
  {
    hide Next;
    var rest := ReadAll(t, Follow(t, s, tokens, floor).state);
    if tokens == [] {
      assert tokens + rest.tokens == rest.tokens;
    } else {
      NextProgress(t, s);
      FollowRead(t, Next(t, s).next, tokens[1..], floor);
      assert tokens + rest.tokens == [tokens[0]] + (tokens[1..] + rest.tokens);
    }
  }

  /** The state after reading value v, written up to e, in state s. */
  function After(v: Value, s: State, e: nat): State {
    State(e, LastKind(v), s.stack, s.complex || IsContainer(v))
  }

  predicate ReadsTo(t: string, step: Step, tokens: seq<Token>, floor: nat, after: State)
    requires tokens != []
  {
    (step.Emit? ==> WellFormed(t, step.next)) && FollowStep(t, step, tokens, floor) == Reached(after)
  }

  lemma FollowNext(t: string, s: State, tokens: seq<Token>, floor: nat, after: State)
    requires WellFormed(t, s) && tokens != [] && ReadsTo(t, Next(t, s), tokens, floor, after)
    ensures Follow(t, s, tokens, floor) == Reached(after)
  {
    hide Next;
  }

  lemma ReadsToAppend(t: string, step: Step, a: seq<Token>, b: seq<Token>, floor: nat, m: State, after: State)
    requires a != [] && ReadsTo(t, step, a, floor, m) && WellFormed(t, m)
    requires Follow(t, m, b, floor) == Reached(after)
    ensures ReadsTo(t, step, a + b, floor, after)
  {
    assert (a + b)[1..] == a[1..] + b;
    FollowAppend(t, step.next, a[1..], b, floor);
  }

  lemma OneToken(t: string, step: Step, token: Token, floor: nat, after: State)
    requires step == Emit(token, after) && WellFormed(t, after) && floor <= |after.stack|
    ensures ReadsTo(t, step, [token], floor, after)
  {
    hide Next;
    assert Follow(t, after, [], floor) == Reached(after);
    assert [token][1..] == [];
  }

  lemma TokenThen(t: string, step: Step, tokens: seq<Token>, floor: nat, after: State)
    requires step.Emit? && WellFormed(t, step.next) && floor <= |step.next.stack| && tokens != []
    requires ReadsTo(t, Next(t, step.next), tokens, floor, after)
    ensures ReadsTo(t, step, [step.token] + tokens, floor, after)
  {
    hide Next;
    NextProgress(t, step.next);
    assert Follow(t, step.next, tokens, floor) == FollowStep(t, Next(t, step.next), tokens, floor);
    assert ([step.token] + tokens)[1..] == tokens;
  }

  /** The first character of a value is neither blank nor a closing bracket. */
  lemma ValueStart(v: Value)
    requires ValueOk(v)
    ensures Print(v) != "" && !IsWhitespace(Print(v)[0]) && Print(v)[0] != ']'
  {
  }

  /** How a value may be followed: only a number cares. */
  predicate EndsWell(v: Value, t: string, e: nat, complex: bool) {
    v.Num? ==> Ends(v.numeral.exponent, t, e, complex)
  }

  lemma NumberRead(t: string, i: nat, s: State, n: Numeral, e: nat)
    requires WellFormed(t, s) && NumeralOk(n) && At(t, i, PrintNumeral(n)) && e == i + |PrintNumeral(n)|
    requires Ends(n.exponent, t, e, s.complex)
    ensures i < |t| && ReadValue(t, i, s) == Emit(Token(Number, PrintNumeral(n)), s.(pos := e, kind := Number))
  {
    hide At, ScanString, ScanNumber;
    AtSlice(t, i, PrintNumeral(n), e);
    NumeralScanned(t, i, n, s.complex);
  }

  lemma WordRead(t: string, i: nat, s: State, kind: Kind)
    requires WellFormed(t, s) && ValueOk(Word(kind)) && At(t, i, Spelling(kind))
    ensures i < |t|
    ensures ReadValue(t, i, s) == Emit(Token(kind, Spelling(kind)), s.(pos := i + |Spelling(kind)|, kind := kind))
  {
    hide At, ScanString, ScanNumber, ReadString;
    AtSlice(t, i, Spelling(kind), i + |Spelling(kind)|);
    AtChar(t, i, Spelling(kind), 0);
    LiteralScanned(t, i, Spelling(kind));
  }

  lemma StringRead(t: string, i: nat, s: State, body: string)
    requires WellFormed(t, s) && s.pos <= i && StringBody(body) && At(t, i, "\"" + (body + "\""))
    ensures i < |t| && ReadValue(t, i, s) == Emit(Token(String, body), s.(pos := i + |body| + 2, kind := String))
  {
    hide At, StringBody, ScanString, WellFormed;
    var n := i + 1 + |body|;
    AtSplit(t, i, "\"", body + "\"");
    AtSplit(t, i + 1, body, "\"");
    AtChar(t, i, "\"", 0);
    AtChar(t, n, "\"", 0);
    AtSlice(t, i + 1, body, n);
    StringScanned(t, i + 1, n);
    assert t[i] == '"' && ScanString(t, i + 1) == Upto(n);
  }

  lemma ScalarRead(t: string, i: nat, s: State, v: Value, e: nat)
    requires WellFormed(t, s) && s.pos <= i && ValueOk(v) && !IsContainer(v)
    requires At(t, i, Print(v)) && e == i + |Print(v)| && EndsWell(v, t, e, s.complex)
    ensures i < |t| && ReadValue(t, i, s) == Emit(Tokens(v)[0], After(v, s, e)) && |Tokens(v)| == 1
  {
    hide At, ReadValue, PrintNumeral, StringBody, WellFormed;
    match v
    case Word(kind) => WordRead(t, i, s, kind);
    case Num(n) => NumberRead(t, i, s, n, e);
    case Str(body) => StringRead(t, i, s, body);
  }

  /** Between two values: the last one is read, and only blanks come before index c. */
  predicate Between(t: string, m: State, after: string, c: nat) {
    && WellFormed(t, m) && m.kind !in {NoToken, BeginObject, BeginArray, PropertyName} && m.stack != []
    && At(t, m.pos, after) && Blank(after) && c == m.pos + |after| < |t|
  }

  lemma BetweenRead(t: string, m: State, after: string, c: nat)
    requires Between(t, m, after, c) && !IsWhitespace(t[c])
    ensures Next(t, m) == ReadAfterValue(t, c, m.(pos := c))
  {
    hide At, ReadAfterValue;
    BlankSkipped(t, m.pos, after);
  }

  lemma CommaRead(t: string, m: State, after: string, c: nat)
    requires Between(t, m, after, c) && t[c] == ','
    requires var j := SkipWhitespace(t, c + 1); j < |t| && (m.stack[0] == Object ==> t[j] == '"')
    ensures var j := SkipWhitespace(t, c + 1);
      Next(t, m) == if m.stack[0] == Object then ReadName(t, j, m.(pos := c)) else ReadValue(t, j, m.(pos := c))
  {
    hide Next, ReadName, ReadValue, At;
    BetweenRead(t, m, after, c);
  }

  lemma CloseRead(t: string, m: State, after: string, c: nat)
    requires Between(t, m, after, c) && t[c] == if m.stack[0] == Object then '}' else ']'
    ensures Next(t, m) == if m.stack[0] == Object
                          then Emit(Token(EndObject, "}"), State(c + 1, EndObject, m.stack[1..], m.complex))
                          else Emit(Token(EndArray, "]"), State(c + 1, EndArray, m.stack[1..], m.complex))
  {
    hide Next, At;
    BetweenRead(t, m, after, c);
    assert [t[c]] == if m.stack[0] == Object then "}" else "]";
  }

  lemma DelimitedBy(t: string, e: nat, after: string, c: nat)
    requires At(t, e, after) && Blank(after) && c == e + |after| < |t| && IsDelimiter(t[c])
    ensures IsDelimiter(t[e])
  {
    if after != "" { AtChar(t, e, after, 0); }
  }

  /** Positions of the parts of an element: the value a..b and the end c of the blanks after it. */
  lemma ElementPlaces(t: string, i: nat, es: Elements) returns (a: nat, b: nat, c: nat)
    requires At(t, i, PrintElements(es))
    ensures At(t, i, es.before) && a == i + |es.before| && At(t, a, Print(es.value)) && b == a + |Print(es.value)|
    ensures At(t, b, es.after) && c == b + |es.after|
    ensures if es.LastElement? then i + |PrintElements(es)| == c
            else c < |t| && t[c] == ',' && At(t, c + 1, PrintElements(es.rest))
                 && i + |PrintElements(es)| == c + 1 + |PrintElements(es.rest)|
  {
    hide At, Print;
    var tail := if es.LastElement? then es.after else es.after + ("," + PrintElements(es.rest));
    a := i + |es.before|;
    b := a + |Print(es.value)|;
    c := b + |es.after|;
    AtSplit(t, i, es.before, Print(es.value) + tail);
    AtSplit(t, a, Print(es.value), tail);
    if es.Element? {
      AtSplit(t, b, es.after, "," + PrintElements(es.rest));
      AtSplit(t, c, ",", PrintElements(es.rest));
      AtChar(t, c, ",", 0);
    }
  }

  /** The elements of an array, from just after '[' or ','. */
  lemma ElementsRead(t: string, i: nat, s: State, es: Elements, e: nat) returns (m: State)
    requires WellFormed(t, s) && s.stack != [] && s.stack[0] == Array
    requires ElementsOk(es) && |s.stack| + ElementsDepth(es) <= MAX_DEPTH
    requires At(t, i, PrintElements(es)) && e == i + |PrintElements(es)| < |t| && t[e] == ']'
    requires s.pos <= SkipWhitespace(t, i)
    ensures SkipWhitespace(t, i) < |t| && t[SkipWhitespace(t, i)] != ']'
    ensures ReadsTo(t, ReadValue(t, SkipWhitespace(t, i), s), ElementTokens(es), |s.stack|, m)
    ensures WellFormed(t, m)
    ensures Next(t, m) == Emit(Token(EndArray, "]"), State(e + 1, EndArray, s.stack[1..], true))
    decreases es, 1
  {
    hide Next, ReadValue, At, ReadsTo, Print, Tokens, Depth, ReadName, Blank;
    var v := es.value;
    var a, b, c := ElementPlaces(t, i, es);
    hide PrintElements;
    ValueStart(v);
    AtChar(t, a, Print(v), 0);
    BlankSkipped(t, i, es.before);
    DelimitedBy(t, b, es.after, c);
    ValueRead(t, a, s, v, b);
    m := After(v, s, b);
    if es.Element? {
      var first := m;
      m := ElementsRead(t, c + 1, first.(pos := c), es.rest, e);
      CommaRead(t, first, es.after, c);
      FollowNext(t, first, ElementTokens(es.rest), |s.stack|, m);
      ReadsToAppend(t, ReadValue(t, a, s), Tokens(v), ElementTokens(es.rest), |s.stack|, first, m);
    } else {
      CloseRead(t, m, es.after, c);
    }
  }

  /** Positions of the parts of a member: the quotes q and n, the colon k, and the value a..b. */
  lemma MemberPlaces(t: string, i: nat, ms: Members, tail: string)
    returns (q: nat, n: nat, k: nat, a: nat, b: nat, c: nat)
    requires At(t, i, PrintMembers(ms))
    requires tail == if ms.LastMember? then ms.after else ms.after + ("," + PrintMembers(ms.rest))
    ensures At(t, i, ms.before) && q == i + |ms.before| < |t| && t[q] == '"'
    ensures At(t, q + 1, ms.name) && n == q + 1 + |ms.name| < |t| && t[n] == '"' && t[q + 1..n] == ms.name
    ensures At(t, n + 1, ms.gap) && k == n + 1 + |ms.gap| < |t| && t[k] == ':'
    ensures At(t, k + 1, ms.lead) && a == k + 1 + |ms.lead|
    ensures At(t, a, Print(ms.value)) && b == a + |Print(ms.value)| && c == b + |ms.after|
    ensures At(t, b, tail) && i + |PrintMembers(ms)| == b + |tail|
  {
    hide At, Print;
    var rest := Print(ms.value) + tail;
    var second := ms.gap + (":" + (ms.lead + rest));
    q := i + |ms.before|;
    n := q + 1 + |ms.name|;
    k := n + 1 + |ms.gap|;
    a := k + 1 + |ms.lead|;
    b := a + |Print(ms.value)|;
    c := b + |ms.after|;
    assert PrintMembers(ms) == ms.before + ("\"" + (ms.name + ("\"" + second)));
    hide PrintMembers;
    AtSplit(t, i, ms.before, "\"" + (ms.name + ("\"" + second)));
    AtQuoted(t, q, ms.name, n, second);
    AtColon(t, n + 1, ms.gap, k, ms.lead, a, rest);
    AtSplit(t, a, Print(ms.value), tail);
    AtChar(t, q, "\"", 0);
    AtChar(t, n, "\"", 0);
    AtChar(t, k, ":", 0);
    AtSlice(t, q + 1, ms.name, n);
  }

  lemma LeadRead(t: string, named: State, lead: string, a: nat)
    requires WellFormed(t, named) && named.kind == PropertyName
    requires At(t, named.pos, lead) && Blank(lead) && a == named.pos + |lead| < |t| && !IsWhitespace(t[a])
    ensures Next(t, named) == ReadValue(t, a, named.(pos := a))
  {
    hide At, ReadValue, ReadAfterValue;
    BlankSkipped(t, named.pos, lead);
  }

  lemma NameToColon(t: string, q: nat, s: State, name: string, n: nat, k: nat)
    requires StringBody(name) && q < n < |t| && t[n] == '"' && t[q + 1..n] == name
    requires k == SkipWhitespace(t, n + 1) < |t| && t[k] == ':'
    ensures ReadName(t, q, s) == Emit(Token(PropertyName, name), s.(pos := k + 1, kind := PropertyName))
  {
    hide StringBody, ScanString;
    StringScanned(t, q + 1, n);
  }

  /** A property name is read up to its colon, and the value that follows is read next. */
  lemma NameRead(t: string, i: nat, s: State, ms: Members, q: nat, n: nat, k: nat, a: nat)
    requires WellFormed(t, s) && s.stack != [] && s.stack[0] == Object && MembersOk(ms)
    requires At(t, i, ms.before) && q == i + |ms.before| < |t| && t[q] == '"'
    requires n == q + 1 + |ms.name| < |t| && t[n] == '"' && t[q + 1..n] == ms.name
    requires At(t, n + 1, ms.gap) && k == n + 1 + |ms.gap| < |t| && t[k] == ':'
    requires At(t, k + 1, ms.lead) && a == k + 1 + |ms.lead| < |t| && !IsWhitespace(t[a])
    ensures var named := s.(pos := k + 1, kind := PropertyName);
      && SkipWhitespace(t, i) == q
      && ReadName(t, q, s) == Emit(Token(PropertyName, ms.name), named)
      && Next(t, named) == ReadValue(t, a, named.(pos := a))
  {
    hide At, ReadValue, ReadName, Next, StringBody;
    BlankSkipped(t, i, ms.before);
    BlankSkipped(t, n + 1, ms.gap);
    NameToColon(t, q, s, ms.name, n, k);
    LeadRead(t, s.(pos := k + 1, kind := PropertyName), ms.lead, a);
  }

  function MemberToken(ms: Members): Token { Token(PropertyName, ms.name) }

  /** One member, up to the end b of its value. */
  lemma MemberRead(t: string, i: nat, s: State, ms: Members, tail: string) returns (q: nat, b: nat)
    requires WellFormed(t, s) && s.stack != [] && s.stack[0] == Object
    requires MembersOk(ms) && |s.stack| + MembersDepth(ms) <= MAX_DEPTH
    requires At(t, i, PrintMembers(ms)) && s.pos <= SkipWhitespace(t, i)
    requires tail == if ms.LastMember? then ms.after else ms.after + ("," + PrintMembers(ms.rest))
    requires var e := i + |PrintMembers(ms)|; e < |t| && t[e] == '}'
    ensures q == SkipWhitespace(t, i) < |t| && t[q] == '"'
    ensures At(t, b, tail) && i + |PrintMembers(ms)| == b + |tail| && b <= |t|
    ensures ReadsTo(t, ReadName(t, q, s), [MemberToken(ms)] + Tokens(ms.value), |s.stack|, After(ms.value, s, b))
    decreases ms, 0
  {
    hide At, ReadValue, ReadName, Next, Print, Tokens, Depth, ReadsTo, PrintMembers, StringBody, Blank;
    var v := ms.value;
    var n, k, a, c;
    q, n, k, a, b, c := MemberPlaces(t, i, ms, tail);
    ValueStart(v);
    AtChar(t, a, Print(v), 0);
    NameRead(t, i, s, ms, q, n, k, a);
    if ms.Member? {
      AtSplit(t, b, ms.after, "," + PrintMembers(ms.rest));
      AtChar(t, c, "," + PrintMembers(ms.rest), 0);
    }
    DelimitedBy(t, b, ms.after, c);
    var named := s.(pos := k + 1, kind := PropertyName);
    ValueRead(t, a, named.(pos := a), v, b);
    assert After(v, named.(pos := a), b) == After(v, s, b);
    TokenThen(t, ReadName(t, q, s), Tokens(v), |s.stack|, After(v, s, b));
  }

  /** The members of an object, from just after '{' or ','. */
  lemma MembersRead(t: string, i: nat, s: State, ms: Members, e: nat) returns (m: State)
    requires WellFormed(t, s) && s.stack != [] && s.stack[0] == Object
    requires MembersOk(ms) && |s.stack| + MembersDepth(ms) <= MAX_DEPTH
    requires At(t, i, PrintMembers(ms)) && e == i + |PrintMembers(ms)| < |t| && t[e] == '}'
    requires s.pos <= SkipWhitespace(t, i)
    ensures SkipWhitespace(t, i) < |t| && t[SkipWhitespace(t, i)] == '"'
    ensures ReadsTo(t, ReadName(t, SkipWhitespace(t, i), s), MemberTokens(ms), |s.stack|, m)
    ensures WellFormed(t, m)
    ensures Next(t, m) == Emit(Token(EndObject, "}"), State(e + 1, EndObject, s.stack[1..], true))
    decreases ms, 1
  {
    hide At, ReadName, Next, ReadsTo, Print, Tokens, ReadValue, PrintMembers, StringBody, Blank;
    var tail := if ms.LastMember? then ms.after else ms.after + ("," + PrintMembers(ms.rest));
    var q, b := MemberRead(t, i, s, ms, tail);
    var c := b + |ms.after|;
    m := After(ms.value, s, b);
    if ms.Member? {
      AtSplit(t, b, ms.after, "," + PrintMembers(ms.rest));
      AtSplit(t, c, ",", PrintMembers(ms.rest));
      AtChar(t, c, ",", 0);
      var first := m;
      m := MembersRead(t, c + 1, first.(pos := c), ms.rest, e);
      CommaRead(t, first, ms.after, c);
      FollowNext(t, first, MemberTokens(ms.rest), |s.stack|, m);
      var own := [MemberToken(ms)] + Tokens(ms.value);
      ReadsToAppend(t, ReadName(t, q, s), own, MemberTokens(ms.rest), |s.stack|, first, m);
    } else {
      CloseRead(t, m, ms.after, c);
    }
  }

  /** The tokens between the first and the last one of a container. */
  function Inner(v: Value): seq<Token>
    requires IsContainer(v)
  {
    match v
    case Arr(es) => ElementTokens(es)
    case Obj(ms) => MemberTokens(ms)
    case _ => []
  }

  function BeginKind(v: Value): Kind { if v.EmptyArray? || v.Arr? then BeginArray else BeginObject }

  function Opened(v: Value, i: nat, s: State): State {
    State(i + 1, BeginKind(v), [if BeginKind(v) == BeginArray then Array else Object] + s.stack, true)
  }

  lemma EmptyPlaces(t: string, i: nat, v: Value, e: nat)
    requires (v.EmptyArray? || v.EmptyObject?) && At(t, i, Print(v)) && e == i + |Print(v)|
    ensures At(t, i + 1, v.blank) && e == i + 2 + |v.blank| <= |t| && [t[e - 1]] == if v.EmptyArray? then "]" else "}"
  {
    hide At;
    var open, close := if v.EmptyArray? then "[" else "{", if v.EmptyArray? then "]" else "}";
    AtSplit(t, i, open, v.blank + close);
    AtSplit(t, i + 1, v.blank, close);
    AtChar(t, e - 1, close, 0);
  }

  lemma EmptyRead(t: string, i: nat, s: State, v: Value, e: nat)
    requires WellFormed(t, s) && ValueOk(v) && (v.EmptyArray? || v.EmptyObject?) && |s.stack| < MAX_DEPTH
    requires At(t, i, Print(v)) && e == i + |Print(v)|
    ensures WellFormed(t, Opened(v, i, s))
    ensures Next(t, Opened(v, i, s)) == Emit(EndToken(v), After(v, s, e))
  {
    hide At, Print;
    EmptyPlaces(t, i, v, e);
    BlankSkipped(t, i + 1, v.blank);
  }

  function EndToken(v: Value): Token {
    if v.EmptyArray? || v.Arr? then Token(EndArray, "]") else Token(EndObject, "}")
  }

  lemma ContainerTokens(v: Value)
    requires IsContainer(v)
    ensures Tokens(v) == [Token(BeginKind(v), Print(v)[..1])] + (Inner(v) + [EndToken(v)])
  {
  }

  lemma FirstRead(t: string, open: State, j: nat)
    requires WellFormed(t, open) && j == SkipWhitespace(t, open.pos) < |t|
    requires (open.kind == BeginArray && t[j] != ']') || (open.kind == BeginObject && t[j] == '"')
    ensures Next(t, open) == if open.kind == BeginArray then ReadValue(t, j, open.(pos := j))
                             else ReadName(t, j, open.(pos := j))
  {
    hide ReadValue, ReadName, ReadAfterValue;
  }

  lemma ArrayRead(t: string, i: nat, s: State, es: Elements, e: nat) returns (m: State)
    requires WellFormed(t, s) && s.pos <= i && ValueOk(Arr(es))
    requires |s.stack| + Depth(Arr(es)) <= MAX_DEPTH && At(t, i, Print(Arr(es))) && e == i + |Print(Arr(es))|
    ensures WellFormed(t, Opened(Arr(es), i, s)) && WellFormed(t, m)
    ensures Follow(t, Opened(Arr(es), i, s), ElementTokens(es), |s.stack| + 1) == Reached(m)
    ensures Next(t, m) == Emit(EndToken(Arr(es)), After(Arr(es), s, e))
    decreases es, 2
  {
    hide At, ReadValue, ReadName, Next, ReadsTo, Tokens, Follow, PrintElements, ElementTokens;
    AtSplit(t, i, "[", PrintElements(es) + "]");
    AtSplit(t, i + 1, PrintElements(es), "]");
    AtChar(t, e - 1, "]", 0);
    var open := Opened(Arr(es), i, s);
    var j := SkipWhitespace(t, i + 1);
    m := ElementsRead(t, i + 1, open.(pos := j), es, e - 1);
    FirstRead(t, open, j);
    FollowNext(t, open, ElementTokens(es), |s.stack| + 1, m);
  }

  lemma ObjectRead(t: string, i: nat, s: State, ms: Members, e: nat) returns (m: State)
    requires WellFormed(t, s) && s.pos <= i && ValueOk(Obj(ms))
    requires |s.stack| + Depth(Obj(ms)) <= MAX_DEPTH && At(t, i, Print(Obj(ms))) && e == i + |Print(Obj(ms))|
    ensures WellFormed(t, Opened(Obj(ms), i, s)) && WellFormed(t, m)
    ensures Follow(t, Opened(Obj(ms), i, s), MemberTokens(ms), |s.stack| + 1) == Reached(m)
    ensures Next(t, m) == Emit(EndToken(Obj(ms)), After(Obj(ms), s, e))
    decreases ms, 2
  {
    hide At, ReadValue, ReadName, Next, ReadsTo, Tokens, Follow, PrintMembers, MemberTokens;
    AtSplit(t, i, "{", PrintMembers(ms) + "}");
    AtSplit(t, i + 1, PrintMembers(ms), "}");
    AtChar(t, e - 1, "}", 0);
    var open := Opened(Obj(ms), i, s);
    var j := SkipWhitespace(t, i + 1);
    m := MembersRead(t, i + 1, open.(pos := j), ms, e - 1);
    FirstRead(t, open, j);
    FollowNext(t, open, MemberTokens(ms), |s.stack| + 1, m);
  }

  /** From just inside a container, the reader stays inside for all of `Inner` and then closes it. */
  lemma ContainerRead(t: string, i: nat, s: State, v: Value, e: nat) returns (m: State)
    requires WellFormed(t, s) && s.pos <= i && ValueOk(v) && IsContainer(v)
    requires |s.stack| + Depth(v) <= MAX_DEPTH && At(t, i, Print(v)) && e == i + |Print(v)|
    ensures WellFormed(t, Opened(v, i, s)) && WellFormed(t, m)
    ensures Follow(t, Opened(v, i, s), Inner(v), |s.stack| + 1) == Reached(m)
    ensures Next(t, m) == Emit(EndToken(v), After(v, s, e))
    decreases v, 0
  {
    hide At, Next, Tokens, Print, ValueOk, WellFormed, After;
    if v.Arr? {
      m := ArrayRead(t, i, s, v.elements, e);
    } else if v.Obj? {
      m := ObjectRead(t, i, s, v.members, e);
    } else {
      m := Opened(v, i, s);
      EmptyRead(t, i, s, v, e);
    }
  }

  lemma OpenRead(t: string, i: nat, s: State, v: Value)
    requires WellFormed(t, s) && IsContainer(v) && |s.stack| < MAX_DEPTH && At(t, i, Print(v))
    ensures i < |t| && ReadValue(t, i, s) == Emit(Token(BeginKind(v), Print(v)[..1]), Opened(v, i, s))
  {
    hide At;
    AtChar(t, i, Print(v), 0);
    assert Print(v)[..1] == [t[i]];
  }

  /** A value written at i is read as exactly its tokens. */
  lemma ValueRead(t: string, i: nat, s: State, v: Value, e: nat)
    requires WellFormed(t, s) && s.pos <= i && ValueOk(v) && |s.stack| + Depth(v) <= MAX_DEPTH
    requires At(t, i, Print(v)) && e == i + |Print(v)| && EndsWell(v, t, e, s.complex)
    ensures i < |t| && ReadsTo(t, ReadValue(t, i, s), Tokens(v), |s.stack|, After(v, s, e))
    decreases v, 1
  {
    hide At, ReadValue, Next;
    var after := After(v, s, e);
    if !IsContainer(v) {
      ScalarRead(t, i, s, v, e);
      AtSlice(t, i, Print(v), e);
      OneToken(t, ReadValue(t, i, s), Tokens(v)[0], |s.stack|, after);
    } else {
      var m := ContainerRead(t, i, s, v, e);
      var open, inner, end := Opened(v, i, s), Inner(v), EndToken(v);
      NextProgress(t, m);
      OneToken(t, Next(t, m), end, |s.stack|, after);
      assert Follow(t, m, [end], |s.stack|) == Reached(after);
      FollowLower(t, open, inner, |s.stack| + 1, |s.stack|);
      FollowAppend(t, open, inner, [end], |s.stack|);
      ContainerTokens(v);
      OpenRead(t, i, s, v);
      assert Tokens(v)[1..] == inner + [end];
    }
  }

  lemma DocumentEnd(t: string, s: State)
    requires WellFormed(t, s) && s.kind != NoToken && s.stack == [] && SkipWhitespace(t, s.pos) == |t|
    ensures ReadAll(t, s) == Run([], Done)
  {
    hide Dispatch;
  }

  lemma DocumentStart(t: string, i: nat)
    requires i == SkipWhitespace(t, 0) < |t|
    ensures Next(t, START) == ReadValue(t, i, START.(pos := i))
  {
    hide ReadValue;
  }

  /** The reader inverts printing: whatever whitespace it is written with, a document is read as the
      pre-order token list of its tree and then the end of the data. */
  lemma PrintedIsRead(d: Document)
    requires Readable(d)
    ensures ReadAll(PrintDocument(d), START) == Run(Tokens(d.value), Done)
  {
    hide At, ReadValue, ReadsTo, Print, Next, ReadAll;
    var t, v := PrintDocument(d), d.value;
    var i := |d.before|;
    var e := i + |Print(v)|;
    AtWhole(t);
    AtSplit(t, 0, d.before, Print(v) + d.after);
    AtSplit(t, i, Print(v), d.after);
    ValueStart(v);
    AtChar(t, i, Print(v), 0);
    BlankSkipped(t, 0, d.before);
    if d.after != "" { AtChar(t, e, d.after, 0); }
    var s := START.(pos := i);
    ValueRead(t, i, s, v, e);
    DocumentStart(t, i);
    FollowNext(t, START, Tokens(v), 0, After(v, s, e));
    FollowRead(t, START, Tokens(v), 0);
    BlankSkipped(t, e, d.after);
    DocumentEnd(t, After(v, s, e));
  }

  /** Every tree whose numbers follow section 6 of RFC 8259, nested at most 64 deep, is readable whatever surrounds
      it. */
  lemma StrictIsReadable(d: Document)
    requires Blank(d.before) && ValueOk(d.value) && Blank(d.after) && Strict(d.value) && Depth(d.value) <= MAX_DEPTH
    ensures Readable(d)
  {
  }

  // The converse: a run that reaches the end of the data has read a printed document.

  ghost predicate Finishes(t: string, s: State)
    requires WellFormed(t, s)
  {
    ReadAll(t, s).end == Done
  }

  ghost predicate FinishesAfter(t: string, step: Step) {
    step.Emit? && WellFormed(t, step.next) && Finishes(t, step.next)
  }

  lemma InsideGoesOn(t: string, s: State)
    requires WellFormed(t, s) && s.stack != [] && Finishes(t, s)
    ensures FinishesAfter(t, Next(t, s))
    ensures var j := SkipWhitespace(t, s.pos); j < |t| && Next(t, s) == Dispatch(t, j, s.(pos := j))
  {
    hide Dispatch;
    NextProgress(t, s);
  }

  lemma FinishesBeyond(t: string, step: Step, tokens: seq<Token>, floor: nat, after: State)
    requires tokens != [] && ReadsTo(t, step, tokens, floor, after) && FinishesAfter(t, step) && WellFormed(t, after)
    ensures Finishes(t, after)
  {
    hide Next;
    FollowRead(t, step.next, tokens[1..], floor);
  }

  lemma ScalarParsed(t: string, i: nat, s: State) returns (v: Value)
    requires WellFormed(t, s) && s.pos <= i < |t| && t[i] != '[' && t[i] != '{' && ReadValue(t, i, s).Emit?
    ensures ValueOk(v) && !IsContainer(v) && At(t, i, Print(v))
    ensures EndsWell(v, t, i + |Print(v)|, s.complex)
  {
    hide At, PrintNumeral, ScanNumber, ScanString, StringBody, NumeralOk, WellFormed;
    if t[i] == '"' {
      v := StringParsed(t, i);
    } else if IsDigit(t[i]) || t[i] == '-' {
      var n := NumberParsed(t, i, s.complex);
      v := Num(n);
    } else {
      v := WordParsed(t, i, s);
    }
  }

  lemma WordParsed(t: string, i: nat, s: State) returns (v: Value)
    requires WellFormed(t, s) && s.pos <= i < |t| && ReadValue(t, i, s).Emit?
    requires t[i] !in {'[', '{', '"', '-'} && !IsDigit(t[i])
    ensures v.Word? && ValueOk(v) && At(t, i, Print(v))
  {
    hide At, ScanNumber, ScanString, WellFormed;
    v := Word(if t[i] == 't' then True else if t[i] == 'f' then False else Null);
    LiteralScanned(t, i, Spelling(v.kind));
  }

  lemma StringParsed(t: string, i: nat) returns (v: Value)
    requires i < |t| && t[i] == '"' && ScanString(t, i + 1).Upto?
    ensures v == Str(t[i + 1..ScanString(t, i + 1).end]) && ValueOk(v) && At(t, i, Print(v))
  {
    var n := ScanString(t, i + 1).end;
    StringScanned(t, i + 1, n);
    v := Str(t[i + 1..n]);
    assert Print(v) == t[i..n + 1];
  }

  /** What comes after a value inside a container: blanks, then a comma or the right closing mark. */
  lemma BetweenParsed(t: string, m: State) returns (after: string, c: nat)
    requires WellFormed(t, m) && m.stack != [] && Finishes(t, m)
    requires m.kind !in {NoToken, BeginObject, BeginArray, PropertyName}
    ensures At(t, m.pos, after) && Blank(after) && c == m.pos + |after| < |t|
    ensures t[c] == ',' || t[c] == if m.stack[0] == Object then '}' else ']'
    ensures t[c] == ',' ==> var j := SkipWhitespace(t, c + 1);
      && j < |t|
      && if m.stack[0] == Object then t[j] == '"' && FinishesAfter(t, ReadName(t, j, m.(pos := c)))
         else FinishesAfter(t, ReadValue(t, j, m.(pos := c)))
  {
    hide At, ReadValue, ReadName, FinishesAfter;
    InsideGoesOn(t, m);
    c := SkipWhitespace(t, m.pos);
    after := t[m.pos..c];
    SkippedIsBlank(t, m.pos);
    assert Next(t, m) == ReadAfterValue(t, c, m.(pos := c));
    FinishesIsEmit(t, Next(t, m));
  }

  lemma FinishesIsEmit(t: string, step: Step)
    requires FinishesAfter(t, step)
    ensures step.Emit?
  {
  }

  lemma LastKindIsOk(v: Value)
    requires ValueOk(v)
    ensures LastKind(v) !in {NoToken, BeginObject, BeginArray, PropertyName}
  {
  }

  lemma ScalarIsFlat(v: Value)
    requires !IsContainer(v)
    ensures Depth(v) == 0
  {
  }

  /** A value whose reading leads to the end of the data was a printed value. */
  lemma ValueParsed(t: string, i: nat, s: State) returns (v: Value, e: nat)
    requires WellFormed(t, s) && s.pos <= i < |t| && FinishesAfter(t, ReadValue(t, i, s))
    ensures ValueOk(v) && |s.stack| + Depth(v) <= MAX_DEPTH
    ensures At(t, i, Print(v)) && e == i + |Print(v)| <= |t| && EndsWell(v, t, e, s.complex)
    ensures WellFormed(t, After(v, s, e)) && Finishes(t, After(v, s, e))
    decreases |t| - i, 0
  {
    hide At, ReadValue, ReadsTo, FinishesAfter, Finishes, Print, Tokens, ValueOk, Depth, Ends;
    FinishesIsEmit(t, ReadValue(t, i, s));
    if t[i] == '[' {
      v := ArrayParsed(t, i, s);
    } else if t[i] == '{' {
      v := ObjectParsed(t, i, s);
    } else {
      v := ScalarParsed(t, i, s);
      ScalarIsFlat(v);
    }
    e := i + |Print(v)|;
    AtSlice(t, i, Print(v), e);
    LastKindIsOk(v);
    ValueRead(t, i, s, v, e);
    FinishesBeyond(t, ReadValue(t, i, s), Tokens(v), |s.stack|, After(v, s, e));
  }

  lemma OpenParsed(t: string, i: nat, s: State, isArray: bool)
    requires WellFormed(t, s) && s.pos <= i < |t| && t[i] == (if isArray then '[' else '{') && ReadValue(t, i, s).Emit?
    ensures |s.stack| < MAX_DEPTH
    ensures ReadValue(t, i, s).next
         == State(i + 1, if isArray then BeginArray else BeginObject,
                  [if isArray then Array else Object] + s.stack, true)
    ensures At(t, i, if isArray then "[" else "{")
  {
  }

  /** Just inside a container: it closes at once, or its first element or member begins. */
  lemma InsideParsed(t: string, open: State) returns (j: nat)
    requires WellFormed(t, open) && open.stack != [] && Finishes(t, open)
    requires open.kind == BeginArray || open.kind == BeginObject
    ensures j == SkipWhitespace(t, open.pos) < |t|
    ensures open.kind == BeginArray && t[j] != ']' ==> FinishesAfter(t, ReadValue(t, j, open.(pos := j)))
    ensures open.kind == BeginObject && t[j] != '}' ==> t[j] == '"' && FinishesAfter(t, ReadName(t, j, open.(pos := j)))
  {
    hide At, ReadValue, ReadName, ReadAfterValue, FinishesAfter;
    InsideGoesOn(t, open);
    FinishesIsEmit(t, Next(t, open));
    j := SkipWhitespace(t, open.pos);
  }

  lemma ContainerPrinted(t: string, i: nat, open: string, body: string, close: char, e: nat)
    requires At(t, i, open) && At(t, i + |open|, body) && e == i + |open| + |body| < |t| && t[e] == close
    ensures At(t, i, open + (body + [close]))
  {
    hide At;
    AtOne(t, e, close);
    AtSplit(t, i + |open|, body, [close]);
    AtSplit(t, i, open, body + [close]);
  }

  lemma FinishesOpen(t: string, i: nat, s: State)
    requires WellFormed(t, s) && s.pos <= i < |t| && FinishesAfter(t, ReadValue(t, i, s))
    ensures ReadValue(t, i, s).Emit? && WellFormed(t, ReadValue(t, i, s).next) && Finishes(t, ReadValue(t, i, s).next)
  {
    hide ReadValue;
  }

  lemma ArrayParsed(t: string, i: nat, s: State) returns (v: Value)
    requires WellFormed(t, s) && s.pos <= i < |t| && t[i] == '[' && FinishesAfter(t, ReadValue(t, i, s))
    ensures ValueOk(v) && IsContainer(v) && |s.stack| + Depth(v) <= MAX_DEPTH && At(t, i, Print(v))
    decreases |t| - i, 0, 0
  {
    hide At, ReadValue, FinishesAfter, PrintElements;
    FinishesOpen(t, i, s);
    OpenParsed(t, i, s, true);
    var open := ReadValue(t, i, s).next;
    var j := InsideParsed(t, open);
    if t[j] == ']' {
      SkippedIsBlank(t, i + 1);
      v := EmptyArray(t[i + 1..j]);
      ContainerPrinted(t, i, "[", v.blank, ']', j);
    } else {
      var es, e := ElementsParsed(t, i + 1, open.(pos := j));
      v := Arr(es);
      ContainerPrinted(t, i, "[", PrintElements(es), ']', e);
    }
  }

  lemma ObjectParsed(t: string, i: nat, s: State) returns (v: Value)
    requires WellFormed(t, s) && s.pos <= i < |t| && t[i] == '{' && FinishesAfter(t, ReadValue(t, i, s))
    ensures ValueOk(v) && IsContainer(v) && |s.stack| + Depth(v) <= MAX_DEPTH && At(t, i, Print(v))
    decreases |t| - i, 0, 0
  {
    hide At, ReadValue, ReadName, FinishesAfter, PrintMembers, StringBody;
    FinishesOpen(t, i, s);
    OpenParsed(t, i, s, false);
    var open := ReadValue(t, i, s).next;
    var j := InsideParsed(t, open);
    if t[j] == '}' {
      SkippedIsBlank(t, i + 1);
      v := EmptyObject(t[i + 1..j]);
      ContainerPrinted(t, i, "{", v.blank, '}', j);
    } else {
      var ms, e := MembersParsed(t, i + 1, open.(pos := j));
      v := Obj(ms);
      ContainerPrinted(t, i, "{", PrintMembers(ms), '}', e);
    }
  }

  lemma ElementsParsed(t: string, i: nat, s: State) returns (es: Elements, e: nat)
    requires WellFormed(t, s) && s.stack != [] && s.stack[0] == Array && i <= |t|
    requires var j := SkipWhitespace(t, i); s.pos <= j < |t| && FinishesAfter(t, ReadValue(t, j, s))
    ensures ElementsOk(es) && |s.stack| + ElementsDepth(es) <= MAX_DEPTH
    ensures At(t, i, PrintElements(es)) && e == i + |PrintElements(es)| < |t| && t[e] == ']'
    decreases |t| - i, 1
  {
    hide At, ReadValue, FinishesAfter, Finishes, ReadName, Print, Blank, EndsWell;
    var j := SkipWhitespace(t, i);
    var before := t[i..j];
    SkippedIsBlank(t, i);
    var v, b := ValueParsed(t, j, s);
    var after, c := BetweenParsed(t, After(v, s, b));
    if t[c] == ',' {
      var rest;
      rest, e := ElementsParsed(t, c + 1, After(v, s, b).(pos := c));
      es := Element(before, v, after, rest);
      CommaThen(t, c, PrintElements(rest));
      ThreeParts(t, i, before, j, Print(v), b, after, c, "," + PrintElements(rest));
    } else {
      e := c;
      es := LastElement(before, v, after);
      assert after + "" == after;
      ThreeParts(t, i, before, j, Print(v), b, after, c, "");
    }
  }

  lemma CommaThen(t: string, c: nat, rest: string)
    requires c < |t| && t[c] == ',' && At(t, c + 1, rest)
    ensures At(t, c, "," + rest)
  {
    hide At;
    AtOne(t, c, ',');
    AtSplit(t, c, ",", rest);
  }

  /** Blanks, a value, blanks and a tail, one after the other. */
  lemma ThreeParts(t: string, i: nat, before: string, j: nat, value: string, b: nat, after: string, c: nat,
                   tail: string)
    requires At(t, i, before) && At(t, j, value) && At(t, b, after)
    requires j == i + |before| && b == j + |value| && c == b + |after| <= |t| && (tail != "" ==> At(t, c, tail))
    ensures At(t, i, before + (value + (after + tail)))
  {
    if tail == "" { assert At(t, c, tail); }
    hide At;
    AtSplit(t, b, after, tail);
    AtSplit(t, j, value, after + tail);
    AtSplit(t, i, before, value + (after + tail));
  }

  lemma NamedGoesOn(t: string, step: Step)
    requires FinishesAfter(t, step) && step.next.kind == PropertyName
    ensures var a := SkipWhitespace(t, step.next.pos);
      a < |t| && FinishesAfter(t, ReadValue(t, a, step.next.(pos := a)))
  {
    hide ReadValue;
    InsideGoesOn(t, step.next);
  }

  lemma NamePrinted(t: string, i: nat, n: nat, k: nat, a: nat)
    requires i < n < k < a <= |t| && t[i] == '"' && t[n] == '"' && t[k] == ':'
    ensures At(t, i, "\"" + (t[i + 1..n] + ("\"" + (t[n + 1..k] + (":" + t[k + 1..a])))))
  {
    var name, gap, lead := t[i + 1..n], t[n + 1..k], t[k + 1..a];
    assert At(t, i + 1, name) && At(t, n + 1, gap) && At(t, k + 1, lead) && At(t, a, "");
    hide At;
    AtOne(t, i, '"');
    AtOne(t, n, '"');
    AtOne(t, k, ':');
    AtColon(t, n + 1, gap, k, lead, a, "");
    assert lead + "" == lead;
    AtQuoted(t, i, name, n, gap + (":" + lead));
  }

  lemma NameParsed(t: string, i: nat, s: State) returns (name: string, gap: string, lead: string, a: nat)
    requires WellFormed(t, s) && s.stack != [] && s.stack[0] == Object && s.pos <= i < |t| && t[i] == '"'
    requires FinishesAfter(t, ReadName(t, i, s))
    ensures StringBody(name) && Blank(gap) && Blank(lead)
    ensures At(t, i, "\"" + (name + ("\"" + (gap + (":" + lead)))))
    ensures a == i + |name| + |gap| + |lead| + 3 < |t|
    ensures var named := ReadName(t, i, s).next;
      && named.stack == s.stack && named.complex == s.complex && named.pos <= a && WellFormed(t, named.(pos := a))
      && FinishesAfter(t, ReadValue(t, a, named.(pos := a)))
    ensures ReadName(t, i, s).next.pos <= a
  {
    hide ReadValue, StringBody, ReadAfterValue, At, ScanString, FinishesAfter;
    FinishesIsEmit(t, ReadName(t, i, s));
    var n := ScanString(t, i + 1).end;
    var k := SkipWhitespace(t, n + 1);
    var named := ReadName(t, i, s).next;
    NamedGoesOn(t, ReadName(t, i, s));
    a := SkipWhitespace(t, k + 1);
    name, gap, lead := t[i + 1..n], t[n + 1..k], t[k + 1..a];
    StringScanned(t, i + 1, n);
    SkippedIsBlank(t, n + 1);
    SkippedIsBlank(t, k + 1);
    NamePrinted(t, i, n, k, a);
  }

  lemma MembersParsed(t: string, i: nat, s: State) returns (ms: Members, e: nat)
    requires WellFormed(t, s) && s.stack != [] && s.stack[0] == Object && i <= |t|
    requires var j := SkipWhitespace(t, i); s.pos <= j < |t| && t[j] == '"' && FinishesAfter(t, ReadName(t, j, s))
    ensures MembersOk(ms) && |s.stack| + MembersDepth(ms) <= MAX_DEPTH
    ensures At(t, i, PrintMembers(ms)) && e == i + |PrintMembers(ms)| < |t| && t[e] == '}'
    decreases |t| - i, 1
  {
    hide At, ReadValue, FinishesAfter, Finishes, ReadName, PrintMembers, Print, StringBody, Blank, EndsWell;
    var j := SkipWhitespace(t, i);
    var before := t[i..j];
    SkippedIsBlank(t, i);
    FinishesIsEmit(t, ReadName(t, j, s));
    var name, gap, lead, a := NameParsed(t, j, s);
    var named := ReadName(t, j, s).next.(pos := a);
    var v, b := ValueParsed(t, a, named);
    var after, c := BetweenParsed(t, After(v, named, b));
    var head := "\"" + (name + ("\"" + (gap + (":" + lead))));
    var tail;
    if t[c] == ',' {
      var rest;
      rest, e := MembersParsed(t, c + 1, After(v, named, b).(pos := c));
      ms := Member(before, name, gap, lead, v, after, rest);
      CommaThen(t, c, PrintMembers(rest));
      AtSplit(t, b, after, "," + PrintMembers(rest));
      tail := after + ("," + PrintMembers(rest));
    } else {
      e := c;
      ms := LastMember(before, name, gap, lead, v, after);
      tail := after;
    }
    ThreeParts(t, i, before, j, head, a, Print(v), b, tail);
    MemberPrinted(ms, head, tail);
  }

  lemma MemberPrinted(ms: Members, head: string, tail: string)
    requires head == "\"" + (ms.name + ("\"" + (ms.gap + (":" + ms.lead))))
    requires tail == if ms.LastMember? then ms.after else ms.after + ("," + PrintMembers(ms.rest))
    ensures PrintMembers(ms) == ms.before + (head + (Print(ms.value) + tail))
  {
  }

  lemma StartParsed(t: string) returns (i: nat)
    requires Finishes(t, START)
    ensures i == SkipWhitespace(t, 0) < |t| && FinishesAfter(t, ReadValue(t, i, START.(pos := i)))
  {
    hide ReadValue;
    i := SkipWhitespace(t, 0);
    NextProgress(t, START);
  }

  lemma EndParsed(t: string, s: State)
    requires WellFormed(t, s) && Finishes(t, s) && s.stack == []
    requires s.kind !in {NoToken, BeginObject, BeginArray, PropertyName}
    ensures SkipWhitespace(t, s.pos) == |t|
  {
    NextProgress(t, s);
  }

  /** The value of a run to the end of the data, from index i to e, with only blanks around it. */
  lemma WholeParsed(t: string) returns (i: nat, v: Value, e: nat)
    requires ReadAll(t, START).end == Done
    ensures i == SkipWhitespace(t, 0) <= e <= |t| && SkipWhitespace(t, e) == |t| && t[i..e] == Print(v)
    ensures ValueOk(v) && Depth(v) <= MAX_DEPTH && EndsWell(v, t, e, false)
  {
    hide At, ReadValue, Next, ReadAll, Print, EndsWell, ValueOk, Depth, FinishesAfter;
    i := StartParsed(t);
    v, e := ValueParsed(t, i, START.(pos := i));
    LastKindIsOk(v);
    EndParsed(t, After(v, START.(pos := i), e));
    AtSlice(t, i, Print(v), e);
  }

  /** A run that reaches the end of the data has read a printed document. */
  lemma ReadIsPrinted(t: string) returns (d: Document)
    requires ReadAll(t, START).end == Done
    ensures Readable(d) && t == PrintDocument(d)
  {
    hide At, ReadAll, Print, ValueOk, Depth, SkipWhitespace, Blank;
    var i, v, e := WholeParsed(t);
    SkippedIsBlank(t, 0);
    SkippedIsBlank(t, e);
    d := Document(t[0..i], v, t[e..|t|]);
    Around(t, i, Print(v), e);
  }

  lemma Around(t: string, i: nat, s: string, e: nat)
    requires i <= e <= |t| && t[i..e] == s
    ensures t == t[0..i] + (s + t[e..|t|])
  {
  }

  /** The reader accepts exactly the printed documents of at most 64 levels. */
  lemma AcceptsExactlyDocuments(t: string)
    ensures ReadAll(t, START).end == Done <==> exists d :: Readable(d) && t == PrintDocument(d)
  {
    if ReadAll(t, START).end == Done {
      var d := ReadIsPrinted(t);
    } else if d: Document :| Readable(d) && t == PrintDocument(d) {
      PrintedIsRead(d);
    }
  }

  /** A text has one token list: two trees printed alike have the same tokens. */
  lemma PrintIsUnambiguous(c: Document, d: Document)
    requires Readable(c) && Readable(d) && PrintDocument(c) == PrintDocument(d)
    ensures Tokens(c.value) == Tokens(d.value)
  {
    PrintedIsRead(c);
    PrintedIsRead(d);
  }

  // Which accepted texts RFC 8259 accepts.

  /** The only sign of a bare exponent mark that a caller sees: a number token that ends in 'e' or 'E'. */
  predicate EndsInMark(token: Token) {
    token.kind == Number && token.text != "" && IsExponentMark(token.text[|token.text| - 1])
  }

  predicate MarkFree(tokens: seq<Token>) { forall token :: token in tokens ==> !EndsInMark(token) }

  lemma MarkFreeConcat(a: seq<Token>, b: seq<Token>)
    ensures MarkFree(a + b) <==> MarkFree(a) && MarkFree(b)
  {
    assert forall token :: token in a + b <==> token in a || token in b;
  }

  lemma MarkFreeOne(token: Token)
    ensures MarkFree([token]) <==> !EndsInMark(token)
  {
    assert token in [token];
  }

  lemma BareMarkShows(n: Numeral)
    requires NumeralOk(n)
    ensures EndsInMark(Token(Number, PrintNumeral(n))) <==> BareMark(n.exponent)
  {
    var text, x := PrintNumeral(n), PrintExponent(n.exponent);
    if x != "" {
      assert text[|text| - 1] == x[|x| - 1];
    } else if n.fraction != "" {
      assert text[|text| - 1] == n.fraction[|n.fraction| - 1];
    } else {
      assert text[|text| - 1] == n.integer[|n.integer| - 1];
    }
  }

  /** The tokens of a value tell whether its numbers follow section 6. */
  lemma StrictShows(v: Value)
    requires ValueOk(v)
    ensures Strict(v) <==> MarkFree(Tokens(v))
    decreases v
  {
    hide PrintNumeral, EndsInMark, BareMark, NumeralOk, StringBody, Blank, MarkFree;
    match v
    case Num(n) =>
      BareMarkShows(n);
      MarkFreeOne(Token(Number, PrintNumeral(n)));
    case Arr(es) =>
      StrictElementsShow(es);
      InBrackets(Token(BeginArray, "["), ElementTokens(es), Token(EndArray, "]"));
    case Obj(ms) =>
      StrictMembersShow(ms);
      InBrackets(Token(BeginObject, "{"), MemberTokens(ms), Token(EndObject, "}"));
    case EmptyArray(_) => InBrackets(Token(BeginArray, "["), [], Token(EndArray, "]"));
    case EmptyObject(_) => InBrackets(Token(BeginObject, "{"), [], Token(EndObject, "}"));
    case Word(kind) => NotANumber(Token(kind, Spelling(kind)));
    case Str(body) => NotANumber(Token(String, body));
  }

  lemma NotANumber(token: Token)
    requires token.kind != Number
    ensures MarkFree([token])
  {
  }

  lemma InBrackets(open: Token, inner: seq<Token>, close: Token)
    requires open.kind != Number && close.kind != Number
    ensures MarkFree([open] + inner + [close]) <==> MarkFree(inner)
    ensures inner == [] ==> MarkFree([open, close])
  {
    hide EndsInMark, MarkFree;
    NotANumber(open);
    NotANumber(close);
    MarkFreeConcat([open], inner);
    MarkFreeConcat([open] + inner, [close]);
    MarkFreeConcat([open], [close]);
    assert [open] + [close] == [open, close];
  }

  lemma StrictElementsShow(es: Elements)
    requires ElementsOk(es)
    ensures StrictElements(es) <==> MarkFree(ElementTokens(es))
    decreases es
  {
    hide MarkFree, Blank;
    StrictShows(es.value);
    if es.Element? {
      StrictElementsShow(es.rest);
      MarkFreeConcat(Tokens(es.value), ElementTokens(es.rest));
    }
  }

  lemma StrictMembersShow(ms: Members)
    requires MembersOk(ms)
    ensures StrictMembers(ms) <==> MarkFree(MemberTokens(ms))
    decreases ms
  {
    hide MarkFree, Blank, StringBody;
    var named := [MemberToken(ms)] + Tokens(ms.value);
    StrictShows(ms.value);
    NotANumber(MemberToken(ms));
    MarkFreeConcat([MemberToken(ms)], Tokens(ms.value));
    if ms.Member? {
      StrictMembersShow(ms.rest);
      MarkFreeConcat(named, MemberTokens(ms.rest));
    }
  }

  /** The text of a tree of at most 64 levels whose numbers follow section 6 of RFC 8259. */
  ghost predicate IsJsonText(t: string) {
    exists d :: Readable(d) && Strict(d.value) && t == PrintDocument(d)
  }

  /** Whatever tree a text is read from, it is a text of RFC 8259 exactly when that tree's numbers are. */
  lemma StrictIsOfTheText(d: Document)
    requires Readable(d)
    ensures IsJsonText(PrintDocument(d)) <==> Strict(d.value)
  {
    hide Readable, Strict, Tokens, PrintDocument;
    if IsJsonText(PrintDocument(d)) {
      var c :| Readable(c) && Strict(c.value) && PrintDocument(d) == PrintDocument(c);
      PrintIsUnambiguous(c, d);
      ReadableIsOk(c);
      ReadableIsOk(d);
      StrictShows(c.value);
      StrictShows(d.value);
    }
  }

  lemma ReadableIsOk(d: Document)
    requires Readable(d)
    ensures ValueOk(d.value)
  {
  }

  /** The texts of RFC 8259, at most 64 levels deep, are exactly those read to the end of the data without a
      number token that ends in an exponent mark. */
  lemma ReadsExactlyJson(t: string)
    ensures IsJsonText(t) <==> ReadAll(t, START).end == Done && MarkFree(ReadAll(t, START).tokens)
  {
    hide ReadAll, Readable, Strict, Tokens, PrintDocument, MarkFree, ValueOk;
    AcceptsExactlyDocuments(t);
    if d: Document :| Readable(d) && t == PrintDocument(d) {
      PrintedIsRead(d);
      ReadableIsOk(d);
      StrictShows(d.value);
      StrictIsOfTheText(d);
    }
  }

  /** One text between the two: "1e " is read as a number and is no text of RFC 8259. */
  lemma BareMarkExample()
    ensures ReadAll("1e ", START) == Run([Token(Number, "1e")], Done) && !IsJsonText("1e ")
  {
    var n := Numeral(false, "1", "", Exponent('e', "", ""));
    var d := Document("", Num(n), " ");
    assert PrintNumeral(n) == "1e";
    assert PrintDocument(d) == "1e ";
    PrintedIsRead(d);
    StrictIsOfTheText(d);
  }

  // Skipping.

  lemma {:induction false} SkipFollows(t: string, s: State, tokens: seq<Token>, floor: nat)
    requires WellFormed(t, s) && Follow(t, s, tokens, floor).Reached?
    ensures SkipFrom(t, s, floor) == SkipFrom(t, Follow(t, s, tokens, floor).state, floor)
    decreases tokens
  {
    hide Next;
    if tokens != [] {
      NextProgress(t, s);
      SkipFollows(t, Next(t, s).next, tokens[1..], floor);
    }
  }

  /** From the start of a container, skip_children stops on the matching end, one level up. */
  lemma SkipLandsOnEnd(t: string, i: nat, s: State, v: Value, e: nat)
    requires WellFormed(t, s) && s.pos <= i && ValueOk(v) && IsContainer(v)
    requires |s.stack| + Depth(v) <= MAX_DEPTH && At(t, i, Print(v)) && e == i + |Print(v)|
    ensures WellFormed(t, Opened(v, i, s)) && SkipValue(t, Opened(v, i, s)) == Landed(After(v, s, e))
  {
    hide At, Next, Print, Follow;
    var m := ContainerRead(t, i, s, v, e);
    SkipFollows(t, Opened(v, i, s), Inner(v), |s.stack| + 1);
  }

  /** From a property name, skip_children moves past the whole value, container or not. */
  lemma SkipFromName(t: string, named: State, lead: string, v: Value, e: nat)
    requires WellFormed(t, named) && named.kind == PropertyName
    requires ValueOk(v) && |named.stack| + Depth(v) <= MAX_DEPTH
    requires var i := named.pos + |lead|;
      && At(t, named.pos, lead) && Blank(lead) && At(t, i, Print(v)) && e == i + |Print(v)|
      && EndsWell(v, t, e, true)
    ensures SkipValue(t, named) == Landed(After(v, named, e))
  {
    hide At, Next, Print, ReadValue, SkipFrom;
    var i := named.pos + |lead|;
    ValueStart(v);
    AtChar(t, i, Print(v), 0);
    LeadRead(t, named, lead, i);
    var s := named.(pos := i);
    if IsContainer(v) {
      OpenRead(t, i, s, v);
      SkipLandsOnEnd(t, i, s, v, e);
    } else {
      ScalarRead(t, i, s, v, e);
    }
  }
}
