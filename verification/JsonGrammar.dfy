/** JSON documents as trees, after RFC 8259: a grammar that owes nothing to the reader.

    A tree records the whitespace at every place where section 2 allows it, so `Print` ranges over
    every way to write a value.  A number keeps its parts.  The reader takes one family of numbers
    that section 6 does not: a bare exponent mark (`1e`); `Strict` shuts it out. */
module JsonGrammar {
  import opened Common
  import opened JsonScan

  datatype Exponent = NoExponent | Exponent(mark: char, sign: string, digits: string)

  datatype Numeral = Numeral(minus: bool, integer: string, fraction: string, exponent: Exponent)

  datatype Value =
    | Word(kind: Kind)
    | Str(body: string)
    | Num(numeral: Numeral)
    | EmptyArray(blank: string)
    | Arr(elements: Elements)
    | EmptyObject(blank: string)
    | Obj(members: Members)

  datatype Elements =
    | LastElement(before: string, value: Value, after: string)
    | Element(before: string, value: Value, after: string, rest: Elements)

  datatype Members =
    | LastMember(before: string, name: string, gap: string, lead: string, value: Value, after: string)
    | Member(before: string, name: string, gap: string, lead: string, value: Value, after: string, rest: Members)

  datatype Document = Document(before: string, value: Value, after: string)

  function PrintExponent(e: Exponent): string {
    if e.NoExponent? then "" else [e.mark] + (e.sign + e.digits)
  }

  function PrintFraction(f: string): string { if f == "" then "" else "." + f }

  function PrintNumeral(n: Numeral): string {
    (if n.minus then "-" else "") + (n.integer + (PrintFraction(n.fraction) + PrintExponent(n.exponent)))
  }

  function Spelling(kind: Kind): string {
    match kind
    case True => "true"
    case False => "false"
    case _ => "null"
  }

  function Print(v: Value): string {
    match v
    case Word(kind) => Spelling(kind)
    case Str(body) => "\"" + (body + "\"")
    case Num(n) => PrintNumeral(n)
    case EmptyArray(blank) => "[" + (blank + "]")
    case Arr(es) => "[" + (PrintElements(es) + "]")
    case EmptyObject(blank) => "{" + (blank + "}")
    case Obj(ms) => "{" + (PrintMembers(ms) + "}")
  }

  function PrintElements(es: Elements): string {
    match es
    case LastElement(before, v, after) => before + (Print(v) + after)
    case Element(before, v, after, rest) => before + (Print(v) + (after + ("," + PrintElements(rest))))
  }

  function PrintMembers(ms: Members): string {
    match ms
    case LastMember(before, name, gap, lead, v, after) =>
      before + ("\"" + (name + ("\"" + (gap + (":" + (lead + (Print(v) + after)))))))
    case Member(before, name, gap, lead, v, after, rest) =>
      before + ("\"" + (name + ("\"" + (gap + (":" + (lead + (Print(v) + (after + ("," + PrintMembers(rest))))))))))
  }

  function PrintDocument(d: Document): string { d.before + (Print(d.value) + d.after) }

  /** The pre-order token list of a value. */
  function Tokens(v: Value): (ts: seq<Token>)
    ensures ts != []
  {
    match v
    case Word(kind) => [Token(kind, Spelling(kind))]
    case Str(body) => [Token(String, body)]
    case Num(n) => [Token(Number, PrintNumeral(n))]
    case EmptyArray(_) => [Token(BeginArray, "["), Token(EndArray, "]")]
    case Arr(es) => [Token(BeginArray, "[")] + ElementTokens(es) + [Token(EndArray, "]")]
    case EmptyObject(_) => [Token(BeginObject, "{"), Token(EndObject, "}")]
    case Obj(ms) => [Token(BeginObject, "{")] + MemberTokens(ms) + [Token(EndObject, "}")]
  }

  function ElementTokens(es: Elements): (ts: seq<Token>)
    ensures ts != []
  {
    match es
    case LastElement(_, v, _) => Tokens(v)
    case Element(_, v, _, rest) => Tokens(v) + ElementTokens(rest)
  }

  function MemberTokens(ms: Members): (ts: seq<Token>)
    ensures ts != []
  {
    match ms
    case LastMember(_, name, _, _, v, _) => [Token(PropertyName, name)] + Tokens(v)
    case Member(_, name, _, _, v, _, rest) => [Token(PropertyName, name)] + Tokens(v) + MemberTokens(rest)
  }

  function Max(a: nat, b: nat): nat { if a < b then b else a }

  /** Nesting depth: the number of containers open at once. */
  function Depth(v: Value): nat {
    match v
    case EmptyArray(_) => 1
    case EmptyObject(_) => 1
    case Arr(es) => 1 + ElementsDepth(es)
    case Obj(ms) => 1 + MembersDepth(ms)
    case _ => 0
  }

  function ElementsDepth(es: Elements): nat {
    match es
    case LastElement(_, v, _) => Depth(v)
    case Element(_, v, _, rest) => Max(Depth(v), ElementsDepth(rest))
  }

  function MembersDepth(ms: Members): nat {
    match ms
    case LastMember(_, _, _, _, v, _) => Depth(v)
    case Member(_, _, _, _, v, _, rest) => Max(Depth(v), MembersDepth(rest))
  }

  predicate Blank(w: string) { forall k :: 0 <= k < |w| ==> IsWhitespace(w[k]) }

  predicate Digits(s: string) { forall k :: 0 <= k < |s| ==> IsDigit(s[k]) }

  /** Section 7: unescaped characters, two-character escapes and \uXXXX. */
  predicate StringBody(s: string) {
    if s == "" then true
    else if s[0] == '\\' then
      |s| >= 2 &&
      if s[1] == 'u' then |s| >= 6 && (forall k :: 2 <= k < 6 ==> IsHex(s[k])) && StringBody(s[6..])
      else IsEscape(s[1]) && StringBody(s[2..])
    else s[0] != '"' && s[0] >= ' ' && StringBody(s[1..])
  }

  predicate BareMark(e: Exponent) { e.Exponent? && e.digits == "" }

  /** Section 6, with the digits of an unsigned exponent optional. */
  predicate ExponentOk(e: Exponent) {
    e.Exponent? ==>
      && IsExponentMark(e.mark) && Digits(e.digits)
      && (e.sign == "" || ((e.sign == "-" || e.sign == "+") && e.digits != ""))
  }

  predicate NumeralOk(n: Numeral) {
    && Digits(n.integer) && n.integer != "" && (n.integer[0] == '0' ==> |n.integer| == 1)
    && Digits(n.fraction)
    && ExponentOk(n.exponent)
  }

  predicate ValueOk(v: Value) {
    match v
    case Word(kind) => kind == True || kind == False || kind == Null
    case Str(body) => StringBody(body)
    case Num(n) => NumeralOk(n)
    case EmptyArray(blank) => Blank(blank)
    case Arr(es) => ElementsOk(es)
    case EmptyObject(blank) => Blank(blank)
    case Obj(ms) => MembersOk(ms)
  }

  predicate ElementsOk(es: Elements) {
    match es
    case LastElement(before, v, after) => Blank(before) && ValueOk(v) && Blank(after)
    case Element(before, v, after, rest) => Blank(before) && ValueOk(v) && Blank(after) && ElementsOk(rest)
  }

  predicate MembersOk(ms: Members) {
    match ms
    case LastMember(before, name, gap, lead, v, after) =>
      Blank(before) && StringBody(name) && Blank(gap) && Blank(lead) && ValueOk(v) && Blank(after)
    case Member(before, name, gap, lead, v, after, rest) =>
      Blank(before) && StringBody(name) && Blank(gap) && Blank(lead) && ValueOk(v) && Blank(after) && MembersOk(rest)
  }

  /** Every number of the tree is a number of section 6. */
  predicate Strict(v: Value) {
    match v
    case Num(n) => !BareMark(n.exponent)
    case Arr(es) => StrictElements(es)
    case Obj(ms) => StrictMembers(ms)
    case _ => true
  }

  predicate StrictElements(es: Elements) {
    match es
    case LastElement(_, v, _) => Strict(v)
    case Element(_, v, _, rest) => Strict(v) && StrictElements(rest)
  }

  predicate StrictMembers(ms: Members) {
    match ms
    case LastMember(_, _, _, _, v, _) => Strict(v)
    case Member(_, _, _, _, v, _, rest) => Strict(v) && StrictMembers(rest)
  }

  /** A document the reader takes: a bare exponent mark must not be the last character of the text. */
  predicate Readable(d: Document) {
    && Blank(d.before) && ValueOk(d.value) && Blank(d.after)
    && Depth(d.value) <= MAX_DEPTH
    && (d.value.Num? && BareMark(d.value.numeral.exponent) ==> d.after != "")
  }

  function LastKind(v: Value): Kind {
    match v
    case Word(kind) => kind
    case Str(_) => String
    case Num(_) => Number
    case EmptyArray(_) => EndArray
    case Arr(_) => EndArray
    case EmptyObject(_) => EndObject
    case Obj(_) => EndObject
  }

  predicate IsContainer(v: Value) { v.EmptyArray? || v.Arr? || v.EmptyObject? || v.Obj? }
}
