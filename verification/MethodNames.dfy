/** Exactly which texts the parser of method names takes, and as what, by the way they are written. */
module MethodNames {
  import opened Common
  import opened Names

  // Numbers.

  /** The value of a string of digits, however long. */
  function ValueOf(s: string): nat
    requires forall k :: 0 <= k < |s| ==> IsDigit(s[k])
  {
    if s == "" then 0
    else
      assert IsDigit(s[|s| - 1]);
      10 * ValueOf(s[..|s| - 1]) + (s[|s| - 1] as int - '0' as int)
  }

  predicate Digits(s: string) { s != "" && forall k :: 0 <= k < |s| ==> IsDigit(s[k]) }

  /** One or more digits, perhaps after a plus sign, with a value of 32 bits. */
  predicate Spells(s: string, n: nat) {
    var digits := if s != "" && s[0] == '+' then s[1..] else s;
    Digits(digits) && ValueOf(digits) == n < 0x1_0000_0000
  }

  /** From index i on the digit loop computes the value of all digits from `from` on, unless it passes 32 bits. */
  lemma {:induction false} AccumulateIs(s: string, from: nat, i: nat, value: nat)
    requires from <= i <= |s| && value < UINT32
    requires forall k :: from <= k < i ==> IsDigit(s[k])
    requires ValueOf(s[from..i]) == value
    ensures Accumulate(s, i, value) ==
      if (forall k :: i <= k < |s| ==> IsDigit(s[k])) && ValueOf(s[from..]) < UINT32 then Number(ValueOf(s[from..]))
      else NotANumber
    decreases |s| - i
  {
    if i == |s| {
      assert s[from..i] == s[from..];
    } else if IsDigit(s[i]) {
      var d := s[i] as int - '0' as int;
      assert s[from..i + 1][..i - from] == s[from..i];
      assert ValueOf(s[from..i + 1]) == 10 * value + d;
      if (UINT32 - 1 - d) / 10 < value {
        if forall k :: i <= k < |s| ==> IsDigit(s[k]) { ValueGrows(s, from, i + 1, |s|); }
      } else {
        AccumulateIs(s, from, i + 1, value * 10 + d);
      }
    }
  }

  lemma {:induction false} ValueGrows(s: string, from: nat, i: nat, j: nat)
    requires from <= i <= j <= |s| && forall k :: from <= k < |s| ==> IsDigit(s[k])
    ensures ValueOf(s[from..i]) <= ValueOf(s[from..j])
    ensures s[from..|s|] == s[from..]
    decreases j
  {
    if i < j {
      assert s[from..j][..j - 1 - from] == s[from..j - 1];
      ValueGrows(s, from, i, j - 1);
    }
  }

  /** az_span_atou32 takes exactly the spellings of 32-bit numbers, for their value. */
  lemma NumberIsExact(s: string, n: nat)
    ensures Atou32(s) == Number(n) <==> Spells(s, n)
  {
    if s != "" {
      if IsDigit(s[0]) {
        AccumulateIs(s, 0, 0, 0);
        assert s[0..] == s;
      } else if s[0] == '+' {
        AccumulateIs(s, 1, 1, 0);
      }
    }
  }

  /** Numbers are printed without leading zeros, with their own value; versions in keys as numbers of 32 signed bits. */
  lemma {:induction false} DecimalIsPlain(n: nat)
    ensures Digits(Decimal(n)) && ValueOf(Decimal(n)) == n && (Decimal(n)[0] == '0' <==> n == 0)
  {
    if n >= 10 {
      DecimalIsPlain(n / 10);
      assert Decimal(n)[..|Decimal(n)| - 1] == Decimal(n / 10);
    } else {
      assert ValueOf([Digit(n)]) == 10 * ValueOf("") + n by { assert [Digit(n)][..0] == ""; }
    }
  }

  lemma SignedIsTwosComplement(version: nat)
    requires version < 0x1_0000_0000
    ensures var s := SignedDecimal(version);
      && s != ""
      && if version < 0x8000_0000 then Digits(s) && ValueOf(s) == version
         else s[0] == '-' && Digits(s[1..]) && version + ValueOf(s[1..]) == 0x1_0000_0000
  {
    DecimalIsPlain(version);
    if version >= INT32 {
      DecimalIsPlain(UINT32 - version);
      assert SignedDecimal(version)[1..] == Decimal(UINT32 - version);
    }
  }

  // Names.

  /** s is the head, the mark and the rest; or, without a mark behind its first character, all rest. */
  predicate Divides(s: string, c: char, head: string, rest: string) {
    if head != "" then Without(head, c) && s == head + ([c] + rest)
    else s == rest && (Without(s, c) || s[0] == c)
  }

  lemma DividesIs(s: string, c: char, head: string, rest: string)
    ensures Divides(s, c, head, rest) <==>
      match CutAt(s, c)
      case Pair(h, t) => head == h && rest == t
      case NoPair => head == "" && rest == s
  {
    hide IndexOf;
    if head != "" && Without(head, c) && s == head + ([c] + rest) { CutIs(head, c, rest); }
    var i := IndexOf(s, c);
    if i > 0 { assert s == s[..i] + ([c] + s[i + 1..]); }
    if i == 0 && s[0] == c { assert !Without(s, c); }
    if head == "" && s == rest && i > 0 { assert s[..i][0] != c; }
  }

  /** A package version: a number, or '*' for the default. */
  predicate SpellsVersion(s: string, n: nat) { if s == "*" then n == 0 else Spells(s, n) }

  lemma VersionIsExact(s: string, n: nat)
    requires s != ""
    ensures ParseVersion(s) == Number(n) <==> SpellsVersion(s, n)
  {
    NumberIsExact(s, n);
  }

  /** device@package.version.interface.version:capability, device and capability optional.  A mark that comes first is
      none, and an empty capability is the same as none. */
  predicate Written(s: string, m: Method, named: string, body: string, pv: string, iv: string) {
    && Divides(s, '@', m.device, named)
    && (if Divides(named, ':', "", named) then body == named && m.capability == ""
        else body != "" && Divides(named, ':', body, m.capability))
    && body == Dotted(m.package, pv, m.intf, iv)
    && m.package != "" && Without(m.package, '.') && pv != "" && Without(pv, '.')
    && m.intf != "" && Without(m.intf, '.')
    && SpellsVersion(pv, m.packageVersion) && Spells(iv, m.intfVersion)
  }

  /** The dotted part of a name that is taken. */
  lemma BodyIsWritten(device: string, body: string, capability: string, m: Method) returns (pv: string, iv: string)
    requires SplitBody(device, body, capability) == Parts(m)
    ensures m.device == device && m.capability == capability && body == Dotted(m.package, pv, m.intf, iv)
    ensures m.package != "" && Without(m.package, '.') && pv != "" && Without(pv, '.')
    ensures m.intf != "" && Without(m.intf, '.')
    ensures SpellsVersion(pv, m.packageVersion) && Spells(iv, m.intfVersion)
  {
    hide IndexOf, Atou32, Spells, CutAt, ParseVersion, Dotted;
    var first := CutAt(body, '.');
    var second := CutAt(first.tail, '.');
    var third := CutAt(second.tail, '.');
    pv, iv := second.head, third.tail;
    PairParts(body, '.');
    PairParts(first.tail, '.');
    PairParts(second.tail, '.');
    VersionIsExact(pv, m.packageVersion);
    NumberIsExact(iv, m.intfVersion);
    DottedIs(m.package, pv, m.intf, iv);
  }

  lemma DottedIs(package: string, pv: string, intf: string, iv: string)
    ensures Dotted(package, pv, intf, iv) == package + (['.'] + (pv + (['.'] + (intf + (['.'] + iv)))))
  {
  }

  lemma PairParts(s: string, c: char)
    ensures CutAt(s, c).Pair? ==>
      CutAt(s, c).head != "" && Without(CutAt(s, c).head, c) && s == CutAt(s, c).head + ([c] + CutAt(s, c).tail)
  {
    hide IndexOf;
    var i := IndexOf(s, c);
    if i > 0 { assert s == s[..i] + ([c] + s[i + 1..]); }
  }

  lemma TakenIsWritten(s: string, m: Method) returns (named: string, body: string, pv: string, iv: string)
    requires SplitMethodName(s) == Parts(m)
    ensures Written(s, m, named, body, pv, iv)
  {
    hide CutAt, SplitBody, Divides, SpellsVersion, Spells, Dotted;
    var at := CutAt(s, '@');
    named := if at.Pair? then at.tail else s;
    var colon := CutAt(named, ':');
    body := if colon.Pair? then colon.head else named;
    pv, iv := BodyIsWritten(if at.Pair? then at.head else "", body, if colon.Pair? then colon.tail else "", m);
    DividesIs(s, '@', m.device, named);
    DividesIs(named, ':', "", named);
    DividesIs(named, ':', body, m.capability);
    PairParts(s, '@');
    PairParts(named, ':');
  }

  lemma WrittenIsTaken(s: string, m: Method, named: string, body: string, pv: string, iv: string)
    requires Written(s, m, named, body, pv, iv)
    ensures SplitMethodName(s) == Parts(m)
  {
    hide CutAt, SplitBody, Divides, SpellsVersion, Spells, Dotted, ParseVersion, Atou32;
    DividesIs(s, '@', m.device, named);
    DividesIs(named, ':', "", named);
    DividesIs(named, ':', body, m.capability);
    PairParts(s, '@');
    PairParts(named, ':');
    VersionIsExact(pv, m.packageVersion);
    NumberIsExact(iv, m.intfVersion);
    BodySplits(m.device, m.package, pv, m.intf, iv, m.capability);
  }

  /** The parser takes a text as the parts m if and only if it is m written out; it refuses every other text. */
  lemma NameIsExact(s: string, m: Method)
    ensures SplitMethodName(s) == Parts(m) <==> exists named, body, pv, iv :: Written(s, m, named, body, pv, iv)
  {
    hide Written, SplitMethodName;
    if SplitMethodName(s) == Parts(m) {
      var named, body, pv, iv := TakenIsWritten(s, m);
    }
    forall named, body, pv, iv | Written(s, m, named, body, pv, iv) ensures SplitMethodName(s) == Parts(m) {
      WrittenIsTaken(s, m, named, body, pv, iv);
    }
  }
}
