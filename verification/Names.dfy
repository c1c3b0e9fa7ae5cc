/** Method names: how they are printed in three places, and the parser that takes them apart.

    `Decimal`, `Atou32` and `IndexOf` stand for az_span_u32toa, az_span_atou32 and az_span_find. */
module Names {
  import opened Common

  const UINT32 := 0x1_0000_0000
  const INT32 := 0x8000_0000

  function Digit(d: nat): char
    requires d < 10
  {
    ('0' as int + d) as char
  }

  function Decimal(n: nat): (s: string)
    ensures s != "" && forall k :: 0 <= k < |s| ==> IsDigit(s[k])
  {
    if n < 10 then [Digit(n)] else Decimal(n / 10) + [Digit(n % 10)]
  }

  /** az_span_i32toa of a version cast to int32. */
  function SignedDecimal(version: nat): string
    requires version < UINT32
  {
    if version < INT32 then Decimal(version) else "-" + Decimal(UINT32 - version)
  }

  datatype Number = Number(value: nat) | NotANumber

  /** The digit loop of az_span_atou32, from index i with the value so far. */
  function Accumulate(s: string, i: nat, value: nat): (r: Number)
    requires i <= |s| && value < UINT32
    ensures r.Number? ==> r.value < UINT32
    decreases |s| - i
  {
    if i == |s| then Number(value)
    else if !IsDigit(s[i]) then NotANumber
    else
      var d := s[i] as int - '0' as int;
      if (UINT32 - 1 - d) / 10 < value then NotANumber
      else Accumulate(s, i + 1, value * 10 + d)
  }

  function Atou32(s: string): (r: Number)
    ensures r.Number? ==> r.value < UINT32
  {
    if |s| < 1 then NotANumber
    else if IsDigit(s[0]) then Accumulate(s, 0, 0)
    else if s[0] != '+' || |s| < 2 then NotANumber
    else Accumulate(s, 1, 0)
  }

  lemma {:induction false} AccumulateDecimal(n: nat, rest: string)
    requires n < UINT32
    ensures Accumulate(Decimal(n) + rest, 0, 0) == Accumulate(Decimal(n) + rest, |Decimal(n)|, n)
  {
    var s := Decimal(n) + rest;
    if n < 10 {
      assert s[0] == Digit(n);
    } else {
      var more := [Digit(n % 10)] + rest;
      assert s == Decimal(n / 10) + more;
      AccumulateDecimal(n / 10, more);
      assert s[|Decimal(n / 10)|] == Digit(n % 10);
    }
  }

  lemma NumberRoundTrip(n: nat)
    requires n < UINT32
    ensures Atou32(Decimal(n)) == Number(n)
  {
    AccumulateDecimal(n, "");
    assert Decimal(n) + "" == Decimal(n);
  }

  lemma DecimalIsInjective(m: nat, n: nat)
    requires m < UINT32 && n < UINT32 && Decimal(m) == Decimal(n)
    ensures m == n
  {
    NumberRoundTrip(m);
    NumberRoundTrip(n);
  }

  lemma SignedDecimalIsInjective(m: nat, n: nat)
    requires m < UINT32 && n < UINT32 && SignedDecimal(m) == SignedDecimal(n)
    ensures m == n
  {
    if m < INT32 {
      assert IsDigit(SignedDecimal(m)[0]);
      DecimalIsInjective(m, n);
    } else {
      assert SignedDecimal(m)[0] == '-';
      assert SignedDecimal(m)[1..] == Decimal(UINT32 - m) && SignedDecimal(n)[1..] == Decimal(UINT32 - n);
      DecimalIsInjective(UINT32 - m, UINT32 - n);
    }
  }

  predicate Without(s: string, c: char) { forall k :: 0 <= k < |s| ==> s[k] != c }

  /** The first index of c, or -1. */
  function IndexOf(s: string, c: char): (i: int)
    ensures -1 <= i < |s|
    ensures i == -1 <==> Without(s, c)
    ensures i >= 0 ==> s[i] == c && Without(s[..i], c)
  {
    if s == "" then -1
    else if s[0] == c then 0
    else
      var i := IndexOf(s[1..], c);
      if i == -1 then assert forall k :: 0 < k < |s| ==> s[k] == s[1..][k - 1]; -1
      else
        assert s[..i + 1] == [s[0]] + s[1..][..i];
        i + 1
  }

  lemma FirstAt(s: string, c: char, n: nat)
    requires n < |s| && s[n] == c && forall k :: 0 <= k < n ==> s[k] != c
    ensures IndexOf(s, c) == n
  {
    hide IndexOf;
    var i := IndexOf(s, c);
    assert forall k :: 0 <= k < i ==> s[k] == s[..i][k];
  }

  lemma IndexAfter(head: string, c: char, tail: string)
    requires Without(head, c)
    ensures IndexOf(head + ([c] + tail), c) == |head|
    ensures (head + ([c] + tail))[..|head|] == head && (head + ([c] + tail))[|head| + 1..] == tail
  {
    hide IndexOf;
    FirstAt(head + ([c] + tail), c, |head|);
  }

  // The parser.

  datatype Method = Method(device: string, package: string, packageVersion: nat, intf: string, intfVersion: nat,
                           capability: string)

  datatype Split = Parts(parts: Method) | UnexpectedChar

  datatype Pair = Pair(head: string, tail: string) | NoPair

  /** Up to the first c and after it, if there is one beyond the first position. */
  function CutAt(s: string, c: char): Pair {
    var i := IndexOf(s, c);
    if i > 0 then Pair(s[..i], s[i + 1..]) else NoPair
  }

  /** A package version: a number, or '*' alone for the default version 0. */
  function ParseVersion(s: string): Number
    requires s != ""
  {
    if s[0] == '*' then (if |s| == 1 then Number(0) else NotANumber) else Atou32(s)
  }

  /** az_ulib_ipc_split_method_name.  Where a check and a conversion both fail the result is the same. */
  function SplitMethodName(full: string): Split {
    var at := CutAt(full, '@');
    var device, named := if at.Pair? then at.head else "", if at.Pair? then at.tail else full;
    var colon := CutAt(named, ':');
    var capability, body := if colon.Pair? then colon.tail else "", if colon.Pair? then colon.head else named;
    SplitBody(device, body, capability)
  }

  function SplitBody(device: string, body: string, capability: string): Split {
    var first := CutAt(body, '.');
    if first.NoPair? then UnexpectedChar
    else
      var second := CutAt(first.tail, '.');
      if second.NoPair? then UnexpectedChar
      else
        var packageVersion := ParseVersion(second.head);
        var third := CutAt(second.tail, '.');
        if packageVersion.NotANumber? || third.NoPair? then UnexpectedChar
        else
          var intfVersion := Atou32(third.tail);
          if intfVersion.NotANumber? then UnexpectedChar
          else Parts(Method(device, first.head, packageVersion.value, third.head, intfVersion.value, capability))
  }

  // The printers.

  function Dotted(package: string, packageVersion: string, intf: string, intfVersion: string): string {
    package + ("." + (packageVersion + ("." + (intf + ("." + intfVersion)))))
  }

  /** The documented form, device and capability optional, '*' for the default package version. */
  function PrintMethod(m: Method): string {
    var body := Dotted(m.package, if m.packageVersion == 0 then "*" else Decimal(m.packageVersion),
                       m.intf, Decimal(m.intfVersion));
    var called := if m.capability == "" then body else body + (":" + m.capability);
    if m.device == "" then called else m.device + ("@" + called)
  }

  /** concat_full_name: the registry key of an interface. */
  function FullName(package: string, packageVersion: nat, intf: string, intfVersion: nat): string
    requires packageVersion < UINT32 && intfVersion < UINT32
  {
    Dotted(package, SignedDecimal(packageVersion), intf, SignedDecimal(intfVersion))
  }

  /** The name inside an entry of the query listing. */
  function ListedName(package: string, packageVersion: nat, intf: string, intfVersion: nat): string {
    Dotted(package, Decimal(packageVersion), intf, Decimal(intfVersion))
  }

  predicate NameOk(s: string) { s != "" && Without(s, '.') && Without(s, ':') }

  /** Every name is free of the separators that come before it in the printed form. */
  predicate Printable(m: Method) {
    && NameOk(m.package) && NameOk(m.intf) && m.packageVersion < UINT32 && m.intfVersion < UINT32
    && if m.device != "" then Without(m.device, '@')
       else Without(m.package, '@') && Without(m.intf, '@') && Without(m.capability, '@')
  }

  lemma CutIs(head: string, c: char, tail: string)
    requires head != "" && Without(head, c)
    ensures CutAt(head + ([c] + tail), c) == Pair(head, tail)
  {
    IndexAfter(head, c, tail);
  }

  lemma WithoutConcat(a: string, b: string, c: char)
    requires Without(a, c) && Without(b, c)
    ensures Without(a + b, c)
  {
  }

  lemma DottedWithout(package: string, pv: string, intf: string, iv: string, c: char)
    requires Without(package, c) && Without(pv, c) && Without(intf, c) && Without(iv, c) && c != '.'
    ensures Without(Dotted(package, pv, intf, iv), c)
  {
    WithoutConcat(".", iv, c);
    WithoutConcat(intf, "." + iv, c);
    WithoutConcat(".", intf + ("." + iv), c);
    WithoutConcat(pv, "." + (intf + ("." + iv)), c);
    WithoutConcat(".", pv + ("." + (intf + ("." + iv))), c);
    WithoutConcat(package, "." + (pv + ("." + (intf + ("." + iv)))), c);
  }

  lemma BodySplits(device: string, package: string, pv: string, intf: string, iv: string, capability: string)
    requires package != "" && Without(package, '.') && intf != "" && Without(intf, '.')
    requires pv != "" && Without(pv, '.') && ParseVersion(pv).Number? && Atou32(iv).Number?
    ensures SplitBody(device, Dotted(package, pv, intf, iv), capability)
         == Parts(Method(device, package, ParseVersion(pv).value, intf, Atou32(iv).value, capability))
  {
    CutIs(package, '.', pv + ("." + (intf + ("." + iv))));
    CutIs(pv, '.', intf + ("." + iv));
    CutIs(intf, '.', iv);
  }

  /** Without device and capability. */
  lemma PlainSplits(body: string)
    requires Without(body, '@') && Without(body, ':')
    ensures SplitMethodName(body) == SplitBody("", body, "")
  {
    hide SplitBody;
  }

  /** The parser inverts the printer of the documented form. */
  lemma SplitInvertsPrint(m: Method)
    requires Printable(m)
    ensures SplitMethodName(PrintMethod(m)) == Parts(m)
  {
    hide SplitBody, Dotted, IndexOf, Atou32, Decimal;
    var pv := if m.packageVersion == 0 then "*" else Decimal(m.packageVersion);
    var iv := Decimal(m.intfVersion);
    var body := Dotted(m.package, pv, m.intf, iv);
    var called := if m.capability == "" then body else body + (":" + m.capability);
    NumberRoundTrip(m.packageVersion);
    NumberRoundTrip(m.intfVersion);
    DottedWithout(m.package, pv, m.intf, iv, ':');
    BodySplits(m.device, m.package, pv, m.intf, iv, m.capability);
    DottedNotEmpty(m.package, pv, m.intf, iv);
    if m.device == "" {
      DottedWithout(m.package, pv, m.intf, iv, '@');
      if m.capability != "" {
        WithoutConcat(":", m.capability, '@');
        WithoutConcat(body, ":" + m.capability, '@');
      }
      assert CutAt(called, '@') == NoPair;
    } else {
      CutIs(m.device, '@', called);
    }
    if m.capability != "" {
      CutIs(body, ':', m.capability);
    }
  }

  lemma DottedNotEmpty(package: string, pv: string, intf: string, iv: string)
    ensures Dotted(package, pv, intf, iv) != ""
  {
  }

  /** It inverts the registry key below 2^31, and a listing entry for every 32-bit version. */
  lemma SplitInvertsNames(package: string, pv: nat, intf: string, iv: nat)
    requires NameOk(package) && NameOk(intf) && Without(package, '@') && Without(intf, '@')
    requires pv < UINT32 && iv < UINT32
    ensures SplitMethodName(ListedName(package, pv, intf, iv)) == Parts(Method("", package, pv, intf, iv, ""))
    ensures pv < INT32 && iv < INT32 ==> FullName(package, pv, intf, iv) == ListedName(package, pv, intf, iv)
  {
    hide SplitBody, Dotted, IndexOf, Atou32, Decimal;
    NumberRoundTrip(pv);
    NumberRoundTrip(iv);
    assert IsDigit(Decimal(pv)[0]);
    BodySplits("", package, Decimal(pv), intf, Decimal(iv), "");
    DottedWithout(package, Decimal(pv), intf, Decimal(iv), ':');
    DottedWithout(package, Decimal(pv), intf, Decimal(iv), '@');
    PlainSplits(ListedName(package, pv, intf, iv));
  }

  lemma SignedNumber(version: nat)
    requires version < UINT32
    ensures SignedDecimal(version) != "" && Without(SignedDecimal(version), '.')
    ensures SignedDecimal(version)[0] != '*' && SignedDecimal(version) != ""
    ensures Atou32(SignedDecimal(version)).Number? <==> version < INT32
  {
    NumberRoundTrip(version);
    assert IsDigit(Decimal(version)[0]);
    if version >= INT32 {
      assert SignedDecimal(version)[0] == '-';
    }
  }

  lemma BodyRefuses(device: string, package: string, pv: string, intf: string, iv: string, capability: string)
    requires package != "" && Without(package, '.') && intf != "" && Without(intf, '.')
    requires pv != "" && Without(pv, '.') && (ParseVersion(pv).NotANumber? || Atou32(iv).NotANumber?)
    ensures SplitBody(device, Dotted(package, pv, intf, iv), capability) == UnexpectedChar
  {
    hide Dotted, IndexOf, Atou32, CutAt;
    DottedCuts(package, pv, intf, iv);
  }

  /** From 2^31 on the key has a minus sign, which the parser refuses. */
  lemma BigVersionsDoNotSplit(package: string, pv: nat, intf: string, iv: nat)
    requires NameOk(package) && NameOk(intf) && Without(package, '@') && Without(intf, '@')
    requires pv < UINT32 && iv < UINT32
    ensures SplitMethodName(FullName(package, pv, intf, iv)).Parts? <==> pv < INT32 && iv < INT32
  {
    hide Dotted, IndexOf, Decimal, Atou32, SplitBody, SplitMethodName, SignedDecimal;
    if pv < INT32 && iv < INT32 {
      SplitInvertsNames(package, pv, intf, iv);
    } else {
      var p, i := SignedDecimal(pv), SignedDecimal(iv);
      SignedWithout(pv);
      SignedWithout(iv);
      SignedNumber(pv);
      SignedNumber(iv);
      DottedWithout(package, p, intf, i, ':');
      DottedWithout(package, p, intf, i, '@');
      PlainSplits(FullName(package, pv, intf, iv));
      BodyRefuses("", package, p, intf, i, "");
    }
  }

  lemma SignedWithout(version: nat)
    requires version < UINT32
    ensures Without(SignedDecimal(version), ':') && Without(SignedDecimal(version), '@')
  {
  }

  lemma DottedCuts(package: string, pv: string, intf: string, iv: string)
    requires package != "" && Without(package, '.') && intf != "" && Without(intf, '.') && pv != "" && Without(pv, '.')
    ensures CutAt(Dotted(package, pv, intf, iv), '.') == Pair(package, pv + ("." + (intf + ("." + iv))))
    ensures CutAt(pv + ("." + (intf + ("." + iv))), '.') == Pair(pv, intf + ("." + iv))
    ensures CutAt(intf + ("." + iv), '.') == Pair(intf, iv)
  {
    CutIs(package, '.', pv + ("." + (intf + ("." + iv))));
    CutIs(pv, '.', intf + ("." + iv));
    CutIs(intf, '.', iv);
  }

  /** Registry keys are injective on dot-free names, for every pair of 32-bit versions. */
  lemma KeysAreInjective(p1: string, pv1: nat, i1: string, iv1: nat, p2: string, pv2: nat, i2: string, iv2: nat)
    requires pv1 < UINT32 && iv1 < UINT32 && pv2 < UINT32 && iv2 < UINT32
    requires p1 != "" && Without(p1, '.') && i1 != "" && Without(i1, '.')
    requires p2 != "" && Without(p2, '.') && i2 != "" && Without(i2, '.')
    requires FullName(p1, pv1, i1, iv1) == FullName(p2, pv2, i2, iv2)
    ensures p1 == p2 && pv1 == pv2 && i1 == i2 && iv1 == iv2
  {
    hide Dotted, IndexOf, Decimal;
    assert Without(SignedDecimal(pv1), '.') && Without(SignedDecimal(pv2), '.');
    DottedCuts(p1, SignedDecimal(pv1), i1, SignedDecimal(iv1));
    DottedCuts(p2, SignedDecimal(pv2), i2, SignedDecimal(iv2));
    SignedDecimalIsInjective(pv1, pv2);
    SignedDecimalIsInjective(iv1, iv2);
  }
}
