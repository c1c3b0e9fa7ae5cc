/** Which error a text ends in, said without the steps of the reader.

    A text that breaks off is told from a text that is wrong: UNEXPECTED_END is the answer if and only if more text
    would make a document of it. */
module JsonErrors {
  import opened Common
  import opened JsonScan
  import opened JsonGrammar
  import JsonRoundTrip

  // The characters.

  /** The classes of RFC 8259 that scanner and grammar share: whitespace of section 2, the digits, the hexadecimal
      digits and the escapes of section 7; and what may follow a number. */
  lemma CharacterClasses(c: char)
    ensures IsWhitespace(c) <==> c in " \t\n\r"
    ensures IsDigit(c) <==> c in "0123456789"
    ensures IsHex(c) <==> c in "0123456789abcdefABCDEF"
    ensures IsEscape(c) <==> c in "\"\\/bfnrt"
    ensures IsExponentMark(c) <==> c in "eE"
    ensures IsDelimiter(c) <==> c in ",}] \t\n\r"
  {
  }

  // What more text leaves as it is.

  lemma {:induction false} BlanksGrow(t: string, u: string, i: nat)
    requires i <= |t|
    ensures var j := SkipWhitespace(t, i); SkipWhitespace(t + u, i) == if j < |t| then j else SkipWhitespace(t + u, |t|)
    decreases |t| - i
  {
    if i < |t| && IsWhitespace(t[i]) { BlanksGrow(t, u, i + 1); }
  }

  lemma {:induction false} DigitsGrow(t: string, u: string, i: nat)
    requires i <= |t|
    ensures var j := SkipDigits(t, i); SkipDigits(t + u, i) == if j < |t| then j else SkipDigits(t + u, |t|)
    decreases |t| - i
  {
    if i < |t| && IsDigit(t[i]) { DigitsGrow(t, u, i + 1); }
  }

  /** An outcome other than UNEXPECTED_END stays; after one, what comes of more text ends in it. */
  predicate Kept(t: string, before: Scan, after: Scan) {
    if before == Fail(UnexpectedEnd) then after.Upto? ==> after.end >= |t|
    else after == before
  }

  /** A number may also go on where it ended with the text. */
  predicate KeptNumber(t: string, before: Scan, after: Scan) {
    if before == Fail(UnexpectedEnd) || before == Upto(|t|) then after.Upto? ==> after.end >= |t|
    else after == before
  }

  lemma {:induction false} HexGrows(t: string, u: string, i: nat, n: nat)
    requires i <= |t|
    ensures Kept(t, ScanHex(t, i, n), ScanHex(t + u, i, n))
    ensures ScanHex(t, i, n) == Fail(UnexpectedEnd) ==> i + n > |t|
    decreases n
  {
    if n > 0 && i < |t| && IsHex(t[i]) { HexGrows(t, u, i + 1, n - 1); }
  }

  lemma EscapeGrows(t: string, u: string, i: nat)
    requires i <= |t|
    ensures Kept(t, ScanEscape(t, i), ScanEscape(t + u, i))
  {
    hide ScanHex;
    if i < |t| { HexGrows(t, u, i + 1, 4); }
  }

  lemma {:induction false} StringGrows(t: string, u: string, i: nat)
    requires i <= |t|
    ensures Kept(t, ScanString(t, i), ScanString(t + u, i))
    decreases |t| - i
  {
    hide ScanEscape;
    if i < |t| && t[i] != '"' {
      if t[i] == '\\' {
        EscapeGrows(t, u, i + 1);
        var escape := ScanEscape(t, i + 1);
        if escape.Upto? { StringGrows(t, u, escape.end); }
      } else if t[i] >= ' ' {
        StringGrows(t, u, i + 1);
      }
    }
  }

  lemma {:induction false} LiteralGrows(t: string, u: string, i: nat, literal: string)
    requires i <= |t|
    ensures Kept(t, ScanLiteral(t, i, literal), ScanLiteral(t + u, i, literal))
    ensures ScanLiteral(t, i, literal) == Fail(UnexpectedEnd) ==> i + |literal| > |t|
    decreases |literal|
  {
    if literal != "" && i < |t| && t[i] == literal[0] { LiteralGrows(t, u, i + 1, literal[1..]); }
  }

  lemma DigitsThenEndGrow(t: string, u: string, i: nat, complex: bool)
    requires i <= |t|
    ensures KeptNumber(t, ScanNumberEnd(t, SkipDigits(t, i), complex),
                       ScanNumberEnd(t + u, SkipDigits(t + u, i), complex))
  {
    DigitsGrow(t, u, i);
  }

  lemma ExponentGrows(t: string, u: string, i: nat, complex: bool)
    requires i <= |t|
    ensures KeptNumber(t, ScanExponent(t, i, complex), ScanExponent(t + u, i, complex))
  {
    hide ScanNumberEnd;
    var sign := ScanSign(t, i);
    if sign.Upto? {
      assert ScanSign(t + u, i) == sign;
      DigitsThenEndGrow(t, u, sign.end, complex);
    }
  }

  lemma AfterFractionGrows(t: string, u: string, b: nat, complex: bool)
    requires b <= |t|
    ensures KeptNumber(t, ScanAfterFraction(t, b, complex), ScanAfterFraction(t + u, b, complex))
  {
    hide ScanExponent;
    if b < |t| { ExponentGrows(t, u, b + 1, complex); }
  }

  lemma FractionGrows(t: string, u: string, i: nat, complex: bool)
    requires i <= |t|
    ensures KeptNumber(t, ScanFraction(t, i, complex), ScanFraction(t + u, i, complex))
  {
    hide ScanAfterFraction;
    if i < |t| {
      DigitsGrow(t, u, i);
      AfterFractionGrows(t, u, SkipDigits(t, i), complex);
      if SkipDigits(t, i) == |t| { AtTheEnd(t, complex); }
    }
  }

  lemma AtTheEnd(t: string, complex: bool)
    ensures ScanAfterFraction(t, |t|, complex) == ScanAfterInteger(t, |t|, complex) == NumberAtEnd(|t|, complex)
  {
  }

  lemma AfterIntegerGrows(t: string, u: string, b: nat, complex: bool)
    requires b <= |t|
    ensures KeptNumber(t, ScanAfterInteger(t, b, complex), ScanAfterInteger(t + u, b, complex))
  {
    hide ScanExponent, ScanFraction;
    if b < |t| {
      ExponentGrows(t, u, b + 1, complex);
      FractionGrows(t, u, b + 1, complex);
    }
  }

  lemma NumberGrows(t: string, u: string, i: nat, complex: bool)
    requires i < |t| && (IsDigit(t[i]) || t[i] == '-')
    ensures KeptNumber(t, ScanNumber(t, i, complex), ScanNumber(t + u, i, complex))
    ensures ScanNumber(t, i, complex) == Upto(|t|) ==> !complex
  {
    hide ScanAfterInteger;
    var minus := ScanMinus(t, i);
    if minus.Upto? {
      var a := minus.end;
      assert ScanMinus(t + u, i) == minus && (t + u)[a] == t[a];
      if t[a] == '0' {
        AfterIntegerGrows(t, u, a + 1, complex);
      } else {
        DigitsGrow(t, u, a);
        AfterIntegerGrows(t, u, SkipDigits(t, a), complex);
        if SkipDigits(t, a) == |t| { AtTheEnd(t, complex); }
      }
      ComplexEndsBefore(t, if t[a] == '0' then a + 1 else SkipDigits(t, a), complex);
    }
  }

  lemma ComplexEndsBefore(t: string, b: nat, complex: bool)
    requires b <= |t|
    ensures ScanAfterInteger(t, b, complex) == Upto(|t|) ==> !complex
  {
  }

  // The same for a step of the reader.

  /** The text breaks off in the step, or ends with its number. */
  predicate Open(t: string, step: Step) {
    step == Stop(UnexpectedEnd) || (step.Emit? && step.token.kind == Number && step.next.pos == |t|)
  }

  predicate KeptStep(t: string, before: Step, after: Step) {
    if Open(t, before)
    then after.Emit? ==> after.next.pos > |t| || (after.next.pos == |t| && after.token.kind == Number)
    else after == before
  }

  lemma SameSlice(t: string, u: string, i: nat, j: nat)
    requires i <= j <= |t|
    ensures (t + u)[i..j] == t[i..j]
  {
  }

  lemma LexemeGrows(t: string, u: string, i: nat, before: Scan, after: Scan, kind: Kind, s: State)
    requires (before.Upto? ==> i <= before.end <= |t|) && (after.Upto? ==> i <= after.end <= |t + u|)
    requires if kind == Number then KeptNumber(t, before, after)
             else Kept(t, before, after) && (before == Fail(UnexpectedEnd) ==> after.Upto? ==> after.end > |t|)
    ensures KeptStep(t, Lexeme(t, i, before, kind, s), Lexeme(t + u, i, after, kind, s))
  {
    if before.Upto? { SameSlice(t, u, i, before.end); }
  }

  lemma WordGrows(t: string, u: string, i: nat, literal: string, kind: Kind, s: State)
    requires i < |t| && kind != Number
    ensures KeptStep(t, Lexeme(t, i, ScanLiteral(t, i, literal), kind, s),
                     Lexeme(t + u, i, ScanLiteral(t + u, i, literal), kind, s))
  {
    hide ScanLiteral, Lexeme;
    LiteralGrows(t, u, i, literal);
    LexemeGrows(t, u, i, ScanLiteral(t, i, literal), ScanLiteral(t + u, i, literal), kind, s);
  }

  lemma ReadStringGrows(t: string, u: string, i: nat, s: State)
    requires i < |t|
    ensures KeptStep(t, ReadString(t, i, s), ReadString(t + u, i, s))
  {
    hide ScanString;
    StringGrows(t, u, i + 1);
    var scan := ScanString(t, i + 1);
    if scan.Upto? { SameSlice(t, u, i + 1, scan.end); }
  }

  lemma NameGrows(t: string, u: string, i: nat, s: State)
    requires i < |t|
    ensures KeptStep(t, ReadName(t, i, s), ReadName(t + u, i, s))
  {
    hide ReadString;
    ReadStringGrows(t, u, i, s);
    var name := ReadString(t, i, s);
    StringIsString(t, i, s);
    StringIsString(t + u, i, s);
    if name.Emit? { BlanksGrow(t, u, name.next.pos); }
  }

  lemma StringIsString(t: string, i: nat, s: State)
    requires i < |t|
    ensures var step := ReadString(t, i, s);
      step.Emit? ==> step.token.kind == String && step.next == s.(pos := step.next.pos, kind := String)
                     && i < step.next.pos <= |t|
  {
    hide ScanString;
  }

  lemma ValueGrows(t: string, u: string, i: nat, s: State)
    requires i < |t|
    ensures KeptStep(t, ReadValue(t, i, s), ReadValue(t + u, i, s))
  {
    hide ReadString, ScanNumber, ScanLiteral, Lexeme, KeptStep;
    var c := t[i];
    assert (t + u)[i] == c;
    if c == '"' {
      ReadStringGrows(t, u, i, s);
    } else if c == '{' || c == '[' {
      BeginGrows(t, u, i, s, if c == '{' then BeginObject else BeginArray, if c == '{' then Object else Array);
    } else if IsDigit(c) || c == '-' {
      NumberGrows(t, u, i, s.complex);
      LexemeGrows(t, u, i, ScanNumber(t, i, s.complex), ScanNumber(t + u, i, s.complex), Number, s);
    } else if c == 'f' {
      WordGrows(t, u, i, "false", False, s);
    } else if c == 't' {
      WordGrows(t, u, i, "true", True, s);
    } else if c == 'n' {
      WordGrows(t, u, i, "null", Null, s);
    } else {
      StopGrows(t, UnexpectedChar);
    }
  }

  lemma StopGrows(t: string, e: Result)
    requires e != UnexpectedEnd
    ensures KeptStep(t, Stop(e), Stop(e))
  {
  }

  lemma BeginGrows(t: string, u: string, i: nat, s: State, kind: Kind, container: Container)
    requires i < |t| && kind != Number
    ensures KeptStep(t, ReadBegin(t, i, s, kind, container), ReadBegin(t + u, i, s, kind, container))
  {
    assert (t + u)[i] == t[i];
  }

  lemma EndGrows(t: string, u: string, i: nat, s: State, kind: Kind, container: Container)
    requires i < |t| && kind != Number && s.stack != []
    ensures KeptStep(t, ReadEnd(t, i, s, kind, container), ReadEnd(t + u, i, s, kind, container))
  {
    assert (t + u)[i] == t[i];
  }

  /** Where a step begins behind the text, so does what it emits end there. */
  lemma BehindIsBehind(t: string, j: nat, s: State)
    requires j < |t|
    ensures ReadValue(t, j, s).Emit? ==> ReadValue(t, j, s).next.pos > j
    ensures ReadName(t, j, s).Emit? ==> ReadName(t, j, s).next.pos > j
  {
  }

  lemma AfterValueGrows(t: string, u: string, i: nat, s: State)
    requires i < |t|
    ensures KeptStep(t, ReadAfterValue(t, i, s), ReadAfterValue(t + u, i, s))
  {
    hide ReadValue, ReadName, ReadEnd;
    assert (t + u)[i] == t[i];
    if s.stack != [] {
      if t[i] == ',' {
        BlanksGrow(t, u, i + 1);
        var j, k := SkipWhitespace(t, i + 1), SkipWhitespace(t + u, i + 1);
        if j < |t| {
          assert (t + u)[j] == t[j];
          ValueGrows(t, u, j, s);
          NameGrows(t, u, j, s);
        } else if k < |t + u| {
          BehindIsBehind(t + u, k, s);
        }
      } else {
        EndGrows(t, u, i, s, EndObject, Object);
        EndGrows(t, u, i, s, EndArray, Array);
      }
    }
  }

  lemma DispatchGrows(t: string, u: string, i: nat, s: State)
    requires WellFormed(t, s) && i < |t|
    ensures KeptStep(t, Dispatch(t, i, s), Dispatch(t + u, i, s))
  {
    hide ReadValue, ReadName, ReadEnd, ReadAfterValue, KeptStep;
    assert (t + u)[i] == t[i];
    ValueGrows(t, u, i, s);
    NameGrows(t, u, i, s);
    AfterValueGrows(t, u, i, s);
    StopGrows(t, UnexpectedChar);
    if s.stack != [] {
      EndGrows(t, u, i, s, EndObject, Object);
      EndGrows(t, u, i, s, EndArray, Array);
    }
  }

  lemma NextGrows(t: string, u: string, s: State)
    requires WellFormed(t, s)
    ensures Next(t, s) != Stop(Done) ==> KeptStep(t, Next(t, s), Next(t + u, s))
  {
    hide Dispatch;
    BlanksGrow(t, u, s.pos);
    var i, k := SkipWhitespace(t, s.pos), SkipWhitespace(t + u, s.pos);
    if i < |t| {
      DispatchGrows(t, u, i, s.(pos := i));
    } else if k < |t + u| {
      DispatchAdvances(t + u, k, s.(pos := k));
    }
  }

  /** Where the step found its number. */
  lemma NumberStep(t: string, s: State) returns (i: nat)
    requires WellFormed(t, s) && Next(t, s).Emit? && Next(t, s).token.kind == Number
    ensures i < |t| && (IsDigit(t[i]) || t[i] == '-')
    ensures ScanNumber(t, i, s.complex) == Upto(Next(t, s).next.pos)
    ensures Next(t, s).next.stack == s.stack && Next(t, s).next.complex == s.complex
  {
    hide ScanNumber, ScanLiteral, ScanString, SkipWhitespace;
    i := SkipWhitespace(t, s.pos);
    if t[i] == ',' { i := SkipWhitespace(t, i + 1); }
  }

  /** A number that ends with the text is the whole text. */
  lemma NumberAtTheEnd(t: string, s: State)
    requires WellFormed(t, s) && Next(t, s).Emit? && Open(t, Next(t, s))
    ensures ReadAll(t, s) == Run([Next(t, s).token], Done)
  {
    hide Next, ScanNumber;
    var next := Next(t, s).next;
    var i := NumberStep(t, s);
    NumberGrows(t, "", i, s.complex);
    NextProgress(t, s);
    assert SkipWhitespace(t, next.pos) == |t|;
    NextProgress(t, next);
  }

  /** More text never takes tokens back, and only after UNEXPECTED_END or DONE may it change the answer. */
  lemma {:induction false} RunGrows(t: string, u: string, s: State)
    requires WellFormed(t, s) && ReadAll(t, s).end != Done
    ensures ReadAll(t, s).tokens <= ReadAll(t + u, s).tokens
    ensures ReadAll(t, s).end != UnexpectedEnd ==> ReadAll(t + u, s) == ReadAll(t, s)
    decreases |t| - s.pos
  {
    hide Next;
    NextGrows(t, u, s);
    NextProgress(t, s);
    var step := Next(t, s);
    if step.Emit? {
      if Open(t, step) { NumberAtTheEnd(t, s); }
      RunGrows(t, u, step.next);
    }
  }

  // A text that breaks off can be finished.

  /** Nothing but blanks is left. */
  predicate AtEnd(t: string, i: nat) { i <= |t| && SkipWhitespace(t, i) == |t| }

  lemma OnlyBlanks(t: string, w: string, i: nat)
    requires AtEnd(t, i) && w != "" && !IsWhitespace(w[0])
    ensures SkipWhitespace(t + w, i) == |t|
  {
    BlanksGrow(t, w, i);
  }

  /** The number ends before the blanks that end the text. */
  predicate Finished(t: string, scan: Scan) { scan.Upto? && scan.end < |t| && AtEnd(t, scan.end) }

  lemma ZerosAreHex(t: string, zeros: string, i: nat, n: nat)
    requires |t| <= i <= |t + zeros| && |t + zeros| == i + n && forall k :: 0 <= k < |zeros| ==> zeros[k] == '0'
    ensures ScanHex(t + zeros, i, n) == Upto(i + n)
    decreases n
  {
    if n > 0 { ZerosAreHex(t, zeros, i + 1, n - 1); }
  }

  lemma {:induction false} HexFinished(t: string, i: nat, n: nat) returns (v: string)
    requires i <= |t| && ScanHex(t, i, n) == Fail(UnexpectedEnd)
    ensures ScanHex(t + v, i, n) == Upto(|t + v|)
    decreases n
  {
    if i == |t| {
      v := seq(n, _ => '0');
      ZerosAreHex(t, v, i, n);
    } else {
      v := HexFinished(t, i + 1, n - 1);
    }
  }

  lemma EscapeFinished(t: string, i: nat) returns (v: string)
    requires i <= |t| && ScanEscape(t, i) == Fail(UnexpectedEnd)
    ensures ScanEscape(t + v, i) == Upto(|t + v|)
  {
    hide ScanHex;
    if i == |t| { v := "n"; } else { v := HexFinished(t, i + 1, 4); }
  }

  lemma {:induction false} StringFinished(t: string, i: nat) returns (v: string)
    requires i <= |t| && ScanString(t, i) == Fail(UnexpectedEnd)
    ensures v != "" && ScanString(t + v, i) == Upto(|t + v| - 1)
    decreases |t| - i
  {
    hide ScanEscape;
    if i == |t| {
      v := "\"";
    } else if t[i] == '\\' {
      var escape := ScanEscape(t, i + 1);
      if escape.Upto? {
        v := StringFinished(t, escape.end);
        EscapeGrows(t, v, i + 1);
      } else {
        var w := EscapeFinished(t, i + 1);
        EscapeGrows(t + w, "\"", i + 1);
        v := w + "\"";
        assert t + v == t + w + "\"";
      }
    } else {
      v := StringFinished(t, i + 1);
    }
  }

  lemma {:induction false} LiteralFinished(t: string, i: nat, literal: string) returns (v: string)
    requires i <= |t| && ScanLiteral(t, i, literal) == Fail(UnexpectedEnd)
    ensures ScanLiteral(t + v, i, literal) == Upto(|t + v|)
    decreases |literal|
  {
    if i == |t| {
      v := literal;
      assert (t + v)[i..] == literal;
      LiteralThere(t + v, i, literal);
    } else {
      v := LiteralFinished(t, i + 1, literal[1..]);
    }
  }

  lemma {:induction false} LiteralThere(t: string, i: nat, literal: string)
    requires i <= |t| && t[i..] == literal
    ensures ScanLiteral(t, i, literal) == Upto(|t|)
    decreases |literal|
  {
    if literal != "" {
      assert t[i + 1..] == literal[1..];
      LiteralThere(t, i + 1, literal[1..]);
    }
  }

  /** A blank ends the number. */
  lemma BlankEnds(t: string, b: nat, complex: bool)
    requires b <= |t|
    ensures SkipDigits(t + " ", |t|) == |t| && SkipWhitespace(t + " ", |t|) == |t + " "|
    ensures SkipDigits(t, b) == |t| ==> SkipDigits(t + " ", b) == |t|
    ensures ScanNumberEnd(t + " ", |t|, complex) == ScanAfterFraction(t + " ", |t|, complex) == Upto(|t|)
    ensures ScanAfterInteger(t + " ", |t|, complex) == Upto(|t|)
  {
    DigitsGrow(t, " ", b);
    assert (t + " ")[|t|] == ' ';
    assert SkipWhitespace(t + " ", |t| + 1) == |t| + 1;
  }

  /** A digit and a blank where a digit is due. */
  lemma ZeroEnds(t: string, complex: bool)
    ensures var z := t + "0 ";
      && SkipDigits(z, |t|) == |t| + 1 && AtEnd(z, |t| + 1) && z[|t|] == '0'
      && ScanNumberEnd(z, |t| + 1, complex) == ScanAfterFraction(z, |t| + 1, complex) == Upto(|t| + 1)
      && ScanAfterInteger(z, |t| + 1, complex) == Upto(|t| + 1)
  {
    var z := t + "0 ";
    assert z[|t|] == '0' && z[|t| + 1] == ' ';
    assert SkipDigits(z, |t| + 1) == |t| + 1;
    assert SkipWhitespace(z, |t| + 2) == |t| + 2;
  }

  lemma ExponentFinished(t: string, i: nat, complex: bool) returns (v: string)
    requires i <= |t| && ScanExponent(t, i, complex) == Fail(UnexpectedEnd)
    ensures Finished(t + v, ScanExponent(t + v, i, complex))
  {
    hide SkipDigits, SkipWhitespace;
    var sign := ScanSign(t, i);
    if sign.Upto? {
      v := " ";
      BlankEnds(t, sign.end, complex);
      assert ScanSign(t + v, i) == sign;
    } else {
      v := "0 ";
      ZeroEnds(t, complex);
      assert ScanSign(t + v, i) == Upto(|t|);
    }
  }

  lemma AfterFractionFinished(t: string, b: nat, complex: bool) returns (v: string)
    requires b <= |t| && ScanAfterFraction(t, b, complex) == Fail(UnexpectedEnd)
    ensures Finished(t + v, ScanAfterFraction(t + v, b, complex))
  {
    hide SkipDigits, SkipWhitespace, ScanExponent;
    if b == |t| {
      v := " ";
      BlankEnds(t, b, complex);
    } else {
      v := ExponentFinished(t, b + 1, complex);
    }
  }

  lemma FractionFinished(t: string, i: nat, complex: bool) returns (v: string)
    requires i <= |t| && ScanFraction(t, i, complex) == Fail(UnexpectedEnd)
    ensures Finished(t + v, ScanFraction(t + v, i, complex))
  {
    hide SkipWhitespace, ScanAfterFraction;
    if i == |t| {
      v := "0 ";
      ZeroEnds(t, complex);
    } else {
      var b := SkipDigits(t, i);
      v := AfterFractionFinished(t, b, complex);
      if b == |t| {
        v := " ";
        BlankEnds(t, i, complex);
      } else {
        DigitsGrow(t, v, i);
      }
    }
  }

  lemma AfterIntegerFinished(t: string, b: nat, complex: bool) returns (v: string)
    requires b <= |t| && ScanAfterInteger(t, b, complex) == Fail(UnexpectedEnd)
    ensures Finished(t + v, ScanAfterInteger(t + v, b, complex))
    ensures b == |t| ==> v == " "
  {
    hide SkipDigits, SkipWhitespace, ScanExponent, ScanFraction;
    if b == |t| {
      v := " ";
      BlankEnds(t, b, complex);
    } else if t[b] == '.' {
      v := FractionFinished(t, b + 1, complex);
    } else {
      v := ExponentFinished(t, b + 1, complex);
    }
  }

  lemma NumberFinished(t: string, i: nat, complex: bool) returns (v: string)
    requires i < |t| && (IsDigit(t[i]) || t[i] == '-') && ScanNumber(t, i, complex) == Fail(UnexpectedEnd)
    ensures Finished(t + v, ScanNumber(t + v, i, complex))
  {
    hide SkipWhitespace, ScanAfterInteger;
    var minus := ScanMinus(t, i);
    if minus.Fail? {
      v := "0 ";
      ZeroEnds(t, complex);
      assert ScanMinus(t + v, i) == Upto(|t|);
    } else {
      var a := minus.end;
      var b := if t[a] == '0' then a + 1 else SkipDigits(t, a);
      v := AfterIntegerFinished(t, b, complex);
      assert ScanMinus(t + v, i) == minus && (t + v)[a] == t[a];
      if t[a] != '0' {
        DigitsGrow(t, v, a);
        if b == |t| { BlankEnds(t, a, complex); }
      }
    }
  }

  /** The step succeeds, leaves nothing but blanks, and more text does not change it. */
  predicate Emits(t: string, step: Step) { step.Emit? && AtEnd(t, step.next.pos) && !Open(t, step) }

  lemma EndIsEnd(t: string)
    ensures AtEnd(t, |t|)
  {
  }

  lemma ReadStringFinished(t: string, i: nat, s: State) returns (v: string)
    requires i < |t| && ReadString(t, i, s) == Stop(UnexpectedEnd)
    ensures var step := ReadString(t + v, i, s);
      step.Emit? && step.token.kind == String && step.next.pos == |t + v|
  {
    hide ScanString;
    v := StringFinished(t, i + 1);
  }

  lemma EmptyString(t: string, w: string, s: State)
    requires |w| >= 2 && w[0] == '"' == w[1]
    ensures ReadString(t + w, |t|, s) == Emit(Token(String, ""), s.(pos := |t| + 2, kind := String))
  {
    assert (t + w)[|t|] == '"' == (t + w)[|t| + 1];
  }

  function Named(t: string, name: string, s: State): Step {
    Emit(Token(PropertyName, name), s.(pos := |t| + 1, kind := PropertyName))
  }

  lemma ColonFinished(t: string, name: string, s: State)
    requires s.pos <= |t| && ReadColon(t, name, s) == Stop(UnexpectedEnd)
    ensures ReadColon(t + ":", name, s) == Named(t, name, s)
  {
    OnlyBlanks(t, ":", s.pos);
    assert (t + ":")[|t|] == ':';
  }

  lemma NameFinished(t: string, i: nat, s: State) returns (v: string)
    requires i < |t| && t[i] == '"' && ReadName(t, i, s) == Stop(UnexpectedEnd)
    ensures Emits(t + v, ReadName(t + v, i, s))
  {
    hide ReadString, ReadColon, SkipWhitespace;
    var name := ReadString(t, i, s);
    StringIsString(t, i, s);
    if name.Emit? {
      v := ":";
      ReadStringGrows(t, v, i, s);
      ColonFinished(t, name.token.text, name.next);
    } else {
      var w := ReadStringFinished(t, i, s);
      v := w + ":";
      assert t + v == t + w + ":";
      ReadStringGrows(t + w, ":", i, s);
      var named := ReadString(t + w, i, s);
      StringIsString(t + w, i, s);
      EndIsEnd(t + w);
      ColonIsDue(t + w, named.token.text, named.next);
    }
    EndIsEnd(t + v);
  }

  lemma ColonIsDue(t: string, name: string, s: State)
    requires s.pos == |t|
    ensures ReadColon(t + ":", name, s) == Named(t, name, s)
  {
    assert SkipWhitespace(t, |t|) == |t|;
    ColonFinished(t, name, s);
  }

  lemma WordFinished(t: string, i: nat, literal: string, kind: Kind, s: State) returns (v: string)
    requires i < |t| && kind != Number && Lexeme(t, i, ScanLiteral(t, i, literal), kind, s) == Stop(UnexpectedEnd)
    ensures Emits(t + v, Lexeme(t + v, i, ScanLiteral(t + v, i, literal), kind, s))
  {
    hide ScanLiteral;
    v := LiteralFinished(t, i, literal);
    EndIsEnd(t + v);
  }

  lemma ValueFinished(t: string, i: nat, s: State) returns (v: string)
    requires i < |t| && ReadValue(t, i, s) == Stop(UnexpectedEnd)
    ensures Emits(t + v, ReadValue(t + v, i, s))
  {
    hide ReadString, ScanLiteral, ScanNumber, SkipWhitespace;
    var c := t[i];
    if c == '"' {
      v := ReadStringFinished(t, i, s);
      EndIsEnd(t + v);
    } else if IsDigit(c) || c == '-' {
      v := NumberFinished(t, i, s.complex);
    } else if c == 'f' {
      v := WordFinished(t, i, "false", False, s);
    } else if c == 't' {
      v := WordFinished(t, i, "true", True, s);
    } else {
      v := WordFinished(t, i, "null", Null, s);
    }
    assert (t + v)[i] == c;
  }

  /** Behind a comma. */
  lemma CommaFinished(t: string, i: nat, s: State) returns (v: string)
    requires i < |t| && ReadAfterValue(t, i, s) == Stop(UnexpectedEnd)
    ensures Emits(t + v, ReadAfterValue(t + v, i, s))
  {
    hide ReadValue, ReadName;
    assert t[i] == ',' && s.stack != [];
    var j := SkipWhitespace(t, i + 1);
    if j < |t| {
      if s.stack[0] == Object { v := NameFinished(t, j, s); } else { v := ValueFinished(t, j, s); }
      BlanksGrow(t, v, i + 1);
      assert (t + v)[i] == t[i] && (t + v)[j] == t[j];
    } else {
      v := if s.stack[0] == Object then "\"\":" else "\"\"";
      OnlyBlanks(t, v, i + 1);
      assert (t + v)[i] == t[i] && (t + v)[|t|] == '"';
      NewItem(t, s);
    }
  }

  /** An empty string, or an empty name and its colon, put behind the text. */
  lemma NewItem(t: string, s: State)
    ensures var v := "\"\""; ReadValue(t + v, |t|, s) == Emit(Token(String, ""), s.(pos := |t + v|, kind := String))
    ensures var v := "\"\":"; Emits(t + v, ReadName(t + v, |t|, s))
    ensures AtEnd(t + "\"\"", |t + "\"\""|)
  {
    hide ReadString, ReadColon, SkipWhitespace;
    var v, w := "\"\"", "\"\":";
    EmptyString(t, v, s);
    EmptyString(t, w, s);
    assert (t + v)[|t|] == '"';
    assert t + v + ":" == t + w;
    ColonIsDue(t + v, "", s.(pos := |t + v|, kind := String));
    EndIsEnd(t + v);
    EndIsEnd(t + w);
  }

  lemma DispatchFinished(t: string, i: nat, s: State) returns (v: string)
    requires WellFormed(t, s) && i < |t| && Dispatch(t, i, s) == Stop(UnexpectedEnd)
    ensures Emits(t + v, Dispatch(t + v, i, s))
  {
    hide ReadValue, ReadName, ReadAfterValue, AtEnd;
    match s.kind {
      case BeginObject => v := NameFinished(t, i, s);
      case NoToken => v := ValueFinished(t, i, s);
      case BeginArray => v := ValueFinished(t, i, s);
      case PropertyName => v := ValueFinished(t, i, s);
      case _ => v := CommaFinished(t, i, s);
    }
    assert (t + v)[i] == t[i];
  }

  lemma StepFinished(t: string, s: State) returns (v: string)
    requires WellFormed(t, s) && Next(t, s) == Stop(UnexpectedEnd) && !AtEnd(t, s.pos)
    ensures Emits(t + v, Next(t + v, s))
  {
    hide Dispatch;
    var i := SkipWhitespace(t, s.pos);
    v := DispatchFinished(t, i, s.(pos := i));
    BlanksGrow(t, v, s.pos);
  }

  /** One more token where the text ends between two of them: a value where one is due, or else the end mark. */
  function OneMore(s: State): string {
    if s.kind == NoToken || s.kind == PropertyName then "\"\""
    else if s.stack == [] then ""
    else if s.stack[0] == Object then "}" else "]"
  }

  lemma OneMoreRead(t: string, s: State)
    requires WellFormed(t, s) && AtEnd(t, s.pos) && OneMore(s) != ""
    ensures var step := Next(t + OneMore(s), s);
      && step.Emit? && step.next.pos == |t + OneMore(s)| && step.token.kind != Number
      && if s.kind == NoToken || s.kind == PropertyName then step.next.kind == String && step.next.stack == s.stack
         else |step.next.stack| < |s.stack|
  {
    hide SkipWhitespace, ReadString, ReadValue, AtEnd;
    var w := OneMore(s);
    OnlyBlanks(t, w, s.pos);
    assert (t + w)[|t|] == w[0];
    if s.kind == NoToken || s.kind == PropertyName { NewItem(t, s.(pos := |t|)); }
  }

  /** A step that is settled, and what is read from there to the end. */
  lemma Goes(t: string, v: string, s: State)
    requires WellFormed(t, s) && Next(t, s).Emit? && !Open(t, Next(t, s))
    ensures WellFormed(t, Next(t, s).next) && s.pos < Next(t, s).next.pos
    ensures ReadAll(t + v, s).end == ReadAll(t + v, Next(t, s).next).end
    ensures ReadAll(t, s).end == ReadAll(t, Next(t, s).next).end
  {
    hide Next;
    NextProgress(t, s);
    NextGrows(t, v, s);
  }

  lemma NothingMore(t: string, s: State)
    requires WellFormed(t, s) && AtEnd(t, s.pos) && OneMore(s) == ""
    ensures ReadAll(t + "", s).end == Done
  {
    assert t + "" == t;
    NextProgress(t, s);
  }

  lemma {:induction false} Closed(t: string, s: State) returns (v: string)
    requires WellFormed(t, s) && AtEnd(t, s.pos)
    ensures ReadAll(t + v, s).end == Done
    decreases |s.stack|, s.kind == NoToken || s.kind == PropertyName
  {
    hide Next, SkipWhitespace, ReadAll;
    var w := OneMore(s);
    if w == "" {
      NothingMore(t, s);
      v := "";
    } else {
      OneMoreRead(t, s);
      Goes(t + w, "", s);
      EndIsEnd(t + w);
      var rest := Closed(t + w, Next(t + w, s).next);
      Goes(t + w, rest, s);
      v := w + rest;
      assert t + v == t + w + rest;
    }
  }

  /** A text that breaks off goes on to a document. */
  lemma {:induction false} Completed(t: string, s: State) returns (v: string)
    requires WellFormed(t, s) && ReadAll(t, s).end == UnexpectedEnd
    ensures ReadAll(t + v, s).end == Done
    decreases |t| - s.pos
  {
    hide Next;
    var step := Next(t, s);
    if AtEnd(t, s.pos) {
      v := Closed(t, s);
    } else if step.Emit? {
      if Open(t, step) { NumberAtTheEnd(t, s); }
      Goes(t, "", s);
      v := Completed(t, step.next);
      Goes(t, v, s);
    } else {
      var w := StepFinished(t, s);
      Goes(t + w, "", s);
      var rest := Closed(t + w, Next(t + w, s).next);
      Goes(t + w, rest, s);
      v := w + rest;
      assert t + v == t + w + rest;
    }
  }

  /** A text ends in UNEXPECTED_END if and only if it is no document but more text would make it one. */
  lemma UnexpectedEndIsUnfinished(t: string)
    ensures ReadAll(t, START).end == UnexpectedEnd
      <==> ReadAll(t, START).end != Done && exists u: string :: ReadAll(t + u, START).end == Done
  {
    if ReadAll(t, START).end == UnexpectedEnd {
      var u := Completed(t, START);
    } else if ReadAll(t, START).end != Done {
      forall u: string ensures ReadAll(t + u, START).end != Done { RunGrows(t, u, START); }
    }
  }

  // Too deep.

  /** Containers opened and not closed. */
  function Levels(tokens: seq<Token>): int {
    if tokens == [] then 0 else Level(tokens[0].kind) + Levels(tokens[1..])
  }

  function Level(kind: Kind): int {
    if kind == BeginObject || kind == BeginArray then 1 else if kind == EndObject || kind == EndArray then -1 else 0
  }

  /** Where the run stops. */
  function Last(t: string, s: State): (l: State)
    requires WellFormed(t, s)
    ensures WellFormed(t, l) && s.pos <= l.pos
    decreases |t| - s.pos
  {
    NextProgress(t, s);
    if Next(t, s).Stop? then s else Last(t, Next(t, s).next)
  }

  lemma StepLevels(t: string, s: State)
    requires WellFormed(t, s) && Next(t, s).Emit?
    ensures |Next(t, s).next.stack| == |s.stack| + Level(Next(t, s).token.kind)
  {
  }

  lemma {:induction false} RunLevels(t: string, s: State)
    requires WellFormed(t, s)
    ensures |Last(t, s).stack| == |s.stack| + Levels(ReadAll(t, s).tokens)
    ensures Next(t, Last(t, s)) == Stop(ReadAll(t, s).end)
    decreases |t| - s.pos
  {
    hide Next;
    NextProgress(t, s);
    if Next(t, s).Emit? {
      StepLevels(t, s);
      RunLevels(t, Next(t, s).next);
    }
  }

  lemma Prepended(token: Token, a: seq<Token>, b: seq<Token>)
    ensures [token] + (a + b) == [token] + a + b
  {
  }

  /** More text takes the run on from where it stopped. */
  lemma {:induction false} GoesOn(t: string, u: string, s: State)
    requires WellFormed(t, s) && ReadAll(t, s).end != Done
    ensures ReadAll(t + u, s).tokens == ReadAll(t, s).tokens + ReadAll(t + u, Last(t, s)).tokens
    ensures ReadAll(t + u, s).end == ReadAll(t + u, Last(t, s)).end
    decreases |t| - s.pos
  {
    hide Next;
    NextProgress(t, s);
    var step := Next(t, s);
    if step.Emit? {
      if Open(t, step) { NumberAtTheEnd(t, s); }
      NextGrows(t, u, s);
      GoesOn(t, u, step.next);
      Prepended(step.token, ReadAll(t, step.next).tokens, ReadAll(t + u, Last(t, step.next)).tokens);
    }
  }

  predicate IsBracket(c: char) { c == '[' || c == '{' }

  /** Behind the text a null would be read as one. */
  predicate NullFits(t: string) {
    ReadAll(t + "null", START).tokens == ReadAll(t, START).tokens + [Token(Null, "null")]
  }

  /** A null that begins in the text cannot end in the one behind it. */
  lemma NoHalfNull(t: string, i: nat)
    requires i < |t| && ScanLiteral(t, i, "null") == Fail(UnexpectedEnd)
    ensures ScanLiteral(t + "null", i, "null").Fail?
  {
    LiteralGrows(t, "null", i, "null");
  }

  lemma OnlyNull(t: string, i: nat, s: State)
    requires i < |t| && ReadValue(t, i, s) == Stop(UnexpectedEnd) && ReadValue(t + "null", i, s).Emit?
    ensures ReadValue(t + "null", i, s).token.kind != Null
  {
    hide ScanLiteral, ScanNumber, ReadString;
    assert (t + "null")[i] == t[i];
    if t[i] == 'n' { NoHalfNull(t, i); }
    StringIsString(t + "null", i, s);
  }

  lemma NameIsName(t: string, i: nat, s: State)
    requires i < |t| && ReadName(t, i, s).Emit?
    ensures ReadName(t, i, s).token.kind == PropertyName
  {
  }

  lemma BracketOverflows(t: string, i: nat, s: State)
    requires i < |t| && IsBracket(t[i]) && |s.stack| == MAX_DEPTH
    ensures ReadValue(t, i, s) == Stop(NestingOverflow)
  {
  }

  lemma NullThenBracket(t: string, w: string, s: State)
    requires WellFormed(t, s) && Next(t, s) == Stop(UnexpectedEnd) && |s.stack| == MAX_DEPTH
    requires Next(t + "null", s).Emit? && Next(t + "null", s).token.kind == Null
    requires w != "" && IsBracket(w[0])
    ensures Next(t + w, s) == Stop(NestingOverflow)
  {
    hide ReadValue, ReadName, ReadEnd, SkipWhitespace;
    var n, i := t + "null", SkipWhitespace(t, s.pos);
    var at := s.(pos := i);
    assert n[|t|] == 'n' && (t + w)[|t|] == w[0];
    if i < |t| {
      BlanksGrow(t, "null", s.pos);
      BlanksGrow(t, w, s.pos);
      assert n[i] == t[i] == (t + w)[i];
      if t[i] == ',' && s.kind != BeginObject && s.kind != BeginArray && s.kind != PropertyName {
        var j := SkipWhitespace(t, i + 1);
        if j < |t| {
          BlanksGrow(t, "null", i + 1);
          NotNull(t, j, at);
        } else {
          OnlyBlanks(t, "null", i + 1);
          OnlyBlanks(t, w, i + 1);
          BracketOverflows(t + w, |t|, at);
        }
      } else {
        NotNull(t, i, at);
        ClosesNoNull(n, i, at);
      }
    } else {
      OnlyBlanks(t, "null", s.pos);
      OnlyBlanks(t, w, s.pos);
      BracketOverflows(t + w, |t|, at);
    }
  }

  lemma NotNull(t: string, i: nat, s: State)
    requires i < |t|
    ensures (t + "null")[i] == t[i]
    ensures ReadValue(t, i, s) == Stop(UnexpectedEnd) && ReadValue(t + "null", i, s).Emit? ==>
      ReadValue(t + "null", i, s).token.kind != Null
    ensures ReadName(t + "null", i, s).Emit? ==> ReadName(t + "null", i, s).token.kind != Null
  {
    hide ReadValue, ReadName;
    if ReadValue(t, i, s) == Stop(UnexpectedEnd) && ReadValue(t + "null", i, s).Emit? { OnlyNull(t, i, s); }
    if ReadName(t + "null", i, s).Emit? { NameIsName(t + "null", i, s); }
  }

  lemma ClosesNoNull(t: string, i: nat, s: State)
    requires i < |t| && s.stack != []
    ensures ReadEnd(t, i, s, EndObject, Object).Emit? ==> ReadEnd(t, i, s, EndObject, Object).token.kind != Null
    ensures ReadEnd(t, i, s, EndArray, Array).Emit? ==> ReadEnd(t, i, s, EndArray, Array).token.kind != Null
  {
  }

  lemma TooDeepOverflows(t: string, k: nat)
    requires k < |t| && IsBracket(t[k]) && NullFits(t[..k]) && Levels(ReadAll(t[..k], START).tokens) == MAX_DEPTH
    ensures ReadAll(t, START).end == NestingOverflow
  {
    hide Next;
    var p := t[..k];
    RunLevels(p, START);
    var l := Last(p, START);
    if ReadAll(p, START).end == Done {
      NextProgress(p, l);
    } else if ReadAll(p, START).end != UnexpectedEnd {
      RunGrows(p, "null", START);
    } else {
      GoesOn(p, "null", START);
      GoesOn(p, t[k..], START);
      assert p + t[k..] == t;
      SameRest(ReadAll(p, START).tokens, ReadAll(p + "null", l).tokens, [Token(Null, "null")]);
      FirstToken(p + "null", l, Token(Null, "null"));
      NullThenBracket(p, t[k..], l);
    }
  }

  lemma SameRest(a: seq<Token>, b: seq<Token>, c: seq<Token>)
    requires a + b == a + c
    ensures b == c
  {
    assert (a + b)[|a|..] == b && (a + c)[|a|..] == c;
  }

  lemma FirstToken(t: string, s: State, token: Token)
    requires WellFormed(t, s) && ReadAll(t, s).tokens == [token]
    ensures Next(t, s).Emit? && Next(t, s).token == token
  {
    hide Next;
    NextProgress(t, s);
    if Next(t, s).Emit? { assert ReadAll(t, s).tokens[0] == Next(t, s).token; }
  }

  // Back from an overflow to its bracket.

  lemma BlanksCut(t: string, i: nat, k: nat)
    requires i <= k <= |t| && SkipWhitespace(t, i) == k
    ensures AtEnd(t[..k], i)
  {
    BlanksGrow(t[..k], t[k..], i);
    assert t[..k] + t[k..] == t;
  }

  /** An overflow is at a bracket where a value is due. */
  lemma OverflowStep(t: string, s: State) returns (k: nat)
    requires WellFormed(t, s) && Next(t, s) == Stop(NestingOverflow)
    ensures s.pos <= k < |t| && IsBracket(t[k]) && |s.stack| == MAX_DEPTH
    ensures Next(t[..k], s) == Stop(UnexpectedEnd)
    ensures ReadAll(t[..k] + "null", s).tokens == [Token(Null, "null")]
  {
    hide ReadString, ScanNumber;
    var i := SkipWhitespace(t, s.pos);
    k := i;
    if t[i] == ',' && s.kind != BeginArray && s.kind != PropertyName && s.kind != NoToken {
      k := SkipWhitespace(t, i + 1);
    }
    ValueOverflows(t, k, s.(pos := i));
    var p := t[..k];
    BlanksCut(t, if k == i then s.pos else i + 1, k);
    if k > i {
      assert p[i] == t[i];
      BlanksGrow(p, t[k..], s.pos);
      assert p + t[k..] == t;
    }
    NullStep(p, s, i);
  }

  lemma ValueOverflows(t: string, k: nat, s: State)
    requires k < |t| && ReadValue(t, k, s) == Stop(NestingOverflow)
    ensures IsBracket(t[k]) && |s.stack| >= MAX_DEPTH
  {
  }

  lemma NullRead(p: string, s: State)
    ensures ReadValue(p + "null", |p|, s) == Emit(Token(Null, "null"), s.(pos := |p| + 4, kind := Null))
  {
    var n := p + "null";
    assert n[|p|..] == "null" && n[|p|] == 'n' && n[|p|..|p| + 4] == "null";
    LiteralThere(n, |p|, "null");
  }

  lemma NullStep(p: string, s: State, i: nat)
    requires WellFormed(p, s) && |s.stack| == MAX_DEPTH && i == SkipWhitespace(p, s.pos)
    requires if i == |p| then s.kind == BeginArray || s.kind == PropertyName
             else p[i] == ',' && s.stack[0] == Array && AtEnd(p, i + 1)
                  && s.kind != BeginArray && s.kind != PropertyName && s.kind != NoToken && s.kind != BeginObject
    ensures Next(p, s) == Stop(UnexpectedEnd)
    ensures ReadAll(p + "null", s).tokens == [Token(Null, "null")]
  {
    hide ReadValue, SkipWhitespace, ReadAll;
    var n, next := p + "null", s.(pos := |p| + 4, kind := Null);
    OnlyBlanks(p, "null", if i == |p| then s.pos else i + 1);
    if i < |p| { BlanksGrow(p, "null", s.pos); }
    NullRead(p, s.(pos := i));
    assert n[i] == if i == |p| then 'n' else ',';
    assert Next(n, s) == Emit(Token(Null, "null"), next);
    OnlyToken(n, s, Token(Null, "null"), next);
  }

  lemma OnlyToken(t: string, s: State, token: Token, next: State)
    requires WellFormed(t, s) && Next(t, s) == Emit(token, next) && next.pos == |t| && next.stack != []
    ensures ReadAll(t, s).tokens == [token]
  {
    NextProgress(t, s);
    EndIsEnd(t);
    assert Next(t, next) == Stop(UnexpectedEnd);
    hide Next;
  }

  lemma DelimitedTail(t: string, b: nat, complex: bool)
    requires b <= |t|
    ensures var scan := ScanAfterInteger(t, b, complex); scan.Upto? && scan.end < |t| ==> IsDelimiter(t[scan.end])
  {
    hide SkipDigits, ScanSign;
  }

  lemma NumberIsDelimited(t: string, s: State)
    requires WellFormed(t, s) && Next(t, s).Emit? && Next(t, s).token.kind == Number && Next(t, s).next.pos < |t|
    ensures IsDelimiter(t[Next(t, s).next.pos])
  {
    hide Next, SkipDigits, ScanAfterInteger;
    var i := NumberStep(t, s);
    var a := ScanMinus(t, i).end;
    DelimitedTail(t, if t[a] == '0' then a + 1 else SkipDigits(t, a), s.complex);
  }

  /** The run up to the bracket does not need what comes behind. */
  lemma {:induction false} OverflowRun(t: string, s: State) returns (k: nat)
    requires WellFormed(t, s) && ReadAll(t, s).end == NestingOverflow
    ensures s.pos <= k < |t| && IsBracket(t[k]) && |Last(t, s).stack| == MAX_DEPTH
    ensures ReadAll(t[..k], s).tokens == ReadAll(t, s).tokens
    ensures ReadAll(t[..k] + "null", s).tokens == ReadAll(t, s).tokens + [Token(Null, "null")]
    decreases |t| - s.pos
  {
    hide Next;
    NextProgress(t, s);
    var step := Next(t, s);
    if step.Stop? {
      k := OverflowStep(t, s);
    } else {
      k := OverflowRun(t, step.next);
      if step.token.kind == Number { NumberIsDelimited(t, s); }
      SettledBefore(t, s, k);
      NextGrows(t[..k], "null", s);
    }
  }

  /** A step that ends before k needs no more than the text before k. */
  lemma SettledBefore(t: string, s: State, k: nat)
    requires WellFormed(t, s) && Next(t, s).Emit? && Next(t, s).next.pos <= k <= |t|
    requires Next(t, s).token.kind == Number ==> Next(t, s).next.pos < k
    ensures WellFormed(t[..k], s) && Next(t[..k], s) == Next(t, s) && !Open(t[..k], Next(t, s))
  {
    hide Next;
    var p := t[..k];
    assert p + t[k..] == t;
    NextProgress(t, s);
    NextGrows(p, t[k..], s);
    if Next(p, s) == Stop(Done) { DoneIsAtEnd(p, t[k..], s); }
  }

  lemma DoneIsAtEnd(t: string, u: string, s: State)
    requires WellFormed(t, s) && Next(t, s) == Stop(Done)
    ensures Next(t + u, s).Emit? ==> Next(t + u, s).next.pos > |t|
  {
    hide Dispatch;
    NextProgress(t, s);
    BlanksGrow(t, u, s.pos);
    var k := SkipWhitespace(t + u, s.pos);
    if k < |t + u| { DispatchAdvances(t + u, k, s.(pos := k)); }
  }

  /** A text ends in NESTING_OVERFLOW if and only if a bracket opens behind 64 open ones where a value is due. */
  lemma OverflowIsTooDeep(t: string)
    ensures ReadAll(t, START).end == NestingOverflow
      <==> exists k :: 0 <= k < |t| && IsBracket(t[k]) && NullFits(t[..k])
                       && Levels(ReadAll(t[..k], START).tokens) == 64
  {
    hide Next;
    if ReadAll(t, START).end == NestingOverflow {
      var k := OverflowRun(t, START);
      RunLevels(t, START);
    } else {
      forall k | 0 <= k < |t| && IsBracket(t[k]) && NullFits(t[..k])
        ensures Levels(ReadAll(t[..k], START).tokens) != 64
      {
        if Levels(ReadAll(t[..k], START).tokens) == 64 { TooDeepOverflows(t, k); }
      }
    }
  }

  /** A document cut short is never called wrong, and what is read of it is the beginning of its tokens. */
  lemma CutDocument(d: Document, n: nat)
    requires Readable(d) && n <= |PrintDocument(d)|
    ensures var run := ReadAll(PrintDocument(d)[..n], START);
      run.end == Done || (run.end == UnexpectedEnd && run.tokens <= Tokens(d.value))
  {
    hide PrintDocument, Readable;
    var t := PrintDocument(d);
    JsonRoundTrip.PrintedIsRead(d);
    assert t[..n] + t[n..] == t;
    UnexpectedEndIsUnfinished(t[..n]);
    if ReadAll(t[..n], START).end != Done { RunGrows(t[..n], t[n..], START); }
  }

  // Skipping.

  /** The number of tokens up to the one that closes more than `room` containers, or one too many if there is none. */
  function Falls(tokens: seq<Token>, room: nat): (n: nat)
    ensures 0 < n <= |tokens| + 1
  {
    if tokens == [] || room + Level(tokens[0].kind) < 0 then 1
    else 1 + Falls(tokens[1..], room + Level(tokens[0].kind))
  }

  lemma {:induction false} FallsFirst(tokens: seq<Token>, room: nat, m: nat)
    requires m <= |tokens|
    ensures m < Falls(tokens, room) ==> room + Levels(tokens[..m]) >= 0
    ensures m == Falls(tokens, room) ==> room + Levels(tokens[..m]) < 0
    decreases m
  {
    if m > 0 {
      assert tokens[..m][1..] == tokens[1..][..m - 1];
      if room + Level(tokens[0].kind) >= 0 {
        FallsFirst(tokens[1..], room + Level(tokens[0].kind), m - 1);
      } else if m == 1 {
        assert Levels(tokens[..1]) == Level(tokens[0].kind) + Levels([]);
      }
    }
  }

  lemma FallsNever(room: nat)
    ensures Falls([], room) == 1
  {
  }

  lemma FallsStep(token: Token, rest: seq<Token>, room: nat)
    ensures var left := room + Level(token.kind);
      Falls([token] + rest, room) == if left < 0 then 1 else 1 + Falls(rest, left)
    ensures forall k :: 0 <= k <= |rest| ==> ([token] + rest)[1 + k..] == rest[k..]
  {
    assert ([token] + rest)[1..] == rest;
  }

  /** Skipping lands behind the first token that takes the depth below, and reading goes on from there; if there is
      none before the run stops, it fails with the answer of the run. */
  lemma {:induction false} SkipIsExact(t: string, s: State, depth: nat)
    requires WellFormed(t, s) && depth <= |s.stack|
    ensures var run, skipped := ReadAll(t, s), SkipFrom(t, s, depth);
      var n := Falls(run.tokens, |s.stack| - depth);
      if n > |run.tokens| then skipped == Failed(run.end)
      else skipped.Landed? && WellFormed(t, skipped.state)
           && ReadAll(t, skipped.state) == Run(run.tokens[n..], run.end)
    decreases |t| - s.pos
  {
    hide Next, Falls, Level;
    NextProgress(t, s);
    var step := Next(t, s);
    if step.Stop? {
      FallsNever(|s.stack| - depth);
    } else {
      StepLevels(t, s);
      FallsStep(step.token, ReadAll(t, step.next).tokens, |s.stack| - depth);
      if depth <= |step.next.stack| { SkipIsExact(t, step.next, depth); }
    }
  }

  /** How many of the tokens to come az_json_reader_skip_children passes: the rest of a container just begun, the value
      of a property name, and otherwise none. */
  function Skipped(kind: Kind, tokens: seq<Token>): nat {
    if kind == BeginObject || kind == BeginArray then Falls(tokens, 0)
    else if kind != PropertyName then 0
    else if tokens != [] && Level(tokens[0].kind) == 1 then 1 + Falls(tokens[1..], 0)
    else 1
  }

  /** From every token skip_children lands behind that many, where reading goes on, or fails as the run fails. */
  lemma SkipValueIsExact(t: string, s: State)
    requires WellFormed(t, s)
    ensures var run, skipped := ReadAll(t, s), SkipValue(t, s);
      var n := Skipped(s.kind, run.tokens);
      if n > |run.tokens| then skipped == Failed(run.end)
      else skipped.Landed? && WellFormed(t, skipped.state)
           && ReadAll(t, skipped.state) == Run(run.tokens[n..], run.end)
  {
    hide Next, Falls, SkipFrom;
    NextProgress(t, s);
    if s.kind == BeginObject || s.kind == BeginArray {
      SkipIsExact(t, s, |s.stack|);
    } else if s.kind == PropertyName && Next(t, s).Emit? {
      var token, next := Next(t, s).token, Next(t, s).next;
      FallsStep(token, ReadAll(t, next).tokens, 0);
      if Level(token.kind) == 1 { SkipIsExact(t, next, |next.stack|); }
      StepLevels(t, s);
      assert ([token] + ReadAll(t, next).tokens)[1..] == ReadAll(t, next).tokens;
    }
  }
}
