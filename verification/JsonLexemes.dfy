/** The scanner and the grammar agree on whitespace, strings, literals and numbers. */
module JsonLexemes {
  import opened Common
  import opened JsonScan
  import opened JsonGrammar

  /** `s` is written in `t` at index i. */
  predicate At(t: string, i: nat, s: string) { i + |s| <= |t| && t[i..i + |s|] == s }

  lemma AtSplit(t: string, i: nat, a: string, b: string)
    ensures At(t, i, a + b) <==> At(t, i, a) && At(t, i + |a|, b)
    ensures At(t, i, a + b) ==> i + |a| + |b| <= |t|
  {
    if i + |a| + |b| <= |t| {
      assert t[i..i + |a + b|] == t[i..i + |a|] + t[i + |a|..i + |a| + |b|];
      if t[i..i + |a + b|] == a + b {
        assert t[i..i + |a|] == (a + b)[..|a|];
        assert t[i + |a|..i + |a| + |b|] == (a + b)[|a|..];
      }
    }
  }

  /** A quoted name and what follows. */
  lemma AtQuoted(t: string, q: nat, name: string, n: nat, rest: string)
    requires n == q + 1 + |name|
    ensures At(t, q, "\"" + (name + ("\"" + rest)))
       <==> At(t, q, "\"") && At(t, q + 1, name) && At(t, n, "\"") && At(t, n + 1, rest)
  {
    hide At;
    AtSplit(t, q, "\"", name + ("\"" + rest));
    AtSplit(t, q + 1, name, "\"" + rest);
    AtSplit(t, n, "\"", rest);
  }

  /** Blanks around a colon and what follows. */
  lemma AtColon(t: string, g: nat, gap: string, k: nat, lead: string, a: nat, rest: string)
    requires k == g + |gap| && a == k + 1 + |lead|
    ensures At(t, g, gap + (":" + (lead + rest)))
       <==> At(t, g, gap) && At(t, k, ":") && At(t, k + 1, lead) && At(t, a, rest)
  {
    hide At;
    AtSplit(t, g, gap, ":" + (lead + rest));
    AtSplit(t, k, ":", lead + rest);
    AtSplit(t, k + 1, lead, rest);
  }

  lemma AtChar(t: string, i: nat, s: string, k: nat)
    requires At(t, i, s) && k < |s|
    ensures i + |s| <= |t| && t[i + k] == s[k]
  {
    assert t[i..i + |s|][k] == s[k];
  }

  lemma AtWhole(t: string)
    ensures At(t, 0, t)
  {
  }

  lemma AtOne(t: string, i: nat, c: char)
    requires i < |t| && t[i] == c
    ensures At(t, i, [c])
  {
  }

  lemma AtSlice(t: string, i: nat, s: string, j: nat)
    requires At(t, i, s) && j == i + |s|
    ensures j <= |t| && t[i..j] == s
  {
  }

  lemma {:induction false} BlankSkipped(t: string, i: nat, w: string)
    requires At(t, i, w) && Blank(w)
    requires i + |w| == |t| || !IsWhitespace(t[i + |w|])
    ensures SkipWhitespace(t, i) == i + |w|
    decreases |w|
  {
    if w != "" {
      AtChar(t, i, w, 0);
      AtSplit(t, i, w[..1], w[1..]);
      assert w[..1] + w[1..] == w;
      BlankSkipped(t, i + 1, w[1..]);
    }
  }

  lemma SkippedIsBlank(t: string, i: nat)
    requires i <= |t|
    ensures var w := t[i..SkipWhitespace(t, i)]; Blank(w) && At(t, i, w)
  {
  }

  lemma {:induction false} DigitsSkipped(t: string, i: nat, s: string)
    requires At(t, i, s) && Digits(s)
    requires i + |s| == |t| || !IsDigit(t[i + |s|])
    ensures SkipDigits(t, i) == i + |s|
    decreases |s|
  {
    if s != "" {
      AtChar(t, i, s, 0);
      AtSplit(t, i, s[..1], s[1..]);
      assert s[..1] + s[1..] == s;
      DigitsSkipped(t, i + 1, s[1..]);
    }
  }

  lemma HexScanned(t: string, i: nat)
    requires i <= |t|
    ensures ScanHex(t, i, 4).Upto? <==>
      i + 4 <= |t| && IsHex(t[i]) && IsHex(t[i + 1]) && IsHex(t[i + 2]) && IsHex(t[i + 3])
  {
    if i < |t| && IsHex(t[i]) {
      assert ScanHex(t, i, 4) == ScanHex(t, i + 1, 3);
      if i + 1 < |t| && IsHex(t[i + 1]) {
        assert ScanHex(t, i + 1, 3) == ScanHex(t, i + 2, 2);
        if i + 2 < |t| && IsHex(t[i + 2]) {
          assert ScanHex(t, i + 2, 2) == ScanHex(t, i + 3, 1);
        }
      }
    }
  }

  /** A string is scanned to its closing quote exactly if it is a string body of section 7. */
  lemma {:induction false} StringScanned(t: string, i: nat, j: nat)
    requires i <= j < |t| && t[j] == '"'
    ensures StringBody(t[i..j]) <==> ScanString(t, i) == Upto(j)
    decreases j - i
  {
    var s := t[i..j];
    if i < j {
      if s[0] == '\\' {
        if |s| >= 2 {
          if s[1] == 'u' {
            HexScanned(t, i + 2);
            if |s| >= 6 {
              assert s[6..] == t[i + 6..j];
              assert forall k :: 2 <= k < 6 ==> s[k] == t[i + k];
              assert (forall k :: 2 <= k < 6 ==> IsHex(s[k])) <==>
                IsHex(s[2]) && IsHex(s[3]) && IsHex(s[4]) && IsHex(s[5]);
              StringScanned(t, i + 6, j);
            } else {
              // The quote at j would have to be a hexadecimal digit.
              assert i + 2 <= j < i + 6;
            }
          } else {
            assert s[2..] == t[i + 2..j];
            StringScanned(t, i + 2, j);
          }
        }
      } else {
        assert s[1..] == t[i + 1..j];
        StringScanned(t, i + 1, j);
      }
    }
  }

  /** What must follow a number: a delimiter, or the end of a text that is one single value. */
  predicate Ends(x: Exponent, t: string, e: nat, complex: bool) {
    e <= |t| && if e == |t| then !complex && !BareMark(x) else IsDelimiter(t[e])
  }

  lemma SignScanned(t: string, i: nat, x: Exponent, complex: bool)
    requires ExponentOk(x) && x.Exponent? && At(t, i, x.sign) && At(t, i + |x.sign|, x.digits)
    requires Ends(x, t, i + |x.sign| + |x.digits|, complex)
    ensures i <= |t| && ScanSign(t, i) == Upto(i + |x.sign|)
  {
    if x.digits != "" { AtChar(t, i + |x.sign|, x.digits, 0); }
    if x.sign != "" { AtChar(t, i, x.sign, 0); }
  }

  lemma EndIsNoDigit(x: Exponent, t: string, e: nat, complex: bool)
    requires Ends(x, t, e, complex)
    ensures e == |t| || (e < |t| && !IsDigit(t[e]))
  {
  }

  lemma ExponentScanned(t: string, i: nat, x: Exponent, complex: bool)
    requires ExponentOk(x) && x.Exponent? && At(t, i, x.sign + x.digits)
    requires Ends(x, t, i + |x.sign + x.digits|, complex)
    ensures ScanExponent(t, i, complex) == Upto(i + |x.sign + x.digits|)
  {
    hide At, ScanSign, SkipDigits;
    AtSplit(t, i, x.sign, x.digits);
    SignScanned(t, i, x, complex);
    EndIsNoDigit(x, t, i + |x.sign| + |x.digits|, complex);
    DigitsSkipped(t, i + |x.sign|, x.digits);
  }

  lemma ExponentPartScanned(t: string, b: nat, x: Exponent, complex: bool)
    requires ExponentOk(x) && At(t, b, PrintExponent(x)) && Ends(x, t, b + |PrintExponent(x)|, complex)
    ensures ScanAfterFraction(t, b, complex) == Upto(b + |PrintExponent(x)|)
    ensures b < |t| ==> IsDelimiter(t[b]) || IsExponentMark(t[b])
  {
    if x.Exponent? {
      AtSplit(t, b, [x.mark], x.sign + x.digits);
      AtChar(t, b, PrintExponent(x), 0);
      ExponentScanned(t, b + 1, x, complex);
    }
  }

  lemma AfterIntegerPlain(t: string, b: nat, complex: bool)
    requires b <= |t| && (b < |t| ==> t[b] != '.')
    ensures ScanAfterInteger(t, b, complex) == ScanAfterFraction(t, b, complex)
  {
  }

  lemma FractionScanned(t: string, i: nat, f: string, complex: bool)
    requires Digits(f) && f != "" && At(t, i, PrintFraction(f))
    requires i + 1 + |f| == |t| || !IsDigit(t[i + 1 + |f|])
    ensures t[i] == '.'
    ensures ScanAfterInteger(t, i, complex) == ScanAfterFraction(t, i + 1 + |f|, complex)
  {
    AtSplit(t, i, ".", f);
    AtChar(t, i, PrintFraction(f), 0);
    AtChar(t, i + 1, f, 0);
    DigitsSkipped(t, i + 1, f);
  }

  lemma TailScanned(t: string, i: nat, f: string, x: Exponent, complex: bool)
    requires Digits(f) && ExponentOk(x) && At(t, i, PrintFraction(f) + PrintExponent(x))
    requires Ends(x, t, i + |PrintFraction(f) + PrintExponent(x)|, complex)
    ensures ScanAfterInteger(t, i, complex) == Upto(i + |PrintFraction(f) + PrintExponent(x)|)
    ensures i == |t| || !IsDigit(t[i])
  {
    AtSplit(t, i, PrintFraction(f), PrintExponent(x));
    ExponentPartScanned(t, i + |PrintFraction(f)|, x, complex);
    if f == "" {
      AfterIntegerPlain(t, i, complex);
    } else {
      FractionScanned(t, i, f, complex);
    }
  }

  lemma IntegerScanned(t: string, a: nat, integer: string, b: nat)
    requires Digits(integer) && integer != "" && (integer[0] == '0' ==> |integer| == 1)
    requires At(t, a, integer) && b == a + |integer| && (b == |t| || !IsDigit(t[b]))
    ensures IsDigit(t[a]) && b == if t[a] == '0' then a + 1 else SkipDigits(t, a)
  {
    AtChar(t, a, integer, 0);
    DigitsSkipped(t, a, integer);
  }

  /** Every printed numeral, ended as a number may end, is scanned whole. */
  lemma NumeralScanned(t: string, i: nat, n: Numeral, complex: bool)
    requires NumeralOk(n) && At(t, i, PrintNumeral(n)) && Ends(n.exponent, t, i + |PrintNumeral(n)|, complex)
    ensures i < |t| && (IsDigit(t[i]) || t[i] == '-')
    ensures ScanNumber(t, i, complex) == Upto(i + |PrintNumeral(n)|)
  {
    hide At, ScanAfterInteger, Ends, PrintFraction, PrintExponent, SkipDigits;
    var m := if n.minus then "-" else "";
    var tail := PrintFraction(n.fraction) + PrintExponent(n.exponent);
    var a := i + |m|;
    var b := a + |n.integer|;
    AtSplit(t, i, m, n.integer + tail);
    AtSplit(t, a, n.integer, tail);
    TailScanned(t, b, n.fraction, n.exponent, complex);
    IntegerScanned(t, a, n.integer, b);
    if n.minus { AtChar(t, i, m, 0); }
    assert ScanMinus(t, i) == Upto(a);
  }

  function ExponentAt(t: string, c: nat): (x: Exponent)
    requires c < |t| && ScanSign(t, c + 1).Upto?
  {
    var a := ScanSign(t, c + 1).end;
    Exponent(t[c], t[c + 1..a], t[a..SkipDigits(t, a)])
  }

  lemma ExponentAtOk(t: string, c: nat)
    requires c < |t| && ScanSign(t, c + 1).Upto? && IsExponentMark(t[c])
    ensures ExponentOk(ExponentAt(t, c))
  {
    var a := ScanSign(t, c + 1).end;
    SignIsOneChar(t, c + 1);
    hide ScanSign;
    DigitsTaken(t, a);
  }

  lemma SignIsOneChar(t: string, i: nat)
    requires i <= |t| && ScanSign(t, i).Upto?
    ensures var a := ScanSign(t, i).end;
      && (t[i..a] == "" || t[i..a] == "-" || t[i..a] == "+")
      && (t[i..a] != "" ==> IsDigit(t[a]))
  {
    var a := ScanSign(t, i).end;
    assert a == i || (a == i + 1 && t[i..a] == [t[i]]);
  }

  lemma DigitsTaken(t: string, a: nat)
    requires a < |t|
    ensures Digits(t[a..SkipDigits(t, a)]) && (IsDigit(t[a]) ==> t[a..SkipDigits(t, a)] != "")
  {
  }

  lemma AtTaken(t: string, i: nat, j: nat)
    requires i <= j <= |t|
    ensures At(t, i, t[i..j])
  {
  }

  lemma ExponentAtPrinted(t: string, c: nat)
    requires c < |t| && ScanSign(t, c + 1).Upto?
    ensures At(t, c, PrintExponent(ExponentAt(t, c)))
    ensures c + |PrintExponent(ExponentAt(t, c))| == SkipDigits(t, ScanSign(t, c + 1).end)
  {
    hide At, ScanSign, SkipDigits;
    var a := ScanSign(t, c + 1).end;
    var b := SkipDigits(t, a);
    AtOne(t, c, t[c]);
    AtTaken(t, c + 1, a);
    AtTaken(t, a, b);
    AtSplit(t, c + 1, t[c + 1..a], t[a..b]);
    AtSplit(t, c, [t[c]], t[c + 1..a] + t[a..b]);
  }

  /** The exponent part, if any, that a successful scan goes over. */
  function ExponentPartAt(t: string, c: nat, complex: bool): Exponent
    requires c <= |t| && ScanAfterFraction(t, c, complex).Upto?
  {
    if c < |t| && IsExponentMark(t[c]) then ExponentAt(t, c) else NoExponent
  }

  lemma ExponentPartParsed(t: string, c: nat, complex: bool)
    requires c <= |t| && ScanAfterFraction(t, c, complex).Upto?
    ensures var x := ExponentPartAt(t, c, complex);
      && ExponentOk(x) && At(t, c, PrintExponent(x))
      && ScanAfterFraction(t, c, complex).end == c + |PrintExponent(x)|
  {
    if c < |t| && IsExponentMark(t[c]) {
      ExponentAtOk(t, c);
      ExponentAtPrinted(t, c);
    }
  }

  lemma ExponentPartEnds(t: string, c: nat, complex: bool)
    requires c <= |t| && ScanAfterFraction(t, c, complex).Upto?
    ensures Ends(ExponentPartAt(t, c, complex), t, ScanAfterFraction(t, c, complex).end, complex)
  {
  }

  lemma FractionHasDigits(t: string, b: nat, complex: bool)
    requires b < |t| && t[b] == '.' && ScanAfterInteger(t, b, complex).Upto?
    ensures var c := SkipDigits(t, b + 1);
      b + 1 < c && Digits(t[b + 1..c]) && ScanAfterInteger(t, b, complex) == ScanAfterFraction(t, c, complex)
  {
    hide ScanExponent, ScanNumberEnd, ScanAfterFraction;
  }

  lemma FractionPrinted(t: string, b: nat, c: nat)
    requires b + 1 < c <= |t| && t[b] == '.'
    ensures At(t, b, PrintFraction(t[b + 1..c])) && b + |PrintFraction(t[b + 1..c])| == c
  {
    hide At;
    AtOne(t, b, '.');
    AtTaken(t, b + 1, c);
    AtSplit(t, b, ".", t[b + 1..c]);
  }

  lemma FractionParsed(t: string, b: nat, complex: bool) returns (f: string)
    requires b <= |t| && ScanAfterInteger(t, b, complex).Upto?
    ensures Digits(f) && At(t, b, PrintFraction(f))
    ensures ScanAfterInteger(t, b, complex) == ScanAfterFraction(t, b + |PrintFraction(f)|, complex)
  {
    f := "";
    if b < |t| && t[b] == '.' {
      FractionHasDigits(t, b, complex);
      hide *;
      var c := SkipDigits(t, b + 1);
      f := t[b + 1..c];
      FractionPrinted(t, b, c);
    } else {
      AfterIntegerPlain(t, b, complex);
    }
  }

  function Sign(minus: bool): string { if minus then "-" else "" }

  /** The parts of a numeral, one after the other, are its printed form. */
  lemma NumeralAt(t: string, i: nat, n: Numeral, a: nat, b: nat, c: nat)
    requires a == i + |Sign(n.minus)| && b == a + |n.integer| && c == b + |PrintFraction(n.fraction)|
    requires At(t, i, Sign(n.minus)) && At(t, a, n.integer)
    requires At(t, b, PrintFraction(n.fraction)) && At(t, c, PrintExponent(n.exponent))
    ensures At(t, i, PrintNumeral(n)) && i + |PrintNumeral(n)| == c + |PrintExponent(n.exponent)|
  {
    var f, x := PrintFraction(n.fraction), PrintExponent(n.exponent);
    AtSplit(t, b, f, x);
    AtSplit(t, a, n.integer, f + x);
    AtSplit(t, i, Sign(n.minus), n.integer + (f + x));
  }

  /** The sign and the integer part of a number that scans. */
  lemma IntegerParsed(t: string, i: nat, complex: bool) returns (a: nat, b: nat, integer: string)
    requires i < |t| && (IsDigit(t[i]) || t[i] == '-') && ScanNumber(t, i, complex).Upto?
    ensures Digits(integer) && integer != "" && (integer[0] == '0' ==> |integer| == 1)
    ensures At(t, i, Sign(t[i] == '-')) && a == i + |Sign(t[i] == '-')|
    ensures At(t, a, integer) && b == a + |integer| <= |t|
    ensures ScanNumber(t, i, complex) == ScanAfterInteger(t, b, complex)
  {
    hide ScanAfterInteger;
    a := ScanMinus(t, i).end;
    b := if t[a] == '0' then a + 1 else SkipDigits(t, a);
    assert a < b;
    integer := t[a..b];
  }

  /** Whatever the scanner takes for a number is a printed numeral, ended as a number may end. */
  lemma NumberParsed(t: string, i: nat, complex: bool) returns (n: Numeral)
    requires i < |t| && (IsDigit(t[i]) || t[i] == '-') && ScanNumber(t, i, complex).Upto?
    ensures NumeralOk(n) && At(t, i, PrintNumeral(n))
    ensures ScanNumber(t, i, complex).end == i + |PrintNumeral(n)|
    ensures Ends(n.exponent, t, ScanNumber(t, i, complex).end, complex)
  {
    hide At, ScanNumber, ScanAfterInteger, ScanAfterFraction, Ends, PrintNumeral;
    var a, b, integer := IntegerParsed(t, i, complex);
    var f := FractionParsed(t, b, complex);
    var c := b + |PrintFraction(f)|;
    var x := ExponentPartAt(t, c, complex);
    ExponentPartParsed(t, c, complex);
    ExponentPartEnds(t, c, complex);
    n := Numeral(t[i] == '-', integer, f, x);
    NumeralAt(t, i, n, a, b, c);
  }

  lemma {:induction false} LiteralScanned(t: string, i: nat, literal: string)
    requires i <= |t|
    ensures ScanLiteral(t, i, literal).Upto? <==> At(t, i, literal)
    decreases |literal|
  {
    if literal != "" {
      AtSplit(t, i, literal[..1], literal[1..]);
      assert literal[..1] + literal[1..] == literal;
      if i < |t| {
        LiteralScanned(t, i + 1, literal[1..]);
        assert t[i..i + 1] == [t[i]];
      }
    }
  }
}
