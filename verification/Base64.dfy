/** Base64 as section 4 of RFC 4648 defines it, and the table lookups of the key vault.

    Shifts and masks of unsigned values are written as division and remainder, and the `|` of two
    fields that share no bit as addition. */
module Base64 {
  type byte = x: int | 0 <= x < 256
  type sextet = x: int | 0 <= x < 64

  function From(first: char, count: nat): (r: string)
    requires first as int + count <= 128
    ensures |r| == count && forall i :: 0 <= i < count ==> r[i] == (first as int + i) as char
  {
    seq(count, i requires 0 <= i < count => (first as int + i) as char)
  }

  /** Table 1: A-Z, a-z, 0-9, plus, slash. */
  const ALPHABET: string := From('A', 26) + From('a', 26) + From('0', 10) + "+/"

  function Letter(val: sextet): char { ALPHABET[val] }

  /** Three bytes: one 24-bit group, cut into four 6-bit groups. */
  function Quad(a: byte, b: byte, c: byte): (q: string)
    ensures |q| == 4
  {
    var group: int := a as int * 65536 + b as int * 256 + c as int;
    [Letter(group / 262144), Letter(group / 4096 % 64), Letter(group / 64 % 64), Letter(group % 64)]
  }

  /** Two bytes: 16 bits and two zero bits. */
  function Pair(a: byte, b: byte): (q: string)
    ensures |q| == 4
  {
    var group: int := (a as int * 256 + b as int) * 4;
    [Letter(group / 4096), Letter(group / 64 % 64), Letter(group % 64), '=']
  }

  /** One byte: 8 bits and four zero bits. */
  function Single(a: byte): (q: string)
    ensures |q| == 4
  {
    var group: int := a as int * 16;
    [Letter(group / 64), Letter(group % 64), '=', '=']
  }

  /** The reference encoding. */
  function Encode(s: seq<byte>): string {
    if |s| == 0 then ""
    else if |s| == 1 then Single(s[0])
    else if |s| == 2 then Pair(s[0], s[1])
    else Quad(s[0], s[1], s[2]) + Encode(s[3..])
  }

  function Char(val: sextet): char {
    if val < 26 then (val + 'A' as int) as char
    else if val < 52 then (val - 26 + 'a' as int) as char
    else if val < 62 then (val - 52 + '0' as int) as char
    else if val == 62 then '+'
    else '/'
  }

  function JoinChars(a: char, b: char, c: char, d: char): nat {
    a as int + b as int * 0x100 + c as int * 0x1_0000 + d as int * 0x100_0000
  }

  function SplitInt(word: nat, bytePos: nat): nat
    requires bytePos < 4
  {
    word / (if bytePos == 0 then 1 else if bytePos == 1 then 0x100
            else if bytePos == 2 then 0x1_0000 else 0x100_0000) % 256
  }

  /** The third character of a two-byte tail, from its four bits. */
  function B16(val: nat): char
    requires val < 16
  {
    var words := [JoinChars('A', 'E', 'I', 'M'), JoinChars('Q', 'U', 'Y', 'c'),
                  JoinChars('g', 'k', 'o', 's'), JoinChars('w', '0', '4', '8')];
    SplitInt(words[val / 4], val % 4) as char
  }

  /** The second character of a one-byte tail, from its two bits. */
  function B8(val: nat): char
    requires val < 4
  {
    SplitInt(JoinChars('A', 'Q', 'g', 'w'), val) as char
  }

  lemma CharIsAlphabet(val: sextet)
    ensures Char(val) == Letter(val)
  {
  }

  /** Byte `pos` of four joined characters. */
  lemma JoinedChar(a: char, b: char, c: char, d: char, pos: nat)
    requires a as int < 256 && b as int < 256 && c as int < 256 && d as int < 256 && pos < 4
    ensures SplitInt(JoinChars(a, b, c, d), pos) == [a, b, c, d][pos] as int
  {
    var word := JoinChars(a, b, c, d);
    Byte(word, b as int + c as int * 0x100 + d as int * 0x1_0000, a as int);
    Byte(word / 0x100, c as int + d as int * 0x100, b as int);
    Byte(word / 0x1_0000, d as int, c as int);
    assert word / 0x1_0000 == word / 0x100 / 0x100;
    assert word / 0x100_0000 == word / 0x1_0000 / 0x100;
  }

  lemma Byte(word: nat, high: nat, low: nat)
    requires word == low + 0x100 * high && low < 0x100
    ensures word / 0x100 == high && word % 0x100 == low
  {
  }

  lemma B16IsAlphabet(val: nat)
    requires val < 16
    ensures B16(val) == Letter(val * 4)
  {
    hide SplitInt, JoinChars;
    JoinedChar('A', 'E', 'I', 'M', val % 4);
    JoinedChar('Q', 'U', 'Y', 'c', val % 4);
    JoinedChar('g', 'k', 'o', 's', val % 4);
    JoinedChar('w', '0', '4', '8', val % 4);
    var row, column := val / 4, val % 4;
    assert row == 0 || row == 1 || row == 2 || row == 3;
    assert column == 0 || column == 1 || column == 2 || column == 3;
  }

  lemma B8IsAlphabet(val: nat)
    requires val < 4
    ensures B8(val) == Letter(val * 16)
  {
    hide SplitInt, JoinChars;
    JoinedChar('A', 'Q', 'g', 'w', val);
    assert val == 0 || val == 1 || val == 2 || val == 3;
  }

  /** base64toValue: the value of a character, or none for a character outside the alphabet. */
  datatype Decoded = Sextet(value: sextet) | NotBase64

  function ToValue(c: char): Decoded {
    if 'A' <= c <= 'Z' then Sextet(c as int - 'A' as int)
    else if 'a' <= c <= 'z' then Sextet(('Z' as int - 'A' as int) + 1 + (c as int - 'a' as int))
    else if '0' <= c <= '9' then
      Sextet(('Z' as int - 'A' as int) + 1 + ('z' as int - 'a' as int) + 1 + (c as int - '0' as int))
    else if c == '+' then Sextet(62)
    else if c == '/' then Sextet(63)
    else NotBase64
  }

  lemma ToValueInverts(val: sextet)
    ensures ToValue(Letter(val)) == Sextet(val)
  {
    CharIsAlphabet(val);
  }

  /** The value the decoder stores: zero when the character is not in the alphabet. */
  function Value(c: char): sextet {
    if ToValue(c).Sextet? then ToValue(c).value else 0
  }

  function Byte1(a: sextet, b: sextet): byte { a as int * 4 + b as int / 16 }

  function Byte2(b: sextet, c: sextet): byte { b as int % 16 * 16 + c as int / 4 }

  function Byte3(c: sextet, d: sextet): byte { c as int % 4 * 64 + d as int }

  /** What the decoding loop makes of a run of alphabet characters. */
  function Decode(t: string): seq<byte> {
    if |t| < 2 then []
    else if |t| == 2 then [Byte1(Value(t[0]), Value(t[1]))]
    else if |t| == 3 then [Byte1(Value(t[0]), Value(t[1])), Byte2(Value(t[1]), Value(t[2]))]
    else
      [Byte1(Value(t[0]), Value(t[1])), Byte2(Value(t[1]), Value(t[2])), Byte3(Value(t[2]), Value(t[3]))]
      + Decode(t[4..])
  }

  /** The leading characters of t that belong to the alphabet. */
  function Run(t: string): (r: string)
    ensures |r| <= |t| && r == t[..|r|]
    ensures |r| < |t| ==> ToValue(t[|r|]).NotBase64?
    ensures forall k :: 0 <= k < |r| ==> ToValue(t[k]).Sextet?
  {
    if t == "" || ToValue(t[0]).NotBase64? then "" else [t[0]] + Run(t[1..])
  }

  lemma Cut(n: nat, high: nat, low: nat, unit: nat)
    requires n == high * unit + low && low < unit && (unit == 64 || unit == 4096 || unit == 262144)
    ensures n / unit == high && n % unit == low
  {
  }

  lemma GroupOfThree(a: byte, b: byte, c: byte)
    ensures var g: int := a as int * 65536 + b as int * 256 + c as int;
      && g / 262144 == a / 4 && g / 4096 % 64 == a % 4 * 16 + b / 16
      && g / 64 % 64 == b % 16 * 4 + c / 64 && g % 64 == c % 64
  {
    var g: int := a as int * 65536 + b as int * 256 + c as int;
    var s1, s2, s3 := a % 4 * 16 + b / 16, b % 16 * 4 + c / 64, c % 64;
    Cut(g, (a / 4) * 4096 + s1 * 64 + s2, s3, 64);
    Cut(g / 64, (a / 4) * 64 + s1, s2, 64);
    Cut(g, (a / 4) * 64 + s1, s2 * 64 + s3, 4096);
    Cut(g / 4096, a / 4, s1, 64);
    Cut(g, a / 4, s1 * 4096 + s2 * 64 + s3, 262144);
  }

  lemma GroupOfTwo(a: byte, b: byte)
    ensures var g: int := (a as int * 256 + b as int) * 4;
      g / 4096 == a / 4 && g / 64 % 64 == a % 4 * 16 + b / 16 && g % 64 == b % 16 * 4
  {
    var g: int := (a as int * 256 + b as int) * 4;
    var s1, s2 := a % 4 * 16 + b / 16, b % 16 * 4;
    Cut(g, (a / 4) * 64 + s1, s2, 64);
    Cut(g / 64, a / 4, s1, 64);
    Cut(g, a / 4, s1 * 64 + s2, 4096);
  }

  lemma QuadBytes(a: byte, b: byte, c: byte)
    ensures var s1, s2 := a % 4 * 16 + b / 16, b % 16 * 4 + c / 64;
      Byte1(a / 4, s1) == a && Byte2(s1, s2) == b && Byte3(s2, c % 64) == c
  {
  }

  lemma QuadDecoded(a: byte, b: byte, c: byte)
    ensures var q := Quad(a, b, c);
      && (forall k :: 0 <= k < 4 ==> ToValue(q[k]).Sextet?)
      && Decode(q) == [a, b, c]
  {
    hide Letter, ToValue, Byte1, Byte2, Byte3;
    GroupOfThree(a, b, c);
    QuadBytes(a, b, c);
    var s1, s2 := a % 4 * 16 + b / 16, b % 16 * 4 + c / 64;
    var q := [Letter(a / 4), Letter(s1), Letter(s2), Letter(c % 64)];
    assert Quad(a, b, c) == q;
    ToValueInverts(a / 4);
    ToValueInverts(s1);
    ToValueInverts(s2);
    ToValueInverts(c % 64);
    assert q[4..] == [];
  }

  lemma PadIsNotBase64()
    ensures ToValue('=').NotBase64? && ToValue('\0').NotBase64?
  {
  }

  lemma SingleDecoded(a: byte, rest: string)
    ensures Decode(Run(Single(a) + rest)) == [a]
  {
    hide Letter, ToValue, Run, Byte1;
    PadIsNotBase64();
    TailBytes(a, 0);
    ToValueInverts(a / 4);
    ToValueInverts(a % 4 * 16);
    Cut(a * 16, a / 4, a % 4 * 16, 64);
    var t := Single(a) + rest;
    assert t[..2] == [Letter(a / 4), Letter(a % 4 * 16)] && t[2] == '=';
    RunStops(t, 2);
  }

  lemma PairDecoded(a: byte, b: byte, rest: string)
    ensures Decode(Run(Pair(a, b) + rest)) == [a, b]
  {
    hide Letter, ToValue, Run, Byte1, Byte2;
    PadIsNotBase64();
    GroupOfTwo(a, b);
    TailBytes(a, b);
    ToValueInverts(a / 4);
    ToValueInverts(a % 4 * 16 + b / 16);
    ToValueInverts(b % 16 * 4);
    var t := Pair(a, b) + rest;
    assert t[..3] == [Letter(a / 4), Letter(a % 4 * 16 + b / 16), Letter(b % 16 * 4)] && t[3] == '=';
    RunStops(t, 3);
  }

  lemma TailBytes(a: byte, b: byte)
    ensures Byte1(a / 4, a % 4 * 16) == a
    ensures Byte1(a / 4, a % 4 * 16 + b / 16) == a && Byte2(a % 4 * 16 + b / 16, b % 16 * 4) == b
  {
  }

  lemma TailDecoded(s: seq<byte>, rest: string)
    requires |s| == 1 || |s| == 2
    ensures Decode(Run(Encode(s) + rest)) == s
  {
    hide Decode, Run, Single, Pair;
    if |s| == 1 {
      SingleDecoded(s[0], rest);
      assert s == [s[0]];
    } else {
      PairDecoded(s[0], s[1], rest);
      assert s == [s[0], s[1]];
    }
  }

  lemma {:induction false} RunStops(t: string, n: nat)
    requires n < |t| && ToValue(t[n]).NotBase64? && forall k :: 0 <= k < n ==> ToValue(t[k]).Sextet?
    ensures Run(t) == t[..n]
  {
    hide ToValue;
    assert |Run(t)| == n;
  }

  lemma DecodeSplit(q: string, t: string)
    requires |q| == 4
    ensures Decode(q + t) == Decode(q) + Decode(t)
  {
    hide Value, Byte1, Byte2, Byte3;
    assert (q + t)[4..] == t && q[4..] == [];
  }

  /** Decoding the alphabet characters of an encoded text gives the bytes back, whatever follows the text. */
  lemma {:induction false} DecodeInverts(s: seq<byte>, rest: string)
    requires rest != "" && ToValue(rest[0]).NotBase64?
    ensures Decode(Run(Encode(s) + rest)) == s
  {
    hide Letter, ToValue, Run;
    if |s| == 0 {
      RunStops(Encode(s) + rest, 0);
    } else if |s| < 3 {
      TailDecoded(s, rest);
    } else {
      hide Decode, Quad;
      var q := Quad(s[0], s[1], s[2]);
      QuadDecoded(s[0], s[1], s[2]);
      DecodeInverts(s[3..], rest);
      var t := Encode(s[3..]) + rest;
      assert Encode(s) + rest == q + t;
      RunPrefix(q, t);
      DecodeSplit(q, Run(t));
      assert s == [s[0], s[1], s[2]] + s[3..];
    }
  }

  lemma {:induction false} RunPrefix(q: string, t: string)
    requires forall k :: 0 <= k < |q| ==> ToValue(q[k]).Sextet?
    ensures Run(q + t) == q + Run(t)
  {
    if q == "" {
      assert q + t == t;
    } else {
      assert (q + t)[1..] == q[1..] + t;
      RunPrefix(q[1..], t);
    }
  }

  lemma {:induction false} EncodedLength(s: seq<byte>)
    ensures |Encode(s)| == (|s| + 2) / 3 * 4
  {
    hide Quad, Pair, Single;
    if |s| >= 3 { EncodedLength(s[3..]); }
  }

  lemma OneVectors()
    ensures Encode([]) == "" && Encode([102]) == "Zg==" && Encode([98]) == "Yg=="
  {
  }

  lemma TwoVectors()
    ensures Encode([102, 111]) == "Zm8=" && Encode([98, 97]) == "YmE="
  {
  }

  lemma FirstGroup()
    ensures Quad(102, 111, 111) == "Zm9v"
  {
  }

  lemma SecondGroup()
    ensures Quad(98, 97, 114) == "YmFy"
  {
  }

  lemma EncodeGroup(a: byte, b: byte, c: byte, rest: seq<byte>)
    ensures Encode([a, b, c] + rest) == Quad(a, b, c) + Encode(rest)
  {
    assert ([a, b, c] + rest)[3..] == rest;
  }

  /** Section 10 of RFC 4648. */
  lemma TestVectors()
    ensures Encode([]) == "" && Encode([102]) == "Zg==" && Encode([102, 111]) == "Zm8="
    ensures Encode([102, 111, 111]) == "Zm9v" && Encode([102, 111, 111, 98]) == "Zm9vYg=="
    ensures Encode([102, 111, 111, 98, 97]) == "Zm9vYmE=" && Encode([102, 111, 111, 98, 97, 114]) == "Zm9vYmFy"
  {
    hide Encode, Quad;
    OneVectors();
    TwoVectors();
    FirstGroup();
    SecondGroup();
    assert [102, 111, 111] == [102, 111, 111] + [] && [98, 97, 114] == [98, 97, 114] + [];
    assert [102, 111, 111, 98] == [102, 111, 111] + [98];
    assert [102, 111, 111, 98, 97] == [102, 111, 111] + [98, 97];
    assert [102, 111, 111, 98, 97, 114] == [102, 111, 111] + [98, 97, 114];
    EncodeGroup(98, 97, 114, []);
    EncodeGroup(102, 111, 111, []);
    EncodeGroup(102, 111, 111, [98]);
    EncodeGroup(102, 111, 111, [98, 97]);
    EncodeGroup(102, 111, 111, [98, 97, 114]);
  }
}
