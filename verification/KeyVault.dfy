/** The cipher of the second key vault: exclusive or with a rotating key, then Base64.

    The fields of the class are the static control block; `Char`, `B16` and `B8` are the table
    lookups of the source.  Buffers are arrays that do not overlap. */
module KeyVault {
  import opened Base64

  const NUMBER_OF_KEYS := 2
  const KEY_SIZE := 21

  /** Two strings of 20 characters and their terminators. */
  const KEY: seq<string> := ["12345678912345678901\0", "h948kfd--fsd{jfh}l2D\0"]

  newtype int8 = x: int | -128 <= x < 128

  datatype Result = Ok | NotSupported | NotEnoughSpace | BadArgument

  /** The control block: alpha is added to each key byte, delta is where the key starts. */
  datatype Settings = Settings(alpha: int8, delta: nat)

  function Power(n: nat): nat { if n == 0 then 1 else 2 * Power(n - 1) }

  /** Bitwise exclusive or of the low n bits. */
  function XorBits(a: nat, b: nat, n: nat): (r: nat)
    ensures r < Power(n)
  {
    if n == 0 then 0 else (if a % 2 == b % 2 then 0 else 1) + 2 * XorBits(a / 2, b / 2, n - 1)
  }

  lemma LowAndHigh(low: nat, high: nat)
    requires low < 2
    ensures (low + 2 * high) % 2 == low && (low + 2 * high) / 2 == high
  {
  }

  lemma {:induction false} XorTwice(a: nat, b: nat, n: nat)
    requires a < Power(n)
    ensures XorBits(XorBits(a, b, n), b, n) == a
  {
    if n > 0 {
      var high := XorBits(a / 2, b / 2, n - 1);
      var low := if a % 2 == b % 2 then 0 else 1;
      LowAndHigh(low, high);
      assert XorBits(a, b, n) == low + 2 * high;
      XorTwice(a / 2, b / 2, n - 1);
    }
  }

  function Xor(a: byte, b: byte): byte {
    assert Power(8) == 256;
    XorBits(a, b, 8)
  }

  lemma XorInverts(a: byte, b: byte)
    ensures Xor(Xor(a, b), b) == a
  {
    assert Power(8) == 256;
    XorTwice(a, b, 8);
  }

  function Half(x: bv8): bv8 { x >> 1 }

  function Either(x: bv8, y: bv8): bv8 { x ^ y }

  function AsInt(x: bv8): byte { x as int }

  function Low(x: bv8): bv8 { x & 1 }

  lemma HalfIsHalf(x: bv8)
    ensures AsInt(Half(x)) == AsInt(x) / 2
  {
  }

  lemma LowIsOdd(x: bv8)
    ensures AsInt(Low(x)) == AsInt(x) % 2
  {
  }

  lemma LowValues(x: bv8)
    ensures Low(x) == 0 || Low(x) == 1
    ensures AsInt(0) == 0 && AsInt(1) == 1
  {
  }

  lemma EitherLow(x: bv8, y: bv8)
    ensures Low(Either(x, y)) == Either(Low(x), Low(y))
    ensures Either(0, 0) == Either(1, 1) == 0 && Either(0, 1) == Either(1, 0) == 1
  {
  }

  lemma LowBits(x: bv8, y: bv8)
    ensures AsInt(Either(x, y)) % 2 == if AsInt(x) % 2 == AsInt(y) % 2 then 0 else 1
  {
    hide *;
    LowIsOdd(x);
    LowIsOdd(y);
    LowIsOdd(Either(x, y));
    LowValues(x);
    LowValues(y);
    EitherLow(x, y);
  }

  lemma EitherHalf(x: bv8, y: bv8)
    ensures Half(Either(x, y)) == Either(Half(x), Half(y))
  {
  }

  lemma NothingLeft(x: bv8, y: bv8)
    requires AsInt(x) == 0 && AsInt(y) == 0
    ensures AsInt(Either(x, y)) == 0
  {
    assert x == 0 && y == 0;
  }

  lemma {:induction false} XorIsOfWords(x: bv8, y: bv8, n: nat)
    requires AsInt(x) < Power(n) && AsInt(y) < Power(n)
    ensures AsInt(Either(x, y)) == XorBits(AsInt(x), AsInt(y), n)
    decreases n
  {
    hide Half, Either, AsInt;
    if n == 0 {
      NothingLeft(x, y);
    } else {
      HalfIsHalf(x);
      HalfIsHalf(y);
      HalfIsHalf(Either(x, y));
      LowBits(x, y);
      EitherHalf(x, y);
      XorIsOfWords(Half(x), Half(y), n - 1);
    }
  }

  /** It is the exclusive or of bit vectors. */
  lemma XorIsExclusiveOr(x: bv8, y: bv8)
    ensures Xor(x as int, y as int) == (x ^ y) as int
  {
    assert Power(8) == 256;
    XorIsOfWords(x, y, 8);
  }

  function NextKeyPos(cur: nat): nat { if cur + 1 == KEY_SIZE then 0 else cur + 1 }

  function KeyByte(algorithm: nat, pos: nat, alpha: int): byte
    requires algorithm < NUMBER_OF_KEYS && pos < KEY_SIZE
  {
    (KEY[algorithm][pos] as int + alpha) % 256
  }

  /** Algorithm 0 ignores the settings. */
  function Alpha(cb: Settings, algorithm: nat): int { if algorithm == 0 then 0 else cb.alpha as int }

  function Start(cb: Settings, algorithm: nat): nat { if algorithm == 0 then 0 else cb.delta }

  predicate Reduced(cb: Settings) { cb.delta < KEY_SIZE }

  /** The byte that masks byte k of the data: the key repeats every 21 bytes. */
  function Mask(cb: Settings, algorithm: nat, k: nat): byte
    requires algorithm < NUMBER_OF_KEYS && Reduced(cb)
  {
    KeyByte(algorithm, (Start(cb, algorithm) + k) % KEY_SIZE, Alpha(cb, algorithm))
  }

  function Masked(cb: Settings, algorithm: nat, s: seq<byte>): (m: seq<byte>)
    requires algorithm < NUMBER_OF_KEYS && Reduced(cb)
    ensures |m| == |s|
    ensures forall k :: 0 <= k < |s| ==> m[k] == Xor(s[k], Mask(cb, algorithm, k))
  {
    seq(|s|, k requires 0 <= k < |s| => Xor(s[k], Mask(cb, algorithm, k)))
  }

  // The mask, without the way it is computed.

  /** Unshifted and without alpha it is the key of the algorithm, its terminator included, over and over. */
  lemma PlainMask(delta: nat, k: nat)
    requires delta < KEY_SIZE
    ensures Mask(Settings(0, 0), 1, k) == "h948kfd--fsd{jfh}l2D\0"[k % 21] as int
    ensures Mask(Settings(0, delta), 0, k) == "12345678912345678901\0"[k % 21] as int
  {
  }

  /** Algorithm 0 ignores both settings. */
  lemma FirstIgnoresSettings(cb: Settings, other: Settings, k: nat)
    requires Reduced(cb) && Reduced(other)
    ensures Mask(cb, 0, k) == Mask(other, 0, k)
  {
  }

  /** Alpha is added to every byte of the key, modulo 256. */
  lemma AlphaAdds(alpha: int8, delta: nat, k: nat)
    requires delta < KEY_SIZE
    ensures Mask(Settings(alpha, delta), 1, k) == (Mask(Settings(0, delta), 1, k) + alpha as int) % 256
  {
  }

  /** Delta is where the key starts. */
  lemma DeltaTurns(alpha: int8, delta: nat, k: nat)
    requires delta < KEY_SIZE
    ensures Mask(Settings(alpha, delta), 1, k) == Mask(Settings(alpha, 0), 1, delta + k)
  {
  }

  /** With the initial settings, the byte 0 under the second key is the character '-' less 3. */
  lemma FirstByteExample()
    ensures Encrypted(Settings(-3, 8), 1, [0]) == "1Kg=="
  {
    var cb := Settings(-3, 8);
    assert Mask(cb, 1, 0) == 42;
    assert Masked(cb, 1, [0]) == [Xor(0, 42)];
    assert Xor(0, 42) == 42;
  }

  /** The encrypted text: the algorithm's digit and the Base64 of the masked bytes. */
  function Encrypted(cb: Settings, algorithm: nat, s: seq<byte>): string
    requires algorithm < NUMBER_OF_KEYS && Reduced(cb)
  {
    [('0' as int + algorithm) as char] + Base64.Encode(Masked(cb, algorithm, s))
  }

  /** The algorithm named by the first character, as a 32-bit difference; 2 or more is no algorithm. */
  function Algorithm(c: char): nat { (c as int - '0' as int) % 0x1_0000_0000 }

  /** The bytes behind a text in memory; decoding stops at the first character outside the alphabet. */
  function Decrypted(cb: Settings, memory: string): seq<byte>
    requires memory != "" && Algorithm(memory[0]) < NUMBER_OF_KEYS && Reduced(cb)
  {
    Masked(cb, Algorithm(memory[0]), Base64.Decode(Run(memory[1..])))
  }

  lemma MaskTwice(cb: Settings, algorithm: nat, s: seq<byte>)
    requires algorithm < NUMBER_OF_KEYS && Reduced(cb)
    ensures Masked(cb, algorithm, Masked(cb, algorithm, s)) == s
  {
    var m := Masked(cb, algorithm, s);
    forall k | 0 <= k < |s| ensures Masked(cb, algorithm, m)[k] == s[k] {
      XorInverts(s[k], Mask(cb, algorithm, k));
    }
  }

  /** Decrypting an encrypted text, terminated as encrypt leaves it, gives the bytes back. */
  lemma CipherRoundTrip(cb: Settings, algorithm: nat, s: seq<byte>, beyond: string)
    requires algorithm < NUMBER_OF_KEYS && Reduced(cb)
    ensures var memory := Encrypted(cb, algorithm, s) + ['\0'] + beyond;
      Algorithm(memory[0]) == algorithm && Decrypted(cb, memory) == s
  {
    hide ToValue, Masked, Run, Base64.Encode, Base64.Decode;
    var memory := Encrypted(cb, algorithm, s) + ['\0'] + beyond;
    var rest := ['\0'] + beyond;
    PadIsNotBase64();
    assert memory[1..] == Base64.Encode(Masked(cb, algorithm, s)) + rest;
    DecodeInverts(Masked(cb, algorithm, s), rest);
    MaskTwice(cb, algorithm, s);
  }

  /** encoded_len: room for the digit, the Base64 text and the terminator. */
  function EncodedLen(size: nat): nat {
    if size == 0 then 0 else ((size - 1) / 3 + 1) * 4 + 1 + 1
  }

  lemma EncryptedLength(cb: Settings, algorithm: nat, s: seq<byte>)
    requires algorithm < NUMBER_OF_KEYS && Reduced(cb)
    ensures |Encrypted(cb, algorithm, s)| == 1 + (|s| + 2) / 3 * 4
    ensures s != [] ==> |Encrypted(cb, algorithm, s)| + 1 == EncodedLen(|s|)
  {
    EncodedLength(Masked(cb, algorithm, s));
  }

  /** encrypt takes exactly the inputs whose text and terminator fit, and the empty one whatever the room. */
  lemma EncryptAccepts(cb: Settings, algorithm: nat, s: seq<byte>, room: nat)
    requires algorithm < NUMBER_OF_KEYS && Reduced(cb)
    ensures EncodedLen(|s|) <= room <==> s == [] || |Encrypted(cb, algorithm, s)| + 1 <= room
  {
    EncryptedLength(cb, algorithm, s);
  }

  /** decoded_len, called with the size of the whole text on the text after the digit: it looks at
      text[size], which lies just beyond the span. */
  function DecodedLen(memory: string, size: nat): int
    requires 0 < size < |memory|
  {
    if memory[size] == '=' then
      if memory[size - 1] == '=' then size / 4 * 3 - 2 else size / 4 * 3 - 1
    else size / 4 * 3
  }

  /** A text as encrypt leaves it, terminated, is decrypted if and only if the room is that of its bytes rounded up to
      a multiple of three: the padding is looked for one character too far and not found. */
  lemma DecryptAccepts(cb: Settings, algorithm: nat, s: seq<byte>, beyond: string, room: nat)
    requires algorithm < NUMBER_OF_KEYS && Reduced(cb) && s != []
    ensures var text := Encrypted(cb, algorithm, s);
      Decodes(text + ['\0'] + beyond, |text|, room) <==> (|s| + 2) / 3 * 3 <= room
  {
    hide Masked, Base64.Encode;
    EncryptedLength(cb, algorithm, s);
    var text := Encrypted(cb, algorithm, s);
    assert (text + ['\0'] + beyond)[|text|] == '\0';
  }

  /** For other memory: three bytes for each four of the size, less the padding that ends with the character behind. */
  lemma DecodedLenIs(memory: string, size: nat)
    requires 0 < size < |memory|
    ensures 3 * (size / 4) - 2 <= DecodedLen(memory, size) <= 3 * (size / 4)
    ensures DecodedLen(memory, size) <= 3 * (size / 4) - 1 <==> "=" == memory[size..size + 1]
    ensures DecodedLen(memory, size) == 3 * (size / 4) - 2 <==> "==" == memory[size - 1..size + 1]
  {
    assert memory[size..size + 1] == [memory[size]];
    assert memory[size - 1..size + 1] == [memory[size - 1], memory[size]];
  }

  /** The checks of decrypt are passed and the text is decoded. */
  predicate Decodes(memory: string, size: nat, room: nat)
    requires size <= |memory| && (size > 1 && Algorithm(memory[0]) < NUMBER_OF_KEYS ==> size < |memory|)
  {
    size > 1 && Algorithm(memory[0]) < NUMBER_OF_KEYS && DecodedLen(memory, size) <= room
  }

  /** The number of bytes the decoding loop stores for a run of n characters. */
  function DecodedCount(n: nat): nat {
    if n >= 4 then 3 + DecodedCount(n - 4) else if n == 3 then 2 else if n == 2 then 1 else 0
  }

  lemma {:induction false} DecodedLength(t: string)
    ensures |Base64.Decode(t)| == DecodedCount(|t|)
    decreases |t|
  {
    if |t| >= 4 { DecodedLength(t[4..]); }
  }

  class Vault {
    var alpha: int8
    var delta: nat

    constructor ()
      ensures Current() == Settings(-3, 8)
    {
      alpha, delta := -3, 8;
    }

    function Current(): Settings
      reads this
    {
      Settings(alpha, delta)
    }

    /** The new delta is reduced by repeated subtraction. */
    method SetDelta(value: nat)
      modifies this`delta
      ensures delta == value % KEY_SIZE && Reduced(Current())
    {
      delta := value;
      while delta >= KEY_SIZE
        invariant delta % KEY_SIZE == value % KEY_SIZE
      {
        delta := delta - KEY_SIZE;
      }
    }

    /** dest_str[destinationPosition++] = ... four times over. */
    method Store(out: array<char>, size: nat, a: char, b: char, c: char, d: char)
      requires size + 4 <= out.Length
      modifies out
      ensures out[..size + 4] == old(out[..size]) + [a, b, c, d]
      ensures out[size + 4..] == old(out[size + 4..])
    {
      out[size], out[size + 1], out[size + 2], out[size + 3] := a, b, c, d;
    }

    /** One source byte under the mask, and the key position after it. */
    method MaskByte(algorithm: nat, src: seq<byte>, k: nat, a: int, keyPos: nat) returns (c: byte, next: nat)
      requires algorithm < NUMBER_OF_KEYS && Reduced(Current()) && k < |src|
      requires a == Alpha(Current(), algorithm) && keyPos == (Start(Current(), algorithm) + k) % KEY_SIZE
      ensures c == Masked(Current(), algorithm, src)[k]
      ensures next == (Start(Current(), algorithm) + (k + 1)) % KEY_SIZE
    {
      hide KeyByte;
      c := Xor(src[k], KeyByte(algorithm, keyPos, a));
      next := NextKeyPos(keyPos);
    }

    /** The last one or two bytes, if any. */
    method EncryptTail(algorithm: nat, src: seq<byte>, cur: nat, a: int, keyPos: nat, out: array<char>, size: nat)
      returns (size': nat)
      requires algorithm < NUMBER_OF_KEYS && Reduced(Current()) && cur <= |src| < cur + 3
      requires a == Alpha(Current(), algorithm) && keyPos == (Start(Current(), algorithm) + cur) % KEY_SIZE
      requires size + 4 <= out.Length || (cur == |src| && size <= out.Length)
      modifies out
      ensures size <= size' <= out.Length
      ensures out[..size'] == old(out[..size]) + Base64.Encode(Masked(Current(), algorithm, src)[cur..])
      ensures out[size'..] == old(out[size'..])
    {
      hide Xor, Mask, Letter, Char, B16, B8;
      size' := size;
      ghost var tail := Masked(Current(), algorithm, src)[cur..];
      if |src| - cur == 2 {
        var c0, c1, pos;
        c0, pos := MaskByte(algorithm, src, cur, a, keyPos);
        c1, pos := MaskByte(algorithm, src, cur + 1, a, pos);
        assert tail == [c0, c1];
        EncodeTwo(c0, c1);
        Store(out, size', Char(c0 / 4), Char(c0 % 4 * 16 + c1 / 16), B16(c1 % 16), '=');
        size' := size' + 4;
      } else if |src| - cur == 1 {
        var c0, pos := MaskByte(algorithm, src, cur, a, keyPos);
        assert tail == [c0];
        EncodeOne(c0);
        Store(out, size', Char(c0 / 4), B8(c0 % 4), '=', '=');
        size' := size' + 4;
      } else {
        assert tail == [];
      }
    }

    /** The groups of three bytes: everything up to the tail. */
    method EncryptGroups(algorithm: nat, src: seq<byte>, a: int, keyPos: nat, out: array<char>)
      returns (size: nat, cur: nat, keyPos': nat)
      requires algorithm < NUMBER_OF_KEYS && Reduced(Current())
      requires a == Alpha(Current(), algorithm) && keyPos == Start(Current(), algorithm)
      requires 1 + (|src| + 2) / 3 * 4 < out.Length
      modifies out
      ensures cur <= |src| < cur + 3 && size == 1 + cur / 3 * 4 && cur % 3 == 0
      ensures keyPos' == (Start(Current(), algorithm) + cur) % KEY_SIZE
      ensures old(out[..1]) + Base64.Encode(Masked(Current(), algorithm, src))
           == out[..size] + Base64.Encode(Masked(Current(), algorithm, src)[cur..])
      ensures size <= out.Length && out[size..] == old(out[size..])
    {
      hide Xor, Mask, Letter, Char, B16, B8, Base64.Encode;
      size, cur, keyPos' := 1, 0, keyPos;
      ghost var masked := Masked(Current(), algorithm, src);
      assert masked[0..] == masked;
      while |src| - cur >= 3
        invariant cur <= |src| && size == 1 + cur / 3 * 4 && cur % 3 == 0
        invariant keyPos' == (Start(Current(), algorithm) + cur) % KEY_SIZE
        invariant old(out[..1]) + Base64.Encode(masked) == out[..size] + Base64.Encode(masked[cur..])
        invariant out[size..] == old(out[size..])
      {
        var c0, c1, c2;
        c0, keyPos' := MaskByte(algorithm, src, cur, a, keyPos');
        c1, keyPos' := MaskByte(algorithm, src, cur + 1, a, keyPos');
        c2, keyPos' := MaskByte(algorithm, src, cur + 2, a, keyPos');
        EncodeStep(masked, cur);
        Store(out, size, Char(c0 / 4), Char(c0 % 4 * 16 + c1 / 16), Char(c1 % 16 * 4 + c2 / 64), Char(c2 % 64));
        size := size + 4;
        cur := cur + 3;
      }
    }

    /** On success out[..size] is the encrypted text and out[size] its terminator.  The span is the first `room`
        characters of `out`, which an empty input is not held to. */
    method Encrypt(algorithm: nat, src: seq<byte>, out: array<char>, room: nat) returns (r: Result, size: nat)
      requires Reduced(Current()) && room <= out.Length
      requires algorithm < NUMBER_OF_KEYS && src == [] ==> out.Length >= 2
      modifies out
      ensures r == if algorithm >= NUMBER_OF_KEYS then NotSupported
                   else if EncodedLen(|src|) > room then NotEnoughSpace else Ok
      ensures r != Ok ==> out[..] == old(out[..])
      ensures r == Ok ==> size < out.Length && out[..size] == Encrypted(Current(), algorithm, src) && out[size] == '\0'
      ensures r == Ok ==> out[size + 1..] == old(out[size + 1..])
    {
      hide Xor, Mask, Base64.Encode;
      size := 0;
      if algorithm >= NUMBER_OF_KEYS {
        return NotSupported, size;
      }
      if EncodedLen(|src|) > room {
        return NotEnoughSpace, size;
      }
      EncryptedLength(Current(), algorithm, src);
      var a := 0;
      var keyPos := 0;
      if algorithm != 0 {
        a, keyPos := alpha as int, delta;
      }
      out[0] := ('0' as int + algorithm) as char;
      ghost var headed := out[..];
      var grouped, cur;
      grouped, cur, keyPos := EncryptGroups(algorithm, src, a, keyPos, out);
      ghost var middle := out[..];
      size := EncryptTail(algorithm, src, cur, a, keyPos, out, grouped);
      assert out[..size] == Encrypted(Current(), algorithm, src);
      SameBeyond(old(out[..]), headed, 1, size);
      SameBeyond(headed, middle, grouped, size);
      assert out[size..] == old(out[size..]);
      Terminate(out, size);
      r := Ok;
    }

    method Terminate(out: array<char>, size: nat)
      requires size < out.Length
      modifies out
      ensures out[size] == '\0' && out[..size] == old(out[..size])
      ensures out[size + 1..] == old(out[size..])[1..]
    {
      out[size] := '\0';
    }

    /** The number of characters of the alphabet from index `from` on, which something must end. */
    method NumberOfBase64Characters(memory: string, from: nat) returns (length: nat)
      requires exists k :: from <= k < |memory| && ToValue(memory[k]).NotBase64?
      ensures length == |Run(memory[from..])| && from + length < |memory|
    {
      hide ToValue;
      length := 0;
      ghost var end :| from <= end < |memory| && ToValue(memory[end]).NotBase64?;
      while ToValue(memory[from + length]) != NotBase64
        invariant from + length <= end
        invariant forall k :: 0 <= k < length ==> ToValue(memory[from..][k]).Sextet?
        decreases end - from - length
      {
        length := length + 1;
      }
      RunStops(memory[from..], length);
    }

    /** The last two or three characters of a run that starts at `first`. */
    method DecodeTail(memory: string, first: nat, left: nat, dest: array<byte>, n: nat) returns (n': nat)
      requires first + left <= |memory| && left < 4 && n + DecodedCount(left) <= dest.Length
      modifies dest
      ensures n' == n + DecodedCount(left)
      ensures dest[..n'] == old(dest[..n]) + Base64.Decode(memory[first..first + left])
      ensures dest[n'..] == old(dest[n'..])
    {
      hide Value, Byte1, Byte2;
      n' := n;
      ghost var rest := memory[first..first + left];
      if left == 2 {
        var c1, c2 := Value(memory[first]), Value(memory[first + 1]);
        assert rest == [memory[first], memory[first + 1]];
        dest[n] := Byte1(c1, c2);
        n' := n + 1;
      } else if left == 3 {
        var c1, c2, c3 := Value(memory[first]), Value(memory[first + 1]), Value(memory[first + 2]);
        assert rest == [memory[first], memory[first + 1], memory[first + 2]];
        dest[n], dest[n + 1] := Byte1(c1, c2), Byte2(c2, c3);
        n' := n + 2;
      } else {
        assert Base64.Decode(rest) == [];
      }
    }

    /** The decoding loop over `count` characters from index 1. */
    method DecodeText(memory: string, count: nat, dest: array<byte>) returns (n: nat)
      requires 1 + count <= |memory| && DecodedCount(count) <= dest.Length
      modifies dest
      ensures n == DecodedCount(count) && dest[..n] == Base64.Decode(memory[1..1 + count])
      ensures dest[n..] == old(dest[n..])
    {
      hide Value, Byte1, Byte2, Byte3, Base64.Decode;
      var left, first := count, 1;
      n := 0;
      ghost var goal := Base64.Decode(memory[1..1 + count]);
      while left >= 4
        invariant left + first == count + 1
        invariant n + DecodedCount(left) == DecodedCount(count)
        invariant dest[..n] + Base64.Decode(memory[first..first + left]) == goal
        invariant forall k :: n <= k < dest.Length ==> dest[k] == old(dest[k])
      {
        var c1, c2, c3, c4 := Value(memory[first]), Value(memory[first + 1]), Value(memory[first + 2]),
            Value(memory[first + 3]);
        DecodeStep(memory, first, left);
        ghost var before := dest[..n];
        dest[n], dest[n + 1], dest[n + 2] := Byte1(c1, c2), Byte2(c2, c3), Byte3(c3, c4);
        n := n + 3;
        assert dest[..n] == before + [dest[n - 3], dest[n - 2], dest[n - 1]];
        left := left - 4;
        first := first + 4;
      }
      ghost var tail := dest[..];
      n := DecodeTail(memory, first, left, dest, n);
      assert dest[n..] == tail[n..];
    }

    /** The in-place exclusive or of the first n bytes. */
    method Unmask(algorithm: nat, dest: array<byte>, n: nat)
      requires algorithm < NUMBER_OF_KEYS && Reduced(Current()) && n <= dest.Length
      modifies dest
      ensures dest[..n] == Masked(Current(), algorithm, old(dest[..n])) && dest[n..] == old(dest[n..])
    {
      hide Xor, KeyByte, Masked;
      var a, keyPos := 0, 0;
      if algorithm != 0 {
        a, keyPos := alpha as int, delta;
      }
      ghost var masked := Masked(Current(), algorithm, dest[..n]);
      var i := 0;
      while i < n
        invariant i <= n && keyPos == (Start(Current(), algorithm) + i) % KEY_SIZE
        invariant forall k :: 0 <= k < i ==> dest[k] == masked[k]
        invariant forall k :: i <= k < dest.Length ==> dest[k] == old(dest[k])
      {
        assert masked[i] == Xor(old(dest[..n])[i], KeyByte(algorithm, keyPos, a));
        dest[i] := Xor(dest[i], KeyByte(algorithm, keyPos, a));
        keyPos := NextKeyPos(keyPos);
        i := i + 1;
      }
    }

    /** `memory` starts at the text's first byte and reaches past its end; `size` is the text's size.  The span to
        write to is the first `room` bytes of `dest`, which the bytes may fill: the terminator is then written behind
        it.  Where the text is decoded at all, something in memory ends its run, and there is a place for the bytes
        and the terminator. */
    method Decrypt(memory: string, size: nat, dest: array<byte>, room: nat) returns (r: Result, n: nat)
      requires Reduced(Current()) && size <= |memory| && room <= dest.Length
      requires size > 1 && Algorithm(memory[0]) < NUMBER_OF_KEYS ==> size < |memory|
      requires Decodes(memory, size, room) ==> exists k :: 1 <= k < |memory| && ToValue(memory[k]).NotBase64?
      requires Decodes(memory, size, room) ==> DecodedCount(|Run(memory[1..])|) < dest.Length
      modifies dest
      ensures r == if size <= 1 then BadArgument
                   else if Algorithm(memory[0]) >= NUMBER_OF_KEYS then NotSupported
                   else if DecodedLen(memory, size) > room then NotEnoughSpace else Ok
      ensures r != Ok ==> dest[..] == old(dest[..])
      ensures r == Ok ==> n < dest.Length && dest[..n] == Decrypted(Current(), memory) && dest[n] == 0
      ensures r == Ok ==> dest[n + 1..] == old(dest[n + 1..])
    {
      hide ToValue, Mask, Xor;
      n := 0;
      if size <= 1 {
        return BadArgument, n;
      }
      var algorithm := Algorithm(memory[0]);
      if algorithm >= NUMBER_OF_KEYS {
        return NotSupported, n;
      }
      if DecodedLen(memory, size) > room {
        return NotEnoughSpace, n;
      }
      var count := NumberOfBase64Characters(memory, 1);
      assert Run(memory[1..]) == memory[1..1 + count];
      n := DecodeText(memory, count, dest);
      Unmask(algorithm, dest, n);
      assert dest[n..] == old(dest[n..]);
      dest[n] := 0;
      assert dest[n + 1..] == old(dest[n..])[1..];
      r := Ok;
    }
  }

  lemma SameBeyond(a: seq<char>, b: seq<char>, i: nat, j: nat)
    requires i <= j <= |a| == |b| && a[i..] == b[i..]
    ensures a[j..] == b[j..]
  {
    assert a[j..] == a[i..][j - i..];
  }

  lemma DecodeStep(t: string, i: nat, left: nat)
    requires 4 <= left && i + left <= |t|
    ensures var c1, c2, c3, c4 := Value(t[i]), Value(t[i + 1]), Value(t[i + 2]), Value(t[i + 3]);
      Base64.Decode(t[i..i + left])
      == [Byte1(c1, c2), Byte2(c2, c3), Byte3(c3, c4)] + Base64.Decode(t[i + 4..i + left])
  {
    hide Value, Byte1, Byte2, Byte3;
    assert t[i..i + left][4..] == t[i + 4..i + left];
  }

  /** A caller whose buffers fit: what encrypt writes, terminator included, decrypt turns back. */
  method Exchange(vault: Vault, algorithm: nat, x: seq<byte>) returns (y: seq<byte>)
    requires vault.delta < KEY_SIZE && algorithm < NUMBER_OF_KEYS && x != []
    ensures y == x
  {
    hide ToValue, Masked, Base64.Encode, Base64.Decode;
    var out := new char[EncodedLen(|x|)];
    var r, size := vault.Encrypt(algorithm, x, out, out.Length);
    var memory := out[..];
    EncryptedLength(vault.Current(), algorithm, x);
    assert memory == out[..size] + ['\0'] + [];
    CipherRoundTrip(vault.Current(), algorithm, x, []);
    PadIsNotBase64();
    assert memory[size] == '\0';
    DecodedLength(Run(memory[1..]));
    MaskedLength(vault.Current(), algorithm, Base64.Decode(Run(memory[1..])));
    var dest := new byte[|x| + 3];
    var n;
    r, n := vault.Decrypt(memory, size, dest, dest.Length);
    y := dest[..n];
  }

  lemma MaskedLength(cb: Settings, algorithm: nat, s: seq<byte>)
    requires algorithm < NUMBER_OF_KEYS && Reduced(cb)
    ensures |Masked(cb, algorithm, s)| == |s|
  {
  }

  lemma EncodeStep(m: seq<byte>, cur: nat)
    requires cur + 3 <= |m|
    ensures var a, b, c := m[cur], m[cur + 1], m[cur + 2];
      Base64.Encode(m[cur..])
      == [Char(a / 4), Char(a % 4 * 16 + b / 16), Char(b % 16 * 4 + c / 64), Char(c % 64)] + Base64.Encode(m[cur + 3..])
  {
    hide Letter, Char;
    var a, b, c := m[cur], m[cur + 1], m[cur + 2];
    GroupOfThree(a, b, c);
    CharIsAlphabet(a / 4);
    CharIsAlphabet(a % 4 * 16 + b / 16);
    CharIsAlphabet(b % 16 * 4 + c / 64);
    CharIsAlphabet(c % 64);
    assert m[cur..][3..] == m[cur + 3..];
  }

  lemma EncodeTwo(a: byte, b: byte)
    ensures Base64.Encode([a, b]) == [Char(a / 4), Char(a % 4 * 16 + b / 16), B16(b % 16), '=']
  {
    hide Letter, Char, B16;
    GroupOfTwo(a, b);
    CharIsAlphabet(a / 4);
    CharIsAlphabet(a % 4 * 16 + b / 16);
    B16IsAlphabet(b % 16);
  }

  lemma EncodeOne(a: byte)
    ensures Base64.Encode([a]) == [Char(a / 4), B8(a % 4), '=', '=']
  {
    hide Letter, Char, B8;
    CharIsAlphabet(a / 4);
    B8IsAlphabet(a % 4);
  }
}
