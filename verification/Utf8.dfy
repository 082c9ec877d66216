/**
 File bytes, and what reading them as text and writing the text back makes of them.

 Well formed is the grammar of section 4 of RFC 3629. Decoding replaces each maximal part
 that begins a character and cannot be finished, and each byte that begins none, by U+FFFD.
 */
module Utf8 {

  type Octet = b: nat | b < 0x100

  type Bytes = seq<Octet>

  /** A code point that is no surrogate */
  type Scalar = c: nat | c < 0xD800 || 0xE000 <= c < 0x11_0000

  const REPLACEMENT: Scalar := 0xFFFD

  // ---------------------------------------------------------------- the grammar

  predicate Tail(b: Octet) {
    0x80 <= b <= 0xBF
  }

  predicate IsTwo(s: Bytes) {
    |s| >= 2 && 0xC2 <= s[0] <= 0xDF && Tail(s[1])
  }

  predicate IsThree(s: Bytes) {
    && |s| >= 3 && Tail(s[2])
    && (|| (s[0] == 0xE0 && 0xA0 <= s[1] <= 0xBF)
        || (0xE1 <= s[0] <= 0xEC && Tail(s[1]))
        || (s[0] == 0xED && 0x80 <= s[1] <= 0x9F)
        || (0xEE <= s[0] <= 0xEF && Tail(s[1])))
  }

  predicate IsFour(s: Bytes) {
    && |s| >= 4 && Tail(s[2]) && Tail(s[3])
    && (|| (s[0] == 0xF0 && 0x90 <= s[1] <= 0xBF)
        || (0xF1 <= s[0] <= 0xF3 && Tail(s[1]))
        || (s[0] == 0xF4 && 0x80 <= s[1] <= 0x8F))
  }

  /** The length of the character the bytes start with, or 0 if they start with none. */
  function CharLength(s: Bytes): (n: nat)
    ensures n <= |s|
  {
    if |s| > 0 && s[0] < 0x80 then 1 else if IsTwo(s) then 2 else if IsThree(s) then 3 else if IsFour(s) then 4 else 0
  }

  predicate WellFormed(bytes: Bytes) {
    |bytes| == 0 || (CharLength(bytes) > 0 && WellFormed(bytes[CharLength(bytes)..]))
  }

  // ---------------------------------------------------------------- text and bytes

  function EncodeOne(c: Scalar): Bytes {
    if c < 0x80 then [c]
    else if c < 0x800 then [0xC0 + c / 64, 0x80 + c % 64]
    else if c < 0x1_0000 then [0xE0 + c / 4096, 0x80 + c / 64 % 64, 0x80 + c % 64]
    else [0xF0 + c / 262144, 0x80 + c / 4096 % 64, 0x80 + c / 64 % 64, 0x80 + c % 64]
  }

  function Encode(text: seq<Scalar>): Bytes {
    if |text| == 0 then [] else EncodeOne(text[0]) + Encode(text[1..])
  }

  /** One step of a decoder: how many bytes it takes and the code point it makes of them */
  datatype Decoded = Decoded(taken: nat, code: Scalar)

  /** How many bytes follow a byte that begins a character. */
  function Following(first: Octet): nat {
    if 0xC2 <= first <= 0xDF then 1 else if 0xE0 <= first <= 0xEF then 2 else if 0xF0 <= first <= 0xF4 then 3 else 0
  }

  /** The second byte is bounded so that no character is longer than needed, a surrogate, or too large. */
  predicate SecondFits(first: Octet, second: Octet) {
    (if first == 0xE0 then 0xA0 else if first == 0xF0 then 0x90 else 0x80) <= second
    <= (if first == 0xED then 0x9F else if first == 0xF4 then 0x8F else 0xBF)
  }

  function Code2(a: int, b: int): int {
    (a - 0xC0) * 64 + (b - 0x80)
  }

  function Code3(a: int, b: int, c: int): int {
    (a - 0xE0) * 4096 + (b - 0x80) * 64 + (c - 0x80)
  }

  function Code4(a: int, b: int, c: int, d: int): int {
    (a - 0xF0) * 262144 + (b - 0x80) * 4096 + (c - 0x80) * 64 + (d - 0x80)
  }

  function DecodeOne(s: Bytes): (d: Decoded)
    requires |s| > 0
    ensures 1 <= d.taken <= |s|
  {
    var needed := Following(s[0]);
    if s[0] < 0x80 then Decoded(1, s[0])
    else if needed == 0 || |s| < 2 || !SecondFits(s[0], s[1]) then Decoded(1, REPLACEMENT)
    else if needed == 1 then Decoded(2, Code2(s[0], s[1]))
    else if |s| < 3 || !Tail(s[2]) then Decoded(2, REPLACEMENT)
    else if needed == 2 then Decoded(3, Code3(s[0], s[1], s[2]))
    else if |s| < 4 || !Tail(s[3]) then Decoded(3, REPLACEMENT)
    else Decoded(4, Code4(s[0], s[1], s[2], s[3]))
  }

  function Decode(bytes: Bytes): seq<Scalar> {
    if |bytes| == 0 then [] else
      var d := DecodeOne(bytes);
      [d.code] + Decode(bytes[d.taken..])
  }

  /** What is on disk when the bytes were read as text and the text was written back. */
  function Reread(bytes: Bytes): (r: Bytes)
    ensures WellFormed(r)
  {
    EncodingIsWellFormed(Decode(bytes));
    Encode(Decode(bytes))
  }

  /** The text a JavaScript string becomes in a file: always well formed. */
  type Text = bytes: Bytes | WellFormed(bytes) witness []

  // ---------------------------------------------------------------- what is kept

  /** The bytes that follow the first one are digits to base 64. */
  lemma Digits(high: int, low: int)
    requires 0 <= low < 64
    ensures (high * 64 + low) / 64 == high && (high * 64 + low) % 64 == low
  {
  }

  lemma Digits3(x: int, y: int, z: int)
    requires 0 <= y < 64 && 0 <= z < 64
    ensures var n := x * 4096 + y * 64 + z; n / 4096 == x && n / 64 % 64 == y && n % 64 == z && n / 64 == x * 64 + y
  {
    var n := x * 4096 + y * 64 + z;
    assert n == (x * 64 + y) * 64 + z;
    Digits(x * 64 + y, z);
    Digits(x, y);
    assert n / 4096 == n / 64 / 64;
  }

  lemma Digits4(w: int, x: int, y: int, z: int)
    requires 0 <= x < 64 && 0 <= y < 64 && 0 <= z < 64
    ensures var n := w * 262144 + x * 4096 + y * 64 + z; n / 262144 == w && n / 4096 % 64 == x && n / 64 % 64 == y && n % 64 == z
  {
    var n := w * 262144 + x * 4096 + y * 64 + z;
    assert n == (w * 64 + x) * 4096 + y * 64 + z;
    Digits3(w * 64 + x, y, z);
    Digits(w, x);
    assert n / 262144 == n / 4096 / 64;
  }

  /** A whole character decodes to a code that encodes to it. */
  lemma CharIsDecoded(s: Bytes)
    requires CharLength(s) > 0
    ensures DecodeOne(s).taken == CharLength(s) && EncodeOne(DecodeOne(s).code) == s[..CharLength(s)]
  {
    if s[0] < 0x80 {
      assert s[..1] == [s[0]];
    } else if IsTwo(s) {
      TwoIsDecoded(s);
    } else if IsThree(s) {
      ThreeIsDecoded(s);
    } else {
      FourIsDecoded(s);
    }
  }

  lemma TwoIsDecoded(s: Bytes)
    requires IsTwo(s)
    ensures DecodeOne(s).taken == 2 && EncodeOne(DecodeOne(s).code) == s[..2]
  {
    Digits(s[0] - 0xC0, s[1] - 0x80);
    assert DecodeOne(s).code == Code2(s[0], s[1]);
    assert s[..2] == [s[0], s[1]];
  }

  lemma ThreeIsDecoded(s: Bytes)
    requires IsThree(s)
    ensures DecodeOne(s).taken == 3 && EncodeOne(DecodeOne(s).code) == s[..3]
  {
    Digits3(s[0] - 0xE0, s[1] - 0x80, s[2] - 0x80);
    assert DecodeOne(s).code == Code3(s[0], s[1], s[2]);
    assert s[..3] == [s[0], s[1], s[2]];
  }

  lemma FourIsDecoded(s: Bytes)
    requires IsFour(s)
    ensures DecodeOne(s).taken == 4 && EncodeOne(DecodeOne(s).code) == s[..4]
  {
    assert DecodeOne(s) == Decoded(4, Code4(s[0], s[1], s[2], s[3]));
    FourEncoded(DecodeOne(s).code, s[0] - 0xF0, s[1] - 0x80, s[2] - 0x80, s[3] - 0x80);
    hide DecodeOne, EncodeOne;
    assert s[..4] == [s[0], s[1], s[2], s[3]];
  }

  lemma FourEncoded(c: Scalar, w: nat, x: nat, y: nat, z: nat)
    requires w < 5 && x < 64 && y < 64 && z < 64 && 0x1_0000 <= c == w * 262144 + x * 4096 + y * 64 + z
    ensures EncodeOne(c) == [0xF0 + w, 0x80 + x, 0x80 + y, 0x80 + z]
  {
    Digits4(w, x, y, z);
  }

  /** The bytes are the beginning of some character, or all of it. */
  ghost predicate BeginsChar(part: Bytes) {
    exists rest: Bytes :: CharLength(part + rest) >= |part|
  }

  /**
   Where no character stands, one U+FFFD is read: for the longest part that still begins a
   character, or for a single byte.
   */
  lemma PartIsReplaced(s: Bytes)
    requires |s| > 0 && CharLength(s) == 0
    ensures var n := DecodeOne(s).taken;
            && DecodeOne(s).code == REPLACEMENT
            && (n > 1 ==> BeginsChar(s[..n]))
            && (n < |s| ==> !BeginsChar(s[..n + 1]))
  {
    var n := DecodeOne(s).taken;
    if n > 1 {
      PartBegins(s[0], s[1], if n > 2 then s[2] else 0x80);
      assert s[..n] + (if n > 2 then [0x80] else [0x80, 0x80]) == [s[0], s[1], if n > 2 then s[2] else 0x80, 0x80];
    }
    if n < |s| {
      var part := s[..n + 1];
      forall rest: Bytes ensures CharLength(part + rest) < |part| {
        PartEnds(s, n, part + rest);
      }
    }
  }

  lemma PartBegins(first: Octet, second: Octet, third: Octet)
    requires Following(first) >= 2 && SecondFits(first, second) && Tail(third)
    ensures CharLength([first, second, third, 0x80]) >= 3
  {
  }

  lemma PartEnds(s: Bytes, n: nat, other: Bytes)
    requires |s| > 0 && CharLength(s) == 0 && n == DecodeOne(s).taken < |s| && s[..n + 1] <= other
    ensures CharLength(other) < n + 1
  {
    assert forall i | 0 <= i <= n :: other[i] == s[..n + 1][i] == s[i];
  }

  /** A number is what its digits to base 64 say. */
  lemma DigitsOf(c: nat)
    ensures c == c / 64 * 64 + c % 64
    ensures c / 4096 == c / 64 / 64 && c == c / 4096 * 4096 + c / 64 % 64 * 64 + c % 64
    ensures c / 262144 == c / 4096 / 64 && c == c / 262144 * 262144 + c / 4096 % 64 * 4096 + c / 64 % 64 * 64 + c % 64
  {
  }

  /** Every code point is encoded as one character, which decodes to it whatever follows. */
  lemma EncodeOneIsChar(c: Scalar, rest: Bytes)
    ensures CharLength(EncodeOne(c) + rest) == |EncodeOne(c)| > 0
    ensures DecodeOne(EncodeOne(c) + rest) == Decoded(|EncodeOne(c)|, c)
  {
    hide DecodeOne, CharLength;
    DigitsOf(c);
    var one, two, three := c % 64, c / 64 % 64, c / 4096 % 64;
    if c < 0x80 {
      OneIsChar(c, rest);
    } else if c < 0x800 {
      TwoIsChar(c / 64, one, rest);
    } else if c < 0x1_0000 {
      ThreeIsChar(c / 4096, two, one, rest);
    } else {
      FourIsChar(c / 262144, three, two, one, rest);
    }
  }

  lemma OneIsChar(a: nat, rest: Bytes)
    requires a < 0x80
    ensures CharLength([a] + rest) == 1 && DecodeOne([a] + rest) == Decoded(1, a)
  {
    assert ([a] + rest)[0] == a;
  }

  lemma TwoIsChar(a: nat, b: nat, rest: Bytes)
    requires 2 <= a < 32 && b < 64
    ensures var s := [0xC0 + a, 0x80 + b] + rest; CharLength(s) == 2 && DecodeOne(s) == Decoded(2, a * 64 + b)
  {
    var s := [0xC0 + a, 0x80 + b] + rest;
    assert s[0] == 0xC0 + a && s[1] == 0x80 + b;
  }

  lemma ThreeIsChar(a: nat, b: nat, c: nat, rest: Bytes)
    requires a < 16 && b < 64 && c < 64
    requires 0x800 <= a * 4096 + b * 64 + c && !(0xD800 <= a * 4096 + b * 64 + c < 0xE000)
    ensures var s := [0xE0 + a, 0x80 + b, 0x80 + c] + rest; CharLength(s) == 3 && DecodeOne(s) == Decoded(3, a * 4096 + b * 64 + c)
  {
    var s := [0xE0 + a, 0x80 + b, 0x80 + c] + rest;
    assert s[0] == 0xE0 + a && s[1] == 0x80 + b && s[2] == 0x80 + c;
  }

  lemma FourIsChar(a: nat, b: nat, c: nat, d: nat, rest: Bytes)
    requires a < 5 && b < 64 && c < 64 && d < 64
    requires 0x1_0000 <= a * 262144 + b * 4096 + c * 64 + d < 0x11_0000
    ensures var s := [0xF0 + a, 0x80 + b, 0x80 + c, 0x80 + d] + rest;
            CharLength(s) == 4 && DecodeOne(s) == Decoded(4, a * 262144 + b * 4096 + c * 64 + d)
  {
    var s := [0xF0 + a, 0x80 + b, 0x80 + c, 0x80 + d] + rest;
    assert s[0] == 0xF0 + a && s[1] == 0x80 + b && s[2] == 0x80 + c && s[3] == 0x80 + d;
  }

  lemma {:induction false} EncodingIsWellFormed(text: seq<Scalar>)
    ensures WellFormed(Encode(text)) && Decode(Encode(text)) == text
  {
    if |text| > 0 {
      var rest := Encode(text[1..]);
      EncodeOneIsChar(text[0], rest);
      EncodingIsWellFormed(text[1..]);
      assert (EncodeOne(text[0]) + rest)[|EncodeOne(text[0])|..] == rest;
    }
  }

  /** Bytes survive being read as text and written back exactly when they are well formed. */
  lemma {:induction false} RereadKeepsExactlyText(bytes: Bytes)
    ensures Reread(bytes) == bytes <==> WellFormed(bytes)
  {
    if WellFormed(bytes) {
      TextIsKept(bytes);
    }
  }

  lemma {:induction false} TextIsKept(bytes: Bytes)
    requires WellFormed(bytes)
    ensures Encode(Decode(bytes)) == bytes
  {
    if |bytes| > 0 {
      var d := DecodeOne(bytes);
      CharIsDecoded(bytes);
      TextIsKept(bytes[d.taken..]);
      assert ([d.code] + Decode(bytes[d.taken..]))[1..] == Decode(bytes[d.taken..]);
    }
  }

  /** What is well formed is what some text is encoded as. */
  lemma WellFormedExactlyEncodings(bytes: Bytes)
    ensures WellFormed(bytes) <==> exists text: seq<Scalar> :: Encode(text) == bytes
  {
    if WellFormed(bytes) {
      TextIsKept(bytes);
    }
    if text: seq<Scalar> :| Encode(text) == bytes {
      EncodingIsWellFormed(text);
    }
  }
}
