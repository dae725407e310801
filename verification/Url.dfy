/** Percent-encoding of byte strings. */
module Url {

  type Byte = n: int | 0 <= n < 256 witness 0

  const PERCENT: Byte := '%' as int
  const PLUS: Byte := '+' as int
  const SPACE: Byte := ' ' as int

  /** A byte read as a `char`, which is signed. */
  function AsChar(b: Byte): int {
    if b < 128 then b else b - 256
  }

  predicate Between(c: int, lo: char, hi: char) {
    lo as int <= c <= hi as int
  }

  /** The unreserved characters of section 2.3 of RFC 3986. */
  predicate Unreserved(b: Byte) {
    Between(b, 'a', 'z') || Between(b, 'A', 'Z') || Between(b, '0', '9') ||
    b == '-' as int || b == '.' as int || b == '_' as int || b == '~' as int
  }

  predicate IsHexDigit(b: Byte) {
    Between(b, '0', '9') || Between(b, 'a', 'f') || Between(b, 'A', 'F')
  }

  predicate IsUpperHexDigit(b: Byte) {
    Between(b, '0', '9') || Between(b, 'A', 'F')
  }

  function HexValue(b: Byte): (v: nat)
    requires IsHexDigit(b)
    ensures v < 16
  {
    if b <= '9' as int then b - '0' as int
    else if b <= 'F' as int then b - 'A' as int + 10
    else b - 'a' as int + 10
  }

  function HexDigit(v: nat): Byte
    requires v < 16
  {
    if v < 10 then '0' as int + v else 'A' as int + v - 10
  }

  function EncodeByte(b: Byte): seq<Byte> {
    if Unreserved(b) then [b] else [PERCENT, HexDigit(b / 16), HexDigit(b % 16)]
  }

  function Encoded(s: seq<Byte>): seq<Byte> {
    if s == [] then [] else EncodeByte(s[0]) + Encoded(s[1..])
  }

  /** An escape at the start of `s`: a percent sign and two hexadecimal digits. */
  predicate StartsEscape(s: seq<Byte>) {
    |s| >= 3 && s[0] == PERCENT && IsHexDigit(s[1]) && IsHexDigit(s[2])
  }

  function EscapedByte(hi: Byte, lo: Byte): Byte
    requires IsHexDigit(hi) && IsHexDigit(lo)
  {
    16 * HexValue(hi) + HexValue(lo)
  }

  /** The byte that the start of `s` stands for, and how many characters it takes. */
  function HeadByte(s: seq<Byte>): Byte
    requires s != []
  {
    if StartsEscape(s) then EscapedByte(s[1], s[2]) else if s[0] == PLUS then SPACE else s[0]
  }

  function HeadLength(s: seq<Byte>): nat {
    if StartsEscape(s) then 3 else 1
  }

  function Decoded(s: seq<Byte>): seq<Byte> {
    if s == [] then [] else [HeadByte(s)] + Decoded(s[HeadLength(s)..])
  }

  /** Unreserved characters and upper-case escapes of other bytes: what section 2.1 of RFC 3986 calls normal. */
  predicate Canonical(s: seq<Byte>) {
    s == [] ||
    (Unreserved(s[0]) && Canonical(s[1..])) ||
    (StartsEscape(s) && IsUpperHexDigit(s[1]) && IsUpperHexDigit(s[2]) &&
     !Unreserved(EscapedByte(s[1], s[2])) && Canonical(s[3..]))
  }

  lemma {:induction false} EncodedAppend(s: seq<Byte>, b: Byte)
    ensures Encoded(s + [b]) == Encoded(s) + EncodeByte(b)
  {
    if s == [] {
      assert s + [b] == [b];
    } else {
      assert (s + [b])[1..] == s[1..] + [b];
      EncodedAppend(s[1..], b);
    }
  }

  method Encode(input: seq<Byte>) returns (out: seq<Byte>)
    ensures out == Encoded(input)
  {
    out := [];
    for i := 0 to |input|
      invariant out == Encoded(input[..i])
    {
      var c := AsChar(input[i]);
      EncodedAppend(input[..i], input[i]);
      assert input[..i + 1] == input[..i] + [input[i]];
      if (c < 'a' as int || c > 'z' as int) && (c < 'A' as int || c > 'Z' as int) &&
         (c < '0' as int || c > '9' as int) && c != '.' as int && c != '-' as int && c != '~' as int && c != '_' as int
      {
        out := out + [PERCENT, HexDigit(input[i] / 16), HexDigit(input[i] % 16)];
      } else {
        out := out + [input[i]];
      }
    }
    assert input[..|input|] == input;
  }

  /** `std::string` indexing, which reads a zero at the end. */
  function At(s: seq<Byte>, i: nat): Byte {
    if i < |s| then s[i] else 0
  }

  /** The 32-bit read index reaches the end only of strings shorter than 2^32; longer ones are not decoded. */
  method Decode(input: seq<Byte>) returns (out: seq<Byte>)
    requires |input| < 0x1_0000_0000
    ensures out == Decoded(input)
  {
    hide HeadByte, HeadLength, IsHexDigit, EscapedByte;
    var readIdx := 0;
    out := [];
    while readIdx < |input|
      invariant readIdx <= |input|
      invariant Decoded(input) == out + Decoded(input[readIdx..])
    {
      ghost var rest := input[readIdx..];
      EscapeTest(input, readIdx);
      assert rest[HeadLength(rest)..] == input[readIdx + HeadLength(rest)..];
      if AtEscape(input, readIdx) {
        out := out + [EscapedByte(input[readIdx + 1], input[readIdx + 2])];
        readIdx := readIdx + 2;
      } else if input[readIdx] == PLUS {
        out := out + [SPACE];
      } else {
        out := out + [input[readIdx]];
      }
      readIdx := readIdx + 1;
    }
  }

  /** The code's escape test. Its bound, `size - 2`, wraps around on strings of one character. */
  predicate AtEscape(input: seq<Byte>, i: nat)
    requires i < |input|
  {
    && i < (|input| - 2) % 0x1_0000_0000_0000_0000
    && input[i] == PERCENT
    && IsHexDigit(At(input, i + 1))
    && IsHexDigit(At(input, i + 2))
  }

  lemma EscapeTest(input: seq<Byte>, i: nat)
    requires i < |input| < 0x1_0000_0000
    ensures AtEscape(input, i) <==> StartsEscape(input[i..])
    ensures AtEscape(input, i) ==> i + 2 < |input| && HeadByte(input[i..]) == EscapedByte(input[i + 1], input[i + 2])
    ensures !AtEscape(input, i) ==> HeadByte(input[i..]) == if input[i] == PLUS then SPACE else input[i]
    ensures HeadLength(input[i..]) == if AtEscape(input, i) then 3 else 1
  {
    hide EscapedByte;
    var rest := input[i..];
    if |input| == 1 {
      assert !IsHexDigit(At(input, 1));
    } else {
      assert (|input| - 2) % 0x1_0000_0000_0000_0000 == |input| - 2;
      assert i + 2 < |input| ==> rest[1] == input[i + 1] && rest[2] == input[i + 2];
    }
  }

  lemma HexRoundTrip(b: Byte)
    ensures IsUpperHexDigit(HexDigit(b / 16)) && IsUpperHexDigit(HexDigit(b % 16))
    ensures EscapedByte(HexDigit(b / 16), HexDigit(b % 16)) == b
  {
  }

  /** Decoding an encoded string gives it back, so `Encode` is injective although `+` decodes to a space. */
  lemma {:induction false} DecodeEncode(s: seq<Byte>)
    ensures Decoded(Encoded(s)) == s
  {
    if s != [] {
      var e := Encoded(s);
      HexRoundTrip(s[0]);
      if Unreserved(s[0]) {
        assert e[1..] == Encoded(s[1..]);
      } else {
        assert e[3..] == Encoded(s[1..]);
      }
      DecodeEncode(s[1..]);
    }
  }

  lemma {:induction false} EncodedIsCanonical(s: seq<Byte>)
    ensures Canonical(Encoded(s))
  {
    if s != [] {
      var e := Encoded(s);
      HexRoundTrip(s[0]);
      if Unreserved(s[0]) {
        assert e[1..] == Encoded(s[1..]);
      } else {
        assert e[3..] == Encoded(s[1..]);
      }
      EncodedIsCanonical(s[1..]);
    }
  }

  /** The strings `Encode` can emit are exactly those it gives back after decoding them. */
  lemma {:induction false} EncodeDecode(s: seq<Byte>)
    ensures Encoded(Decoded(s)) == s <==> Canonical(s)
  {
    if Encoded(Decoded(s)) == s {
      EncodedIsCanonical(Decoded(s));
    }
    if Canonical(s) {
      CanonicalRoundTrip(s);
    }
  }

  lemma UpperHexRoundTrip(hi: Byte, lo: Byte)
    requires IsUpperHexDigit(hi) && IsUpperHexDigit(lo)
    ensures HexDigit(EscapedByte(hi, lo) / 16) == hi && HexDigit(EscapedByte(hi, lo) % 16) == lo
  {
  }

  lemma {:induction false} CanonicalRoundTrip(s: seq<Byte>)
    requires Canonical(s)
    ensures Encoded(Decoded(s)) == s
  {
    hide EscapedByte, HexDigit;
    if s != [] {
      var d := Decoded(s);
      assert d[1..] == Decoded(s[HeadLength(s)..]);
      CanonicalRoundTrip(s[HeadLength(s)..]);
      if StartsEscape(s) {
        UpperHexRoundTrip(s[1], s[2]);
        assert s == [s[0], s[1], s[2]] + s[3..];
      } else {
        assert s == [s[0]] + s[1..];
      }
    }
  }

  // Single characters.

  const LOWER_DIGITS := "0123456789abcdef"
  const UPPER_DIGITS := "0123456789ABCDEF"

  /** The hexadecimal digits are those of both cases, with their usual values. */
  lemma HexDigits(k: nat)
    requires k < 16
    ensures var l, u := LOWER_DIGITS[k] as int, UPPER_DIGITS[k] as int;
            l < 256 && u < 256 && IsHexDigit(l) && IsHexDigit(u) && HexValue(l) == k && HexValue(u) == k
    ensures HexDigit(k) == UPPER_DIGITS[k] as int
  {
  }

  /** An escape in any mixture of cases is decoded to the same byte. */
  lemma DecodeEscape(high: nat, low: nat, hi: Byte, lo: Byte, rest: seq<Byte>)
    requires high < 16 && low < 16
    requires hi == LOWER_DIGITS[high] as int || hi == UPPER_DIGITS[high] as int
    requires lo == LOWER_DIGITS[low] as int || lo == UPPER_DIGITS[low] as int
    ensures Decoded(['%' as int, hi, lo] + rest) == [16 * high + low] + Decoded(rest)
  {
    HexDigits(high);
    HexDigits(low);
    hide IsHexDigit, HexValue;
    var s := ['%' as int, hi, lo] + rest;
    assert StartsEscape(s) && s[3..] == rest;
  }

  /** A plus sign is decoded to a space; any other character that starts no escape stands for itself. */
  lemma DecodeOther(c: Byte, rest: seq<Byte>)
    requires !StartsEscape([c] + rest)
    ensures Decoded([c] + rest) == [if c == '+' as int then ' ' as int else c] + Decoded(rest)
  {
    assert ([c] + rest)[1..] == rest;
  }
}
