/** SHA-256 and HMAC as their standards define them: FIPS 180-4 and FIPS 198-1, over bytes. */
module Sha256Standard {
  import opened Sha256Constants

  type Word = bv32
  type Byte = bv8

  /** Addition modulo 2^32. */
  function Add(x: Word, y: Word): Word {
    x + y
  }

  // Section 4.1.2 of FIPS 180-4.

  function Ch(x: Word, y: Word, z: Word): Word {
    (x & y) ^ (!x & z)
  }

  function Maj(x: Word, y: Word, z: Word): Word {
    (x & y) ^ (x & z) ^ (y & z)
  }

  function BigSigma0(x: Word): Word {
    x.RotateRight(2) ^ x.RotateRight(13) ^ x.RotateRight(22)
  }

  function BigSigma1(x: Word): Word {
    x.RotateRight(6) ^ x.RotateRight(11) ^ x.RotateRight(25)
  }

  function SmallSigma0(x: Word): Word {
    x.RotateRight(7) ^ x.RotateRight(18) ^ (x >> 3)
  }

  function SmallSigma1(x: Word): Word {
    x.RotateRight(17) ^ x.RotateRight(19) ^ (x >> 10)
  }

  // Section 4.2.2 of FIPS 180-4.

  /** The first 32 bits of the fractional part of the cube root of the t-th prime. */
  ghost function K(t: nat): Word
    requires t < 64
  {
    (CubeRoot(NthPrime(t) * 0x1_0000_0000_0000_0000_0000_0000) % 0x1_0000_0000) as Word
  }

  // Section 5.1.1 of FIPS 180-4.

  function Zeros(n: nat): (s: seq<Byte>)
    ensures |s| == n
  {
    seq(n, _ => 0)
  }

  /** `n` as `width` bytes, most significant first. */
  function BigEndian(n: nat, width: nat): (s: seq<Byte>)
    ensures |s| == width
    decreases width
  {
    if width == 0 then [] else BigEndian(n / 256, width - 1) + [(n % 256) as Byte]
  }

  /** How many zero bytes follow the byte 0x80. */
  function ZeroCount(length: nat): nat {
    (119 - length % 64) % 64
  }

  function Pad(m: seq<Byte>): seq<Byte> {
    m + [0x80] + Zeros(ZeroCount(|m|)) + BigEndian(8 * |m|, 8)
  }

  // Section 5.3.3 of FIPS 180-4.

  datatype Registers = Registers(a: Word, b: Word, c: Word, d: Word, e: Word, f: Word, g: Word, h: Word)

  /** The first 32 bits of the fractional part of the square root of the i-th prime. */
  ghost function InitialWord(i: nat): Word
    requires i < 64
  {
    (SquareRoot(NthPrime(i) * 0x1_0000_0000_0000_0000) % 0x1_0000_0000) as Word
  }

  ghost function Initial(): Registers {
    Registers(InitialWord(0), InitialWord(1), InitialWord(2), InitialWord(3),
              InitialWord(4), InitialWord(5), InitialWord(6), InitialWord(7))
  }

  // Section 6.2.2 of FIPS 180-4.

  function WordAt(block: seq<Byte>, i: nat): Word
    requires i + 4 <= |block|
  {
    (block[i] as Word << 24) | (block[i + 1] as Word << 16) | (block[i + 2] as Word << 8) | block[i + 3] as Word
  }

  /** A later schedule word, from those 2, 7, 15 and 16 places before it. */
  function Expand(w2: Word, w7: Word, w15: Word, w16: Word): Word {
    Add(Add(Add(SmallSigma1(w2), w7), SmallSigma0(w15)), w16)
  }

  function Schedule(block: seq<Byte>, t: nat): Word
    requires |block| == 64
  {
    if t < 16 then WordAt(block, 4 * t)
    else Expand(Schedule(block, t - 2), Schedule(block, t - 7), Schedule(block, t - 15), Schedule(block, t - 16))
  }

  function T1(h: Word, e: Word, f: Word, g: Word, k: Word, w: Word): Word {
    Add(Add(Add(Add(h, BigSigma1(e)), Ch(e, f, g)), k), w)
  }

  function T2(a: Word, b: Word, c: Word): Word {
    Add(BigSigma0(a), Maj(a, b, c))
  }

  function Round(r: Registers, k: Word, w: Word): Registers {
    var t1 := T1(r.h, r.e, r.f, r.g, k, w);
    Registers(Add(t1, T2(r.a, r.b, r.c)), r.a, r.b, r.c, Add(r.d, t1), r.e, r.f, r.g)
  }

  ghost function Rounds(r: Registers, block: seq<Byte>, n: nat): Registers
    requires |block| == 64 && n <= 64
  {
    if n == 0 then r else Round(Rounds(r, block, n - 1), K(n - 1), Schedule(block, n - 1))
  }

  ghost function Compress(r: Registers, block: seq<Byte>): Registers
    requires |block| == 64
  {
    var v := Rounds(r, block, 64);
    Registers(Add(r.a, v.a), Add(r.b, v.b), Add(r.c, v.c), Add(r.d, v.d),
              Add(r.e, v.e), Add(r.f, v.f), Add(r.g, v.g), Add(r.h, v.h))
  }

  /** The hash value after the first `n` blocks of a padded message. */
  ghost function HashBlocks(p: seq<Byte>, n: nat): Registers
    requires 64 * n <= |p|
  {
    if n == 0 then Initial() else Compress(HashBlocks(p, n - 1), p[64 * n - 64..64 * n])
  }

  function WordBytes(w: Word): seq<Byte> {
    [((w >> 24) & 0xff) as Byte, ((w >> 16) & 0xff) as Byte, ((w >> 8) & 0xff) as Byte, (w & 0xff) as Byte]
  }

  function Digest(r: Registers): seq<Byte> {
    WordBytes(r.a) + WordBytes(r.b) + WordBytes(r.c) + WordBytes(r.d) +
    WordBytes(r.e) + WordBytes(r.f) + WordBytes(r.g) + WordBytes(r.h)
  }

  ghost function Sha256(m: seq<Byte>): seq<Byte> {
    Digest(HashBlocks(Pad(m), |Pad(m)| / 64))
  }

  // Section 4 of FIPS 198-1, with B = 64.

  ghost function KeyBlock(key: seq<Byte>): seq<Byte> {
    if |key| == 64 then key
    else if |key| > 64 then Sha256(key) + Zeros(32)
    else key + Zeros(64 - |key|)
  }

  function XorEach(s: seq<Byte>, pad: Byte): seq<Byte> {
    seq(|s|, i requires 0 <= i < |s| => s[i] ^ pad)
  }

  ghost function Hmac(key: seq<Byte>, text: seq<Byte>): seq<Byte> {
    Sha256(XorEach(KeyBlock(key), 0x5c) + Sha256(XorEach(KeyBlock(key), 0x36) + text))
  }

  // The padding.

  /** The zero bytes bring the marked message to 56 bytes modulo 64, and they are fewer than 64. */
  lemma ZeroCountFits(length: nat)
    ensures ZeroCount(length) < 64 && (length + 1 + ZeroCount(length)) % 64 == 56
  {
    var q, r := length / 64, length % 64;
    assert ZeroCount(length) == if r < 56 then 55 - r else 119 - r;
    assert length + 1 + ZeroCount(length) == 64 * (if r < 56 then q else q + 1) + 56;
  }

  /** A padded message is a whole number of blocks. */
  lemma PadLength(m: seq<Byte>)
    ensures |Pad(m)| % 64 == 0 && |Pad(m)| == |m| + 9 + ZeroCount(|m|)
  {
    hide ZeroCount, BigEndian;
    ZeroCountFits(|m|);
  }

  /**
   In bits: the zero bits after the single 1 bit are the smallest number `k` with
   `l + 1 + k = 448 mod 512`, where `l` is the length of the message.
   */
  lemma PadIsSmallest(length: nat, k: nat)
    requires (8 * length + 1 + k) % 512 == 448
    ensures 7 + 8 * ZeroCount(length) <= k
    ensures (8 * length + 1 + 7 + 8 * ZeroCount(length)) % 512 == 448
  {
    hide ZeroCount;
    ZeroCountFits(length);
    var z := ZeroCount(length);
    var c := (length + 1 + z) / 64;
    assert 8 * length + 1 + 7 + 8 * z == 512 * c + 448;
    var d := (8 * length + 1 + k) / 512;
    assert 8 * length + 1 + k == 512 * d + 448;
    assert k - (7 + 8 * z) == 512 * (d - c);
  }

  function StripZeros(s: seq<Byte>): seq<Byte> {
    if s != [] && s[|s| - 1] == 0 then StripZeros(s[..|s| - 1]) else s
  }

  /** Reads a padded message from its end: the length field, the zeros, the byte 0x80. */
  function Unpad(p: seq<Byte>): seq<Byte> {
    var marked := StripZeros(if |p| < 8 then [] else p[..|p| - 8]);
    if marked == [] then [] else marked[..|marked| - 1]
  }

  lemma {:induction false} StripRoundTrip(s: seq<Byte>, n: nat)
    requires s != [] && s[|s| - 1] != 0
    ensures StripZeros(s + Zeros(n)) == s
    decreases n
  {
    if n == 0 {
      assert s + Zeros(0) == s;
    } else {
      assert (s + Zeros(n))[..|s| + n - 1] == s + Zeros(n - 1);
      StripRoundTrip(s, n - 1);
    }
  }

  /** The message can be read back from its padding, so distinct messages give distinct blocks. */
  lemma PadRoundTrip(m: seq<Byte>)
    ensures Unpad(Pad(m)) == m
  {
    hide BigEndian, ZeroCount, StripZeros;
    var p := Pad(m);
    assert p[..|p| - 8] == (m + [0x80]) + Zeros(ZeroCount(|m|));
    StripRoundTrip(m + [0x80], ZeroCount(|m|));
  }

  // What the operations mean.

  /** Addition counts up, and from the last word on to 0 again. */
  lemma AddCounts(x: Word, y: Word)
    ensures Add(x, 0) == x && Add(x, y + 1) == Add(x, y) + 1
  {
  }

  /** Where x has a 1 bit the bit of y is chosen, elsewhere that of z. */
  lemma ChChooses(x: Word, y: Word, z: Word)
    ensures Ch(x, y, z) & x == y & x && Ch(x, y, z) & !x == z & !x
  {
  }

  /** Where two agree the majority is theirs, elsewhere it is the third's. */
  lemma MajIsMajority(x: Word, y: Word, z: Word)
    ensures Maj(x, y, z) & !(x ^ y) == x & !(x ^ y) && Maj(x, y, z) & (x ^ y) == z & (x ^ y)
  {
  }

  /** `n >> (8 * count)`. */
  function ShiftBytes(n: nat, count: nat): nat {
    if count == 0 then n else ShiftBytes(n, count - 1) / 256
  }

  lemma {:induction false} ShiftFirst(n: nat, count: nat)
    ensures ShiftBytes(n / 256, count) == ShiftBytes(n, count + 1)
  {
    if count > 0 {
      ShiftFirst(n, count - 1);
    }
  }

  /** The byte at place k is the one worth 256 to the number of bytes behind it: the most significant is first. */
  lemma {:induction false} BigEndianAt(n: nat, width: nat, k: nat)
    requires k < width
    ensures BigEndian(n, width)[k] == (ShiftBytes(n, width - 1 - k) % 256) as Byte
    decreases width
  {
    if k < width - 1 {
      BigEndianAt(n / 256, width - 1, k);
      ShiftFirst(n, width - 2 - k);
    }
  }

  /** A schedule word has the value of its four bytes, the most significant first. */
  lemma WordAtValue(block: seq<Byte>, i: nat)
    requires i + 4 <= |block|
    ensures WordAt(block, i) as nat ==
            256 * (256 * (256 * (block[i] as nat) + block[i + 1] as nat) + block[i + 2] as nat) + block[i + 3] as nat
  {
    WordOfBytes(block[i], block[i + 1], block[i + 2], block[i + 3]);
  }

  lemma WordOfBytes(a: Byte, b: Byte, c: Byte, d: Byte)
    ensures ((a as Word << 24) | (b as Word << 16) | (c as Word << 8) | d as Word) as nat ==
            256 * (256 * (256 * (a as nat) + b as nat) + c as nat) + d as nat
  {
  }

  /** Writing a word and reading it gives the word back. */
  lemma WordRoundTrip(w: Word)
    ensures WordAt(WordBytes(w), 0) == w
  {
  }
}
