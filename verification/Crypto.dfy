/** The SHA-256 and HMAC code: chunks built by hand, schedules and registers kept in arrays. */
module Crypto {
  import opened Sha256Constants
  import opened Sha256Standard

  // The table of constants, in rows of eight.

  type Word32 = n: nat | n < 0x1_0000_0000

  function KRow(i: nat): (row: seq<Word32>)
    ensures |row| == 8
  {
    match i
    case 0 => [0x428a2f98, 0x71374491, 0xb5c0fbcf, 0xe9b5dba5, 0x3956c25b, 0x59f111f1, 0x923f82a4, 0xab1c5ed5]
    case 1 => [0xd807aa98, 0x12835b01, 0x243185be, 0x550c7dc3, 0x72be5d74, 0x80deb1fe, 0x9bdc06a7, 0xc19bf174]
    case 2 => [0xe49b69c1, 0xefbe4786, 0x0fc19dc6, 0x240ca1cc, 0x2de92c6f, 0x4a7484aa, 0x5cb0a9dc, 0x76f988da]
    case 3 => [0x983e5152, 0xa831c66d, 0xb00327c8, 0xbf597fc7, 0xc6e00bf3, 0xd5a79147, 0x06ca6351, 0x14292967]
    case 4 => [0x27b70a85, 0x2e1b2138, 0x4d2c6dfc, 0x53380d13, 0x650a7354, 0x766a0abb, 0x81c2c92e, 0x92722c85]
    case 5 => [0xa2bfe8a1, 0xa81a664b, 0xc24b8b70, 0xc76c51a3, 0xd192e819, 0xd6990624, 0xf40e3585, 0x106aa070]
    case 6 => [0x19a4c116, 0x1e376c08, 0x2748774c, 0x34b0bcb5, 0x391c0cb3, 0x4ed8aa4a, 0x5b9cca4f, 0x682e6ff3]
    case _ => [0x748f82ee, 0x78a5636f, 0x84c87814, 0x8cc70208, 0x90befffa, 0xa4506ceb, 0xbef9a3f7, 0xc67178f2]
  }

  function TableK(t: nat): Word
    requires t < 64
  {
    KRow(t / 8)[t % 8] as Word
  }

  /** The integer part of the cube root of a number below 343. */
  function WholeCubeRoot(p: nat): nat {
    if p < 8 then 1 else if p < 27 then 2 else if p < 64 then 3 else if p < 125 then 4 else if p < 216 then 5 else 6
  }

  /** With its integer part before it, the constant is the cube root of the prime in units of 2^-32. */
  ghost predicate IsRootOf(p: nat, w: Word32) {
    IsCubeRoot(WholeCubeRoot(p) * 0x1_0000_0000 + w, p * 0x1_0000_0000_0000_0000_0000_0000)
  }

  lemma RootsOfFirstRow(j: nat)
    requires j < 8
    ensures IsRootOf(PrimeRow(0)[j], KRow(0)[j])
  {
  }

  lemma RootsOfSecondRow(j: nat)
    requires j < 8
    ensures IsRootOf(PrimeRow(1)[j], KRow(1)[j])
  {
  }

  lemma RootsOfThirdRow(j: nat)
    requires j < 8
    ensures IsRootOf(PrimeRow(2)[j], KRow(2)[j])
  {
  }

  lemma RootsOfFourthRow(j: nat)
    requires j < 8
    ensures IsRootOf(PrimeRow(3)[j], KRow(3)[j])
  {
  }

  lemma RootsOfFifthRow(j: nat)
    requires j < 8
    ensures IsRootOf(PrimeRow(4)[j], KRow(4)[j])
  {
    hide IsRootOf;
    if j < 4 {
      RootsOfFifthRowBegin(j);
    } else {
      RootsOfFifthRowEnd(j);
    }
  }

  lemma RootsOfFifthRowBegin(j: nat)
    requires j < 4
    ensures IsRootOf(PrimeRow(4)[j], KRow(4)[j])
  {
  }

  lemma RootsOfFifthRowEnd(j: nat)
    requires 4 <= j < 8
    ensures IsRootOf(PrimeRow(4)[j], KRow(4)[j])
  {
  }

  lemma RootsOfSixthRow(j: nat)
    requires j < 8
    ensures IsRootOf(PrimeRow(5)[j], KRow(5)[j])
  {
    hide IsRootOf;
    if j < 4 {
      RootsOfSixthRowBegin(j);
    } else {
      RootsOfSixthRowEnd(j);
    }
  }

  lemma RootsOfSixthRowBegin(j: nat)
    requires j < 4
    ensures IsRootOf(PrimeRow(5)[j], KRow(5)[j])
  {
  }

  lemma RootsOfSixthRowEnd(j: nat)
    requires 4 <= j < 8
    ensures IsRootOf(PrimeRow(5)[j], KRow(5)[j])
  {
  }

  lemma RootsOfSeventhRow(j: nat)
    requires j < 8
    ensures IsRootOf(PrimeRow(6)[j], KRow(6)[j])
  {
    hide IsRootOf;
    if j < 4 {
      RootsOfSeventhRowBegin(j);
    } else {
      RootsOfSeventhRowEnd(j);
    }
  }

  lemma RootsOfSeventhRowBegin(j: nat)
    requires j < 4
    ensures IsRootOf(PrimeRow(6)[j], KRow(6)[j])
  {
  }

  lemma RootsOfSeventhRowEnd(j: nat)
    requires 4 <= j < 8
    ensures IsRootOf(PrimeRow(6)[j], KRow(6)[j])
  {
  }

  lemma RootsOfLastRow(j: nat)
    requires j < 8
    ensures IsRootOf(PrimeRow(7)[j], KRow(7)[j])
  {
    hide IsRootOf;
    if j < 4 {
      RootsOfLastRowBegin(j);
    } else {
      RootsOfLastRowEnd(j);
    }
  }

  lemma RootsOfLastRowBegin(j: nat)
    requires j < 4
    ensures IsRootOf(PrimeRow(7)[j], KRow(7)[j])
  {
  }

  lemma RootsOfLastRowEnd(j: nat)
    requires 4 <= j < 8
    ensures IsRootOf(PrimeRow(7)[j], KRow(7)[j])
  {
  }

  lemma RowOfRoots(i: nat, j: nat)
    requires i < 8 && j < 8
    ensures IsRootOf(PrimeRow(i)[j], KRow(i)[j])
  {
    hide IsRootOf;
    if i == 0 {
      RootsOfFirstRow(j);
    } else if i == 1 {
      RootsOfSecondRow(j);
    } else if i == 2 {
      RootsOfThirdRow(j);
    } else if i == 3 {
      RootsOfFourthRow(j);
    } else if i == 4 {
      RootsOfFifthRow(j);
    } else if i == 5 {
      RootsOfSixthRow(j);
    } else if i == 6 {
      RootsOfSeventhRow(j);
    } else {
      RootsOfLastRow(j);
    }
  }

  /** The table of the code holds the constants of section 4.2.2 of FIPS 180-4. */
  lemma TableIsStandard(t: nat)
    requires t < 64
    ensures TableK(t) == K(t)
  {
    hide PrimeRow, KRow, IsCubeRoot, CubeRoot, WholeCubeRoot;
    RowOfRoots(t / 8, t % 8);
    FractionOf(NthPrime(t), KRow(t / 8)[t % 8]);
  }

  lemma FractionOf(p: nat, w: Word32)
    requires IsRootOf(p, w)
    ensures CubeRoot(p * 0x1_0000_0000_0000_0000_0000_0000) % 0x1_0000_0000 == w
  {
    hide IsCubeRoot, CubeRoot, WholeCubeRoot;
    var c := WholeCubeRoot(p) * 0x1_0000_0000 + w;
    CubeRootUnique(c, p * 0x1_0000_0000_0000_0000_0000_0000);
    assert c % 0x1_0000_0000 == w;
  }

  // The initial hash value.

  function InitialValues(): (values: seq<Word32>)
    ensures |values| == 8
  {
    [0x6a09e667, 0xbb67ae85, 0x3c6ef372, 0xa54ff53a, 0x510e527f, 0x9b05688c, 0x1f83d9ab, 0x5be0cd19]
  }

  function WholeSquareRoot(p: nat): nat {
    if p < 4 then 1 else if p < 9 then 2 else if p < 16 then 3 else 4
  }

  lemma SquareRoots(i: nat)
    requires i < 8
    ensures IsSquareRoot(WholeSquareRoot(PrimeRow(0)[i]) * 0x1_0000_0000 + InitialValues()[i],
                         PrimeRow(0)[i] * 0x1_0000_0000_0000_0000)
  {
  }

  /** The initial hash value of the code is that of section 5.3.3 of FIPS 180-4. */
  lemma InitialIsStandard(i: nat)
    requires i < 8
    ensures InitialValues()[i] as Word == InitialWord(i)
  {
    hide PrimeRow, IsSquareRoot, SquareRoot, WholeSquareRoot, InitialValues;
    SquareRoots(i);
    var p := NthPrime(i);
    var c := WholeSquareRoot(p) * 0x1_0000_0000 + InitialValues()[i];
    SquareRootUnique(c, p * 0x1_0000_0000_0000_0000);
    assert c % 0x1_0000_0000 == InitialValues()[i];
  }

  // The macros: rotations by two shifts.

  function Sum0(x: Word): Word {
    ((x >> 2) | (x << 30)) ^ ((x >> 13) | (x << 19)) ^ ((x >> 22) | (x << 10))
  }

  function Sum1(x: Word): Word {
    ((x >> 6) | (x << 26)) ^ ((x >> 11) | (x << 21)) ^ ((x >> 25) | (x << 7))
  }

  function Sigma0(x: Word): Word {
    ((x >> 7) | (x << 25)) ^ ((x >> 18) | (x << 14)) ^ (x >> 3)
  }

  function Sigma1(x: Word): Word {
    ((x >> 17) | (x << 15)) ^ ((x >> 19) | (x << 13)) ^ (x >> 10)
  }

  function CodeCh(x: Word, y: Word, z: Word): Word {
    (x & y) ^ (!x & z)
  }

  function CodeMaj(x: Word, y: Word, z: Word): Word {
    (x & y) ^ (x & z) ^ (y & z)
  }

  function CodeT1(h: Word, e: Word, f: Word, g: Word, k: Word, w: Word): Word {
    Add(Add(Add(Add(h, Sum1(e)), CodeCh(e, f, g)), k), w)
  }

  function CodeT2(a: Word, b: Word, c: Word): Word {
    Add(Sum0(a), CodeMaj(a, b, c))
  }

  function CodeExpand(w2: Word, w7: Word, w15: Word, w16: Word): Word {
    Add(Add(Add(Sigma1(w2), w7), Sigma0(w15)), w16)
  }

  /** Two shifts are the standard's rotation. */
  lemma MacrosAgree(x: Word)
    ensures Sum0(x) == BigSigma0(x) && Sum1(x) == BigSigma1(x)
    ensures Sigma0(x) == SmallSigma0(x) && Sigma1(x) == SmallSigma1(x)
  {
  }

  lemma ChoicesAgree(x: Word, y: Word, z: Word)
    ensures CodeCh(x, y, z) == Ch(x, y, z) && CodeMaj(x, y, z) == Maj(x, y, z)
  {
  }

  lemma T1Agrees(h: Word, e: Word, f: Word, g: Word, k: Word, w: Word)
    ensures CodeT1(h, e, f, g, k, w) == T1(h, e, f, g, k, w)
  {
    hide Sum1, BigSigma1, Ch, CodeCh, Add;
    MacrosAgree(e);
    ChoicesAgree(e, f, g);
  }

  lemma T2Agrees(a: Word, b: Word, c: Word)
    ensures CodeT2(a, b, c) == T2(a, b, c)
  {
    hide Sum0, BigSigma0, Maj, CodeMaj, Add;
    MacrosAgree(a);
    ChoicesAgree(a, b, c);
  }

  lemma ExpandAgrees(w2: Word, w7: Word, w15: Word, w16: Word)
    ensures CodeExpand(w2, w7, w15, w16) == Expand(w2, w7, w15, w16)
  {
    hide Sigma0, Sigma1, SmallSigma0, SmallSigma1, Add;
    MacrosAgree(w2);
    MacrosAgree(w15);
  }

  function FromWords(s: seq<Word>): Registers
    requires |s| == 8
  {
    Registers(s[0], s[1], s[2], s[3], s[4], s[5], s[6], s[7])
  }

  lemma EarlyWord(chunk: seq<Byte>, start: nat, t: nat)
    requires start + 64 <= |chunk| && t < 16
    ensures WordAt(chunk, start + 4 * t) == Schedule(chunk[start..start + 64], t)
  {
  }

  /** Four bytes as a word. */
  function CodeWord(a: Byte, b: Byte, c: Byte, d: Byte): Word {
    (a as Word << 24) | (b as Word << 16) | (c as Word << 8) | d as Word
  }

  lemma WordsAgree(chunk: seq<Byte>, i: nat)
    requires i + 4 <= |chunk|
    ensures CodeWord(chunk[i], chunk[i + 1], chunk[i + 2], chunk[i + 3]) == WordAt(chunk, i)
  {
  }

  lemma LateWord(block: seq<Byte>, t: nat)
    requires |block| == 64 && 16 <= t
    ensures Schedule(block, t) ==
            Expand(Schedule(block, t - 2), Schedule(block, t - 7), Schedule(block, t - 15), Schedule(block, t - 16))
  {
  }

  method MessageSchedule(chunk: seq<Byte>, start: nat) returns (w: array<Word>)
    requires start + 64 <= |chunk|
    ensures fresh(w) && w.Length == 64
    ensures forall t :: 0 <= t < 64 ==> w[t] == Schedule(chunk[start..start + 64], t)
  {
    hide CodeExpand, Expand, Schedule, WordAt, CodeWord;
    ghost var block := chunk[start..start + 64];
    w := new Word[64](_ => 0);
    var j := 0;
    for i := 0 to 16
      invariant j == 4 * i
      invariant forall t :: 0 <= t < i ==> w[t] == Schedule(block, t)
    {
      w[i] := CodeWord(chunk[start + j], chunk[start + j + 1], chunk[start + j + 2], chunk[start + j + 3]);
      WordsAgree(chunk, start + j);
      EarlyWord(chunk, start, i);
      j := j + 4;
    }
    for i := 16 to 64
      invariant forall t :: 0 <= t < i ==> w[t] == Schedule(block, t)
    {
      LateWord(block, i);
      ExpandAgrees(w[i - 2], w[i - 7], w[i - 15], w[i - 16]);
      w[i] := CodeExpand(w[i - 2], w[i - 7], w[i - 15], w[i - 16]);
    }
  }

  /** One round on the working variables, in place. */
  method RoundInPlace(v: array<Word>, k: Word, w: Word)
    requires v.Length == 8
    modifies v
    ensures FromWords(v[..]) == Round(old(FromWords(v[..])), k, w)
  {
    hide CodeT1, CodeT2, T1, T2, Add;
    T1Agrees(v[7], v[4], v[5], v[6], k, w);
    T2Agrees(v[0], v[1], v[2]);
    var t1 := CodeT1(v[7], v[4], v[5], v[6], k, w);
    var t2 := CodeT2(v[0], v[1], v[2]);
    v[7] := v[6];
    v[6] := v[5];
    v[5] := v[4];
    v[4] := Add(v[3], t1);
    v[3] := v[2];
    v[2] := v[1];
    v[1] := v[0];
    v[0] := Add(t1, t2);
  }

  /** `sha256Transform`: one 64-byte chunk of `chunk`, from `start`, folded into the hash value. */
  method Transform(chunk: seq<Byte>, start: nat, hashValue: array<Word>)
    requires start + 64 <= |chunk| && hashValue.Length == 8
    modifies hashValue
    ensures FromWords(hashValue[..]) == Compress(old(FromWords(hashValue[..])), chunk[start..start + 64])
  {
    hide Round, Schedule, Add;
    ghost var block := chunk[start..start + 64];
    ghost var h := FromWords(hashValue[..]);
    var w := MessageSchedule(chunk, start);
    var v := new Word[8](i requires 0 <= i < 8 reads hashValue => hashValue[i]);
    assert FromWords(v[..]) == h;
    for i := 0 to 64
      modifies v
      invariant FromWords(v[..]) == Rounds(h, block, i)
      invariant forall t :: 0 <= t < 64 ==> w[t] == Schedule(block, t)
    {
      TableIsStandard(i);
      RoundInPlace(v, TableK(i), w[i]);
    }
    AddInto(hashValue, v);
  }

  method AddInto(hashValue: array<Word>, v: array<Word>)
    requires hashValue.Length == 8 && v.Length == 8 && hashValue != v
    modifies hashValue
    ensures forall j :: 0 <= j < 8 ==> hashValue[j] == Add(old(hashValue[j]), v[j])
  {
    hide Add;
    for i := 0 to 8
      invariant forall j :: 0 <= j < 8 ==>
                  hashValue[j] == if j < i then Add(old(hashValue[j]), v[j]) else old(hashValue[j])
    {
      hashValue[i] := Add(hashValue[i], v[i]);
    }
  }

  // The chunks after the last whole one.

  method PushZeros(chunk: seq<Byte>, size: nat) returns (r: seq<Byte>)
    requires |chunk| <= size
    ensures r == chunk + Zeros(size - |chunk|)
  {
    r := chunk;
    for i := |chunk| to size
      invariant r == chunk + Zeros(i - |chunk|)
    {
      r := r + [0];
    }
  }

  method PushLength(chunk: seq<Byte>, srcLength: nat) returns (r: seq<Byte>)
    ensures r == chunk + BigEndian(srcLength, 8)
  {
    r := chunk;
    for i := 8 downto 0
      invariant r == chunk + BigEndian(ShiftBytes(srcLength, i), 8 - i)
    {
      r := r + [(ShiftBytes(srcLength, i) % 256) as Byte];
    }
  }

  /** The one or two padding chunks: with the whole chunks before them they are the standard's padded message. */
  method LastChunks(src: seq<Byte>) returns (chunks: seq<seq<Byte>>)
    requires |src| < 0x2000_0000_0000_0000
    ensures 1 <= |chunks| <= 2 && forall i :: 0 <= i < |chunks| ==> |chunks[i]| == 64
    ensures Pad(src) == src[..|src| / 64 * 64] + chunks[0] + if |chunks| == 1 then [] else chunks[1]
  {
    hide BigEndian, Pad, Zeros;
    var length := |src|;
    var chunksCount := length / 64;
    chunks := [];
    var lastChunk: seq<Byte> := [];
    if length % 64 < 56 {
      lastChunk := src[chunksCount * 64..] + [0x80];
      PadOne(src);
    } else {
      var secondLastChunk := src[chunksCount * 64..] + [0x80];
      secondLastChunk := PushZeros(secondLastChunk, 64);
      chunks := [secondLastChunk];
      PadTwo(src);
    }
    var tail := PushZeros(lastChunk, 56);
    tail := PushLength(tail, length * 8 % 0x1_0000_0000_0000_0000);
    assert length * 8 % 0x1_0000_0000_0000_0000 == 8 * length;
    chunks := chunks + [tail];
  }

  lemma PadOne(src: seq<Byte>)
    requires |src| % 64 < 56
    ensures var n := |src| / 64 * 64;
            Pad(src) == src[..n] + (src[n..] + [0x80] + Zeros(56 - |src[n..] + [0x80]|) + BigEndian(8 * |src|, 8))
  {
    hide BigEndian;
    var n := |src| / 64 * 64;
    assert src == src[..n] + src[n..];
    assert ZeroCount(|src|) == 56 - |src[n..] + [0x80]|;
    OneChunk(src[..n], src[n..], [0x80], Zeros(ZeroCount(|src|)), BigEndian(8 * |src|, 8));
  }

  lemma PadTwo(src: seq<Byte>)
    requires |src| % 64 >= 56
    ensures var n := |src| / 64 * 64;
            Pad(src) == src[..n] + (src[n..] + [0x80] + Zeros(64 - |src[n..] + [0x80]|)) +
                        ([] + Zeros(56) + BigEndian(8 * |src|, 8))
  {
    hide BigEndian;
    var n := |src| / 64 * 64;
    var z := 64 - |src[n..] + [0x80]|;
    assert src == src[..n] + src[n..];
    assert ZeroCount(|src|) == z + 56;
    assert Zeros(z + 56) == Zeros(z) + Zeros(56);
    TwoChunks(src[..n], src[n..], [0x80], Zeros(z), Zeros(56), BigEndian(8 * |src|, 8));
  }

  lemma OneChunk(whole: seq<Byte>, rest: seq<Byte>, mark: seq<Byte>, zeros: seq<Byte>, bits: seq<Byte>)
    ensures whole + rest + mark + zeros + bits == whole + (rest + mark + zeros + bits)
  {
  }

  lemma TwoChunks(whole: seq<Byte>, rest: seq<Byte>, mark: seq<Byte>, zeros: seq<Byte>, more: seq<Byte>,
                  bits: seq<Byte>)
    ensures whole + rest + mark + (zeros + more) + bits == whole + (rest + mark + zeros) + ([] + more + bits)
  {
    calc {
      whole + rest + mark + (zeros + more) + bits;
      whole + (rest + mark) + (zeros + more) + bits;
      whole + (rest + mark + zeros) + more + bits;
      whole + (rest + mark + zeros) + ([] + more + bits);
    }
  }

  // The digest.

  method DigestBytes(hashValue: array<Word>) returns (ret: seq<Byte>)
    requires hashValue.Length == 8
    ensures ret == Digest(FromWords(hashValue[..]))
  {
    ret := [];
    for i := 0 to 8
      invariant ret == DigestPrefix(hashValue[..], i)
    {
      var value := hashValue[i];
      var v3 := (value & 0xff) as Byte;
      value := value >> 8;
      var v2 := (value & 0xff) as Byte;
      value := value >> 8;
      var v1 := (value & 0xff) as Byte;
      value := value >> 8;
      ShiftsAgree(hashValue[i]);
      ret := ret + [(value & 0xff) as Byte, v1, v2, v3];
    }
    DigestIsPrefix(hashValue[..]);
  }

  lemma ShiftsAgree(w: Word)
    ensures (w >> 8) >> 8 == w >> 16 && ((w >> 8) >> 8) >> 8 == w >> 24
  {
  }

  ghost function DigestPrefix(words: seq<Word>, n: nat): seq<Byte>
    requires n <= |words|
  {
    if n == 0 then [] else DigestPrefix(words, n - 1) + WordBytes(words[n - 1])
  }

  lemma DigestIsPrefix(words: seq<Word>)
    requires |words| == 8
    ensures DigestPrefix(words, 8) == Digest(FromWords(words))
  {
    hide WordBytes;
    assert DigestPrefix(words, 1) == WordBytes(words[0]);
    assert DigestPrefix(words, 3) == DigestPrefix(words, 1) + WordBytes(words[1]) + WordBytes(words[2]);
    assert DigestPrefix(words, 5) == DigestPrefix(words, 3) + WordBytes(words[3]) + WordBytes(words[4]);
    assert DigestPrefix(words, 7) == DigestPrefix(words, 5) + WordBytes(words[5]) + WordBytes(words[6]);
  }

  // The hash.

  /** `sha256Init`. */
  method InitialHash() returns (hashValue: array<Word>)
    ensures fresh(hashValue) && hashValue.Length == 8 && FromWords(hashValue[..]) == Initial()
  {
    hide InitialWord, InitialValues, Initial, FromWords;
    hashValue := new Word[8];
    for i := 0 to 8
      invariant forall j :: 0 <= j < i ==> hashValue[j] == InitialWord(j)
    {
      InitialIsStandard(i);
      hashValue[i] := InitialValues()[i] as Word;
    }
    AllInitial(hashValue[..]);
  }

  lemma AllInitial(s: seq<Word>)
    requires |s| == 8 && forall j :: 0 <= j < 8 ==> s[j] == InitialWord(j)
    ensures FromWords(s) == Initial()
  {
    hide InitialWord;
  }

  lemma SameBlock(p: seq<Byte>, first: nat, src: seq<Byte>, count: nat, i: nat)
    requires i < count && 64 * count <= |src| && 64 * (first + count) <= |p|
    requires p[64 * first..64 * (first + count)] == src[..64 * count]
    ensures p[64 * (first + i)..64 * (first + i) + 64] == src[i * 64..i * 64 + 64]
  {
    SubSlice(p, 64 * first, 64 * (first + count), 64 * i, 64 * i + 64);
    SubSlice(src, 0, 64 * count, 64 * i, 64 * i + 64);
  }

  lemma SubSlice(s: seq<Byte>, lo: nat, hi: nat, a: nat, b: nat)
    requires a <= b && lo + b <= hi <= |s|
    ensures s[lo..hi][a..b] == s[lo + a..lo + b]
  {
    var l, r := s[lo..hi][a..b], s[lo + a..lo + b];
    assert |l| == |r| && forall k :: 0 <= k < |l| ==> l[k] == r[k];
  }

  /** Folds in the chunks of `src` up to `count`, which are the blocks of `p` from `first`. */
  method TransformChunks(src: seq<Byte>, count: nat, hashValue: array<Word>, ghost p: seq<Byte>, ghost first: nat)
    requires 64 * count <= |src| && hashValue.Length == 8
    requires 64 * (first + count) <= |p| && p[64 * first..64 * (first + count)] == src[..64 * count]
    requires FromWords(hashValue[..]) == HashBlocks(p, first)
    modifies hashValue
    ensures FromWords(hashValue[..]) == HashBlocks(p, first + count)
  {
    hide Compress, HashBlocks;
    for i := 0 to count
      invariant FromWords(hashValue[..]) == HashBlocks(p, first + i)
    {
      ghost var n := first + i;
      SameBlock(p, first, src, count, i);
      Transform(src, i * 64, hashValue);
      NextBlock(p, n);
    }
  }

  /** For every message whose length in bits fits 64 bits, the code computes the standard's hash. */
  method Hash(src: seq<Byte>) returns (ret: seq<Byte>)
    requires |src| < 0x2000_0000_0000_0000
    ensures ret == Sha256(src)
  {
    hide HashBlocks, Pad, Digest, Initial, K;
    var hashValue := InitialHash();
    var chunksToProcess := LastChunks(src);
    var chunksCount := |src| / 64;
    ghost var p := Pad(src);
    FirstBlock(p);
    TransformChunks(src, chunksCount, hashValue, p, 0);
    for i := 0 to |chunksToProcess|
      invariant FromWords(hashValue[..]) == HashBlocks(p, chunksCount + i)
    {
      TransformChunks(chunksToProcess[i], 1, hashValue, p, chunksCount + i);
    }
    ret := DigestBytes(hashValue);
  }

  lemma FirstBlock(p: seq<Byte>)
    ensures HashBlocks(p, 0) == Initial()
  {
  }

  lemma NextBlock(p: seq<Byte>, n: nat)
    requires 64 * n + 64 <= |p|
    ensures HashBlocks(p, n + 1) == Compress(HashBlocks(p, n), p[64 * n..64 * n + 64])
  {
  }

  // The keyed hash.

  method XorBytes(k0: seq<Byte>, pad: Byte) returns (r: seq<Byte>)
    requires |k0| == 64
    ensures r == XorEach(k0, pad)
  {
    r := [];
    for i := 0 to 64
      invariant |r| == i && forall j :: 0 <= j < i ==> r[j] == k0[j] ^ pad
    {
      r := r + [k0[i] ^ pad];
    }
  }

  lemma DigestLength(m: seq<Byte>)
    ensures |Sha256(m)| == 32
  {
    hide HashBlocks;
  }

  /** For every key length the code computes the standard's HMAC. */
  method HmacSha256(key: seq<Byte>, message: seq<Byte>) returns (mac: seq<Byte>)
    requires |key| < 0x2000_0000_0000_0000 && |message| + 64 < 0x2000_0000_0000_0000
    ensures mac == Hmac(key, message)
  {
    hide Sha256, Zeros, XorEach;
    var k0 := key;
    if |key| > 64 {
      k0 := Hash(key);
      DigestLength(key);
    }
    var block := PushZeros(k0, 64);
    assert block == KeyBlock(key) by {
      NoZeros(key);
    }
    var inner := XorBytes(block, 0x36);
    XorLength(block);
    inner := Hash(inner + message);
    DigestLength(XorEach(block, 0x36) + message);
    var outer := XorBytes(block, 0x5c);
    mac := Hash(outer + inner);
  }

  lemma NoZeros(s: seq<Byte>)
    ensures s + Zeros(0) == s
  {
  }

  lemma XorLength(s: seq<Byte>)
    ensures forall pad :: |XorEach(s, pad)| == |s|
  {
  }
}
