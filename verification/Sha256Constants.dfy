/**
 Where the constants of SHA-256 come from: sections 4.2.2 and 5.3.3 of FIPS 180-4 take them from the fractional
 parts of the cube roots and square roots of the first primes.
 */
module Sha256Constants {

  // Roots.

  predicate IsCubeRoot(c: nat, n: nat) {
    c * c * c <= n < (c + 1) * (c + 1) * (c + 1)
  }

  predicate IsSquareRoot(c: nat, n: nat) {
    c * c <= n < (c + 1) * (c + 1)
  }

  /** The cube root, rounded down. */
  ghost function CubeRoot(n: nat): (c: nat)
    ensures IsCubeRoot(c, n)
  {
    if n == 0 then 0 else
      var c := CubeRoot(n - 1);
      CubeGrows(c + 1);
      if (c + 1) * (c + 1) * (c + 1) <= n then c + 1 else c
  }

  lemma CubeGrows(c: nat)
    ensures c * c * c < (c + 1) * (c + 1) * (c + 1)
  {
    assert (c + 1) * (c + 1) == c * c + 2 * c + 1;
    assert (c * c + 2 * c + 1) * (c + 1) == c * c * c + 3 * (c * c) + 3 * c + 1;
  }

  /** The square root, rounded down. */
  ghost function SquareRoot(n: nat): (c: nat)
    ensures IsSquareRoot(c, n)
  {
    if n == 0 then 0 else
      var c := SquareRoot(n - 1);
      if (c + 1) * (c + 1) <= n then c + 1 else c
  }

  lemma CubesAscend(a: nat, b: nat)
    requires a <= b
    ensures a * a <= b * b && a * a * a <= b * b * b
  {
    assert a * a <= a * b <= b * b;
    assert a * a * a <= b * b * a <= b * b * b;
  }

  lemma CubeRootUnique(c: nat, n: nat)
    requires IsCubeRoot(c, n)
    ensures CubeRoot(n) == c
  {
    var d := CubeRoot(n);
    if c < d {
      CubesAscend(c + 1, d);
    } else if d < c {
      CubesAscend(d + 1, c);
    }
  }

  lemma SquareRootUnique(c: nat, n: nat)
    requires IsSquareRoot(c, n)
    ensures SquareRoot(n) == c
  {
    var d := SquareRoot(n);
    if c < d {
      CubesAscend(c + 1, d);
    } else if d < c {
      CubesAscend(d + 1, c);
    }
  }

  // The first 64 primes.

  ghost predicate Prime(n: nat) {
    n >= 2 && forall d :: 2 <= d < n ==> n % d != 0
  }

  function PrimeRow(i: nat): (row: seq<nat>)
    ensures |row| == 8
  {
    match i
    case 0 => [2, 3, 5, 7, 11, 13, 17, 19]
    case 1 => [23, 29, 31, 37, 41, 43, 47, 53]
    case 2 => [59, 61, 67, 71, 73, 79, 83, 89]
    case 3 => [97, 101, 103, 107, 109, 113, 127, 131]
    case 4 => [137, 139, 149, 151, 157, 163, 167, 173]
    case 5 => [179, 181, 191, 193, 197, 199, 211, 223]
    case 6 => [227, 229, 233, 239, 241, 251, 257, 263]
    case _ => [269, 271, 277, 281, 283, 293, 307, 311]
  }

  function NthPrime(t: nat): nat
    requires t < 64
  {
    PrimeRow(t / 8)[t % 8]
  }

  /** Trial division, enough for numbers below 361. */
  predicate NoSmallDivisor(n: nat) {
    && n >= 2 && (n == 2 || n % 2 != 0) && (n == 3 || n % 3 != 0) && (n == 5 || n % 5 != 0) && (n == 7 || n % 7 != 0)
    && (n == 11 || n % 11 != 0) && (n == 13 || n % 13 != 0) && (n == 17 || n % 17 != 0)
  }

  predicate NoneBetween(a: nat, b: nat)
    decreases b - a
  {
    a >= b || (!NoSmallDivisor(a) && NoneBetween(a + 1, b))
  }

  /** `p` is the first number from `a` on that passes. */
  predicate Gap(a: nat, p: nat) {
    a <= p && NoneBetween(a, p) && NoSmallDivisor(p)
  }

  ghost predicate GapRow(a: nat, row: seq<nat>) {
    |row| == 8 && Gap(a, row[0]) && forall j :: 0 < j < 8 ==> row[j - 1] < row[j] && Gap(row[j - 1] + 1, row[j])
  }

  lemma FirstRow()
    ensures GapRow(2, PrimeRow(0))
  {
    assert Gap(2, 2) && Gap(3, 3) && Gap(4, 5) && Gap(6, 7);
    assert Gap(8, 11) && Gap(12, 13) && Gap(14, 17) && Gap(18, 19);
    hide Gap;
  }

  lemma SecondRow()
    ensures GapRow(20, PrimeRow(1))
  {
    assert Gap(20, 23) && Gap(24, 29) && Gap(30, 31) && Gap(32, 37);
    assert Gap(38, 41) && Gap(42, 43) && Gap(44, 47) && Gap(48, 53);
    hide Gap;
  }

  lemma ThirdRow()
    ensures GapRow(54, PrimeRow(2))
  {
    assert Gap(54, 59) && Gap(60, 61) && Gap(62, 67) && Gap(68, 71);
    assert Gap(72, 73) && Gap(74, 79) && Gap(80, 83) && Gap(84, 89);
    hide Gap;
  }

  lemma FourthRow()
    ensures GapRow(90, PrimeRow(3))
  {
    hide Gap;
    FourthRowBegins();
    FourthRowEnds();
  }

  lemma FourthRowBegins()
    ensures Gap(90, 97) && Gap(98, 101) && Gap(102, 103) && Gap(104, 107)
  {
  }

  lemma FourthRowEnds()
    ensures Gap(108, 109) && Gap(110, 113) && Gap(114, 127) && Gap(128, 131)
  {
  }

  lemma FifthRow()
    ensures GapRow(132, PrimeRow(4))
  {
    hide Gap;
    FifthRowBegins();
    FifthRowEnds();
  }

  lemma FifthRowBegins()
    ensures Gap(132, 137) && Gap(138, 139) && Gap(140, 149) && Gap(150, 151)
  {
  }

  lemma FifthRowEnds()
    ensures Gap(152, 157) && Gap(158, 163) && Gap(164, 167) && Gap(168, 173)
  {
  }

  lemma SixthRow()
    ensures GapRow(174, PrimeRow(5))
  {
    hide Gap;
    SixthRowBegins();
    SixthRowEnds();
  }

  lemma SixthRowBegins()
    ensures Gap(174, 179) && Gap(180, 181) && Gap(182, 191) && Gap(192, 193)
  {
  }

  lemma SixthRowEnds()
    ensures Gap(194, 197) && Gap(198, 199) && Gap(200, 211) && Gap(212, 223)
  {
  }

  lemma SeventhRow()
    ensures GapRow(224, PrimeRow(6))
  {
    hide Gap;
    SeventhRowBegins();
    SeventhRowEnds();
  }

  lemma SeventhRowBegins()
    ensures Gap(224, 227) && Gap(228, 229) && Gap(230, 233) && Gap(234, 239)
  {
  }

  lemma SeventhRowEnds()
    ensures Gap(240, 241) && Gap(242, 251) && Gap(252, 257) && Gap(258, 263)
  {
  }

  lemma LastRow()
    ensures GapRow(264, PrimeRow(7))
  {
    hide Gap;
    LastRowBegins();
    LastRowEnds();
  }

  lemma LastRowBegins()
    ensures Gap(264, 269) && Gap(270, 271) && Gap(272, 277) && Gap(278, 281)
  {
  }

  lemma LastRowEnds()
    ensures Gap(282, 283) && Gap(284, 293) && Gap(294, 307) && Gap(308, 311)
  {
  }

  lemma {:induction false} BetweenFails(a: nat, b: nat, n: nat)
    requires NoneBetween(a, b) && a <= n < b
    ensures !NoSmallDivisor(n)
    decreases b - a
  {
    if a < n {
      BetweenFails(a + 1, b, n);
    }
  }

  lemma {:induction false} InGapRow(a: nat, row: seq<nat>, n: nat, j: nat)
    requires GapRow(a, row) && j < 8 && a <= n <= row[j]
    ensures NoSmallDivisor(n) ==> n in row
    decreases j
  {
    hide NoSmallDivisor;
    if n < row[j] {
      if j > 0 && n <= row[j - 1] {
        InGapRow(a, row, n, j - 1);
      } else {
        BetweenFails(if j == 0 then a else row[j - 1] + 1, row[j], n);
      }
    }
  }

  // Trial division decides.

  predicate IsTrial(q: nat) {
    q == 2 || q == 3 || q == 5 || q == 7 || q == 11 || q == 13 || q == 17
  }

  lemma Divided(n: nat, q: nat)
    requires IsTrial(q) && n % q == 0 && q < n
    ensures !NoSmallDivisor(n)
  {
  }

  lemma NoRemainder(n: nat, q: nat, j: nat)
    requires q > 0 && n == q * j
    ensures n % q == 0
  {
    var i, r := n / q, n % q;
    assert n == q * i + r;
    Distribute(q, j, i);
    Less(q, j - i, r);
  }

  lemma Distribute(q: nat, j: int, i: int)
    ensures q * j - q * i == q * (j - i)
  {
  }

  lemma Less(q: nat, d: int, r: nat)
    requires q * d == r && r < q
    ensures r == 0
  {
    assert d >= 1 ==> q * d >= q;
  }

  lemma Regrouped(q: nat, m: nat, k: nat)
    ensures q * m * k == q * (m * k)
  {
  }

  lemma SmallFactor(n: nat, f: nat, k: nat)
    requires 2 <= f <= 18 && f < n && n == f * k
    ensures !NoSmallDivisor(n)
  {
    hide NoSmallDivisor;
    var q := if f % 2 == 0 then 2 else if f % 3 == 0 then 3 else if f % 5 == 0 then 5 else f;
    assert IsTrial(q);
    var m := f / q;
    assert f == q * m;
    Regrouped(q, m, k);
    NoRemainder(n, q, m * k);
    Divided(n, q);
  }

  /** A divisor or its cofactor is at most 18. */
  lemma SmallerFactor(n: nat, d: nat, e: nat)
    requires 2 <= d < n < 361 && n == d * e
    ensures !NoSmallDivisor(n)
  {
    hide NoSmallDivisor;
    if d <= 18 {
      SmallFactor(n, d, e);
    } else {
      Cofactor(n, d, e);
      SmallFactor(n, e, d);
    }
  }

  lemma Cofactor(n: nat, d: nat, e: nat)
    requires 19 <= d < n < 361 && n == d * e
    ensures 2 <= e <= 18
  {
    assert e >= 19 ==> d * e >= 19 * 19;
  }

  lemma TrialDecides(n: nat)
    requires n < 361
    ensures NoSmallDivisor(n) <==> Prime(n)
  {
    hide NoSmallDivisor;
    if NoSmallDivisor(n) {
      AtLeastTwo(n);
      forall d | 2 <= d < n
        ensures n % d != 0
      {
        if n % d == 0 {
          SmallerFactor(n, d, n / d);
        }
      }
    }
    if Prime(n) {
      PrimePasses(n);
    }
  }

  lemma AtLeastTwo(n: nat)
    requires NoSmallDivisor(n)
    ensures n >= 2
  {
  }

  lemma PrimePasses(n: nat)
    requires Prime(n)
    ensures NoSmallDivisor(n)
  {
  }

  // The table lists exactly the primes up to 311, in ascending order.

  lemma RowRight(i: nat)
    requires i < 8
    ensures GapRow(if i == 0 then 2 else PrimeRow(i - 1)[7] + 1, PrimeRow(i))
  {
    hide Gap;
    if i == 0 {
      FirstRow();
    } else if i == 1 {
      SecondRow();
    } else if i == 2 {
      ThirdRow();
    } else if i == 3 {
      FourthRow();
    } else if i == 4 {
      FifthRow();
    } else if i == 5 {
      SixthRow();
    } else if i == 6 {
      SeventhRow();
    } else {
      LastRow();
    }
  }

  lemma {:induction false} ListedUpTo(n: nat, i: nat)
    requires i < 8 && 2 <= n <= PrimeRow(i)[7]
    ensures NoSmallDivisor(n) ==> exists t: nat :: t < 64 && NthPrime(t) == n
    decreases i
  {
    hide NoSmallDivisor, PrimeRow;
    RowRight(i);
    if i > 0 && n <= PrimeRow(i - 1)[7] {
      ListedUpTo(n, i - 1);
    } else {
      InGapRow(if i == 0 then 2 else PrimeRow(i - 1)[7] + 1, PrimeRow(i), n, 7);
      if n in PrimeRow(i) {
        var j: nat :| j < 8 && PrimeRow(i)[j] == n;
        assert (8 * i + j) / 8 == i && (8 * i + j) % 8 == j;
        assert NthPrime(8 * i + j) == n;
      }
    }
  }

  lemma NthIsPrime(t: nat)
    requires t < 64
    ensures Prime(NthPrime(t)) && NthPrime(t) <= 311
  {
    hide NoSmallDivisor, PrimeRow;
    RowRight(t / 8);
    RowsEnd(t / 8, t % 8);
    assert t % 8 > 0 ==> Gap(PrimeRow(t / 8)[t % 8 - 1] + 1, PrimeRow(t / 8)[t % 8]);
    TrialDecides(NthPrime(t));
  }

  lemma RowsEnd(i: nat, j: nat)
    requires i < 8 && j < 8
    ensures PrimeRow(i)[j] <= 311 && PrimeRow(7)[7] == 311
  {
  }

  /** `NthPrime` lists the primes up to 311 and nothing else. */
  lemma FirstPrimes(n: nat)
    requires n <= 311
    ensures Prime(n) <==> exists t: nat :: t < 64 && NthPrime(t) == n
  {
    hide NoSmallDivisor, PrimeRow, NthPrime, Prime;
    TrialDecides(n);
    RowsEnd(7, 7);
    if n >= 2 {
      ListedUpTo(n, 7);
    } else {
      NotPrime(n);
    }
    forall t: nat | t < 64 && NthPrime(t) == n
      ensures Prime(n)
    {
      NthIsPrime(t);
    }
  }

  lemma NotPrime(n: nat)
    requires n < 2
    ensures !Prime(n)
  {
  }

  /** In ascending order. */
  lemma PrimesAscend(t: nat)
    requires t < 63
    ensures NthPrime(t) < NthPrime(t + 1)
  {
    hide PrimeRow, NoneBetween, NoSmallDivisor;
    RowRight(t / 8);
    if t % 8 == 7 {
      RowRight(t / 8 + 1);
      assert (t + 1) / 8 == t / 8 + 1 && (t + 1) % 8 == 0;
    } else {
      assert (t + 1) / 8 == t / 8 && (t + 1) % 8 == t % 8 + 1;
    }
  }
}
