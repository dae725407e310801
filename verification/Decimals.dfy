/** Decimal numerals: what `std::to_string` and a decimal `ostream` write, `std::stol` and `strtoull` read. */
module Decimals {

  function Digits(n: nat): (s: string)
    ensures |s| > 0
    ensures forall i :: 0 <= i < |s| ==> '0' <= s[i] <= '9'
  {
    (if n < 10 then [] else Digits(n / 10)) + ['0' + (n % 10) as char]
  }

  function Value(s: string): int {
    if s == [] then 0 else 10 * Value(s[..|s| - 1]) + (s[|s| - 1] as int - '0' as int)
  }

  function ToString(n: int): string {
    if n < 0 then "-" + Digits(-n) else Digits(n)
  }

  function Parse(s: string): int {
    if s != [] && s[0] == '-' then -Value(s[1..]) else Value(s)
  }

  lemma {:induction false} DigitsRoundTrip(n: nat)
    ensures Value(Digits(n)) == n
  {
    var s := Digits(n);
    assert s[|s| - 1] as int - '0' as int == n % 10;
    if n < 10 {
      assert s[..|s| - 1] == [];
    } else {
      assert s[..|s| - 1] == Digits(n / 10);
      DigitsRoundTrip(n / 10);
    }
  }

  /** Reading a printed number gives it back, so two numbers never print alike. */
  lemma RoundTrip(n: int)
    ensures Parse(ToString(n)) == n
  {
    if n < 0 {
      DigitsRoundTrip(-n);
      assert ToString(n)[1..] == Digits(-n);
    } else {
      DigitsRoundTrip(n);
    }
  }

  const DIGITS := "0123456789"

  /** The last digit is the least significant one. */
  lemma DigitsAppend(n: nat, d: nat)
    requires d < 10
    ensures Digits(d) == [DIGITS[d]] && (n > 0 ==> Digits(10 * n + d) == Digits(n) + [DIGITS[d]])
  {
    assert DIGITS[d] == '0' + d as char;
    assert (10 * n + d) / 10 == n && (10 * n + d) % 10 == d;
  }

  /** Character by character, for strings of equal length. */
  predicate Before(s: string, t: string)
    requires |s| == |t|
  {
    s != "" && (s[0] < t[0] || (s[0] == t[0] && Before(s[1..], t[1..])))
  }

  lemma {:induction false} BeforeAppend(s: string, t: string, c: char, d: char)
    requires |s| == |t|
    ensures Before(s + [c], t + [d]) <==> Before(s, t) || (s == t && c < d)
  {
    if s == "" {
      assert s + [c] == [c] && t + [d] == [d];
    } else {
      assert (s + [c])[1..] == s[1..] + [c] && (t + [d])[1..] == t[1..] + [d];
      BeforeAppend(s[1..], t[1..], c, d);
      assert s == [s[0]] + s[1..] && t == [t[0]] + t[1..];
    }
  }

  /** Numerals of equal length compare as their numbers do. */
  lemma {:induction false} DigitsCompare(m: nat, n: nat)
    requires |Digits(m)| == |Digits(n)|
    ensures Before(Digits(m), Digits(n)) <==> m < n
  {
    var c, d := '0' + (m % 10) as char, '0' + (n % 10) as char;
    if m < 10 || n < 10 {
      assert m < 10 && n < 10;
      BeforeAppend("", "", c, d);
      assert "" + [c] == [c] && "" + [d] == [d];
    } else {
      DigitsCompare(m / 10, n / 10);
      BeforeAppend(Digits(m / 10), Digits(n / 10), c, d);
      DigitsRoundTrip(m / 10);
      DigitsRoundTrip(n / 10);
      assert Digits(m / 10) == Digits(n / 10) <==> m / 10 == n / 10;
    }
  }
}
