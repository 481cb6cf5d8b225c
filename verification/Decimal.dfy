/** Decimal numerals: how numbers are written and read back. */
module Decimal {

  predicate IsDigit(c: char) {
    '0' <= c <= '9'
  }

  predicate AllDigits(s: string) {
    forall i | 0 <= i < |s| :: IsDigit(s[i])
  }

  function DigitChar(d: nat): (c: char)
    requires d < 10
    ensures IsDigit(c) && DigitValue(c) == d
  {
    "0123456789"[d]
  }

  function DigitValue(c: char): (d: nat)
    requires IsDigit(c)
    ensures d < 10
  {
    (c as int) - ('0' as int)
  }

  /** The shortest numeral of n. */
  function Numeral(n: nat): (s: string)
    ensures s != [] && AllDigits(s) && (|s| > 1 ==> s[0] != '0')
    decreases n
  {
    if n < 10 then [DigitChar(n)] else Numeral(n / 10) + [DigitChar(n % 10)]
  }

  /** The number a string of digits denotes. */
  function NumeralValue(s: string): nat
    requires AllDigits(s)
    decreases |s|
  {
    if s == [] then 0 else 10 * NumeralValue(s[..|s| - 1]) + DigitValue(s[|s| - 1])
  }

  lemma {:induction false} NumeralRoundTrip(n: nat)
    ensures NumeralValue(Numeral(n)) == n
    decreases n
  {
    if n < 10 {
      assert Numeral(n)[..0] == [];
    } else {
      var front := Numeral(n / 10);
      assert Numeral(n)[..|front|] == front;
      NumeralRoundTrip(n / 10);
    }
  }

  function Power10(n: nat): nat {
    if n == 0 then 1 else 10 * Power10(n - 1)
  }

  lemma NumeralEnds(s: string)
    requires AllDigits(s)
    ensures NumeralValue(s) == if s == [] then 0 else 10 * NumeralValue(s[..|s| - 1]) + DigitValue(s[|s| - 1])
  {
  }

  lemma Shift(x: int, p: int, y: int)
    ensures 10 * (x * p + y) == x * (10 * p) + 10 * y
  {
  }

  /** Numerals are read in base ten, from left to right. */
  lemma {:induction false} NumeralPositions(a: string, b: string)
    requires AllDigits(a) && AllDigits(b)
    ensures AllDigits(a + b) && NumeralValue(a + b) == NumeralValue(a) * Power10(|b|) + NumeralValue(b)
    decreases |b|
  {
    NumeralEnds(b);
    hide NumeralValue;
    if b == [] {
      assert a + b == a;
    } else {
      var n := |b| - 1;
      assert (a + b)[..|a| + n] == a + b[..n];
      NumeralPositions(a, b[..n]);
      NumeralEnds(a + b);
      Shift(NumeralValue(a), Power10(n), NumeralValue(b[..n]));
    }
  }

  /** The value of a digit is its place among the ten. */
  lemma DigitPlace(d: nat)
    requires d < 10
    ensures AllDigits(["0123456789"[d]]) && NumeralValue(["0123456789"[d]]) == d
  {
    var c := DigitChar(d);
    assert [c][..0] == [];
  }
}
