/** The numerals vprintd prints: src/lib/printk.c. */
module Digits {
  import opened Arith

  function Pow(base: nat, k: nat): nat {
    if k == 0 then 1 else base * Pow(base, k - 1)
  }

  /** How many times the first loop of vprintd multiplies its divisor. */
  function TopPow(u: nat, base: nat): nat
    requires base >= 2
    decreases u
  {
    if u < base then 0
    else
      QuotientSmaller(u, base);
      1 + TopPow(u / base, base)
  }

  lemma QuotientSmaller(u: nat, base: nat)
    requires 2 <= base <= u
    ensures 0 < u / base < u && u == u / base * base + u % base && u % base < base
  {
    var q, r := u / base, u % base;
    assert u == q * base + r;
    MulMono(2, base, q);
    assert q == 0 ==> q * base == 0;
  }

  /** digit_to_char, for a digit below the base */
  function DigitToChar(d: nat, base: nat): char
    requires d < base <= 16
  {
    if d < 10 then ('0' as int + d % base) as char else ('a' as int + (d % base - 10)) as char
  }

  function CharToDigit(c: char): nat {
    if '0' <= c <= '9' then c as int - '0' as int
    else if 'a' <= c <= 'f' then c as int - 'a' as int + 10
    else 0
  }

  lemma DigitRoundTrip(d: nat, base: nat)
    requires d < base <= 16
    ensures CharToDigit(DigitToChar(d, base)) == d && DigitToChar(d, base) == "0123456789abcdef"[d]
  {
    DivModUnique(d, base, 0, d);
  }

  lemma {:induction false} PowPositive(base: nat, k: nat)
    requires base > 0
    ensures Pow(base, k) > 0
  {
    if k > 0 {
      PowPositive(base, k - 1);
    }
  }

  lemma {:induction false} PowGrows(base: nat, j: nat, k: nat)
    requires base > 0 && j <= k
    ensures Pow(base, j) <= Pow(base, k)
    decreases k
  {
    if j < k {
      PowGrows(base, j, k - 1);
      MulMono(1, base, Pow(base, k - 1));
    }
  }

  lemma QuotientFits(u: nat, p: nat, base: nat)
    requires p > 0 && u < base * p
    ensures u / p < base && u % p < p && u == u / p * p + u % p
  {
    if u / p >= base {
      MulMono(base, u / p, p);
    }
  }

  lemma PowStep(base: nat, k: nat)
    requires base >= 2
    ensures Pow(base, k + 1) / base == Pow(base, k) && 1 / base == 0
  {
    DivModUnique(Pow(base, k + 1), base, Pow(base, k), 0);
    DivModUnique(1, base, 0, 1);
  }

  lemma PowUnfold(base: nat, k: nat)
    ensures Pow(base, 0) == 1 && Pow(base, k + 1) == base * Pow(base, k)
  {
  }

  lemma TopPowUnfold(u: nat, base: nat)
    requires base >= 2
    ensures TopPow(u, base) == if u < base then 0 else 1 + TopPow(u / base, base)
  {
  }

  /** The divisor the first loop ends with is the greatest power of the base up to `u`. */
  lemma {:induction false} TopPowBounds(u: nat, base: nat)
    requires base >= 2
    ensures u < Pow(base, TopPow(u, base) + 1)
    ensures u > 0 ==> Pow(base, TopPow(u, base)) <= u
    decreases u
  {
    hide Pow, TopPow;
    if u < base {
      TopPowUnfold(u, base);
      PowUnfold(base, 0);
    } else {
      QuotientSmaller(u, base);
      var q, t := u / base, TopPow(u / base, base);
      TopPowBounds(q, base);
      PowUnfold(base, t);
      PowUnfold(base, t + 1);
      MulMono(q + 1, Pow(base, t + 1), base);
      MulMono(Pow(base, t), q, base);
      TopPowUnfold(u, base);
    }
  }

  /** The digit of weight `p`, as the second loop of vprintd finds it. */
  function Digit(u: nat, p: nat, base: nat): (d: nat)
    requires base > 0
    ensures d < base
  {
    if p == 0 || u / p >= base then 0 else u / p
  }

  function Below(u: nat, p: nat): nat {
    if p == 0 then 0 else u % p
  }

  /** The k + 1 digits of `u`, the most significant first. */
  function DigitsOf(u: nat, k: nat, base: nat): string
    requires 2 <= base <= 16
  {
    [DigitToChar(Digit(u, Pow(base, k), base), base)]
    + if k == 0 then [] else DigitsOf(Below(u, Pow(base, k)), k - 1, base)
  }

  function Value(s: string, base: nat): nat {
    if s == [] then 0 else CharToDigit(s[0]) * Pow(base, |s| - 1) + Value(s[1..], base)
  }

  /** The digits decode back to the number. */
  lemma {:induction false} DigitsDecode(u: nat, k: nat, base: nat)
    requires 2 <= base <= 16 && u < Pow(base, k + 1)
    ensures |DigitsOf(u, k, base)| == k + 1 && Value(DigitsOf(u, k, base), base) == u
  {
    hide Pow, DigitToChar, CharToDigit, Digit, Below;
    var p := Pow(base, k);
    DigitSplits(u, k, base);
    var q, r := Digit(u, p, base), Below(u, p);
    DigitRoundTrip(q, base);
    PowUnfold(base, 0);
    var s := DigitsOf(u, k, base);
    assert s[0] == DigitToChar(q, base);
    if k > 0 {
      DigitsDecode(r, k - 1, base);
      assert s[1..] == DigitsOf(r, k - 1, base);
    } else {
      assert s[1..] == [] && Value(s[1..], base) == 0;
    }
  }

  lemma DigitSplits(u: nat, k: nat, base: nat)
    requires base >= 2 && u < Pow(base, k + 1)
    ensures var p := Pow(base, k);
            p > 0 && Digit(u, p, base) == u / p && Below(u, p) == u % p < p
            && u == Digit(u, p, base) * p + Below(u, p)
  {
    hide Pow;
    PowPositive(base, k);
    PowUnfold(base, k);
    QuotientFits(u, Pow(base, k), base);
  }

  function Numeral(u: nat, base: nat): string
    requires 2 <= base <= 16
  {
    DigitsOf(u, TopPow(u, base), base)
  }

  /** A numeral stands for its number and has no leading zero. */
  lemma NumeralDecodes(u: nat, base: nat)
    requires 2 <= base <= 16
    ensures Value(Numeral(u, base), base) == u
    ensures |Numeral(u, base)| > 0 && (|Numeral(u, base)| > 1 ==> CharToDigit(Numeral(u, base)[0]) > 0)
  {
    hide Pow, TopPow, DigitToChar, CharToDigit, Digit, Below, Value;
    var k := TopPow(u, base);
    TopPowBounds(u, base);
    DigitsDecode(u, k, base);
    DigitSplits(u, k, base);
    DigitRoundTrip(Digit(u, Pow(base, k), base), base);
    TopPowUnfold(u, base);
    assert Digit(u, Pow(base, k), base) == 0 ==> Digit(u, Pow(base, k), base) * Pow(base, k) == 0;
  }

  /** A number below base^n has at most n digits. */
  lemma NumeralLength(u: nat, base: nat, n: nat)
    requires 2 <= base <= 16 && n > 0 && u < Pow(base, n)
    ensures |Numeral(u, base)| <= n
  {
    hide Pow, TopPow, DigitsOf;
    var k := TopPow(u, base);
    TopPowBounds(u, base);
    DigitsDecode(u, k, base);
    if k >= n {
      PowGrows(base, n, k);
      TopPowUnfold(u, base);
    }
  }

  lemma DigitsUnfold(u: nat, k: nat, base: nat)
    requires 2 <= base <= 16
    ensures DigitsOf(u, k, base) ==
            [DigitToChar(Digit(u, Pow(base, k), base), base)]
            + if k == 0 then [] else DigitsOf(Below(u, Pow(base, k)), k - 1, base)
  {
  }
}
