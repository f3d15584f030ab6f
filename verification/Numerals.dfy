/** Positional numerals: the text of a number in a base, and the number a text stands for. */
module Numerals {
  import opened Integers

  /** The digits 0-9 and then the letters of one case. */
  function DigitChar(d: nat, upperCase: bool): char
    requires d < 36
  {
    if d > 9 then (if upperCase then 'A' else 'a') + (d - 10) as char else '0' + d as char
  }

  predicate IsDecimalDigit(c: char) {
    '0' <= c <= '9'
  }

  predicate IsLetter(c: char) {
    'A' <= c <= 'Z' || 'a' <= c <= 'z'
  }

  /** The value of a digit or letter of either case; 36 for anything else, which no base accepts. */
  function DigitValue(c: char): (v: nat)
    ensures v <= 36
  {
    if '0' <= c <= '9' then c as int - '0' as int
    else if 'a' <= c <= 'z' then c as int - 'a' as int + 10
    else if 'A' <= c <= 'Z' then c as int - 'A' as int + 10
    else 36
  }

  predicate AllDigits(s: string, base: nat) {
    forall i | 0 <= i < |s| :: DigitValue(s[i]) < base
  }

  /** The number written by a string of digits, most significant first. */
  function Value(s: string, base: nat): nat {
    if s == [] then 0 else Value(s[..|s| - 1], base) * base + DigitValue(s[|s| - 1])
  }

  /** The digits of a positive number, without leading zeros; nothing for zero. */
  function Digits(n: nat, base: nat, upperCase: bool): string
    requires 2 <= base <= 36
  {
    if n == 0 then [] else Digits(n / base, base, upperCase) + [DigitChar(n % base, upperCase)]
  }

  /** The numeral of a number: its digits, and "0" for zero. */
  function Numeral(n: nat, base: nat, upperCase: bool): string
    requires 2 <= base <= 36
  {
    if n == 0 then "0" else Digits(n, base, upperCase)
  }

  /** The decimal text of a signed number. */
  function SignedDecimal(n: int): string {
    if n < 0 then "-" + Numeral(-n, 10, false) else Numeral(n, 10, false)
  }

  function Pow(base: nat, n: nat): nat {
    if n == 0 then 1 else base * Pow(base, n - 1)
  }

  lemma DigitRoundTrip(d: nat, upperCase: bool)
    requires d < 36
    ensures DigitValue(DigitChar(d, upperCase)) == d
    ensures d <= 9 ==> IsDecimalDigit(DigitChar(d, upperCase))
    ensures d > 9 ==> IsLetter(DigitChar(d, upperCase))
  {
  }

  /** The digits of a number are digits of the base, stand for the number, and do not start with zero. */
  lemma {:induction false} DigitsRoundTrip(n: nat, base: nat, upperCase: bool)
    requires 2 <= base <= 36
    ensures var s := Digits(n, base, upperCase);
            AllDigits(s, base) && Value(s, base) == n && (n > 0 ==> |s| > 0 && DigitValue(s[0]) != 0)
    decreases n
  {
    if n != 0 {
      var rest := Digits(n / base, base, upperCase);
      Shrinks(n, base);
      DigitsRoundTrip(n / base, base, upperCase);
      DigitRoundTrip(n % base, upperCase);
      var s := Digits(n, base, upperCase);
      assert s[..|s| - 1] == rest;
      assert n / base == 0 ==> n % base == n;
    }
  }

  lemma Shrinks(n: nat, base: nat)
    requires base >= 2 && n > 0
    ensures 0 <= n / base < n && n == n / base * base + n % base
  {
    var q, r := n / base, n % base;
    assert n == base * q + r;
    ProductMonotone(2, base, q);
  }

  /** A numeral reads back as its number. */
  lemma NumeralRoundTrip(n: nat, base: nat, upperCase: bool)
    requires 2 <= base <= 36
    ensures var s := Numeral(n, base, upperCase);
            |s| >= 1 && AllDigits(s, base) && Value(s, base) == n && (s[0] == '0' <==> n == 0)
  {
    DigitsRoundTrip(n, base, upperCase);
    if n == 0 {
      assert "0"[..0] == [];
    }
  }

  /** The characters that a digit or letter of one case may be. */
  predicate OfCase(c: char, upperCase: bool) {
    '0' <= c <= '9' || if upperCase then 'A' <= c <= 'Z' else 'a' <= c <= 'z'
  }

  lemma DigitOfCase(d: nat, upperCase: bool)
    requires d < 36
    ensures OfCase(DigitChar(d, upperCase), upperCase)
    ensures forall c: char | OfCase(c, upperCase) :: DigitValue(c) == d ==> c == DigitChar(d, upperCase)
  {
  }

  lemma {:induction false} DigitsOfCase(n: nat, base: nat, upperCase: bool)
    requires 2 <= base <= 36
    ensures forall c | c in Digits(n, base, upperCase) :: OfCase(c, upperCase)
    decreases n
  {
    if n != 0 {
      Shrinks(n, base);
      DigitsOfCase(n / base, base, upperCase);
      DigitOfCase(n % base, upperCase);
    }
  }

  /** Digits of one case, without a leading zero: no other text than Digits has their value. */
  lemma {:induction false} DigitsAreUnique(s: string, base: nat, upperCase: bool)
    requires 2 <= base <= 36 && AllDigits(s, base) && forall c | c in s :: OfCase(c, upperCase)
    requires s != "" ==> s[0] != '0'
    ensures s == Digits(Value(s, base), base, upperCase)
  {
    if s != "" {
      var rest, c := s[..|s| - 1], s[|s| - 1];
      DigitsAreUnique(rest, base, upperCase);
      DigitOfCase(DigitValue(c), upperCase);
      assert s == rest + [c] && Value(s, base) == Value(rest, base) * base + DigitValue(c);
      assert rest == "" ==> DigitValue(c) > 0 && Value(rest, base) == 0;
      assert rest != "" ==> Value(rest, base) > 0 by {
        assert Value(rest, base) == 0 ==> Digits(Value(rest, base), base, upperCase) == "";
      }
      hide Value, AllDigits, OfCase;
      DigitAppended(Value(rest, base), DigitValue(c), base, upperCase);
    }
  }

  lemma DigitAppended(n: nat, d: nat, base: nat, upperCase: bool)
    requires 2 <= base <= 36 && d < base && (n > 0 || d > 0)
    ensures Digits(n * base + d, base, upperCase) == Digits(n, base, upperCase) + [DigitChar(d, upperCase)]
  {
    LastDigit(n, d, base);
    ProductMonotone(0, n, base);
    if n > 0 {
      ProductMonotone(1, n, base);
    }
    hide DigitChar;
  }

  lemma LastDigit(n: nat, d: nat, base: nat)
    requires base >= 1 && d < base
    ensures (n * base + d) / base == n && (n * base + d) % base == d
  {
    var m := n * base + d;
    var q, r := m / base, m % base;
    assert m == q * base + r;
    if q < n {
      ProductMonotone(q + 1, n, base);
    } else if q > n {
      ProductMonotone(n + 1, q, base);
    }
  }

  lemma NumeralIs(n: nat, base: nat, upperCase: bool)
    requires 2 <= base <= 36
    ensures Numeral(n, base, upperCase) == if n == 0 then "0" else Digits(n, base, upperCase)
    ensures Digits(0, base, upperCase) == "" && Value("0", base) == 0 && OfCase('0', upperCase)
  {
    assert "0"[..0] == "";
  }

  /** No other text of digits of that case, without a leading zero, has the value. */
  lemma NumeralIsUnique(s: string, base: nat, upperCase: bool)
    requires 2 <= base <= 36 && s != "" && AllDigits(s, base) && forall c | c in s :: OfCase(c, upperCase)
    requires s[0] == '0' ==> |s| == 1
    ensures s == Numeral(Value(s, base), base, upperCase)
  {
    hide Value, Digits, Numeral, AllDigits, OfCase;
    NumeralIs(Value(s, base), base, upperCase);
    if s[0] == '0' {
      assert s == "0";
    } else {
      DigitsAreUnique(s, base, upperCase);
    }
  }

  lemma NumeralOfCase(n: nat, base: nat, upperCase: bool)
    requires 2 <= base <= 36
    ensures forall c | c in Numeral(n, base, upperCase) :: OfCase(c, upperCase)
    ensures Numeral(n, base, upperCase) != ""
    ensures Numeral(n, base, upperCase)[0] == '0' ==> |Numeral(n, base, upperCase)| == 1
  {
    hide Value, Digits, Numeral, AllDigits, OfCase;
    NumeralIs(n, base, upperCase);
    NumeralRoundTrip(n, base, upperCase);
    DigitsOfCase(n, base, upperCase);
  }

  /** What the numeral of a number is: the one text of digits of that case with its value and no leading zero. */
  lemma NumeralIff(s: string, n: nat, base: nat, upperCase: bool)
    requires 2 <= base <= 36
    ensures s == Numeral(n, base, upperCase)
            <==> s != ""
                 && (forall c | c in s :: '0' <= c <= '9' || if upperCase then 'A' <= c <= 'Z' else 'a' <= c <= 'z')
                 && AllDigits(s, base) && Value(s, base) == n && (s[0] == '0' ==> |s| == 1)
  {
    hide Value, Digits, Numeral, AllDigits;
    if s == Numeral(n, base, upperCase) {
      NumeralRoundTrip(n, base, upperCase);
      NumeralOfCase(n, base, upperCase);
    } else if s != "" && AllDigits(s, base) && (forall c | c in s :: OfCase(c, upperCase))
              && (s[0] == '0' ==> |s| == 1) {
      NumeralIsUnique(s, base, upperCase);
    }
  }

  /** The length of a numeral: at most k digits exactly when the number is below base^k. */
  lemma {:induction false} DigitsFit(n: nat, base: nat, upperCase: bool, k: nat)
    requires 2 <= base <= 36
    ensures |Digits(n, base, upperCase)| <= k <==> n < Pow(base, k)
    decreases n
  {
    PowPositive(base, k);
    if n != 0 && k != 0 {
      Shrinks(n, base);
      DigitsFit(n / base, base, upperCase, k - 1);
      ScaleCompare(n, base, Pow(base, k - 1));
    }
  }

  lemma ScaleCompare(n: nat, base: nat, p: nat)
    requires base >= 2
    ensures n / base < p <==> n < base * p
  {
    var q, r := n / base, n % base;
    assert n == q * base + r;
    if q < p {
      assert (q + 1) * base <= p * base;
    } else {
      assert q * base >= p * base;
    }
  }

  lemma {:induction false} PowPositive(base: nat, n: nat)
    requires base >= 1
    ensures Pow(base, n) >= 1
  {
    if n != 0 {
      PowPositive(base, n - 1);
    }
  }

  lemma {:induction false} PowBound(base: nat, n: nat)
    requires base >= 2
    ensures Pow(base, n) >= Pow(2, n)
  {
    if n != 0 {
      PowBound(base, n - 1);
      PowPositive(2, n - 1);
      assert base * Pow(base, n - 1) >= 2 * Pow(base, n - 1);
    }
  }

  /** Every 32-bit number takes at most 32 digits, whatever the base, so 33 bytes hold it with its terminator. */
  lemma WordNumeralFits(n: nat, base: nat, upperCase: bool)
    requires 2 <= base <= 36 && n < 0x1_0000_0000
    ensures |Numeral(n, base, upperCase)| <= 32
  {
    DigitsFit(n, base, upperCase, 32);
    PowBound(base, 32);
    PowersOfTwo();
  }

  /** A 64-bit number takes at most 64 digits, and at most 20 in decimal. */
  lemma LongNumeralFits(n: nat, base: nat, upperCase: bool)
    requires 2 <= base <= 36 && n < 0x1_0000_0000_0000_0000
    ensures |Numeral(n, base, upperCase)| <= 64
    ensures base == 10 ==> |Numeral(n, base, upperCase)| <= 20
    ensures base == 16 ==> |Numeral(n, base, upperCase)| <= 16
  {
    PowersOfTwo();
    DigitsFit(n, base, upperCase, 64);
    PowBound(base, 64);
    DigitsFit(n, base, upperCase, 20);
    DigitsFit(n, base, upperCase, 16);
    PowersOfTenAndSixteen();
  }

  lemma {:induction false} PowSum(base: nat, a: nat, b: nat)
    ensures Pow(base, a + b) == Pow(base, a) * Pow(base, b)
  {
    if a != 0 {
      PowSum(base, a - 1, b);
      assert base * (Pow(base, a - 1) * Pow(base, b)) == (base * Pow(base, a - 1)) * Pow(base, b);
    }
  }

  lemma PowSquared(base: nat, n: nat, v: int, w: int)
    requires Pow(base, n) == v && v * v == w
    ensures Pow(base, n + n) == w
  {
    PowSum(base, n, n);
    hide Pow;
  }

  lemma PowersOfTwo()
    ensures Pow(2, 32) == 0x1_0000_0000 && Pow(2, 64) == 0x1_0000_0000_0000_0000
  {
    assert Pow(2, 8) == 0x100;
    hide Pow;
    PowSquared(2, 8, 0x100, 0x1_0000);
    PowSquared(2, 16, 0x1_0000, 0x1_0000_0000);
    PowSquared(2, 32, 0x1_0000_0000, 0x1_0000_0000_0000_0000);
  }

  lemma PowersOfTenAndSixteen()
    ensures Pow(10, 20) > 0x1_0000_0000_0000_0000 && Pow(16, 16) == 0x1_0000_0000_0000_0000
  {
    assert Pow(10, 2) == 100;
    PowSum(10, 2, 2);
    PowSum(10, 1, 4);
    PowSum(10, 5, 5);
    PowSum(10, 10, 10);
    PowSum(16, 1, 1);
    PowSum(16, 2, 2);
    PowSum(16, 4, 4);
    PowSum(16, 8, 8);
  }

  function Repeated(c: char, n: nat): (s: string)
    ensures |s| == n && forall k | 0 <= k < n :: s[k] == c
  {
    if n == 0 then "" else Repeated(c, n - 1) + [c]
  }

  /** Leading zeros do not change a value. */
  lemma {:induction false} LeadingZeros(zeros: nat, s: string, base: nat)
    ensures Value(Repeated('0', zeros) + s, base) == Value(s, base)
    decreases zeros + |s|
  {
    var t := Repeated('0', zeros) + s;
    if s != [] {
      assert t[..|t| - 1] == Repeated('0', zeros) + s[..|s| - 1];
      LeadingZeros(zeros, s[..|s| - 1], base);
    } else if zeros > 0 {
      assert t[..|t| - 1] == Repeated('0', zeros - 1) + s;
      LeadingZeros(zeros - 1, s, base);
    }
  }
}
