/** 64-bit division for a 32-bit target, one bit at a time. */
module Libgcc {
  import opened Integers
  import opened Words

  function Pow2(n: nat): (p: nat)
    ensures p >= 1
  {
    if n == 0 then 1 else 2 * Pow2(n - 1)
  }

  // ---------- Reference: division that truncates toward zero ----------

  /** The quotient of C: rounded toward zero. */
  function TruncQuotient(n: int, d: int): int
    requires d != 0
  {
    var q := Abs(n) / Abs(d);
    if (n < 0) != (d < 0) then -q else q
  }

  /** The remainder of C: it has the sign of the dividend. */
  function TruncRemainder(n: int, d: int): int
    requires d != 0
  {
    var r := Abs(n) % Abs(d);
    if n < 0 then -r else r
  }

  /** What C requires of a quotient and a remainder. */
  predicate Truncates(n: int, d: int, q: int, r: int) {
    n == q * d + r && Abs(r) < Abs(d) && (r == 0 || (r < 0 <==> n < 0))
  }

  /** Quotient and remainder by a positive divisor are unique. */
  lemma DivisionUnique(n: nat, d: nat, q: int, r: int)
    requires d >= 1 && n == q * d + r && 0 <= r < d
    ensures q == n / d && r == n % d
  {
    var q', r' := n / d, n % d;
    assert n == d * q' + r';
    assert (q + 1) * d == q * d + d;
    assert (q' + 1) * d == q' * d + d;
    if q < q' {
      ProductMonotone(q + 1, q', d);
    } else if q > q' {
      ProductMonotone(q' + 1, q, d);
    }
  }

  /** Multiplying by d, with the sign of the factor flipped or not, in terms of magnitudes. */
  lemma SignedProduct(s: int, d: int, flip: bool)
    ensures (if flip then -s else s) * d == if flip != (d < 0) then -(s * Abs(d)) else s * Abs(d)
  {
  }

  lemma TruncatesBySign(n: int, d: int, m: int, k: int)
    requires Abs(n) == m * Abs(d) + k && 0 <= k < Abs(d)
    ensures Truncates(n, d, if (n < 0) != (d < 0) then -m else m, if n < 0 then -k else k)
  {
    SignedProduct(m, d, (n < 0) != (d < 0));
  }

  lemma ReferenceTruncates(n: int, d: int)
    requires d != 0
    ensures Truncates(n, d, TruncQuotient(n, d), TruncRemainder(n, d))
  {
    var m, k := Abs(n) / Abs(d), Abs(n) % Abs(d);
    assert Abs(n) == m * Abs(d) + k;
    TruncatesBySign(n, d, m, k);
    hide Truncates, Abs;
  }

  /** The reference pair is the only pair that satisfies C's requirement. */
  lemma TruncatesIff(n: int, d: int, q: int, r: int)
    requires d != 0
    ensures Truncates(n, d, q, r) <==> q == TruncQuotient(n, d) && r == TruncRemainder(n, d)
  {
    ReferenceTruncates(n, d);
    if Truncates(n, d, q, r) {
      var flip := (n < 0) != (d < 0);
      var s, t := if flip then -q else q, if n < 0 then -r else r;
      SignedProduct(s, d, flip);
      assert Abs(n) == s * Abs(d) + t;
      DivisionUnique(Abs(n), Abs(d), s, t);
    }
  }

  // ---------- The unsigned loop ----------

  /** Multiplication behind a name, so that proofs can treat products as atoms. */
  function Times(a: int, b: int): int {
    a * b
  }

  /**
   * The shift-and-subtract state with p the weight of the last bit consumed: seen is the number
   * read so far, q its quotient and the remainder its remainder; the quotient register holds q
   * in its final position.
   */
  ghost predicate DivisionState(n: nat, d: nat, p: nat, quotient: int, remainder: int, seen: nat, q: nat) {
    && Times(seen, p) <= n < Times(seen, p) + p
    && seen == Times(q, d) + remainder
    && 0 <= remainder < d
    && quotient == Times(q, p)
  }

  /** Bit i of a word. */
  function Bit(n: UInt64, i: nat): int {
    n / Pow2(i) % 2
  }

  lemma Regroup(a: int, p: int)
    ensures Times(a, 2 * p) == Times(2 * a, p) == 2 * Times(a, p)
    ensures Times(2 * a + 1, p) == Times(2 * a, p) + p
  {
  }

  /** The next bit below the ones seen. */
  lemma NextBit(n: nat, p: nat, seen: nat)
    requires Times(seen, 2 * p) <= n < Times(seen, 2 * p) + 2 * p
    ensures p >= 1 && n / p % 2 in {0, 1}
    ensures Times(2 * seen + n / p % 2, p) <= n < Times(2 * seen + n / p % 2, p) + p
  {
    Regroup(seen, p);
    var bit := if n < Times(2 * seen + 1, p) then 0 else 1;
    DivisionUnique(n, p, 2 * seen + bit, n - Times(2 * seen + bit, p));
  }

  lemma TimesBelow(c: int, d: int, m: nat)
    requires c <= d
    ensures Times(c, m) <= Times(d, m) && Times(0, m) == 0 && Times(1, m) == m
    ensures Times(c, m) == Times(m, c)
  {
  }

  /** Quotient and remainder registers stay inside the dividend. */
  lemma RegistersFit(n: nat, d: nat, p: nat, quotient: int, remainder: int, seen: nat, q: nat)
    requires DivisionState(n, d, p, quotient, remainder, seen, q)
    ensures 0 <= quotient <= n && remainder <= seen <= n && p >= 1
  {
    TimesBelow(1, d, q);
    TimesBelow(d, d, q);
    TimesBelow(q, seen, p);
    TimesBelow(0, q, p);
    TimesBelow(1, p, seen);
    TimesBelow(p, p, seen);
    hide Times;
  }

  /**
   * One iteration: the remainder, shifted with the next bit brought in, never exceeds the number
   * read so far, so nothing is shifted out of the word; the quotient bit to set is clear, the
   * quotient register being a multiple of the next weight up; and the compare-and-subtract keeps
   * the state.
   */
  lemma DivisionStep(n: nat, d: nat, p: nat, quotient: int, remainder: int, seen: nat, q: nat, bit: int)
    requires DivisionState(n, d, 2 * p, quotient, remainder, seen, q) && bit in {0, 1}
    requires Times(2 * seen + bit, p) <= n < Times(2 * seen + bit, p) + p
    ensures 0 <= 2 * remainder + bit <= 2 * seen + bit <= n
    ensures quotient == Times(q, 2 * p)
    ensures 2 * remainder + bit >= d ==>
              quotient + p <= n
              && DivisionState(n, d, p, quotient + p, 2 * remainder + bit - d, 2 * seen + bit, 2 * q + 1)
    ensures 2 * remainder + bit < d ==>
              DivisionState(n, d, p, quotient, 2 * remainder + bit, 2 * seen + bit, 2 * q)
  {
    RegistersFit(n, d, 2 * p, quotient, remainder, seen, q);
    Regroup(q, d);
    Regroup(q, p);
    hide Times;
    if 2 * remainder + bit >= d {
      RegistersFit(n, d, p, quotient + p, 2 * remainder + bit - d, 2 * seen + bit, 2 * q + 1);
    } else {
      RegistersFit(n, d, p, quotient, 2 * remainder + bit, 2 * seen + bit, 2 * q);
    }
  }

  /** The same iteration, told by the position of the bit. */
  lemma DivisionIteration(n: UInt64, d: nat, i: nat, quotient: int, remainder: int, seen: nat, q: nat, bit: int, p: int)
    requires DivisionState(n, d, Pow2(i + 1), quotient, remainder, seen, q) && bit == Bit(n, i) && p == Pow2(i)
    ensures bit in {0, 1} && 0 <= 2 * remainder + bit <= 2 * seen + bit <= n
    ensures 2 * remainder + bit >= d ==>
              quotient + p <= n
              && DivisionState(n, d, p, quotient + p, 2 * remainder + bit - d, 2 * seen + bit, 2 * q + 1)
    ensures 2 * remainder + bit < d ==>
              DivisionState(n, d, p, quotient, 2 * remainder + bit, 2 * seen + bit, 2 * q)
  {
    hide Times;
    assert Pow2(i + 1) == 2 * p;
    NextBit(n, p, seen);
    DivisionStep(n, d, p, quotient, remainder, seen, q, bit);
  }

  lemma Squared(a: nat, v: int, w: int)
    requires Pow2(a) == v && v * v == w
    ensures Pow2(a + a) == w
  {
    Pow2Sum(a, a);
    hide Pow2;
  }

  lemma WordSize()
    ensures Pow2(64) == TWO64
  {
    assert Pow2(8) == 0x100;
    hide Pow2;
    Squared(8, 0x100, 0x1_0000);
    Squared(16, 0x1_0000, 0x1_0000_0000);
    Squared(32, 0x1_0000_0000, TWO64);
  }

  lemma {:induction false} Pow2Sum(a: nat, b: nat)
    ensures Pow2(a + b) == Pow2(a) * Pow2(b)
  {
    if a != 0 {
      Pow2Sum(a - 1, b);
      assert 2 * (Pow2(a - 1) * Pow2(b)) == (2 * Pow2(a - 1)) * Pow2(b);
    }
  }

  // ---------- The runtime functions ----------

  lemma DivisionStarts(n: UInt64, d: UInt64)
    requires d != 0
    ensures DivisionState(n, d, Pow2(64), 0, 0, 0, 0) && Pow2(0) == 1
  {
    WordSize();
  }

  /** When every bit is read, the registers hold the quotient and the remainder. */
  lemma DivisionEnds(n: nat, d: nat, quotient: int, remainder: int, seen: nat, q: nat)
    requires DivisionState(n, d, 1, quotient, remainder, seen, q)
    ensures d != 0 && quotient == n / d && remainder == n % d
  {
    DivisionUnique(n, d, q, remainder);
  }

  /** The remainder register shifted left inside the word, with a bit brought in below. */
  function Shifted(remainder: UInt64, bit: int): (r: UInt64)
    requires 0 <= bit <= 1
    ensures 2 * remainder < TWO64 ==> r == 2 * remainder + bit
  {
    assert ToUInt64(2 * remainder) % 2 == 0;
    ToUInt64(2 * remainder) + bit
  }

  /** Unsigned quotient; a zero divisor gives zero. */
  method UDivDI3(dividend: UInt64, divisor: UInt64) returns (quotient: UInt64)
    ensures quotient == if divisor == 0 then 0 else dividend / divisor
  {
    hide Pow2, Bit, Times, DivisionState, Shifted, ToUInt64;
    if divisor == 0 {
      return 0;
    }
    quotient := 0;
    var remainder: UInt64 := 0;
    DivisionStarts(dividend, divisor);
    ghost var seen: nat, q: nat := 0, 0;
    var i := 63;
    while i >= 0
      invariant -1 <= i <= 63
      invariant DivisionState(dividend, divisor, Pow2(i + 1), quotient, remainder, seen, q)
    {
      var bit, p := Bit(dividend, i), Pow2(i);
      DivisionIteration(dividend, divisor, i, quotient, remainder, seen, q, bit, p);
      seen := 2 * seen + bit;
      remainder := Shifted(remainder, bit);
      if remainder >= divisor {
        remainder, q := remainder - divisor, 2 * q + 1;
        quotient := quotient + p;  // bit i is still clear, so "or" is "plus"
      } else {
        q := 2 * q;
      }
      i := i - 1;
    }
    DivisionEnds(dividend, divisor, quotient, remainder, seen, q);
  }

  /** Unsigned remainder; a zero divisor gives zero. */
  method UModDI3(dividend: UInt64, divisor: UInt64) returns (remainder: UInt64)
    ensures remainder == if divisor == 0 then 0 else dividend % divisor
  {
    hide Pow2, Bit, Times, DivisionState, Shifted, ToUInt64;
    if divisor == 0 {
      return 0;
    }
    remainder := 0;
    var quotient: UInt64 := 0;
    DivisionStarts(dividend, divisor);
    ghost var seen: nat, q: nat := 0, 0;
    var i := 63;
    while i >= 0
      invariant -1 <= i <= 63
      invariant DivisionState(dividend, divisor, Pow2(i + 1), quotient, remainder, seen, q)
    {
      var bit, p := Bit(dividend, i), Pow2(i);
      DivisionIteration(dividend, divisor, i, quotient, remainder, seen, q, bit, p);
      seen := 2 * seen + bit;
      remainder := Shifted(remainder, bit);
      if remainder >= divisor {
        remainder, q := remainder - divisor, 2 * q + 1;
        quotient := quotient + p;  // bit i is still clear, so "or" is "plus"
      } else {
        q := 2 * q;
      }
      i := i - 1;
    }
    DivisionEnds(dividend, divisor, quotient, remainder, seen, q);
  }

  /** Negation of an unsigned word wraps. */
  function Negated(x: UInt64): UInt64 {
    (TWO64 - x) % TWO64
  }

  lemma SignedReading(x: UInt64, negative: bool)
    requires x <= TWO63
    ensures ToInt64(if negative then Negated(x) else x) == ToInt64(if negative then -(x as int) else x)
    ensures x < TWO63 || negative ==>
              ToInt64(if negative then Negated(x) else x) == if negative then -(x as int) else x
    ensures x == TWO63 && !negative ==> ToInt64(x) == -TWO63
  {
  }

  /** Magnitude of a signed operand, as the unsigned conversion of its wrapped negation. */
  function Magnitude(x: Int64): (m: UInt64)
    ensures m == Abs(x)
  {
    if x < 0 then ToUInt64(ToInt64(0 - x)) else ToUInt64(x)
  }

  lemma QuotientBySign(n: int, d: int)
    requires d != 0
    ensures TruncQuotient(n, d) == if (n < 0) != (d < 0) then -(Abs(n) / Abs(d)) else Abs(n) / Abs(d)
  {
  }

  lemma RemainderBySign(n: int, d: int)
    requires d != 0
    ensures 0 <= Abs(n) % Abs(d) <= Abs(n) && Abs(n) % Abs(d) < Abs(d)
    ensures TruncRemainder(n, d) == if n < 0 then -(Abs(n) % Abs(d)) else Abs(n) % Abs(d)
  {
    RemainderFits(Abs(n), Abs(d));
  }

  lemma RemainderFits(n: nat, d: nat)
    requires d >= 1
    ensures 0 <= n % d <= n && n % d < d
  {
    assert n / d >= 0 && n == n / d * d + n % d;
    ProductMonotone(0, n / d, d);
  }

  /** The truncated quotient by magnitude and sign. */
  lemma TruncatedParts(n: int, d: int)
    requires d != 0
    ensures var q := TruncQuotient(n, d);
            Abs(q) == Abs(n) / Abs(d) && (q < 0 ==> (n < 0) != (d < 0)) && (q > 0 ==> (n < 0) == (d < 0))
  {
    NonNegativeQuotient(Abs(n), Abs(d));
  }

  lemma NonNegativeQuotient(n: nat, d: nat)
    requires d >= 1
    ensures n / d >= 0
  {
  }

  /** Signed quotient: truncated toward zero, cut to 64 bits. */
  method DivDI3(dividend: Int64, divisor: Int64) returns (quotient: Int64)
    ensures quotient == if divisor == 0 then 0 else ToInt64(TruncQuotient(dividend, divisor))
    ensures divisor != 0 && !(dividend == -TWO63 && divisor == -1) ==>
              Abs(quotient) == Abs(dividend) / Abs(divisor)
              && (quotient < 0 ==> (dividend < 0) != (divisor < 0))
              && (quotient > 0 ==> (dividend < 0) == (divisor < 0))
  {
    if divisor != 0 {
      TruncatedParts(dividend, divisor);
      QuotientIsExact(dividend, divisor);
    }
    hide TruncQuotient;
    if divisor == 0 {
      return 0;
    }
    var negativeResult := (dividend < 0) != (divisor < 0);
    var absQuotient := UDivDI3(Magnitude(dividend), Magnitude(divisor));
    QuotientShrinks(Abs(dividend), Abs(divisor));
    QuotientBySign(dividend, divisor);
    SignedReading(absQuotient, negativeResult);
    quotient := ToInt64(if negativeResult then Negated(absQuotient) else absQuotient);
  }

  /** Signed remainder: it takes the sign of the dividend. */
  method ModDI3(dividend: Int64, divisor: Int64) returns (remainder: Int64)
    ensures remainder == if divisor == 0 then 0 else TruncRemainder(dividend, divisor)
    ensures divisor != 0 ==>
              Abs(remainder) == Abs(dividend) % Abs(divisor)
              && (remainder < 0 ==> dividend < 0) && (remainder > 0 ==> dividend > 0)
  {
    hide TruncRemainder;
    if divisor == 0 {
      return 0;
    }
    var absRemainder := UModDI3(Magnitude(dividend), Magnitude(divisor));
    RemainderBySign(dividend, divisor);
    SignedReading(absRemainder, dividend < 0);
    remainder := ToInt64(if dividend < 0 then Negated(absRemainder) else absRemainder);
  }

  /** The truncated quotient needs no cutting, except for the one pair that overflows. */
  lemma QuotientIsExact(n: Int64, d: Int64)
    requires d != 0
    ensures ToInt64(TruncQuotient(n, d)) == TruncQuotient(n, d) <==> !(n == -TWO63 && d == -1)
  {
    hide ToInt64, TruncQuotient;
    SignedRange(TruncQuotient(n, d));
    if d == 1 || d == -1 {
      UnitQuotient(n, d);
    } else {
      QuotientHalves(n, d);
    }
  }

  lemma QuotientHalves(n: int, d: int)
    requires d < -1 || d > 1
    ensures 2 * Abs(TruncQuotient(n, d)) <= Abs(n)
  {
    HalfShrinks(Abs(n), Abs(d));
  }

  lemma UnitQuotient(n: int, d: int)
    requires d == 1 || d == -1
    ensures TruncQuotient(n, d) == n * d
  {
    assert Abs(n) / 1 == Abs(n);
  }

  lemma SignedRange(x: int)
    ensures ToInt64(x) == x <==> -TWO63 <= x < TWO63
  {
  }

  lemma QuotientShrinks(n: nat, d: nat)
    requires d >= 1
    ensures n / d <= n
  {
    assert n == d * (n / d) + n % d;
    ProductMonotone(1, d, n / d);
  }

  lemma HalfShrinks(n: nat, d: nat)
    requires d >= 2
    ensures 2 * (n / d) <= n
  {
    assert n == d * (n / d) + n % d;
    ProductMonotone(2, d, n / d);
  }

  /** A place for the remainder; the caller may pass none. */
  class Cell {
    var value: int

    constructor ()
    {
    }
  }

  /** Quotient and remainder in one call: together they meet C's requirement wherever the quotient is representable. */
  method DivModDI4(dividend: Int64, divisor: Int64, remainder: Cell?) returns (quotient: Int64)
    modifies if remainder == null then {} else {remainder}
    ensures divisor == 0 ==> quotient == 0 && (remainder != null ==> remainder.value == 0)
    ensures divisor != 0 && !(dividend == -TWO63 && divisor == -1) && remainder != null ==>
              Truncates(dividend, divisor, quotient, remainder.value)
    ensures divisor != 0 ==> quotient == ToInt64(TruncQuotient(dividend, divisor))
    ensures divisor != 0 && remainder != null ==> remainder.value == TruncRemainder(dividend, divisor)
  {
    if divisor == 0 {
      if remainder != null {
        remainder.value := 0;
      }
      return 0;
    }
    quotient := DivDI3(dividend, divisor);
    if remainder != null {
      remainder.value := ModDI3(dividend, divisor);
    }
    QuotientIsExact(dividend, divisor);
    ReferenceTruncates(dividend, divisor);
  }

  /** Unsigned quotient and remainder in one call. */
  method UDivModDI4(dividend: UInt64, divisor: UInt64, remainder: Cell?) returns (quotient: UInt64)
    modifies if remainder == null then {} else {remainder}
    ensures divisor == 0 ==> quotient == 0 && (remainder != null ==> remainder.value == 0)
    ensures divisor != 0 && remainder != null ==>
              dividend == quotient * divisor + remainder.value && 0 <= remainder.value < divisor
    ensures divisor != 0 ==> quotient == dividend / divisor
  {
    if divisor == 0 {
      if remainder != null {
        remainder.value := 0;
      }
      return 0;
    }
    quotient := UDivDI3(dividend, divisor);
    if remainder != null {
      remainder.value := UModDI3(dividend, divisor);
    }
  }
}
