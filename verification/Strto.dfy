/** Parsing integers out of text, and how that inverts the conversions to text. */
module Strto {
  import opened Words
  import opened Numerals
  import opened Stdlib
  import Libgcc

  /** The character of a NUL-terminated string at a position up to its end. */
  function At(s: string, i: nat): char
    requires i <= |s|
  {
    if i < |s| then s[i] else '\0'
  }

  predicate IsSpace(c: char) {
    c == ' ' || c == '\n' || c == '\t' || c == '\U{0B}' || c == '\U{0C}' || c == '\r'
  }

  function ToUpper(c: char): char {
    if 'a' <= c <= 'z' then (c as int - 32) as char else c
  }

  /** end is where the run of characters satisfying the test, starting at i, stops. */
  ghost predicate RunEnds(s: string, i: nat, test: char -> bool, end: nat) {
    i <= end <= |s| && (forall k | i <= k < end :: test(s[k])) && (end < |s| ==> !test(s[end]))
  }

  /** The first position from i on that is not white space. */
  function SkipSpace(s: string, i: nat): (j: nat)
    requires i <= |s|
    ensures RunEnds(s, i, IsSpace, j)
    decreases |s| - i
  {
    if i < |s| && IsSpace(s[i]) then SkipSpace(s, i + 1) else i
  }

  /** The first position from i on that does not hold a digit of the base. */
  function SkipDigits(s: string, i: nat, base: nat): (j: nat)
    requires i <= |s|
    ensures RunEnds(s, i, c => DigitValue(c) < base, j)
    decreases |s| - i
  {
    if i < |s| && DigitValue(s[i]) < base then SkipDigits(s, i + 1, base) else i
  }

  predicate HasHexPrefix(s: string, i: nat)
    requires i <= |s|
  {
    At(s, i) == '0' && (At(s, i + 1) == 'x' || At(s, i + 1) == 'X')
  }

  /** The base actually used and where its digits start, after any prefix. */
  function ResolveBase(s: string, i: nat, base: nat): (r: (nat, nat))
    requires i <= |s|
    ensures i <= r.1 <= |s| && (base != 0 ==> r.0 == base) && (base == 0 ==> r.0 in {8, 10, 16})
  {
    if (base == 0 || base == 16) && HasHexPrefix(s, i) then (16, i + 2)
    else if base == 0 then (if At(s, i) == '0' then (8, i + 1) else (10, i))
    else (base, i)
  }

  /** What is parsed from position i: the value of the longest run of digits, and where the run ends. */
  function ParseFrom(s: string, i: nat, base: nat): (r: (nat, nat))
    requires i <= |s|
    ensures i <= r.1 <= |s|
  {
    var (b, start) := ResolveBase(s, i, base);
    var end := SkipDigits(s, start, b);
    (Value(s[start..end], b), end)
  }

  /** Unsigned parse: the value modulo 2^32 and the end position. */
  function StrtoulResult(s: string, base: nat): (UInt32, nat) {
    var (value, end) := ParseFrom(s, SkipSpace(s, 0), base);
    (ToUInt32(value), end)
  }

  predicate IsSign(c: char) {
    c == '-' || c == '+'
  }

  function Sign(c: char): int {
    if c == '-' then -1 else 1
  }

  /** Signed parse: the value cut to 32 bits and the end position. */
  function StrtolResult(s: string, base: nat): (Int32, nat) {
    var i := SkipSpace(s, 0);
    var j := if IsSign(At(s, i)) then i + 1 else i;
    var (value, end) := ParseFrom(s, j, base);
    (ToInt32(value * Sign(At(s, i))), end)
  }

  // ---------- The loops ----------

  lemma ValueGrows(s: string, start: nat, i: nat, base: nat)
    requires start <= i < |s|
    ensures Value(s[start..i + 1], base) == Value(s[start..i], base) * base + DigitValue(s[i])
  {
    var t := s[start..i + 1];
    assert t[..|t| - 1] == s[start..i];
  }

  lemma WrapsThrough(v: int, w: int, base: int, digit: int)
    requires ToUInt32(v) == ToUInt32(w)
    ensures ToUInt32(v * base + digit) == ToUInt32(w * base + digit)
  {
    var k := (v - w) / TWO32;
    assert v == w + TWO32 * k;
    assert v * base + digit == (w * base + digit) + TWO32 * (k * base);
    WrapShift(w * base + digit, k * base);
  }

  lemma WrapShift(x: int, k: int)
    ensures ToUInt32(x + TWO32 * k) == ToUInt32(x)
  {
  }

  lemma CharDigit(c: char)
    ensures IsDecimalDigit(c) ==> c >= '0' && DigitValue(c) == c as int - '0' as int
    ensures !IsDecimalDigit(c) && IsLetter(c) ==>
              ToUpper(c) >= 'A' && DigitValue(c) == ToUpper(c) as int - 'A' as int + 10
    ensures !IsDecimalDigit(c) && !IsLetter(c) ==> DigitValue(c) == 36
  {
  }

  lemma WordValues(s: string, start: nat, base: nat)
    requires start <= |s|
    ensures ToUInt32(Value(s[start..start], base)) == 0 && forall v: int :: ToUInt32(ToUInt32(v)) == ToUInt32(v)
  {
  }

  lemma SkipDigitsStep(s: string, i: nat, base: nat)
    requires i <= |s|
    ensures SkipDigits(s, i, base) == if i < |s| && DigitValue(s[i]) < base then SkipDigits(s, i + 1, base) else i
  {
  }

  lemma AtIs(s: string, i: nat)
    requires i <= |s|
    ensures At(s, i) == if i < |s| then s[i] else '\0'
  {
  }

  /** The digit loop of strtoul and strtol: the accumulated value wraps at every step. */
  method AccumulateDigits(s: string, start: nat, base: nat) returns (result: UInt32, end: nat)
    requires '\0' !in s && start <= |s| && 2 <= base <= 36
    ensures end == SkipDigits(s, start, base)
    ensures result == ToUInt32(Value(s[start..end], base))
  {
    hide Value, ToUInt32, DigitValue, SkipDigits, At, IsDecimalDigit, IsLetter, ToUpper;
    result, end := 0, start;
    WordValues(s, start, base);
    while end < |s| && At(s, end) != '\0'
      invariant start <= end <= |s|
      invariant SkipDigits(s, start, base) == SkipDigits(s, end, base)
      invariant result == ToUInt32(Value(s[start..end], base))
    {
      var c := At(s, end);
      AtIs(s, end);
      CharDigit(c);
      SkipDigitsStep(s, end, base);
      var digit;
      if IsDecimalDigit(c) {
        digit := c as int - '0' as int;
      } else if IsLetter(c) {
        digit := ToUpper(c) as int - 'A' as int + 10;
      } else {
        break;
      }
      if digit >= base {
        break;
      }
      ValueGrows(s, start, end, base);
      WrapsThrough(result, Value(s[start..end], base), base, digit);
      result := ToUInt32(result * base + digit);
      end := end + 1;
    }
    if end < |s| {
      AtIs(s, end);
    }
    SkipDigitsStep(s, end, base);
  }

  /** Skips leading white space. */
  method SkipWhiteSpace(s: string) returns (i: nat)
    ensures i == SkipSpace(s, 0)
  {
    i := 0;
    while i < |s| && IsSpace(s[i])
      invariant i <= |s| && SkipSpace(s, 0) == SkipSpace(s, i)
    {
      i := i + 1;
    }
  }

  /** Looks for a base prefix where the base leaves it open. */
  method FindBase(s: string, from: nat, base: nat) returns (b: nat, i: nat)
    requires from <= |s|
    ensures (b, i) == ResolveBase(s, from, base)
  {
    b, i := base, from;
    if b == 0 || b == 16 {
      if At(s, i) == '0' && (At(s, i + 1) == 'x' || At(s, i + 1) == 'X') {
        b := 16;
        i := i + 2;
      }
    }
    if b == 0 {
      if At(s, i) == '0' {
        b := 8;
        i := i + 1;
      } else {
        b := 10;
      }
    }
  }

  method Strtoul(s: string, base: nat) returns (result: UInt32, end: nat)
    requires '\0' !in s && (base == 0 || 2 <= base <= 36)
    ensures (result, end) == StrtoulResult(s, base)
  {
    var i := SkipWhiteSpace(s);
    var b;
    b, i := FindBase(s, i, base);
    result, end := AccumulateDigits(s, i, b);
  }

  method Strtol(s: string, base: nat) returns (result: Int32, end: nat)
    requires '\0' !in s && (base == 0 || 2 <= base <= 36)
    ensures (result, end) == StrtolResult(s, base)
  {
    var i := SkipWhiteSpace(s);
    var sign := 1;
    if At(s, i) == '-' || At(s, i) == '+' {
      sign := if At(s, i) == '-' then -1 else 1;
      i := i + 1;
    }
    var b;
    ghost var from := i;
    b, i := FindBase(s, i, base);
    var magnitude;
    magnitude, end := AccumulateDigits(s, i, b);
    WrappedSign(Value(s[i..end], b), sign);
    result := ToInt32(ToInt32(magnitude) * sign);
  }

  /** The word a value is cut to differs from it by a multiple of 2^32. */
  lemma WordApart(value: int) returns (k: int)
    ensures value == ToInt32(ToUInt32(value)) + TWO32 * k
  {
    k := (value - ToInt32(ToUInt32(value))) / TWO32;
  }

  lemma SignedShift(x: int, k: int)
    ensures ToInt32(x + TWO32 * k) == ToInt32(x)
  {
    WrapShift(x, k);
  }

  /** Applying the sign to the wrapped value is as good as wrapping the signed one. */
  lemma WrappedSign(value: int, sign: int)
    requires sign == 1 || sign == -1
    ensures ToInt32(ToInt32(ToUInt32(value)) * sign) == ToInt32(value * sign)
  {
    hide ToInt32, ToUInt32;
    var k := WordApart(value);
    var w: int := ToInt32(ToUInt32(value));
    SignedShift(w, k);
    SignedShift(-w, -k);
    assert w * sign == if sign == 1 then w else -w;
    assert value * sign == if sign == 1 then value else -value;
  }

  method Atoi(s: string) returns (result: Int32)
    requires '\0' !in s
    ensures result == StrtolResult(s, 10).0
  {
    var end;
    result, end := Strtol(s, 10);
  }

  // ---------- Whatever can be written for a number ----------

  lemma DigitIsNoSpace(c: char, base: nat)
    requires DigitValue(c) < base <= 36
    ensures !IsSpace(c) && !IsSign(c) && c != '\0'
  {
  }

  /** A run of digits up to a non-digit is skipped exactly. */
  lemma {:induction false} RunOfDigits(s: string, start: nat, i: nat, end: nat, base: nat)
    requires start <= i <= end <= |s|
    requires forall k | start <= k < end :: DigitValue(s[k]) < base
    requires end < |s| ==> DigitValue(s[end]) >= base
    ensures SkipDigits(s, i, base) == end
    decreases end - i
  {
    if i < end {
      RunOfDigits(s, start, i + 1, end, base);
    }
  }

  /** A numeral in front of something that is no digit is read whole. */
  lemma NumeralIsRead(s: string, at: nat, n: nat, base: nat, upperCase: bool, end: nat)
    requires 2 <= base <= 36 && at <= end <= |s| && s[at..end] == Numeral(n, base, upperCase)
    requires end < |s| ==> DigitValue(s[end]) >= base
    ensures at < end && SkipDigits(s, at, base) == end && Value(s[at..end], base) == n
    ensures DigitValue(s[at]) < base && !IsSpace(s[at]) && !IsSign(s[at]) && s[at] != '.' && (s[at] == '0' <==> n == 0)
    ensures n == 0 ==> end == at + 1
  {
    NumeralRoundTrip(n, base, upperCase);
    assert forall k | at <= k < end :: s[k] == s[at..end][k - at];
    hide Value, Digits;
    RunOfDigits(s, at, at, end, base);
    DigitIsNoSpace(s[at], base);
  }

  /** White space as the C library defines it. */
  predicate AllWhite(s: string) {
    forall k | 0 <= k < |s| :: s[k] in {' ', '\n', '\t', '\U{0B}', '\U{0C}', '\r'}
  }

  /** What may stand in front of digits of base b when a base is asked for; 0 leaves it open. */
  predicate IsPrefix(prefix: string, base: nat, b: nat) {
    (prefix == "" && b == if base == 0 then 10 else base)
    || (prefix in {"0x", "0X"} && base in {0, 16} && b == 16)
    || (prefix == "0" && base == 0 && b == 8)
  }

  /** A zero that an x behind it would turn into a prefix. */
  predicate TakesX(prefix: string, n: nat, base: nat) {
    prefix == "" && n == 0 && base in {0, 16}
  }

  lemma WhiteIsSpace(c: char)
    ensures IsSpace(c) <==> c in {' ', '\n', '\t', '\U{0B}', '\U{0C}', '\r'}
    ensures DigitValue(c) < 36 || c == '-' || c == '+' ==> !IsSpace(c)
  {
  }

  lemma {:induction false} WhiteIsSkipped(s: string, i: nat, end: nat)
    requires i <= end <= |s| && AllWhite(s[i..end]) && (end < |s| ==> !IsSpace(s[end]))
    ensures SkipSpace(s, i) == end
    decreases end - i
  {
    if i < end {
      assert s[i] == s[i..end][0] && s[i + 1..end] == s[i..end][1..];
      WhiteIsSpace(s[i]);
      WhiteIsSkipped(s, i + 1, end);
    }
  }

  lemma PrefixIsPassed(s: string, i: nat, prefix: string, n: nat, base: nat, b: nat)
    requires i + |prefix| < |s| && s[i..i + |prefix|] == prefix && IsPrefix(prefix, base, b) && 2 <= b <= 36
    requires DigitValue(s[i + |prefix|]) < b && (s[i + |prefix|] == '0' <==> n == 0)
    requires i + 1 < |s| && TakesX(prefix, n, base) ==> s[i + 1] != 'x' && s[i + 1] != 'X'
    ensures ResolveBase(s, i, base) == if prefix == "" && base == 0 && n == 0 then (8, i + 1) else (b, i + |prefix|)
  {
    var part := s[i..i + |prefix|];
    assert prefix != "" ==> At(s, i) == part[0] == '0';
    assert |prefix| == 2 ==> At(s, i + 1) == part[1];
    assert |prefix| == 1 ==> At(s, i + 1) == s[i + 1] != 'x' && s[i + 1] != 'X';
  }

  /** A numeral behind its prefix, and in front of what is no digit, is parsed whole. */
  lemma ParsesNumeral(s: string, i: nat, prefix: string, n: nat, base: nat, b: nat, upperCase: bool, end: nat)
    requires 2 <= b <= 36 && IsPrefix(prefix, base, b)
    requires i + |prefix| <= end <= |s| && s[i..i + |prefix|] == prefix
    requires s[i + |prefix|..end] == Numeral(n, b, upperCase)
    requires end < |s| ==> DigitValue(s[end]) >= b && (TakesX(prefix, n, base) ==> s[end] != 'x' && s[end] != 'X')
    ensures ParseFrom(s, i, base) == (n, end)
  {
    hide Numeral, Value, SkipDigits, ResolveBase, DigitValue;
    NumeralIsRead(s, i + |prefix|, n, b, upperCase, end);
    PrefixIsPassed(s, i, prefix, n, base, b);
    if prefix == "" && base == 0 && n == 0 {
      assert s[end..end] == "";
      EmptyRun(s, end, 8);
    }
  }

  lemma EmptyRun(s: string, end: nat, base: nat)
    requires end <= |s| && (end < |s| ==> DigitValue(s[end]) >= base)
    ensures SkipDigits(s, end, base) == end && Value("", base) == 0
  {
  }

  /** A sign, and where the parse goes on behind it. */
  lemma SignIsPassed(s: string, white: string, sign: string)
    requires AllWhite(white) && sign in {"", "+", "-"} && |white + sign| <= |s| && s[..|white + sign|] == white + sign
    requires |white + sign| < |s| && sign == "" ==> !IsSpace(s[|white|]) && !IsSign(s[|white|])
    ensures var i := SkipSpace(s, 0);
            i == |white| && (if IsSign(At(s, i)) then i + 1 else i) == |white + sign|
            && Sign(At(s, i)) == if sign == "-" then -1 else 1
  {
    assert forall k | 0 <= k < |white + sign| :: s[k] == s[..|white + sign|][k];
    assert s[0..|white|] == white;
    WhiteIsSkipped(s, 0, |white|);
  }

  /**
   * What strtol reads: white space, a sign, a prefix that the base allows and a numeral, in front of anything
   * that is no digit, give the number with its sign, cut to 32 bits, and the place behind the numeral.
   */
  lemma StrtolReads(white: string, sign: string, prefix: string, n: nat, base: nat, b: nat, upperCase: bool,
                    tail: string)
    requires AllWhite(white) && sign in {"", "+", "-"} && 2 <= b <= 36 && IsPrefix(prefix, base, b)
    requires tail != "" ==> DigitValue(tail[0]) >= b && (TakesX(prefix, n, base) ==> tail[0] !in {'x', 'X'})
    ensures var number := white + sign + prefix + Numeral(n, b, upperCase);
            StrtolResult(number + tail, base) == (ToInt32(if sign == "-" then -(n as int) else n), |number|)
  {
    hide Numeral, ToInt32, ParseFrom;
    var digits := Numeral(n, b, upperCase);
    var front := white + sign;
    var s := front + prefix + digits + tail;
    var at, end := |front|, |front + prefix + digits|;
    assert s[..at] == front && s[at..at + |prefix|] == prefix && s[at + |prefix|..end] == digits;
    assert end < |s| ==> s[end] == tail[0];
    NumeralIsRead(s, at + |prefix|, n, b, upperCase, end);
    assert prefix != "" ==> s[at] == prefix[0] == '0';
    DigitIsNoSpace(s[at], 36);
    SignIsPassed(s, white, sign);
    ParsesNumeral(s, at, prefix, n, base, b, upperCase, end);
    assert n * 1 == n && n * -1 == -(n as int);
    hide SkipSpace, IsSign, Sign;
  }

  /** What strtoul reads: the same without a sign. */
  lemma StrtoulReads(white: string, prefix: string, n: nat, base: nat, b: nat, upperCase: bool, tail: string)
    requires AllWhite(white) && 2 <= b <= 36 && IsPrefix(prefix, base, b)
    requires tail != "" ==> DigitValue(tail[0]) >= b && (TakesX(prefix, n, base) ==> tail[0] !in {'x', 'X'})
    ensures var number := white + prefix + Numeral(n, b, upperCase);
            StrtoulResult(number + tail, base) == (ToUInt32(n), |number|)
  {
    hide Numeral, ToUInt32, ParseFrom;
    var digits := Numeral(n, b, upperCase);
    var s := white + prefix + digits + tail;
    var at, end := |white|, |white + prefix + digits|;
    assert s[0..at] == white && s[at..at + |prefix|] == prefix && s[at + |prefix|..end] == digits;
    assert end < |s| ==> s[end] == tail[0];
    NumeralIsRead(s, at + |prefix|, n, b, upperCase, end);
    assert prefix != "" ==> s[at] == prefix[0] == '0';
    DigitIsNoSpace(s[at], 36);
    WhiteIsSkipped(s, 0, at);
    ParsesNumeral(s, at, prefix, n, base, b, upperCase, end);
    hide SkipSpace;
  }

  lemma ParsesNothing(s: string, i: nat, base: nat)
    requires i <= |s| && (i < |s| ==> DigitValue(s[i]) >= if base == 0 then 10 else base)
    ensures ParseFrom(s, i, base) == (0, i)
  {
    var b := if base == 0 then 10 else base;
    EmptyRun(s, i, b);
    assert s[i..i] == "" && Value("", b) == 0;
    hide Value, SkipDigits;
  }

  /** Without a digit behind white space and sign strtol reads 0, and passes no other character. */
  lemma StrtolReadsNothing(white: string, sign: string, rest: string, base: nat)
    requires AllWhite(white) && sign in {"", "+", "-"} && (base == 0 || 2 <= base <= 36)
    requires rest != "" ==> DigitValue(rest[0]) >= if base == 0 then 10 else base
    requires rest != "" && sign == "" ==> !AllWhite([rest[0]]) && rest[0] !in {'+', '-'}
    ensures StrtolResult(white + sign + rest, base) == (0, |white + sign|)
  {
    var s := white + sign + rest;
    assert s[..|white + sign|] == white + sign;
    if rest != "" {
      assert s[|white + sign|] == rest[0];
      NotWhite(rest[0]);
    }
    SignIsPassed(s, white, sign);
    ParsesNothing(s, |white + sign|, base);
    assert 0 * 1 == 0 && 0 * -1 == 0;
    SignedValue(0);
    hide SkipSpace, ParseFrom, ToInt32;
  }

  lemma NotWhite(c: char)
    ensures AllWhite([c]) <==> IsSpace(c)
  {
    assert [c][0] == c;
  }

  lemma WhiteIff(s: string)
    ensures AllWhite(s) <==> forall k | 0 <= k < |s| :: IsSpace(s[k])
  {
  }

  lemma StrtoulReadsNothing(white: string, rest: string, base: nat)
    requires AllWhite(white) && (base == 0 || 2 <= base <= 36)
    requires rest != "" ==> DigitValue(rest[0]) >= (if base == 0 then 10 else base) && !AllWhite([rest[0]])
    ensures StrtoulResult(white + rest, base) == (0, |white|)
  {
    var s := white + rest;
    assert s[0..|white|] == white;
    if rest != "" {
      assert s[|white|] == rest[0];
      NotWhite(rest[0]);
    }
    WhiteIsSkipped(s, 0, |white|);
    ParsesNothing(s, |white|, base);
    UnsignedValue(0);
    hide SkipSpace, ParseFrom, ToUInt32;
  }

  /** A plus sign, hexadecimal digits of both cases behind white space and a prefix, and octal in base 0. */
  lemma ParseExamples()
    ensures StrtolResult("+5", 10) == (5, 2)
    ensures StrtolResult(" \t-0x1fz", 0) == (-31, 7)
    ensures StrtoulResult("0XFF", 16) == (255, 4) && StrtoulResult("010", 0) == (8, 3)
  {
    hide StrtolResult, StrtoulResult, Numeral, ToInt32, ToUInt32;
    ExampleNumerals();
    SignedValue(5);
    SignedValue(-31);
    UnsignedValue(255);
    UnsignedValue(8);
    StrtolReads("", "+", "", 5, 10, 10, false, "");
    assert "" + "+" + "" + "5" + "" == "+5";
    StrtolReads(" \t", "-", "0x", 31, 0, 16, false, "z");
    assert " \t" + "-" + "0x" + "1f" + "z" == " \t-0x1fz";
    StrtoulReads("", "0X", 255, 16, 16, true, "");
    assert "" + "0X" + "FF" + "" == "0XFF";
    StrtoulReads("", "0", 8, 0, 8, false, "");
    assert "" + "0" + "10" + "" == "010";
  }

  lemma ExampleNumerals()
    ensures Numeral(5, 10, false) == "5" && Numeral(31, 16, false) == "1f"
    ensures Numeral(255, 16, true) == "FF" && Numeral(8, 8, false) == "10"
  {
    assert Digits(0, 10, false) == Digits(0, 16, false) == Digits(0, 16, true) == Digits(0, 8, false) == "";
    assert Digits(1, 16, false) == "1" && Digits(15, 16, true) == "F" && Digits(1, 8, false) == "1";
  }

  // ---------- Round trips ----------

  /** Parsing the numeral of any 32-bit number gives the number back and consumes all of the text. */
  lemma StrtoulInvertsItoa(n: UInt32, base: nat, upperCase: bool)
    requires 2 <= base <= 36
    ensures var s := Numeral(n, base, upperCase);
            StrtoulResult(s, base) == (n, |s|) && (base == 10 ==> StrtoulResult(s, 0) == (n, |s|))
  {
    hide Numeral, StrtoulResult;
    var s := Numeral(n, base, upperCase);
    UnsignedValue(n);
    StrtoulReads("", "", n, base, base, upperCase, "");
    if base == 10 {
      StrtoulReads("", "", n, 0, 10, upperCase, "");
    }
    assert "" + "" + s == s && s + "" == s;
  }

  /** A run of the character zero is worth nothing. */
  lemma {:induction false} ZeroRun(s: string, base: nat)
    requires forall i | 0 <= i < |s| :: s[i] == '0'
    ensures Value(s, base) == 0
  {
    if s != [] {
      ZeroRun(s[..|s| - 1], base);
    }
  }

  /** Text without a character above '0' never parses to anything but zero. */
  lemma LowTextParsesToZero(s: string, base: nat)
    requires 2 <= base <= 36 && forall i | 0 <= i < |s| :: s[i] <= '0'
    ensures StrtolResult(s, base).0 == 0
  {
    var i := SkipSpace(s, 0);
    var j := if IsSign(At(s, i)) then i + 1 else i;
    var (b, start) := ResolveBase(s, j, base);
    var end := SkipDigits(s, start, b);
    ZeroRun(s[start..end], b);
  }

  /**
   * Signed text: parsing inverts the conversion exactly for the non-negative numbers in any base
   * and, in base ten, for every negative number except the most negative one.
   */
  lemma StrtolInvertsItoa(n: Int32, base: nat, upperCase: bool)
    requires 2 <= base <= 36
    ensures var s := SignedText(n, base, upperCase, -TWO31);
            StrtolResult(s, base) == (n, |s|) <==> n >= 0 || (base == 10 && n != -TWO31)
  {
    if n >= 0 {
      NonNegativeRoundTrip(n, base, upperCase);
    } else if base == 10 && n != -TWO31 {
      NegativeRoundTrip(n, upperCase);
    } else {
      NegativeDigitsAreLow(n, base, upperCase);
      LowTextParsesToZero(SignedText(n, base, upperCase, -TWO31), base);
    }
  }

  /** Two that do not come back: -1 in base 16 is written as the character below '0'; INT_MIN parses to 0. */
  lemma NegativesLost()
    ensures SignedText(-1, 16, false, -TWO31) == "/" && StrtolResult("/", 16) == (0, 0)
    ensures StrtolResult(SignedText(-TWO31, 10, false, -TWO31), 10).0 == 0
  {
    MinusOneText();
    SlashParses();
    NegativeDigitsAreLow(-TWO31, 10, false);
    LowTextParsesToZero(SignedText(-TWO31, 10, false, -TWO31), 10);
    hide SignedText, StrtolResult;
  }

  lemma MinusOneText()
    ensures SignedText(-1, 16, false, -TWO31) == "/"
  {
    assert CDigits(-1, 16, false) == "/" by {
      assert Libgcc.TruncQuotient(-1, 16) == 0 && Libgcc.TruncRemainder(-1, 16) == -1;
      assert CDigits(0, 16, false) == "" && DigitOf(-1, false) == '/';
    }
    hide CDigits;
  }

  lemma SlashParses()
    ensures StrtolResult("/", 16) == (0, 0)
  {
    assert "/"[0..0] == "" && Value("", 16) == 0;
  }

  lemma NonNegativeRoundTrip(n: Int32, base: nat, upperCase: bool)
    requires 2 <= base <= 36 && n >= 0
    ensures var s := SignedText(n, base, upperCase, -TWO31); StrtolResult(s, base) == (n, |s|)
  {
    var s := SignedText(n, base, upperCase, -TWO31);
    CDigitsAreDigits(n, base, upperCase);
    assert s == Numeral(n, base, upperCase);
    hide SignedText, Numeral, StrtolResult;
    SignedValue(n);
    StrtolReads("", "", "", n, base, base, upperCase, "");
    assert "" + "" + "" + s == s && s + "" == s;
  }

  lemma MinusReads(m: nat)
    ensures var s := "-" + Numeral(m, 10, false); StrtolResult(s, 10) == (ToInt32(-(m as int)), |s|)
  {
    hide Numeral, StrtolResult, ToInt32, DigitValue;
    var digits := Numeral(m, 10, false);
    StrtolReads("", "-", "", m, 10, 10, false, "");
    assert "" + "-" + "" + digits == "-" + digits && "-" + digits + "" == "-" + digits;
  }

  lemma NegativeRoundTrip(n: Int32, upperCase: bool)
    requires -TWO31 < n < 0
    ensures var s := SignedText(n, 10, upperCase, -TWO31); StrtolResult(s, 10) == (n, |s|)
  {
    hide Numeral, StrtolResult, ToInt32, ToUInt32, SignedText;
    SignedTextIsDecimal(n, upperCase, -TWO31);
    SignedValue(n);
    MinusReads(-n);
  }
}
