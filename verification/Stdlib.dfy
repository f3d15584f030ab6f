/** Conversions between integers and text. */
module Stdlib {
  import opened Words
  import opened Numerals
  import Integers
  import Libgcc

  // ---------- itoa and its variants ----------

  function Reversed<T>(s: seq<T>): (r: seq<T>)
    ensures |r| == |s|
  {
    seq(|s|, i requires 0 <= i < |s| => s[|s| - 1 - i])
  }

  /** Swaps the first length characters end for end. */
  method Reverse(str: array<char>, length: int)
    requires 0 <= length <= str.Length
    modifies str
    ensures str[..length] == Reversed(old(str[..length]))
    ensures str[length..] == old(str[length..])
  {
    var start, end := 0, length - 1;
    while start < end
      invariant 0 <= start && start + end == length - 1 && start <= end + 1
      invariant forall k | 0 <= k < start || end < k < length :: str[k] == old(str[length - 1 - k])
      invariant forall k | start <= k <= end || length <= k < str.Length :: str[k] == old(str[k])
    {
      var temp := str[start];
      str[start] := str[end];
      str[end] := temp;
      start := start + 1;
      end := end - 1;
    }
  }

  /** One output character from a C remainder, which is negative for a negative number. */
  function DigitOf(rem: int, upperCase: bool): char
    requires -36 < rem < 36
  {
    if rem > 9 then DigitChar(rem, upperCase) else (('0' as int) + rem) as char
  }

  lemma QuotientShrinks(num: int, base: int)
    requires num != 0 && base >= 2
    ensures Integers.Abs(Libgcc.TruncQuotient(num, base)) < Integers.Abs(num)
    ensures -base < Libgcc.TruncRemainder(num, base) < base
  {
    Shrinks(Integers.Abs(num), base);
  }

  /** The digit characters the C loop produces, most significant first. */
  function CDigits(num: int, base: int, upperCase: bool): string
    requires 2 <= base <= 36
    decreases Integers.Abs(num)
  {
    if num == 0 then []
    else
      QuotientShrinks(num, base);
      CDigits(Libgcc.TruncQuotient(num, base), base, upperCase)
      + [DigitOf(Libgcc.TruncRemainder(num, base), upperCase)]
  }

  /** The text of an unsigned conversion. */
  function UnsignedText(num: nat, base: int, upperCase: bool): string
    requires 2 <= base <= 36
  {
    if num == 0 then "0" else CDigits(num, base, upperCase)
  }

  /** The text of a signed conversion; least is the most negative value, whose negation is itself. */
  function SignedText(num: int, base: int, upperCase: bool, least: int): string
    requires 2 <= base <= 36
  {
    if num == 0 then "0"
    else if num < 0 && base == 10 then "-" + CDigits(if num == least then num else -num, base, upperCase)
    else CDigits(num, base, upperCase)
  }

  /** The digit loop that all four conversions share: least significant digit first. */
  method EmitDigits(number: int, str: array<char>, base: int, upperCase: bool) returns (i: nat)
    requires 2 <= base <= 36 && |CDigits(number, base, upperCase)| <= str.Length
    modifies str
    ensures i == |CDigits(number, base, upperCase)|
    ensures str[..i] == Reversed(CDigits(number, base, upperCase))
    ensures str[i..] == old(str[i..])
  {
    ghost var all := CDigits(number, base, upperCase);
    i := 0;
    var num := number;
    while num != 0
      invariant i <= |all| <= str.Length
      invariant CDigits(num, base, upperCase) == all[..|all| - i]
      invariant forall k | 0 <= k < i :: str[k] == all[|all| - 1 - k]
      invariant str[i..] == old(str[i..])
      decreases Integers.Abs(num)
    {
      QuotientShrinks(num, base);
      ghost var rest := CDigits(num, base, upperCase);
      var rem := Libgcc.TruncRemainder(num, base);
      if rem > 9 {
        str[i] := DigitChar(rem, upperCase);
      } else {
        str[i] := ((rem + '0' as int)) as char;
      }
      i := i + 1;
      num := Libgcc.TruncQuotient(num, base);
      assert CDigits(num, base, upperCase) == rest[..|rest| - 1];
    }
  }

  lemma ReversedTwice<T>(s: seq<T>)
    ensures Reversed(Reversed(s)) == s
  {
  }

  lemma ReversedPush<T>(s: seq<T>, x: T)
    ensures Reversed([x] + s) == Reversed(s) + [x]
  {
  }

  /** A text, its terminator, and a rest. */
  predicate Holds(str: seq<char>, text: string, rest: seq<char>) {
    |text| < |str| && str[..|text|] == text && str[|text|] == '\0' && str[|text| + 1..] == rest
  }

  lemma HoldsMeans(str: seq<char>, text: string, rest: seq<char>)
    ensures Holds(str, text, rest) <==> str == text + ['\0'] + rest
  {
    if Holds(str, text, rest) {
      assert str == str[..|text|] + [str[|text|]] + str[|text| + 1..];
    }
  }

  /** Terminates the emitted characters and turns them round. */
  method Finish(str: array<char>, i: nat, ghost text: string)
    requires i == |text| < str.Length && str[..i] == Reversed(text)
    modifies str
    ensures Holds(str[..], text, old(str[..])[|text| + 1..])
  {
    str[i] := '\0';
    Reverse(str, i);
    ReversedTwice(text);
    assert str[i + 1..] == str[i..][1..];
  }

  /** The unsigned conversion, of either width. */
  method FormatUnsigned(num: nat, str: array<char>, base: int, upperCase: bool)
    requires 2 <= base <= 36 && |UnsignedText(num, base, upperCase)| < str.Length
    modifies str
    ensures var text := UnsignedText(num, base, upperCase);
            Holds(str[..], text, old(str[..])[|text| + 1..])
  {
    var i := 0;
    if num == 0 {
      str[i] := '0';
      i := i + 1;
      str[i] := '\0';
      return;
    }
    i := EmitDigits(num, str, base, upperCase);
    assert old(str[..])[i + 1..] == old(str[i..])[1..] == str[..][i + 1..];
    Finish(str, i, CDigits(num, base, upperCase));
  }

  /** The signed conversion, of the width whose most negative value is least. */
  method FormatSigned(number: int, str: array<char>, base: int, upperCase: bool, least: int)
    requires 2 <= base <= 36 && |SignedText(number, base, upperCase, least)| < str.Length
    modifies str
    ensures var text := SignedText(number, base, upperCase, least);
            Holds(str[..], text, old(str[..])[|text| + 1..])
  {
    hide CDigits;
    var num, i, isNegative := number, 0, false;
    if num == 0 {
      str[i] := '0';
      i := i + 1;
      str[i] := '\0';
      return;
    }
    if num < 0 && base == 10 {
      isNegative := true;
      num := if num == least then num else -num;
    }
    hide Holds;
    i := EmitDigits(num, str, base, upperCase);
    assert str[i + 1..] == str[i..][1..] == old(str[i..])[1..] == old(str[i + 1..]);
    FinishSigned(str, i, isNegative && base == 10, CDigits(num, base, upperCase));
  }

  /** Appends the sign, if any, to the emitted digits, and finishes the text. */
  method FinishSigned(str: array<char>, digitCount: nat, isNegative: bool, ghost digits: string)
    requires digitCount == |digits| && str.Length > digitCount + (if isNegative then 1 else 0)
    requires str[..digitCount] == Reversed(digits)
    modifies str
    ensures var text := if isNegative then "-" + digits else digits;
            Holds(str[..], text, old(str[..])[|text| + 1..])
  {
    if isNegative {
      str[digitCount] := '-';
      ReversedPush(digits, '-');
      hide Reversed;
      assert str[..digitCount + 1] == str[..digitCount] + ['-'];
      Finish(str, digitCount + 1, "-" + digits);
    } else {
      Finish(str, digitCount, digits);
    }
  }

  method UItoa(num: UInt32, str: array<char>, base: int, upperCase: bool)
    requires 2 <= base <= 36 && |Numeral(num, base, upperCase)| < str.Length
    modifies str
    ensures var text := Numeral(num, base, upperCase);
            str[..] == text + ['\0'] + old(str[..])[|text| + 1..]
  {
    UnsignedTextIsNumeral(num, base, upperCase);
    FormatUnsigned(num, str, base, upperCase);
    ghost var text := Numeral(num, base, upperCase);
    HoldsMeans(str[..], text, old(str[..])[|text| + 1..]);
  }

  method UItoa64(num: UInt64, str: array<char>, base: int, upperCase: bool)
    requires 2 <= base <= 36 && |Numeral(num, base, upperCase)| < str.Length
    modifies str
    ensures var text := Numeral(num, base, upperCase);
            str[..] == text + ['\0'] + old(str[..])[|text| + 1..]
  {
    UnsignedTextIsNumeral(num, base, upperCase);
    FormatUnsigned(num, str, base, upperCase);
    ghost var text := Numeral(num, base, upperCase);
    HoldsMeans(str[..], text, old(str[..])[|text| + 1..]);
  }

  method Itoa(num: Int32, str: array<char>, base: int, upperCase: bool)
    requires 2 <= base <= 36 && |SignedText(num, base, upperCase, -TWO31)| < str.Length
    modifies str
    ensures var text := SignedText(num, base, upperCase, -TWO31);
            str[..] == text + ['\0'] + old(str[..])[|text| + 1..]
    ensures base == 10 && num > -TWO31 ==> SignedText(num, base, upperCase, -TWO31) == SignedDecimal(num)
  {
    SignedTextIsDecimal(num, upperCase, -TWO31);
    FormatSigned(num, str, base, upperCase, -TWO31);
    ghost var text := SignedText(num, base, upperCase, -TWO31);
    HoldsMeans(str[..], text, old(str[..])[|text| + 1..]);
  }

  method Itoa64(num: Int64, str: array<char>, base: int, upperCase: bool)
    requires 2 <= base <= 36 && |SignedText(num, base, upperCase, -TWO63)| < str.Length
    modifies str
    ensures var text := SignedText(num, base, upperCase, -TWO63);
            str[..] == text + ['\0'] + old(str[..])[|text| + 1..]
    ensures base == 10 && num > -TWO63 ==> SignedText(num, base, upperCase, -TWO63) == SignedDecimal(num)
  {
    SignedTextIsDecimal(num, upperCase, -TWO63);
    FormatSigned(num, str, base, upperCase, -TWO63);
    ghost var text := SignedText(num, base, upperCase, -TWO63);
    HoldsMeans(str[..], text, old(str[..])[|text| + 1..]);
  }

  // ---------- What the text is ----------

  lemma {:induction false} CDigitsAreDigits(num: nat, base: int, upperCase: bool)
    requires 2 <= base <= 36
    ensures CDigits(num, base, upperCase) == Digits(num, base, upperCase)
    decreases num
  {
    if num != 0 {
      Shrinks(num, base);
      CDigitsAreDigits(num / base, base, upperCase);
    }
  }

  /** An unsigned conversion writes the numeral. */
  lemma UnsignedTextIsNumeral(num: nat, base: int, upperCase: bool)
    requires 2 <= base <= 36
    ensures UnsignedText(num, base, upperCase) == Numeral(num, base, upperCase)
  {
    CDigitsAreDigits(num, base, upperCase);
  }

  /** A signed conversion in base ten writes sign and numeral, except for the most negative value. */
  lemma SignedTextIsDecimal(num: int, upperCase: bool, least: int)
    ensures num > least || num >= 0 ==> SignedText(num, 10, upperCase, least) == SignedDecimal(num)
  {
    CDigitsAreDigits(Integers.Abs(num), 10, upperCase);
    DecimalHasNoCase(Integers.Abs(num), upperCase);
  }

  lemma {:induction false} DecimalHasNoCase(n: nat, upperCase: bool)
    ensures Digits(n, 10, upperCase) == Digits(n, 10, false)
  {
    if n != 0 {
      DecimalHasNoCase(n / 10, upperCase);
    }
  }

  /** The character below the digit zero by the value of a digit. */
  predicate IsBelowZero(low: char, digit: char) {
    DigitValue(digit) <= 36 < '0' as int && low as int == '0' as int - DigitValue(digit)
  }

  /** A negative number, digit by digit: each comes out as the character that lies below '0' by its value. */
  lemma {:induction false} NegativeDigits(num: int, base: int, upperCase: bool)
    requires 2 <= base <= 36 && num <= 0
    ensures var low, digits := CDigits(num, base, upperCase), Digits(-num, base, upperCase);
            |low| == |digits| && forall i | 0 <= i < |low| :: IsBelowZero(low[i], digits[i])
    decreases Integers.Abs(num)
  {
    if num != 0 {
      QuotientShrinks(num, base);
      Shrinks(-num, base);
      DigitRoundTrip(-num % base, upperCase);
      NegativeDigits(Libgcc.TruncQuotient(num, base), base, upperCase);
      assert Libgcc.TruncQuotient(num, base) == -(-num / base) && Libgcc.TruncRemainder(num, base) == -(-num % base);
    }
  }

  /**
   * What is written for a negative number in another base than ten, and behind the sign for the most negative one:
   * as many characters as its magnitude has digits, but each as far below '0' as its digit is above it.
   */
  lemma NegativeText(num: int, base: int, upperCase: bool, least: int)
    requires 2 <= base <= 36 && num < 0 && (base != 10 || num == least)
    ensures var sign := if base == 10 then "-" else "";
            var text, digits := SignedText(num, base, upperCase, least), Numeral(-num, base, upperCase);
            |text| == |sign| + |digits| && text[..|sign|] == sign
            && forall i | 0 <= i < |digits| :: text[|sign| + i] as int == '0' as int - DigitValue(digits[i])
  {
    NegativeDigits(num, base, upperCase);
    var low, digits := CDigits(num, base, upperCase), Digits(-num, base, upperCase);
    assert forall i | 0 <= i < |digits| :: IsBelowZero(low[i], digits[i]);
    hide CDigits, Digits;
  }

  /** None of these characters is a digit but '0'. */
  lemma NegativeDigitsAreLow(num: int, base: int, upperCase: bool)
    requires 2 <= base <= 36 && num <= 0
    ensures forall i | 0 <= i < |CDigits(num, base, upperCase)| :: CDigits(num, base, upperCase)[i] <= '0'
  {
    NegativeDigits(num, base, upperCase);
    var low, digits := CDigits(num, base, upperCase), Digits(-num, base, upperCase);
    forall i | 0 <= i < |low|
      ensures low[i] <= '0'
    {
      assert IsBelowZero(low[i], digits[i]);
    }
  }
}
