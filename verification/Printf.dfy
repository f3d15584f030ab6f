/** Formatted output: what vsprintf writes for a format string and its arguments. */
module Printf {
  import opened Words
  import opened Options
  import opened Numerals
  import opened Stdlib
  import opened Strto
  import Integers
  import Libgcc

  /** One variable argument. */
  datatype Arg =
    | TextArg(text: string)
    | CharArg(c: char)
    | IntArg(i: Int32)
    | WordArg(w: UInt32)
    | LongArg(l: Int64)
    | LongWordArg(lw: UInt64)

  /** What one conversion prints, how many arguments it takes and where the format goes on. */
  datatype Conversion = Conversion(text: string, taken: nat, next: nat)

  function Zeros(n: nat): (z: string)
    ensures |z| == n && forall k | 0 <= k < n :: z[k] == '0'
  {
    Repeated('0', n)
  }

  /** Zero padding on the left up to a width, which C compares as an unsigned number. */
  function Padded(text: string, width: Int32): string {
    Zeros(if ToUInt32(width) > |text| then ToUInt32(width) - |text| else 0) + text
  }

  /** The text of a 64-bit signed number: sign, then magnitude. */
  function LongText(n: Int64): string {
    if n < 0 then "-" + Numeral(Libgcc.Magnitude(n), 10, false) else Numeral(n, 10, false)
  }

  /** The width before a conversion character, zero when there is none. */
  function WidthAt(format: string, i: nat): Int32
    requires i <= |format|
  {
    if SkipDigits(format, i, 10) > i then StrtolResult(format[i..], 10).0 else 0
  }

  /** Where the conversion character stands, after width and precision. */
  function ConversionAt(format: string, i: nat): (k: nat)
    requires i <= |format|
    ensures i <= k <= |format|
  {
    var k := SkipDigits(format, i, 10);
    if At(format, k) == '.' then SkipDigits(format, k + 1, 10) else k
  }

  /**
   * The conversion whose character stands at k. None where the arguments do not match the format,
   * where the format ends inside a conversion, and for floating point, which is not modelled.
   */
  function Convert(format: string, k: nat, width: Int32, args: seq<Arg>): (r: Option<Conversion>)
    requires k <= |format| && '\0' !in format
    ensures r.Some? ==> k < r.value.next <= |format| && r.value.taken <= |args|
  {
    if k == |format| then None
    else
      match format[k]
      case 's' => if args != [] && args[0].TextArg? && '\0' !in args[0].text
                  then Some(Conversion(args[0].text, 1, k + 1)) else None
      case 'c' => if args != [] && args[0].CharArg? then Some(Conversion([args[0].c], 1, k + 1)) else None
      case 'p' => if args != [] && args[0].WordArg?
                  then Some(Conversion("0x" + Numeral(args[0].w, 16, false), 1, k + 1)) else None
      case 'd' => ConvertInt(k, width, args)
      case 'i' => ConvertInt(k, width, args)
      case 'u' => if args != [] && args[0].WordArg?
                  then Some(Conversion(Padded(Numeral(args[0].w, 10, false), width), 1, k + 1)) else None
      case 'b' => ConvertWord(k, 2, false, args)
      case 'x' => ConvertWord(k, 16, false, args)
      case 'X' => ConvertWord(k, 16, true, args)
      case 'z' => if At(format, k + 1) == 'u' then ConvertWord(k + 1, 10, false, args)
                  else Some(Conversion("%z", 0, k + 1))
      case 'l' => if At(format, k + 1) == 'd' then ConvertLong(k + 1, args)
                  else if At(format, k + 1) == 'u' then ConvertWord(k + 1, 10, false, args)
                  else if At(format, k + 1) != 'l' then Some(Conversion("%l", 0, k + 1))
                  else if At(format, k + 2) == 'd' then ConvertLong(k + 2, args)
                  else if At(format, k + 2) == 'u' then ConvertLongWord(k + 2, 10, false, args)
                  else if At(format, k + 2) == 'x' then ConvertLongWord(k + 2, 16, false, args)
                  else if At(format, k + 2) == 'X' then ConvertLongWord(k + 2, 16, true, args)
                  else Some(Conversion("%ll", 0, k + 2))
      case 'f' => None
      case c => Some(Conversion(['%', c], 0, k + 1))
  }

  function ConvertInt(k: nat, width: Int32, args: seq<Arg>): Option<Conversion> {
    if args != [] && args[0].IntArg?
    then Some(Conversion(Padded(SignedText(args[0].i, 10, false, -TWO31), width), 1, k + 1)) else None
  }

  function ConvertWord(k: nat, base: nat, upperCase: bool, args: seq<Arg>): Option<Conversion>
    requires 2 <= base <= 36
  {
    if args != [] && args[0].WordArg?
    then Some(Conversion(Numeral(args[0].w, base, upperCase), 1, k + 1)) else None
  }

  function ConvertLong(k: nat, args: seq<Arg>): Option<Conversion> {
    if args != [] && args[0].LongArg? then Some(Conversion(LongText(args[0].l), 1, k + 1)) else None
  }

  function ConvertLongWord(k: nat, base: nat, upperCase: bool, args: seq<Arg>): Option<Conversion>
    requires 2 <= base <= 36
  {
    if args != [] && args[0].LongWordArg?
    then Some(Conversion(Numeral(args[0].lw, base, upperCase), 1, k + 1)) else None
  }

  function Prepend(text: string, rest: Option<string>): Option<string> {
    if rest.None? then None else Some(text + rest.value)
  }

  /** Everything printed from position i of the format on. */
  function FormatFrom(format: string, i: nat, args: seq<Arg>): Option<string>
    requires i <= |format| && '\0' !in format
    decreases |format| - i
  {
    if i == |format| then Some("")
    else if format[i] != '%' then Prepend([format[i]], FormatFrom(format, i + 1, args))
    else if At(format, i + 1) == '%' then Prepend("%", FormatFrom(format, i + 2, args))
    else
      var c := Convert(format, ConversionAt(format, i + 1), WidthAt(format, i + 1), args);
      if c.None? then None
      else Prepend(c.value.text, FormatFrom(format, c.value.next, args[c.value.taken..]))
  }

  /** The text vsprintf writes. */
  function FormatText(format: string, args: seq<Arg>): Option<string>
    requires '\0' !in format
  {
    FormatFrom(format, 0, args)
  }

  /** How the format walk passes a conversion. */
  lemma FormatStep(format: string, i: nat, args: seq<Arg>, c: Conversion)
    requires i < |format| && '\0' !in format && format[i] == '%' && At(format, i + 1) != '%'
    requires Convert(format, ConversionAt(format, i + 1), WidthAt(format, i + 1), args) == Some(c)
    ensures FormatFrom(format, i, args) == Prepend(c.text, FormatFrom(format, c.next, args[c.taken..]))
  {
    hide Convert, ConversionAt, WidthAt;
  }

  // ---------- The loop ----------

  lemma TextHasNoNul(num: int, base: int, upperCase: bool, least: int)
    requires 2 <= base <= 36
    ensures '\0' !in SignedText(num, base, upperCase, least)
    ensures num >= 0 ==> '\0' !in Numeral(num, base, upperCase)
  {
    CDigitsHaveNoNul(num, base, upperCase);
    CDigitsHaveNoNul(if num == least then num else -num, base, upperCase);
    if num >= 0 {
      CDigitsAreDigits(num, base, upperCase);
    }
  }

  lemma {:induction false} CDigitsHaveNoNul(num: int, base: int, upperCase: bool)
    requires 2 <= base <= 36
    ensures '\0' !in CDigits(num, base, upperCase)
    decreases Integers.Abs(num)
  {
    if num != 0 {
      QuotientShrinks(num, base);
      CDigitsHaveNoNul(Libgcc.TruncQuotient(num, base), base, upperCase);
    }
  }

  /** The digit count does not depend on the sign. */
  lemma {:induction false} CDigitsLength(num: int, base: int, upperCase: bool)
    requires 2 <= base <= 36
    ensures |CDigits(num, base, upperCase)| == |Digits(Integers.Abs(num), base, upperCase)|
    decreases Integers.Abs(num)
  {
    if num != 0 {
      QuotientShrinks(num, base);
      QuotientSize(num, base);
      hide Libgcc.TruncQuotient, Libgcc.TruncRemainder, Integers.Abs;
      CDigitsLength(Libgcc.TruncQuotient(num, base), base, upperCase);
    }
  }

  lemma QuotientSize(num: int, base: int)
    requires base >= 1
    ensures Integers.Abs(Libgcc.TruncQuotient(num, base)) == Integers.Abs(num) / base
  {
    var q := Integers.Abs(num) / base;
    assert Integers.Abs(base) == base;
    assert Libgcc.TruncQuotient(num, base) == if num < 0 then -q else q;
    NotNegative(Integers.Abs(num), base);
    hide Libgcc.TruncQuotient;
  }

  lemma NotNegative(n: nat, base: int)
    requires base >= 1
    ensures n / base >= 0
  {
  }

  /** The 40-byte scratch buffer holds any number this formatter converts. */
  lemma SignedScratchSuffices(num: Int32)
    ensures |SignedText(num, 10, false, -TWO31)| < 40
  {
    WordNumeralFits(Integers.Abs(num), 10, false);
    CDigitsLength(num, 10, false);
    CDigitsLength(-(num as int), 10, false);
    hide CDigits, Digits;
  }

  /** Text was written at a position of a buffer; beyond limit, and before the position, nothing changed. */
  ghost predicate Wrote(before: seq<char>, after: seq<char>, at: nat, text: string, limit: nat) {
    && |after| == |before| && at + |text| <= limit < |before|
    && after[..at] == before[..at]
    && after[at..at + |text|] == text
    && after[limit + 1..] == before[limit + 1..]
  }

  /** Writing one text after another writes their concatenation. */
  lemma WroteTwice(first: seq<char>, second: seq<char>, third: seq<char>, at: nat, s: string, t: string, m: nat,
                   limit: nat)
    requires Wrote(first, second, at, s, m) && m <= limit
    requires Wrote(second, third, at + |s|, t, limit)
    ensures Wrote(first, third, at, s + t, limit)
  {
    assert third[..at] == third[..at + |s|][..at];
    assert third[at..at + |s|] == third[..at + |s|][at..];
    assert third[at..at + |s| + |t|] == third[at..at + |s|] + third[at + |s|..at + |s| + |t|];
    assert second[limit + 1..] == second[m + 1..][limit - m..];
    assert first[limit + 1..] == first[m + 1..][limit - m..];
  }

  lemma WroteWithin(before: seq<char>, after: seq<char>, at: nat, text: string, limit: nat, wider: nat)
    requires Wrote(before, after, at, text, limit) && limit <= wider < |before|
    ensures Wrote(before, after, at, text, wider)
  {
    assert after[wider + 1..] == after[limit + 1..][wider - limit..];
    assert before[wider + 1..] == before[limit + 1..][wider - limit..];
  }

  /** strcpy: copies the terminated text held in one buffer to a place in another. */
  method StrCpy(dest: array<char>, at: nat, src: array<char>, ghost text: string)
    requires dest != src && |text| < src.Length && src[..|text|] == text && src[|text|] == '\0' && '\0' !in text
    requires at + |text| < dest.Length
    modifies dest
    ensures Wrote(old(dest[..]), dest[..], at, text, at + |text|)
  {
    assert forall k | 0 <= k < |text| :: src[..|text|][k] == src[k] == text[k] && text[k] in text;
    var i := 0;
    while src[i] != '\0'
      invariant i <= |text|
      invariant Wrote(old(dest[..]), dest[..], at, text[..i], at + |text|)
      decreases |text| - i
    {
      dest[at + i] := src[i];
      i := i + 1;
    }
    dest[at + i] := src[i];
  }

  /** Copies the number in the scratch buffer to the output, behind zeros up to the width. */
  method PutPadded(str: array<char>, out: nat, numStr: array<char>, width: Int32, ghost text: string) returns (end: nat)
    requires str != numStr && |text| < numStr.Length
    requires numStr[..|text|] == text && numStr[|text|] == '\0' && '\0' !in text
    requires out + |Padded(text, width)| < str.Length
    modifies str
    ensures end == out + |Padded(text, width)|
    ensures Wrote(old(str[..]), str[..], out, Padded(text, width), end)
  {
    hide *;
    PaddedIs(text, width);
    var len := StrLen(numStr, text);
    end := out;
    ghost var zeros := "";
    WroteEmpty(str[..], out);
    if ToUInt32(width) > len {
      zeros := Zeros(ToUInt32(width) - len);
      MemSet(str, end, '0', ToUInt32(width) - len);
      end := end + (ToUInt32(width) - len);
    }
    ghost var middle := str[..];
    StrCpy(str, end, numStr, text);
    WroteTwice(old(str[..]), middle, str[..], out, zeros, text, end, end + |text|);
    end := end + len;
  }

  lemma PaddedIs(text: string, width: Int32)
    ensures Padded(text, width)
            == if ToUInt32(width) > |text| then Zeros(ToUInt32(width) - |text|) + text else "" + text
    ensures |Padded(text, width)| == if ToUInt32(width) > |text| then ToUInt32(width) else |text|
  {
  }

  lemma WroteEmpty(before: seq<char>, at: nat)
    requires at < |before|
    ensures Wrote(before, before, at, "", at)
  {
  }

  method StrLen(src: array<char>, ghost text: string) returns (len: nat)
    requires |text| < src.Length && src[..|text|] == text && src[|text|] == '\0' && '\0' !in text
    ensures len == |text|
  {
    assert forall k | 0 <= k < |text| :: src[..|text|][k] == src[k] == text[k] && text[k] in text;
    len := 0;
    while src[len] != '\0'
      invariant len <= |text|
      decreases |text| - len
    {
      len := len + 1;
    }
  }

  method MemSet(str: array<char>, at: nat, c: char, count: nat)
    requires at + count < str.Length
    modifies str
    ensures Wrote(old(str[..]), str[..], at, Repeated(c, count), at + count)
  {
    for i := 0 to count
      invariant Wrote(old(str[..]), str[..], at, Repeated(c, i), at + count)
    {
      str[at + i] := c;
    }
  }

  /** Converts a number into the scratch buffer and copies it to the output. */
  method PutUnsigned(str: array<char>, out: nat, numStr: array<char>, num: UInt64, base: nat, upperCase: bool,
                     width: Int32)
    returns (end: nat)
    requires str != numStr && numStr.Length == 40 && 2 <= base <= 36
    requires |Numeral(num, base, upperCase)| < 40
    requires out + |Padded(Numeral(num, base, upperCase), width)| < str.Length
    modifies str, numStr
    ensures end == out + |Padded(Numeral(num, base, upperCase), width)|
    ensures Wrote(old(str[..]), str[..], out, Padded(Numeral(num, base, upperCase), width), end)
  {
    UItoa64(num, numStr, base, upperCase);
    TextHasNoNul(num, base, upperCase, 0);
    hide Numeral, Padded;
    end := PutPadded(str, out, numStr, width, Numeral(num, base, upperCase));
  }

  method PutSigned(str: array<char>, out: nat, numStr: array<char>, num: Int32, width: Int32) returns (end: nat)
    requires str != numStr && numStr.Length == 40
    requires out + |Padded(SignedText(num, 10, false, -TWO31), width)| < str.Length
    modifies str, numStr
    ensures end == out + |Padded(SignedText(num, 10, false, -TWO31), width)|
    ensures Wrote(old(str[..]), str[..], out, Padded(SignedText(num, 10, false, -TWO31), width), end)
  {
    SignedScratchSuffices(num);
    Itoa(num, numStr, 10, false);
    TextHasNoNul(num, 10, false, -TWO31);
    hide SignedText, Padded;
    end := PutPadded(str, out, numStr, width, SignedText(num, 10, false, -TWO31));
  }

  lemma NoPadding(text: string)
    ensures Padded(text, 0) == text
  {
  }

  /** Writes a short literal text. */
  method PutLiteral(str: array<char>, out: nat, text: string) returns (end: nat)
    requires out + |text| < str.Length
    modifies str
    ensures end == out + |text| && Wrote(old(str[..]), str[..], out, text, end)
  {
    for i := 0 to |text|
      invariant Wrote(old(str[..]), str[..], out, text[..i], out + |text|)
    {
      str[out + i] := text[i];
    }
    end := out + |text|;
  }

  /** A prefix and then an unpadded number. */
  method PutPrefixed(str: array<char>, out: nat, numStr: array<char>, prefix: string, num: UInt64, base: nat,
                     upperCase: bool)
    returns (end: nat)
    requires str != numStr && numStr.Length == 40 && 2 <= base <= 36
    requires |Numeral(num, base, upperCase)| < 40
    requires out + |prefix + Numeral(num, base, upperCase)| < str.Length
    modifies str, numStr
    ensures end == out + |prefix + Numeral(num, base, upperCase)|
    ensures Wrote(old(str[..]), str[..], out, prefix + Numeral(num, base, upperCase), end)
  {
    hide Numeral, Padded;
    NoPadding(Numeral(num, base, upperCase));
    var m := PutLiteral(str, out, prefix);
    ghost var middle := str[..];
    end := PutUnsigned(str, m, numStr, num, base, upperCase, 0);
    WroteTwice(old(str[..]), middle, str[..], out, prefix, Numeral(num, base, upperCase), m, end);
  }

  /** The switch over the conversion character. */
  method EmitConversion(str: array<char>, out: nat, numStr: array<char>, format: string, k: nat, width: Int32,
                        args: seq<Arg>)
    returns (end: nat, taken: nat, next: nat)
    requires k <= |format| && '\0' !in format && str != numStr && numStr.Length == 40
    requires Convert(format, k, width, args).Some?
    requires out + |Convert(format, k, width, args).value.text| < str.Length
    modifies str, numStr
    ensures var c := Convert(format, k, width, args).value;
            end == out + |c.text| && taken == c.taken && next == c.next
            && Wrote(old(str[..]), str[..], out, c.text, end)
  {
    hide Numeral, Padded, Wrote, SignedText;
    taken, next := 1, k + 1;
    match format[k] {
      case 's' =>
        end := PutLiteral(str, out, args[0].text);
      case 'c' =>
        end := PutLiteral(str, out, [args[0].c]);
      case 'p' =>
        WordNumeralFits(args[0].w, 16, false);
        end := PutPrefixed(str, out, numStr, "0x", args[0].w, 16, false);
      case 'd' =>
        end := PutSigned(str, out, numStr, args[0].i, width);
      case 'i' =>
        end := PutSigned(str, out, numStr, args[0].i, width);
      case 'u' =>
        WordNumeralFits(args[0].w, 10, false);
        end := PutUnsigned(str, out, numStr, args[0].w, 10, false, width);
      case 'b' =>
        end := PutWord(str, out, numStr, args[0].w, 2, false);
      case 'x' =>
        end := PutWord(str, out, numStr, args[0].w, 16, false);
      case 'X' =>
        end := PutWord(str, out, numStr, args[0].w, 16, true);
      case 'z' =>
        if At(format, k + 1) == 'u' {
          next := k + 2;
          end := PutWord(str, out, numStr, args[0].w, 10, false);
        } else {
          taken := 0;
          end := PutLiteral(str, out, "%z");
        }
      case 'l' =>
        end, taken, next := EmitLong(str, out, numStr, format, k, width, args);
      case c =>
        taken := 0;
        end := PutLiteral(str, out, ['%', c]);
    }
  }

  method PutWord(str: array<char>, out: nat, numStr: array<char>, num: UInt32, base: nat, upperCase: bool)
    returns (end: nat)
    requires str != numStr && numStr.Length == 40 && 2 <= base <= 36
    requires out + |Numeral(num, base, upperCase)| < str.Length
    modifies str, numStr
    ensures end == out + |Numeral(num, base, upperCase)|
    ensures Wrote(old(str[..]), str[..], out, Numeral(num, base, upperCase), end)
  {
    hide Numeral, Padded;
    WordNumeralFits(num, base, upperCase);
    NoPadding(Numeral(num, base, upperCase));
    end := PutUnsigned(str, out, numStr, num, base, upperCase, 0);
  }

  method PutLong(str: array<char>, out: nat, numStr: array<char>, num: Int64) returns (end: nat)
    requires str != numStr && numStr.Length == 40
    requires out + |LongText(num)| < str.Length
    modifies str, numStr
    ensures end == out + |LongText(num)| && Wrote(old(str[..]), str[..], out, LongText(num), end)
  {
    LongNumeralFits(Libgcc.Magnitude(num), 10, false);
    if num < 0 {
      end := PutPrefixed(str, out, numStr, "-", Libgcc.Magnitude(num), 10, false);
    } else {
      assert "" + LongText(num) == LongText(num);
      end := PutPrefixed(str, out, numStr, "", num, 10, false);
    }
  }

  method PutLongWord(str: array<char>, out: nat, numStr: array<char>, num: UInt64, base: nat, upperCase: bool)
    returns (end: nat)
    requires str != numStr && numStr.Length == 40 && base in {10, 16}
    requires out + |Numeral(num, base, upperCase)| < str.Length
    modifies str, numStr
    ensures end == out + |Numeral(num, base, upperCase)|
    ensures Wrote(old(str[..]), str[..], out, Numeral(num, base, upperCase), end)
  {
    hide Numeral, Padded;
    LongNumeralFits(num, base, upperCase);
    NoPadding(Numeral(num, base, upperCase));
    end := PutUnsigned(str, out, numStr, num, base, upperCase, 0);
  }

  /** The long variants of the switch. */
  method EmitLong(str: array<char>, out: nat, numStr: array<char>, format: string, k: nat, width: Int32, args: seq<Arg>)
    returns (end: nat, taken: nat, next: nat)
    requires k < |format| && '\0' !in format && format[k] == 'l' && str != numStr && numStr.Length == 40
    requires Convert(format, k, width, args).Some?
    requires out + |Convert(format, k, width, args).value.text| < str.Length
    modifies str, numStr
    ensures var c := Convert(format, k, width, args).value;
            end == out + |c.text| && taken == c.taken && next == c.next
            && Wrote(old(str[..]), str[..], out, c.text, end)
  {
    hide Numeral, Padded, Wrote, SignedText, LongText;
    taken, next := 1, k + 2;
    if At(format, k + 1) == 'd' {
      end := PutLong(str, out, numStr, args[0].l);
    } else if At(format, k + 1) == 'u' {
      end := PutWord(str, out, numStr, args[0].w, 10, false);
    } else if At(format, k + 1) == 'l' {
      next := k + 3;
      if At(format, k + 2) == 'd' {
        end := PutLong(str, out, numStr, args[0].l);
      } else if At(format, k + 2) == 'u' {
        end := PutLongWord(str, out, numStr, args[0].lw, 10, false);
      } else if At(format, k + 2) == 'x' {
        end := PutLongWord(str, out, numStr, args[0].lw, 16, false);
      } else if At(format, k + 2) == 'X' {
        end := PutLongWord(str, out, numStr, args[0].lw, 16, true);
      } else {
        taken, next := 0, k + 2;
        end := PutLiteral(str, out, "%ll");
      }
    } else {
      taken, next := 0, k + 1;
      end := PutLiteral(str, out, "%l");
    }
  }

  /** Moves past decimal digits. */
  method SkipNumber(format: string, from: nat) returns (i: nat)
    requires from <= |format|
    ensures i == SkipDigits(format, from, 10)
  {
    i := from;
    while i < |format| && IsDecimalDigit(format[i])
      invariant from <= i <= |format| && SkipDigits(format, from, 10) == SkipDigits(format, i, 10)
    {
      i := i + 1;
    }
  }

  /** Reads width and precision, and finds the conversion character. */
  method ParseWidth(format: string, from: nat) returns (width: Int32, k: nat)
    requires from <= |format| && '\0' !in format
    ensures width == WidthAt(format, from) && k == ConversionAt(format, from)
  {
    width, k := 0, from;
    if k < |format| && IsDecimalDigit(format[k]) {
      width := Atoi(format[k..]);
      k := SkipNumber(format, k);
    }
    hide StrtolResult;
    if At(format, k) == '.' {
      k := SkipNumber(format, k + 1);
    }
  }

  lemma WroteNothing(before: seq<char>, text: string)
    requires |text| < |before|
    ensures Wrote(before, before, 0, text[..0], |text|)
  {
  }

  lemma WroteAll(before: seq<char>, after: seq<char>, text: string)
    requires Wrote(before, after, 0, text[..|text|], |text|)
    ensures |after| == |before| > |text| && after[..|text|] == text && after[|text| + 1..] == before[|text| + 1..]
  {
    assert text[..|text|] == text;
  }

  /** One loop pass: the piece is appended to what was written, and taken off what remains. */
  lemma PieceWritten(text: string, start: nat, piece: string, first: seq<char>, before: seq<char>, after: seq<char>,
                     out: nat)
    requires start <= |text| && piece <= text[start..] && out == start + |piece|
    requires Wrote(first, before, 0, text[..start], |text|) && Wrote(before, after, start, piece, out)
    ensures Wrote(first, after, 0, text[..out], |text|)
    ensures text[start..][|piece|..] == text[out..]
  {
    TextConsumed(text, start, piece);
    WroteWithin(before, after, start, piece, out, |text|);
    WroteTwice(first, before, after, 0, text[..start], piece, |text|, |text|);
  }

  /**
   * vsprintf: writes the formatted text and its terminator, and nothing else, and returns its length.
   * The buffer must have room, which the original leaves to its caller.
   */
  method VSPrintf(str: array<char>, format: string, arguments: seq<Arg>) returns (written: nat)
    requires '\0' !in format && FormatText(format, arguments).Some?
    requires |FormatText(format, arguments).value| < str.Length
    modifies str
    ensures var text := FormatText(format, arguments).value;
            written == |text| && str[..] == text + ['\0'] + old(str[..])[|text| + 1..]
  {
    hide Convert, SkipDigits, StrtolResult, WidthAt, ConversionAt, Wrote, FormatFrom, Prepend;
    ghost var text := FormatText(format, arguments).value;
    var numStr := new char[40];
    var out, i, args := 0, 0, arguments;
    WroteNothing(str[..], text);
    while i < |format|
      invariant 0 <= i <= |format| && 0 <= out <= |text|
      invariant FormatFrom(format, i, args) == Some(text[out..])
      invariant Wrote(old(str[..]), str[..], 0, text[..out], |text|)
    {
      ghost var before := str[..];
      ghost var piece, start := "", out;
      FormatTurn(format, i, args, text[out..]);
      if format[i] != '%' {
        piece := [format[i]];
        out := PutLiteral(str, out, [format[i]]);
        i := i + 1;
      } else if At(format, i + 1) == '%' {
        piece := "%";
        out := PutLiteral(str, out, "%");
        i := i + 2;
      } else {
        var width;
        width, i := ParseWidth(format, i + 1);
        piece := Convert(format, i, width, args).value.text;
        var taken, next;
        out, taken, next := EmitConversion(str, out, numStr, format, i, width, args);
        args := args[taken..];
        i := next;
      }
      PieceWritten(text, start, piece, old(str[..]), before, str[..], out);
    }
    NothingLeft(format, args);
    written := out;
    WroteAll(old(str[..]), str[..], text);
    str[out] := '\0';
    HoldsMeans(str[..], text, old(str[..])[|text| + 1..]);
  }

  lemma NothingLeft(format: string, args: seq<Arg>)
    requires '\0' !in format
    ensures FormatFrom(format, |format|, args) == Some("")
  {
  }

  /** One turn of the format walk: a piece of the text, and the rest of it from the next place on. */
  lemma FormatTurn(format: string, i: nat, args: seq<Arg>, rest: string)
    requires i < |format| && '\0' !in format && FormatFrom(format, i, args) == Some(rest)
    ensures if format[i] != '%' then
              [format[i]] <= rest && FormatFrom(format, i + 1, args) == Some(rest[1..])
            else if At(format, i + 1) == '%' then
              "%" <= rest && FormatFrom(format, i + 2, args) == Some(rest[1..])
            else
              var c := Convert(format, ConversionAt(format, i + 1), WidthAt(format, i + 1), args);
              c.Some? && c.value.text <= rest
              && FormatFrom(format, c.value.next, args[c.value.taken..]) == Some(rest[|c.value.text|..])
  {
    hide Convert, ConversionAt, WidthAt, Prepend;
    if format[i] != '%' {
      Prepended([format[i]], FormatFrom(format, i + 1, args), rest);
    } else if At(format, i + 1) == '%' {
      Prepended("%", FormatFrom(format, i + 2, args), rest);
    } else {
      var c := Convert(format, ConversionAt(format, i + 1), WidthAt(format, i + 1), args);
      if c.Some? {
        Prepended(c.value.text, FormatFrom(format, c.value.next, args[c.value.taken..]), rest);
      }
    }
  }

  lemma Prepended(text: string, tail: Option<string>, rest: string)
    requires Prepend(text, tail) == Some(rest)
    ensures text <= rest && tail == Some(rest[|text|..])
  {
  }

  /** Splitting off a piece of the remaining text. */
  lemma TextConsumed(text: string, start: nat, piece: string)
    requires start <= |text| && piece <= text[start..]
    ensures text[..start + |piece|] == text[..start] + piece
    ensures text[start..] == piece + text[start + |piece|..]
    ensures text[start..][|piece|..] == text[start + |piece|..]
  {
    assert text[start..start + |piece|] == piece;
  }

  /** The cells that vsnprintf writes to its target: at most size characters of the text, and the terminator. */
  function CellsWritten(text: string, size: nat): nat {
    (if |text| < size then |text| else size) + 1
  }

  /** It keeps to the size given, and to its 1024-byte scratch array, exactly for texts shorter than both. */
  lemma StaysWithinSizeIff(text: string, size: nat)
    ensures CellsWritten(text, size) <= size && |text| + 1 <= 1024 <==> |text| < size && |text| < 1024
    ensures |text| >= size ==> CellsWritten(text, size) == size + 1
  {
  }

  /** The documented result is the length of the whole text; what is returned is that of the cut one. */
  lemma ReturnsLengthIff(text: string, size: nat)
    ensures CellsWritten(text, size) - 1 == |text| <==> |text| <= size
  {
  }

  /** A text with room for two puts its terminator in a third cell, and one with room for one is not counted whole. */
  lemma SizeExample()
    ensures FormatText("ab", []) == Some("ab") && CellsWritten("ab", 2) == 3 && CellsWritten("ab", 1) == 2
  {
    assert FormatFrom("ab", 2, []) == Some("");
    assert ['b'] + "" == "b" && FormatFrom("ab", 1, []) == Some("b");
    assert ['a'] + "b" == "ab";
  }

  /**
   * vsnprintf: the text is formatted into a 1024-byte buffer, and its first characters, at most size of
   * them, are copied; the terminator follows the last one, so the buffer needs a cell for it.
   */
  method VSNPrintf(str: array<char>, size: nat, format: string, args: seq<Arg>) returns (written: nat)
    requires '\0' !in format && FormatText(format, args).Some?
    requires |FormatText(format, args).value| < 1024
    requires CellsWritten(FormatText(format, args).value, size) <= str.Length
    modifies str
    ensures var text := FormatText(format, args).value;
            written == (if |text| < size then |text| else size) && written + 1 == CellsWritten(text, size)
            && str[..] == text[..written] + ['\0'] + old(str[..])[written + 1..]
    ensures written == |FormatText(format, args).value| <==> |FormatText(format, args).value| <= size
  {
    var buffer := new char[1024](_ => '\0');
    written := VSPrintf(buffer, format, args);
    if written > size {
      written := size;
    }
    ghost var text := FormatText(format, args).value;
    assert buffer[..written] == buffer[..][..written] == text[..written];
    MemCpy(str, buffer, written, text[..written]);
    str[written] := '\0';
    HoldsMeans(str[..], text[..written], old(str[..])[written + 1..]);
  }

  method MemCpy(dest: array<char>, src: array<char>, count: nat, ghost text: string)
    requires dest != src && count == |text| < dest.Length && count <= src.Length && src[..count] == text
    modifies dest
    ensures dest[..count] == text && dest[count..] == old(dest[count..])
  {
    for i := 0 to count
      invariant dest[..i] == text[..i] && dest[count..] == old(dest[count..])
    {
      assert src[i] == src[..count][i];
      dest[i] := src[i];
    }
  }
}
