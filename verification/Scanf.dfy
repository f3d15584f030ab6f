/** Formatted input: what vsscanf assigns for an input and a format string. */
module Scanf {
  import opened Words
  import opened Options
  import opened Numerals
  import opened Strto

  /** A value stored through one of the pointer arguments. */
  datatype Item =
    | IntItem(i: Int32)
    | WordItem(w: UInt32)
    | CharItem(c: char)
    | TextItem(text: string)

  /** The white space the scanner skips in its input. */
  predicate IsBlank(c: char) {
    c == ' ' || c == '\t' || c == '\n' || c == '\r'
  }

  /** The white space that stands for any white space in a format. */
  predicate IsFormatBlank(c: char) {
    c == ' ' || c == '\t' || c == '\n'
  }

  /** The first position from i on whose character fails the test. */
  function SkipWhile(s: string, i: nat, test: char -> bool): (j: nat)
    requires i <= |s|
    ensures RunEnds(s, i, test, j)
    decreases |s| - i
  {
    if i < |s| && test(s[i]) then SkipWhile(s, i + 1, test) else i
  }

  // ---------- The number parsers ----------

  /** A run of digits of a base at p: its value, cut to a word, and where it ends; None without a digit. */
  function ParseRun(s: string, p: nat, base: nat): (r: Option<(nat, nat)>)
    requires p <= |s| && base <= 36
    ensures r.Some? ==> p < r.value.1 <= |s|
  {
    var end := SkipDigits(s, p, base);
    if end == p then None else Some((Value(s[p..end], base), end))
  }

  function ParseInt(s: string, p: nat): (r: Option<(Item, nat)>)
    requires p <= |s|
    ensures r.Some? ==> p < r.value.1 <= |s| && r.value.0.IntItem?
  {
    var q := SkipWhile(s, p, IsBlank);
    var start := if IsSign(At(s, q)) then q + 1 else q;
    var run := ParseRun(s, start, 10);
    if run.None? then None else Some((IntItem(ToInt32(run.value.0 * Sign(At(s, q)))), run.value.1))
  }

  function ParseWord(s: string, p: nat, base: nat): (r: Option<(Item, nat)>)
    requires p <= |s| && base in {2, 10, 16}
    ensures r.Some? ==> p < r.value.1 <= |s| && r.value.0.WordItem?
  {
    var q := SkipWhile(s, p, IsBlank);
    var start := if base == 16 && HasHexPrefix(s, q) then q + 2 else q;
    var run := ParseRun(s, start, base);
    if run.None? then None else Some((WordItem(ToUInt32(run.value.0)), run.value.1))
  }

  /** A word of at most width - 1 characters: the last place is kept for the terminator. */
  function ParseText(s: string, p: nat, width: Int32): (r: Option<(Item, nat)>)
    requires p <= |s|
    ensures r.Some? ==> p < r.value.1 <= |s| && r.value.0.TextItem?
  {
    var stop := SkipWhile(s, p, c => !IsSpace(c));
    var end := if stop - p < width - 1 then stop else p + (width - 1);
    if width <= 0 || end <= p then None else Some((TextItem(s[p..end]), end))
  }

  /** The white space that is passed in the input. */
  predicate Blanks(s: string) {
    forall k | 0 <= k < |s| :: s[k] in {' ', '\t', '\n', '\r'}
  }

  lemma BlankIs(c: char)
    ensures Blanks([c]) <==> IsBlank(c)
    ensures DigitValue(c) < 36 || IsSign(c) ==> !IsBlank(c)
  {
    assert [c][0] == c;
  }

  lemma {:induction false} BlanksAreSkipped(s: string, i: nat, end: nat)
    requires i <= end <= |s| && Blanks(s[i..end]) && (end < |s| ==> !IsBlank(s[end]))
    ensures SkipWhile(s, i, IsBlank) == end
    decreases end - i
  {
    if i < end {
      assert s[i] == s[i..end][0] && s[i + 1..end] == s[i..end][1..];
      BlanksAreSkipped(s, i + 1, end);
    }
  }

  /** A numeral in front of what is no digit. */
  lemma RunIsRead(s: string, p: nat, n: nat, base: nat, upperCase: bool, end: nat)
    requires 2 <= base <= 36 && p <= end <= |s| && s[p..end] == Numeral(n, base, upperCase)
    requires end < |s| ==> DigitValue(s[end]) >= base
    ensures p < end && ParseRun(s, p, base) == Some((n, end)) && DigitValue(s[p]) < base
    ensures (s[p] == '0' <==> n == 0) && (n == 0 ==> end == p + 1)
  {
    NumeralIsRead(s, p, n, base, upperCase, end);
    hide Numeral, Value, SkipDigits;
  }

  lemma NoRun(s: string, p: nat, base: nat)
    requires p <= |s| && base <= 36 && (p < |s| ==> DigitValue(s[p]) >= base)
    ensures ParseRun(s, p, base) == None
  {
  }

  /** A sign behind blanks, and where the digits start. */
  lemma SignIsPassedToo(s: string, white: string, sign: string)
    requires Blanks(white) && sign in {"", "+", "-"} && |white + sign| <= |s| && s[..|white + sign|] == white + sign
    requires |white + sign| < |s| && sign == "" ==> !IsBlank(s[|white|]) && !IsSign(s[|white|])
    ensures var q := SkipWhile(s, 0, IsBlank);
            q == |white| && (if IsSign(At(s, q)) then q + 1 else q) == |white + sign|
            && Sign(At(s, q)) == if sign == "-" then -1 else 1
  {
    assert forall k | 0 <= k < |white + sign| :: s[k] == s[..|white + sign|][k];
    assert s[0..|white|] == white;
    BlanksAreSkipped(s, 0, |white|);
  }

  /** What the number parsers read: blanks, a sign or a prefix, and a numeral in front of what is no digit. */
  lemma IntReads(white: string, sign: string, n: nat, tail: string)
    requires Blanks(white) && sign in {"", "+", "-"} && (tail != "" ==> DigitValue(tail[0]) >= 10)
    ensures var number := white + sign + Numeral(n, 10, false);
            ParseInt(number + tail, 0) == Some((IntItem(ToInt32(if sign == "-" then -(n as int) else n)), |number|))
  {
    hide Numeral, ToInt32, ParseRun;
    var front, digits := white + sign, Numeral(n, 10, false);
    var s := front + digits + tail;
    var at, end := |front|, |front + digits|;
    assert s[..at] == front && s[at..end] == digits;
    assert end < |s| ==> s[end] == tail[0];
    RunIsRead(s, at, n, 10, false, end);
    BlankIs(s[at]);
    DigitIsNoSpace(s[at], 10);
    SignIsPassedToo(s, white, sign);
    assert n * 1 == n && n * -1 == -(n as int);
    hide SkipWhile, IsSign, Sign;
  }

  lemma WordReads(white: string, prefix: string, n: nat, base: nat, upperCase: bool, tail: string)
    requires Blanks(white) && base in {2, 10, 16} && (prefix == "" || (base == 16 && prefix in {"0x", "0X"}))
    requires tail != "" ==>
               DigitValue(tail[0]) >= base && (prefix == "" && n == 0 && base == 16 ==> tail[0] !in {'x', 'X'})
    ensures var number := white + prefix + Numeral(n, base, upperCase);
            ParseWord(number + tail, 0, base) == Some((WordItem(ToUInt32(n)), |number|))
  {
    hide Numeral, ToUInt32, ParseRun;
    var digits := Numeral(n, base, upperCase);
    var s := white + prefix + digits + tail;
    var q, at, end := |white|, |white + prefix|, |white + prefix + digits|;
    assert s[0..q] == white && s[q..at] == prefix && s[at..end] == digits;
    assert end < |s| ==> s[end] == tail[0];
    RunIsRead(s, at, n, base, upperCase, end);
    assert forall k | 0 <= k < |prefix| :: s[q + k] == prefix[k];
    BlankIs(s[q]);
    BlanksAreSkipped(s, 0, q);
    hide SkipWhile;
  }

  /** Without a digit they read nothing: no other character is passed. */
  lemma NoIntIsRead(white: string, sign: string, rest: string)
    requires Blanks(white) && sign in {"", "+", "-"} && (rest != "" ==> DigitValue(rest[0]) >= 10)
    requires rest != "" && sign == "" ==> !Blanks([rest[0]]) && rest[0] !in {'+', '-'}
    ensures ParseInt(white + sign + rest, 0) == None
  {
    var s := white + sign + rest;
    assert s[..|white + sign|] == white + sign;
    if rest != "" {
      assert s[|white + sign|] == rest[0];
      BlankIs(rest[0]);
    }
    SignIsPassedToo(s, white, sign);
    NoRun(s, |white + sign|, 10);
    hide SkipWhile, ParseRun;
  }

  lemma NoWordIsRead(white: string, prefix: string, rest: string, base: nat)
    requires Blanks(white) && base in {2, 10, 16} && (prefix == "" || (base == 16 && prefix in {"0x", "0X"}))
    requires rest != "" ==> DigitValue(rest[0]) >= base && (prefix == "" ==> !Blanks([rest[0]]))
    ensures ParseWord(white + prefix + rest, 0, base) == None
  {
    var s := white + prefix + rest;
    var q, at := |white|, |white + prefix|;
    assert s[0..q] == white && s[q..at] == prefix;
    assert forall k | 0 <= k < |prefix| :: s[q + k] == prefix[k];
    if rest != "" {
      assert s[at] == rest[0];
      BlankIs(rest[0]);
    }
    BlanksAreSkipped(s, 0, q);
    NoRun(s, at, base);
    hide SkipWhile, ParseRun;
  }

  /** A word of the input: no white space in it, and white space or the end behind it. */
  predicate IsWordAt(s: string, p: nat, w: string) {
    w != "" && p + |w| <= |s| && s[p..p + |w|] == w && (forall k | 0 <= k < |w| :: !IsSpace(w[k]))
    && (p + |w| < |s| ==> IsSpace(s[p + |w|]))
  }

  lemma {:induction false} WordEnds(s: string, p: nat, i: nat, end: nat)
    requires p <= i <= end <= |s| && (end < |s| ==> IsSpace(s[end]))
    requires forall k | p <= k < end :: !IsSpace(s[k])
    ensures SkipWhile(s, i, c => !IsSpace(c)) == end
    decreases end - i
  {
    if i < end {
      WordEnds(s, p, i + 1, end);
    }
  }

  /**
   * The documented "%5s" for a word of five characters does not hold: a word is stored whole exactly
   * when the width is greater than its length, and is cut to width - 1 characters otherwise.
   */
  lemma WordIsStoredIff(s: string, p: nat, w: string, width: Int32)
    requires IsWordAt(s, p, w)
    ensures ParseText(s, p, width) == Some((TextItem(w), p + |w|)) <==> |w| < width as int
    ensures 1 < width as int <= |w| ==> ParseText(s, p, width) == Some((TextItem(w[..width - 1]), p + (width - 1)))
    ensures width <= 1 ==> ParseText(s, p, width) == None
  {
    var end := p + |w|;
    assert forall k | p <= k < end :: s[k] == s[p..end][k - p];
    WordEnds(s, p, p, end);
    if 1 < width as int <= |w| {
      assert s[p..p + (width - 1)] == w[..width - 1];
    }
  }

  // ---------- The format walk ----------

  /** The outcome of one conversion. */
  datatype Outcome =
    | Stored(item: Item, input: nat, format: nat)   // assigned; both cursors move on
    | Passed(format: nat)                           // nothing to assign; the format moves on
    | Stopped                                       // no match: scanning ends
    | Unmodelled                                    // floating point

  function Store(r: Option<(Item, nat)>, next: nat): (o: Outcome)
    ensures o == if r.Some? then Stored(r.value.0, r.value.1, next) else Stopped
  {
    if r.None? then Stopped else Stored(r.value.0, r.value.1, next)
  }

  /** The width of a conversion, -1 when there is none. */
  function ScanWidth(format: string, i: nat): Int32
    requires i <= |format|
  {
    var k := SkipDigits(format, i, 10);
    if k == i then -1 else ToInt32(Value(format[i..k], 10))
  }

  /** The conversion whose character stands at k of the format, on the input from p on. */
  function ScanConversion(s: string, p: nat, format: string, k: nat, width: Int32): (o: Outcome)
    requires p <= |s| && k <= |format| && '\0' !in format
    ensures o.Stored? ==> p < o.input <= |s| && k < o.format <= |format|
    ensures o.Passed? ==> k < o.format <= |format|
  {
    match At(format, k)
    case 'd' => Store(ParseInt(s, p), k + 1)
    case 'u' => Store(ParseWord(s, p, 10), k + 1)
    case 'x' => Store(ParseWord(s, p, 16), k + 1)
    case 'X' => Store(ParseWord(s, p, 16), k + 1)
    case 'b' => Store(ParseWord(s, p, 2), k + 1)
    case 's' => Store(ParseText(s, p, width), k + 1)
    case 'c' => if p == |s| then Stopped else Stored(CharItem(s[p]), p + 1, k + 1)
    case 'p' => Store(ParseWord(s, p, 16), k + 1)
    case 'l' => if At(format, k + 1) == 'd' then Store(ParseInt(s, p), k + 2)
                else if At(format, k + 1) == 'u' then Store(ParseWord(s, p, 10), k + 2)
                else if At(format, k + 1) != 'l' then Passed(k + 1)
                else if At(format, k + 2) == 'd' then Store(ParseInt(s, p), k + 3)
                else if At(format, k + 2) == 'u' then Store(ParseWord(s, p, 10), k + 3)
                else Passed(k + 2)
    case 'z' => if At(format, k + 1) == 'u' then Store(ParseWord(s, p, 10), k + 2) else Passed(k + 1)
    case 'f' => Unmodelled
    case _ => Stopped
  }

  function PrependItem(item: Item, rest: Option<seq<Item>>): Option<seq<Item>> {
    if rest.None? then None else Some([item] + rest.value)
  }

  /** Everything assigned when scanning the input from p on with the format from f on. */
  function ScanFrom(s: string, p: nat, format: string, f: nat): Option<seq<Item>>
    requires p <= |s| && f <= |format| && '\0' !in s && '\0' !in format
    decreases |format| - f
  {
    if f == |format| then Some([])
    else if IsFormatBlank(format[f]) then
      ScanFrom(s, SkipWhile(s, p, IsBlank), format, SkipWhile(format, f + 1, IsFormatBlank))
    else if format[f] != '%' then
      if p < |s| && s[p] == format[f] then ScanFrom(s, p + 1, format, f + 1) else Some([])
    else if At(format, f + 1) == '%' then
      if p < |s| && s[p] == '%' then ScanFrom(s, p + 1, format, f + 2) else Some([])
    else
      var q := SkipWhile(s, p, IsBlank);
      var o := ScanConversion(s, q, format, SkipDigits(format, f + 1, 10), ScanWidth(format, f + 1));
      match o
      case Stored(item, p', f') => PrependItem(item, ScanFrom(s, p', format, f'))
      case Passed(f') => ScanFrom(s, q, format, f')
      case Stopped => Some([])
      case Unmodelled => None
  }

  /** What vsscanf assigns, in order. */
  function ScanText(s: string, format: string): Option<seq<Item>>
    requires '\0' !in s && '\0' !in format
  {
    ScanFrom(s, 0, format, 0)
  }

  /** How the format walk passes a conversion that stores a value. */
  lemma ScanStep(s: string, p: nat, format: string, f: nat, item: Item, input: nat, next: nat)
    requires p <= |s| && f < |format| && '\0' !in s && '\0' !in format && format[f] == '%' && At(format, f + 1) != '%'
    requires SkipWhile(s, p, IsBlank) == p
    requires ScanConversion(s, p, format, SkipDigits(format, f + 1, 10), ScanWidth(format, f + 1))
             == Stored(item, input, next)
    ensures ScanFrom(s, p, format, f) == PrependItem(item, ScanFrom(s, input, format, next))
  {
    hide ScanConversion, SkipDigits, ScanWidth, SkipWhile;
  }

  /** How the format walk passes a literal character. */
  lemma LiteralStep(s: string, p: nat, format: string, f: nat)
    requires p <= |s| && f < |format| && '\0' !in s && '\0' !in format
    requires format[f] !in {'%', ' ', '\t', '\n'}
    ensures ScanFrom(s, p, format, f)
            == if p < |s| && s[p] == format[f] then ScanFrom(s, p + 1, format, f + 1) else Some([])
  {
  }

  /** How the format walk passes %%. */
  lemma PercentStep(s: string, p: nat, format: string, f: nat)
    requires p <= |s| && f + 1 < |format| && '\0' !in s && '\0' !in format
    requires format[f] == '%' && format[f + 1] == '%'
    ensures ScanFrom(s, p, format, f)
            == if p < |s| && s[p] == '%' then ScanFrom(s, p + 1, format, f + 2) else Some([])
  {
    hide SkipWhile, ScanConversion, SkipDigits, ScanWidth;
  }

  /** A conversion by its letter, without a width. */
  lemma PlainConversion(s: string, p: nat, format: string, f: nat)
    requires p <= |s| && f + 1 < |format| && '\0' !in s && '\0' !in format
    requires format[f] == '%' && format[f + 1] != '%' && DigitValue(format[f + 1]) >= 10
    ensures var q := SkipWhile(s, p, IsBlank);
            var o := ScanConversion(s, q, format, f + 1, -1);
            (o.Passed? ==> ScanFrom(s, p, format, f) == ScanFrom(s, q, format, o.format))
            && (o.Stopped? ==> ScanFrom(s, p, format, f) == Some([]))
  {
    assert SkipDigits(format, f + 1, 10) == f + 1;
    hide SkipWhile, ScanConversion, SkipDigits, DigitValue;
  }

  /** %z, %l and %ll without the letter that belongs to them store nothing, and the walk goes on behind them. */
  lemma LoneLettersPass(s: string, p: nat, format: string, f: nat, letters: string)
    requires p <= |s| && '\0' !in s && '\0' !in format && letters in {"z", "l", "ll"}
    requires f + 1 + |letters| <= |format| && format[f..f + 1 + |letters|] == "%" + letters
    requires var c := At(format, f + 1 + |letters|);
             c != 'u' && (letters != "z" ==> c != 'd') && (letters == "l" ==> c != 'l')
    ensures ScanFrom(s, p, format, f) == ScanFrom(s, SkipWhile(s, p, IsBlank), format, f + 1 + |letters|)
  {
    var part := format[f..f + 1 + |letters|];
    assert format[f] == part[0] && format[f + 1] == part[1] && (|letters| > 1 ==> format[f + 2] == part[2]);
    PlainConversion(s, p, format, f);
    hide SkipWhile, ScanFrom, ParseInt, ParseWord, ParseText;
  }

  /** A letter that is not known ends the scan. */
  lemma UnknownStops(s: string, p: nat, format: string, f: nat)
    requires p <= |s| && f + 1 < |format| && '\0' !in s && '\0' !in format && format[f] == '%'
    requires format[f + 1] !in {'d', 'u', 'x', 'X', 'b', 's', 'c', 'p', 'l', 'z', 'f', '%'}
    requires !('0' <= format[f + 1] <= '9')
    ensures ScanFrom(s, p, format, f) == Some([])
  {
    PlainConversion(s, p, format, f);
    hide SkipWhile, ScanFrom, ParseInt, ParseWord, ParseText;
  }

  /** Blanks in a format pass any number of blanks of the input, none included; a carriage return is a literal there. */
  lemma BlankStep(s: string, p: nat, q: nat, format: string, f: nat, g: nat)
    requires p <= q <= |s| && f < g <= |format| && '\0' !in s && '\0' !in format
    requires Blanks(s[p..q]) && (q < |s| ==> !Blanks([s[q]]))
    requires forall k | f <= k < g :: format[k] in {' ', '\t', '\n'}
    requires g < |format| ==> format[g] !in {' ', '\t', '\n'}
    ensures ScanFrom(s, p, format, f) == ScanFrom(s, q, format, g)
  {
    hide ScanFrom;
    if q < |s| {
      BlankIs(s[q]);
    }
    BlanksAreSkipped(s, p, q);
    FormatBlanksAreSkipped(format, f + 1, g);
    FormatBlankStep(s, p, format, f);
  }

  lemma FormatBlankStep(s: string, p: nat, format: string, f: nat)
    requires p <= |s| && f < |format| && '\0' !in s && '\0' !in format && format[f] in {' ', '\t', '\n'}
    ensures ScanFrom(s, p, format, f)
            == ScanFrom(s, SkipWhile(s, p, IsBlank), format, SkipWhile(format, f + 1, IsFormatBlank))
  {
    hide SkipWhile, ScanConversion;
  }

  lemma {:induction false} FormatBlanksAreSkipped(format: string, i: nat, g: nat)
    requires i <= g <= |format| && (forall k | i <= k < g :: format[k] in {' ', '\t', '\n'})
    requires g < |format| ==> format[g] !in {' ', '\t', '\n'}
    ensures SkipWhile(format, i, IsFormatBlank) == g
    decreases g - i
  {
    if i < g {
      FormatBlanksAreSkipped(format, i + 1, g);
    }
  }

  /** How the format walk passes a plain signed conversion. */
  lemma IntStep(s: string, p: nat, format: string, f: nat)
    requires p <= |s| && f + 1 < |format| && '\0' !in s && '\0' !in format
    requires format[f] == '%' && format[f + 1] == 'd'
    ensures var q := SkipWhile(s, p, IsBlank);
            var read := ParseInt(s, q);
            ScanFrom(s, p, format, f)
            == if read.None? then Some([]) else PrependItem(read.value.0, ScanFrom(s, read.value.1, format, f + 2))
  {
    assert SkipDigits(format, f + 1, 10) == f + 1;
    hide SkipDigits, ScanWidth, SkipWhile, ParseInt;
  }

  /** How the format walk passes a character conversion. */
  lemma TextStep(s: string, p: nat, format: string, f: nat, item: Item, input: nat)
    requires p <= |s| && f + 2 < |format| && '\0' !in s && '\0' !in format && format[f] == '%'
    requires SkipWhile(s, p, IsBlank) == p && SkipDigits(format, f + 1, 10) == f + 2 && format[f + 2] == 's'
    requires ParseText(s, p, ScanWidth(format, f + 1)) == Some((item, input))
    ensures ScanFrom(s, p, format, f) == PrependItem(item, ScanFrom(s, input, format, f + 3))
  {
    assert DigitValue(format[f + 1]) < 10;
    hide ScanWidth, SkipDigits, ParseText, SkipWhile;
    ScanStep(s, p, format, f, item, input, f + 3);
  }

  /** The input of the documented example, and what is stored for it. */
  lemma WidthExample()
    ensures ScanText("hello", "%5s") == Some([TextItem("hell")])
  {
    var s, f := "hello", "%5s";
    WordIsStoredIff(s, 0, s, 5);
    assert SkipDigits(f, 2, 10) == 2 && SkipDigits(f, 1, 10) == 2;
    assert f[1..2] == "5" && Value("5", 10) == 5;
    assert ScanWidth(f, 1) == 5;
    assert s[..4] == "hell";
    TextStep(s, 0, f, 0, TextItem("hell"), 4);
    ScanDone(s, 4, f);
    assert [TextItem("hell")] + [] == [TextItem("hell")];
  }

  lemma CharStep(s: string, p: nat, format: string, f: nat)
    requires p <= |s| && f + 1 < |format| && '\0' !in s && '\0' !in format
    requires format[f] == '%' && format[f + 1] == 'c'
    ensures var q := SkipWhile(s, p, IsBlank);
            ScanFrom(s, p, format, f)
            == if q == |s| then Some([]) else PrependItem(CharItem(s[q]), ScanFrom(s, q + 1, format, f + 2))
  {
    assert SkipDigits(format, f + 1, 10) == f + 1;
    hide SkipDigits, ScanWidth, SkipWhile;
  }

  // ---------- The loops ----------

  /** skip_whitespace. */
  method SkipBlanks(s: string, from: nat) returns (p: nat)
    requires from <= |s|
    ensures p == SkipWhile(s, from, IsBlank) && from <= p <= |s|
  {
    p := from;
    while p < |s| && IsBlank(s[p])
      invariant from <= p <= |s| && SkipWhile(s, from, IsBlank) == SkipWhile(s, p, IsBlank)
    {
      p := p + 1;
    }
  }

  method ReadInt(s: string, p: nat) returns (r: Option<(Item, nat)>)
    requires p <= |s| && '\0' !in s
    ensures r == ParseInt(s, p)
  {
    var q := SkipBlanks(s, p);
    var sign := 1;
    if At(s, q) == '-' {
      sign := -1;
      q := q + 1;
    } else if At(s, q) == '+' {
      q := q + 1;
    }
    if !IsDecimalDigit(At(s, q)) {
      return None;
    }
    var value, end := AccumulateDigits(s, q, 10);
    WrappedSign(Value(s[q..end], 10), sign);
    r := Some((IntItem(ToInt32(ToInt32(value) * sign)), end));
  }

  method ReadWord(s: string, p: nat, base: nat) returns (r: Option<(Item, nat)>)
    requires p <= |s| && '\0' !in s && base in {2, 10, 16}
    ensures r == ParseWord(s, p, base)
  {
    var q := SkipBlanks(s, p);
    if base == 16 && HasHexPrefix(s, q) {
      q := q + 2;
    }
    if DigitValue(At(s, q)) >= base {
      return None;
    }
    var value, end := AccumulateDigits(s, q, base);
    r := Some((WordItem(value), end));
  }

  method ReadText(s: string, p: nat, width: Int32) returns (r: Option<(Item, nat)>)
    requires p <= |s| && '\0' !in s
    ensures r == ParseText(s, p, width)
  {
    if width <= 0 {
      return None;
    }
    var input, charsRead := p, 0;
    while input < |s| && charsRead < width - 1 && !IsSpace(s[input])
      invariant p <= input <= |s| && charsRead == input - p <= width - 1
      invariant SkipWhile(s, p, c => !IsSpace(c)) == SkipWhile(s, input, c => !IsSpace(c))
    {
      input := input + 1;
      charsRead := charsRead + 1;
    }
    if charsRead == 0 {
      return None;
    }
    r := Some((TextItem(s[p..input]), input));
  }

  lemma WidthWraps(value: int)
    ensures ToInt32(ToUInt32(value)) == ToInt32(value)
  {
  }

  lemma StartsWithDigit(format: string, i: nat)
    requires i <= |format|
    ensures IsDecimalDigit(At(format, i)) <==> SkipDigits(format, i, 10) > i
  {
  }

  /** Reads the width digits of a conversion. */
  method ReadWidth(format: string, from: nat) returns (width: Int32, k: nat)
    requires from <= |format| && '\0' !in format
    ensures width == ScanWidth(format, from) && k == SkipDigits(format, from, 10) && from <= k <= |format|
  {
    hide Value, ToInt32, ToUInt32, SkipDigits, DigitValue, At, IsDecimalDigit;
    width, k := -1, from;
    StartsWithDigit(format, from);
    if IsDecimalDigit(At(format, k)) {
      var value;
      value, k := AccumulateDigits(format, k, 10);
      WidthWraps(Value(format[from..k], 10));
      width := ToInt32(value);
    }
  }

  /** The switch over the conversion character. */
  method Assign(s: string, p: nat, format: string, k: nat, width: Int32) returns (o: Outcome)
    requires p <= |s| && k <= |format| && '\0' !in s && '\0' !in format
    ensures o == ScanConversion(s, p, format, k, width)
  {
    var r;
    match At(format, k) {
      case 'd' => r := ReadInt(s, p); o := Store(r, k + 1);
      case 'u' => r := ReadWord(s, p, 10); o := Store(r, k + 1);
      case 'x' => r := ReadWord(s, p, 16); o := Store(r, k + 1);
      case 'X' => r := ReadWord(s, p, 16); o := Store(r, k + 1);
      case 'b' => r := ReadWord(s, p, 2); o := Store(r, k + 1);
      case 's' => r := ReadText(s, p, width); o := Store(r, k + 1);
      case 'c' => o := if p == |s| then Stopped else Stored(CharItem(s[p]), p + 1, k + 1);
      case 'p' => r := ReadWord(s, p, 16); o := Store(r, k + 1);
      case 'l' =>
        if At(format, k + 1) == 'd' {
          r := ReadInt(s, p);
          o := Store(r, k + 2);
        } else if At(format, k + 1) == 'u' {
          r := ReadWord(s, p, 10);
          o := Store(r, k + 2);
        } else if At(format, k + 1) == 'l' {
          if At(format, k + 2) == 'd' {
            r := ReadInt(s, p);
            o := Store(r, k + 3);
          } else if At(format, k + 2) == 'u' {
            r := ReadWord(s, p, 10);
            o := Store(r, k + 3);
          } else {
            o := Passed(k + 2);
          }
        } else {
          o := Passed(k + 1);
        }
      case 'z' =>
        if At(format, k + 1) == 'u' {
          r := ReadWord(s, p, 10);
          o := Store(r, k + 2);
        } else {
          o := Passed(k + 1);
        }
      case 'f' => o := Unmodelled;
      case _ => o := Stopped;
    }
  }

  lemma Prepended(item: Item, tail: Option<seq<Item>>, rest: seq<Item>, items: seq<Item>)
    requires PrependItem(item, tail) == Some(rest)
    ensures rest != [] && tail == Some(rest[1..]) && items + rest == (items + [item]) + rest[1..]
  {
  }

  lemma ScanDone(s: string, p: nat, format: string)
    requires p <= |s| && '\0' !in s && '\0' !in format
    ensures ScanFrom(s, p, format, |format|) == Some([])
  {
  }

  /** One turn of the format walk. */
  lemma ScanTurn(s: string, p: nat, format: string, f: nat)
    requires p <= |s| && f < |format| && '\0' !in s && '\0' !in format
    ensures ScanFrom(s, p, format, f)
            == if IsFormatBlank(format[f]) then
                 ScanFrom(s, SkipWhile(s, p, IsBlank), format, SkipWhile(format, f + 1, IsFormatBlank))
               else if format[f] != '%' then
                 if p < |s| && s[p] == format[f] then ScanFrom(s, p + 1, format, f + 1) else Some([])
               else if At(format, f + 1) == '%' then
                 if p < |s| && s[p] == '%' then ScanFrom(s, p + 1, format, f + 2) else Some([])
               else
                 var q := SkipWhile(s, p, IsBlank);
                 match ScanConversion(s, q, format, SkipDigits(format, f + 1, 10), ScanWidth(format, f + 1))
                 case Stored(item, p', f') => PrependItem(item, ScanFrom(s, p', format, f'))
                 case Passed(f') => ScanFrom(s, q, format, f')
                 case Stopped => Some([])
                 case Unmodelled => None
  {
    hide ScanConversion, SkipDigits, ScanWidth, SkipWhile;
  }

  lemma ScanTextIs(s: string, format: string)
    requires '\0' !in s && '\0' !in format
    ensures ScanText(s, format) == ScanFrom(s, 0, format, 0) && !IsFormatBlank('%')
  {
  }

  /** vsscanf: the values stored, in order; their number is what the original returns. */
  method VSScanf(s: string, format: string) returns (items: seq<Item>)
    requires '\0' !in s && '\0' !in format && ScanText(s, format).Some?
    ensures items == ScanText(s, format).value
  {
    hide *;
    ghost var rest := ScanText(s, format).value;
    ScanTextIs(s, format);
    items := [];
    var p, f := 0, 0;
    while f < |format|
      invariant 0 <= p <= |s| && 0 <= f <= |format|
      invariant ScanFrom(s, p, format, f) == Some(rest)
      invariant ScanText(s, format).value == items + rest
      decreases |format| - f
    {
      ScanTurn(s, p, format, f);
      AtIs(format, f + 1);
      if format[f] != '%' {
        if IsFormatBlank(format[f]) {
          p := SkipBlanks(s, p);
          f := SkipFormatBlanks(format, f + 1);
        } else {
          if p == |s| || s[p] != format[f] {
            return;
          }
          p, f := p + 1, f + 1;
        }
      } else if At(format, f + 1) == '%' {
        AtIs(s, p);
        if At(s, p) != '%' {
          return;
        }
        p, f := p + 1, f + 2;
      } else {
        var width, k := ReadWidth(format, f + 1);
        p := SkipBlanks(s, p);
        var o := Assign(s, p, format, k, width);
        match o {
          case Stored(item, p', f') =>
            Prepended(item, ScanFrom(s, p', format, f'), rest, items);
            items, rest := items + [item], rest[1..];
            p, f := p', f';
          case Passed(f') =>
            f := f';
          case Stopped =>
            return;
          case Unmodelled =>
            assert false;
        }
      }
    }
    ScanDone(s, p, format);
  }

  method SkipFormatBlanks(format: string, from: nat) returns (f: nat)
    requires from <= |format|
    ensures f == SkipWhile(format, from, IsFormatBlank) && from <= f <= |format|
  {
    f := from;
    while f < |format| && IsFormatBlank(format[f])
      invariant from <= f <= |format| && SkipWhile(format, from, IsFormatBlank) == SkipWhile(format, f, IsFormatBlank)
    {
      f := f + 1;
    }
  }
}
