/** Scanning undoes printing: one theorem over every format built from literals and conversions. */
module PrintScan {
  import Integers
  import opened Words
  import opened Options
  import opened Numerals
  import opened Splitting
  import opened Stdlib
  import opened Strto
  import opened Printf
  import opened Scanf
  import opened Formats

  /** The value that comes back from scanning; the scanner keeps 32 bits of a longer number. */
  function ItemOf(datum: Datum): Item {
    match datum
    case Character(c) => CharItem(c)
    case Text(text) => TextItem(text)
    case Signed(i) => IntItem(i)
    case SignedAlias(i) => IntItem(i)
    case Unsigned(w) => WordItem(w)
    case Hex(_, w) => WordItem(w)
    case Binary(w) => WordItem(w)
    case Pointer(w) => WordItem(w)
    case Size(w) => WordItem(w)
    case Long(l) => IntItem(ToInt32(l))
    case LongWord(w) => WordItem(w)
    case LongLong(l) => IntItem(ToInt32(l))
    case Huge(lw) => WordItem(ToUInt32(lw))
    case HugeHex(_, lw) => WordItem(ToUInt32(lw))
  }

  function Items(piece: Piece): seq<Item> {
    if piece.Field? then [ItemOf(piece.datum)] else []
  }

  function ItemsOf(pieces: seq<Piece>): seq<Item> {
    if pieces == [] then [] else Items(pieces[0]) + ItemsOf(pieces[1..])
  }

  /** A conversion whose print the scanner reads whole under the same conversion, storing its item. */
  predicate Reads(datum: Datum, width: nat) {
    match datum
    case Character(c) => !IsBlank(c) && c != '\0'
    case Text(text) => text != "" && NoSpace(text) && |text| < width
    case Signed(i) => i > -TWO31 && (i < 0 ==> width <= |SignedDecimal(i)|)
    case SignedAlias(_) => false
    case HugeHex(_, _) => false
    case _ => true
  }

  predicate PieceReads(piece: Piece) {
    piece.Field? ==> Reads(piece.datum, piece.width)
  }

  /** A conversion whose value fits in the 32 bits that the scanner keeps. */
  predicate Fits(datum: Datum) {
    match datum
    case Long(l) => -TWO31 <= l < TWO31
    case LongLong(l) => -TWO31 <= l < TWO31
    case Huge(lw) => lw < TWO32
    case HugeHex(_, lw) => lw < TWO32
    case _ => true
  }

  predicate PieceFits(piece: Piece) {
    piece.Field? ==> Fits(piece.datum)
  }

  /** A piece whose value comes back from its print. */
  predicate ComesBack(piece: Piece) {
    PieceReads(piece) && PieceFits(piece)
  }

  /** A conversion whose print the scanner can tell apart from the text behind it. */
  predicate Ends(datum: Datum, following: string) {
    match datum
    case Character(_) => true
    case Text(_) => following != "" ==> IsSpace(following[0])
    case Hex(_, w) =>
      !StartsWith(following, c => DigitValue(c) < 16)
      && (w == 0 ==> !StartsWith(following, c => c == 'x' || c == 'X'))
    case Pointer(_) => !StartsWith(following, c => DigitValue(c) < 16)
    case HugeHex(_, _) => true
    case Binary(_) => !StartsWith(following, c => DigitValue(c) < 2)
    case _ => !StartsWith(following, c => DigitValue(c) < 10)
  }

  /** A piece that can be told apart: of two blanks in the format, the second would find none left. */
  predicate Separated(piece: Piece, following: string) {
    match piece
    case Literal(c) => IsFormatBlank(c) ==> !StartsWith(following, IsBlank)
    case Percent => true
    case Field(_, _, datum) => Ends(datum, following)
  }

  /** A stored item has the value of an argument. */
  predicate Carries(item: Item, arg: Arg) {
    match item
    case IntItem(i) => (arg.IntArg? && arg.i == i) || (arg.LongArg? && arg.l as int == i as int)
    case WordItem(w) => (arg.WordArg? && arg.w == w) || (arg.LongWordArg? && arg.lw as int == w as int)
    case CharItem(c) => arg == CharArg(c)
    case TextItem(text) => arg == TextArg(text)
  }

  /** What was stored is what was printed. */
  predicate Restores(items: seq<Item>, args: seq<Arg>) {
    |items| == |args| && forall k | 0 <= k < |items| :: Carries(items[k], args[k])
  }

  predicate NoSpace(text: string) {
    forall k | 0 <= k < |text| :: !IsSpace(text[k])
  }

  predicate StartsWith(s: string, test: char -> bool) {
    s != "" && test(s[0])
  }

  predicate AllFit(pieces: seq<Piece>) {
    forall p | p in pieces :: PieceFits(p)
  }

  /** Every piece is read and is separated from what is printed after it, the tail included. */
  predicate AllSeparated(pieces: seq<Piece>, tail: string) {
    pieces == []
    || (PieceReads(pieces[0]) && Separated(pieces[0], OutputOf(pieces[1..]) + tail) && AllSeparated(pieces[1..], tail))
  }

  lemma NothingScanned()
    ensures ItemsOf([]) == [] && forall tail :: AllSeparated([], tail)
  {
  }

  lemma FirstScanned(pieces: seq<Piece>, tail: string)
    requires pieces != []
    ensures ItemsOf(pieces) == Items(pieces[0]) + ItemsOf(pieces[1..])
    ensures AllSeparated(pieces, tail)
            <==> PieceReads(pieces[0]) && Separated(pieces[0], OutputOf(pieces[1..]) + tail)
                 && AllSeparated(pieces[1..], tail)
  {
    hide OutputOf, PieceReads, Separated, Items;
  }

  lemma ConsScanned(piece: Piece, rest: seq<Piece>, tail: string)
    ensures ItemsOf([piece] + rest) == Items(piece) + ItemsOf(rest)
    ensures AllSeparated([piece] + rest, tail)
            <==> PieceReads(piece) && Separated(piece, OutputOf(rest) + tail) && AllSeparated(rest, tail)
  {
    hide *;
    FirstScanned([piece] + rest, tail);
    assert ([piece] + rest)[1..] == rest;
  }

  // ---------- Parsing one conversion ----------

  /** Zeros before a numeral change neither where its digits end nor what they are worth. */
  lemma PaddedNumeralIsRead(s: string, at: nat, n: nat, width: nat, end: nat)
    requires at <= end <= |s| && s[at..end] == PadTo(Numeral(n, 10, false), width)
    requires end < |s| ==> DigitValue(s[end]) >= 10
    ensures at < end && ParseRun(s, at, 10) == Some((n, end)) && DigitValue(s[at]) < 10
  {
    var text := Numeral(n, 10, false);
    NumeralRoundTrip(n, 10, false);
    PadKeepsValue(text, width);
    assert forall k | at <= k < end :: s[k] == s[at..end][k - at];
    hide Value, Numeral, PadTo, Digits;
    RunOfDigits(s, at, at, end, 10);
    hide SkipDigits;
  }

  lemma PadKeepsValue(text: string, width: nat)
    requires text != "" && forall c | c in text :: DigitValue(c) < 10
    ensures var t := PadTo(text, width);
            t != "" && Value(t, 10) == Value(text, 10) && forall k | 0 <= k < |t| :: DigitValue(t[k]) < 10
  {
    var zeros := if width > |text| then width - |text| else 0;
    LeadingZeros(zeros, text, 10);
    hide Value;
    var t := PadTo(text, width);
    forall k | 0 <= k < |t|
      ensures DigitValue(t[k]) < 10
    {
      assert t[k] == if k < zeros then '0' else text[k - zeros];
    }
  }

  lemma NoBlanks(s: string, p: nat)
    requires p <= |s| && (p < |s| ==> !IsBlank(s[p]))
    ensures SkipWhile(s, p, IsBlank) == p
  {
  }

  /** The parser that a conversion of the scanner uses. */
  function DatumParse(datum: Datum, s: string, p: nat, width: Int32): Option<(Item, nat)>
    requires p <= |s|
  {
    match datum
    case Character(_) => if p == |s| then None else Some((CharItem(s[p]), p + 1))
    case Text(_) => ParseText(s, p, width)
    case Signed(_) => ParseInt(s, p)
    case SignedAlias(_) => None
    case Unsigned(_) => ParseWord(s, p, 10)
    case Hex(_, _) => ParseWord(s, p, 16)
    case Binary(_) => ParseWord(s, p, 2)
    case Pointer(_) => ParseWord(s, p, 16)
    case Size(_) => ParseWord(s, p, 10)
    case Long(_) => ParseInt(s, p)
    case LongWord(_) => ParseWord(s, p, 10)
    case LongLong(_) => ParseInt(s, p)
    case Huge(_) => ParseWord(s, p, 10)
    case HugeHex(_, _) => None
  }

  lemma ConversionParses(s: string, p: nat, datum: Datum, k: nat, format: string, width: Int32)
    requires !datum.HugeHex? && '\0' !in format && p <= |s|
    requires k + |datum.Letters()| <= |format| && format[k..k + |datum.Letters()|] == datum.Letters()
    ensures ScanConversion(s, p, format, k, width) == Store(DatumParse(datum, s, p, width), k + |datum.Letters()|)
  {
    hide ParseInt, ParseWord, ParseText;
    LettersAt(format, k, datum.Letters());
  }

  lemma DatumParses(s: string, p: nat, end: nat, datum: Datum, width: nat, scanned: Int32)
    requires Reads(datum, width) && width < TWO31 && (width > 0 ==> scanned == width)
    requires p <= end <= |s| && s[p..end] == datum.Written(width) && Ends(datum, s[end..])
    ensures p < end && !IsBlank(s[p]) && DatumParse(datum, s, p, scanned) == Some((ItemOf(datum), end))
  {
    assert end < |s| ==> s[end..] != "" && s[end] == s[end..][0];
    hide ParseInt, ParseWord, ParseText, Numeral, PadTo, SignedDecimal, SignedText;
    match datum {
      case Character(c) =>
        assert s[p] == s[p..end][0];
      case Text(text) =>
        TextIsRead(s, p, end, text, scanned);
      case Signed(i) =>
        SignedTextIsDecimal(i, false, -TWO31);
        SignedIsRead(s, p, end, width, i);
      case Unsigned(n) =>
        WordIsRead(s, p, end, width, n);
      case Hex(upperCase, n) =>
        HexIsRead(s, p, end, upperCase, n);
      case Binary(n) =>
        BinaryIsRead(s, p, end, n);
      case Pointer(n) =>
        PointerIsRead(s, p, end, n);
      case Size(n) =>
        PlainWordIsRead(s, p, end, n);
      case Long(l) =>
        LongIsRead(s, p, end, l);
      case LongWord(n) =>
        PlainWordIsRead(s, p, end, n);
      case LongLong(l) =>
        LongIsRead(s, p, end, l);
      case Huge(n) =>
        PlainWordIsRead(s, p, end, n);
    }
  }

  lemma PlainWordIsRead(s: string, p: nat, end: nat, n: nat)
    requires p <= end <= |s| && s[p..end] == Numeral(n, 10, false)
    requires end < |s| ==> DigitValue(s[end]) >= 10
    ensures p < end && !IsBlank(s[p]) && ParseWord(s, p, 10) == Some((WordItem(ToUInt32(n)), end))
    ensures n < TWO32 ==> ToUInt32(n) == n
  {
    hide Numeral, ParseWord;
    PadNothing(Numeral(n, 10, false));
    WordIsRead(s, p, end, 0, n);
  }

  /** The parsers read a printed conversion back. */
  lemma DatumIsRead(s: string, p: nat, end: nat, datum: Datum, width: nat, k: nat, format: string, scanned: Int32)
    requires Reads(datum, width) && width < TWO31 && (width > 0 ==> scanned == width) && '\0' !in format
    requires p <= end <= |s| && s[p..end] == datum.Written(width) && Ends(datum, s[end..])
    requires k + |datum.Letters()| <= |format| && format[k..k + |datum.Letters()|] == datum.Letters()
    ensures p < end && !IsBlank(s[p])
    ensures ScanConversion(s, p, format, k, scanned) == Stored(ItemOf(datum), end, k + |datum.Letters()|)
  {
    assert !datum.HugeHex?;
    hide *;
    DatumParses(s, p, end, datum, width, scanned);
    ConversionParses(s, p, datum, k, format, scanned);
  }

  lemma TextIsRead(s: string, p: nat, end: nat, text: string, width: Int32)
    requires p <= end <= |s| && s[p..end] == text && text != "" && NoSpace(text) && |text| < width as int
    requires end < |s| ==> IsSpace(s[end])
    ensures p < end && !IsBlank(s[p]) && ParseText(s, p, width) == Some((TextItem(text), end))
  {
    assert s[p] == text[0] && p + |text| == end;
    WordIsStoredIff(s, p, text, width);
  }

  lemma WordIsRead(s: string, p: nat, end: nat, width: nat, n: nat)
    requires p <= end <= |s| && s[p..end] == PadTo(Numeral(n, 10, false), width)
    requires end < |s| ==> DigitValue(s[end]) >= 10
    ensures p < end && !IsBlank(s[p]) && ParseWord(s, p, 10) == Some((WordItem(ToUInt32(n)), end))
    ensures n < TWO32 ==> ToUInt32(n) == n
  {
    hide Numeral, PadTo, ParseRun, ParseWord, HasHexPrefix;
    PaddedNumeralIsRead(s, p, n, width, end);
    ParseWordIs(s, p, p, 10, n, end);
  }

  lemma BinaryIsRead(s: string, p: nat, end: nat, n: UInt32)
    requires p <= end <= |s| && s[p..end] == Numeral(n, 2, false)
    requires end < |s| ==> DigitValue(s[end]) >= 2
    ensures p < end && !IsBlank(s[p]) && ParseWord(s, p, 2) == Some((WordItem(n), end))
  {
    hide Numeral, ParseWord, ParseRun, ToUInt32, HasHexPrefix;
    NumeralRun(s, p, n, 2, false, end);
    ParseWordIs(s, p, p, 2, n, end);
    UnsignedValue(n);
  }

  lemma SignedIsRead(s: string, p: nat, end: nat, width: nat, i: Int32)
    requires i < 0 ==> width <= |SignedDecimal(i)|
    requires p <= end <= |s| && s[p..end] == PadTo(SignedDecimal(i), width)
    requires end < |s| ==> DigitValue(s[end]) >= 10
    ensures p < end && !IsBlank(s[p]) && ParseInt(s, p) == Some((IntItem(i), end))
  {
    SignedValue(i);
    if i < 0 {
      assert Zeros(0) + SignedDecimal(i) == SignedDecimal(i);
      NegativeIsRead(s, p, end, i);
    } else {
      NonNegativeIsRead(s, p, end, width, i);
    }
  }

  lemma LongIsRead(s: string, p: nat, end: nat, l: Int64)
    requires p <= end <= |s| && s[p..end] == SignedDecimal(l)
    requires end < |s| ==> DigitValue(s[end]) >= 10
    ensures p < end && !IsBlank(s[p]) && ParseInt(s, p) == Some((IntItem(ToInt32(l)), end))
  {
    if l < 0 {
      NegativeIsRead(s, p, end, l);
    } else {
      PadNothing(Numeral(l, 10, false));
      NonNegativeIsRead(s, p, end, 0, l);
    }
  }

  lemma NegativeIsRead(s: string, p: nat, end: nat, i: int)
    requires i < 0
    requires p <= end <= |s| && s[p..end] == SignedDecimal(i)
    requires end < |s| ==> DigitValue(s[end]) >= 10
    ensures p < end && !IsBlank(s[p]) && ParseInt(s, p) == Some((IntItem(ToInt32(i)), end))
  {
    hide ToInt32, ParseRun, Numeral, PadTo, SkipWhile;
    var text := Numeral(-i, 10, false);
    assert s[p] == s[p..end][0] == '-';
    SliceOfSlice(s, p, end, 1, end - p);
    assert ("-" + text)[1..] == text;
    PadNothing(text);
    PaddedNumeralIsRead(s, p + 1, -i, 0, end);
    NoBlanks(s, p);
    assert -i * -1 == i;
  }

  lemma NonNegativeIsRead(s: string, p: nat, end: nat, width: nat, i: nat)
    requires p <= end <= |s| && s[p..end] == PadTo(SignedDecimal(i), width)
    requires end < |s| ==> DigitValue(s[end]) >= 10
    ensures p < end && !IsBlank(s[p]) && ParseInt(s, p) == Some((IntItem(ToInt32(i)), end))
  {
    hide ToInt32, ParseRun, Numeral, PadTo, SkipWhile;
    PaddedNumeralIsRead(s, p, i, width, end);
    DigitIsNoSpace(s[p], 10);
    NoBlanks(s, p);
    assert i * 1 == i;
  }

  lemma ParseWordIs(s: string, p: nat, start: nat, base: nat, n: nat, end: nat)
    requires p < |s| && base in {2, 10, 16} && !IsBlank(s[p])
    requires start == if base == 16 && HasHexPrefix(s, p) then p + 2 else p
    requires ParseRun(s, start, base) == Some((n, end))
    ensures ParseWord(s, p, base) == Some((WordItem(ToUInt32(n)), end))
  {
    NoBlanks(s, p);
    hide ParseRun, SkipWhile, HasHexPrefix;
  }

  lemma NumeralRun(s: string, at: nat, n: nat, base: nat, upperCase: bool, end: nat)
    requires 2 <= base <= 36 && at <= end <= |s| && s[at..end] == Numeral(n, base, upperCase)
    requires end < |s| ==> DigitValue(s[end]) >= base
    ensures at < end && ParseRun(s, at, base) == Some((n, end))
    ensures !IsBlank(s[at]) && DigitValue(s[at]) < base && (s[at] == '0' <==> n == 0) && (n == 0 ==> end == at + 1)
  {
    NumeralIsRead(s, at, n, base, upperCase, end);
    hide Numeral, SkipDigits, Value;
  }

  lemma PointerIsRead(s: string, p: nat, end: nat, n: UInt32)
    requires p <= end <= |s| && s[p..end] == "0x" + Numeral(n, 16, false)
    requires end < |s| ==> DigitValue(s[end]) >= 16
    ensures p < end && !IsBlank(s[p]) && ParseWord(s, p, 16) == Some((WordItem(n), end))
  {
    hide Numeral, ParseWord, ParseRun, ToUInt32;
    var text := Numeral(n, 16, false);
    assert s[p] == s[p..end][0] == '0' && s[p + 1] == s[p..end][1] == 'x';
    SliceOfSlice(s, p, end, 2, end - p);
    assert ("0x" + text)[2..] == text;
    NumeralRun(s, p + 2, n, 16, false, end);
    ParseWordIs(s, p, p + 2, 16, n, end);
    UnsignedValue(n);
  }

  lemma HexIsRead(s: string, p: nat, end: nat, upperCase: bool, n: UInt32)
    requires p <= end <= |s| && s[p..end] == Numeral(n, 16, upperCase)
    requires end < |s| ==> DigitValue(s[end]) >= 16 && (n == 0 ==> s[end] != 'x' && s[end] != 'X')
    ensures p < end && !IsBlank(s[p]) && ParseWord(s, p, 16) == Some((WordItem(n), end))
  {
    hide Numeral, ParseWord, ParseRun, ToUInt32;
    NumeralRun(s, p, n, 16, upperCase, end);
    assert !HasHexPrefix(s, p);
    ParseWordIs(s, p, p, 16, n, end);
    UnsignedValue(n);
  }

  // ---------- Scanning a format ----------

  function Prefixed(items: seq<Item>, rest: Option<seq<Item>>): Option<seq<Item>> {
    if rest.None? then None else Some(items + rest.value)
  }

  /** The scanner reads one printed piece back and goes on behind it. */
  lemma PieceScans(s: string, p: nat, end: nat, f: string, i: nat, next: nat, piece: Piece)
    requires piece.Writable() && PieceReads(piece) && '\0' !in f && '\0' !in s
    requires i <= next <= |f| && f[i..next] == piece.Format()
    requires p <= end <= |s| && s[p..end] == piece.Output() && Separated(piece, s[end..])
    requires next < |f| && IsFormatBlank(f[next]) ==> !(piece.Literal? && IsFormatBlank(piece.c))
    ensures ScanFrom(s, p, f, i) == Prefixed(Items(piece), ScanFrom(s, end, f, next))
  {
    if piece.Literal? {
      assert f[i] == f[i..next][0] && s[p] == s[p..end][0];
      LiteralScans(s, p, f, i);
    } else if piece.Percent? {
      assert f[i] == f[i..next][0] && f[i + 1] == f[i..next][1] && s[p] == s[p..end][0];
      hide SkipWhile, ScanConversion;
    } else {
      FieldScans(s, p, end, f, i, next, piece);
    }
    var rest := ScanFrom(s, end, f, next);
    if rest.Some? {
      assert [] + rest.value == rest.value;
    }
  }

  lemma LiteralScans(s: string, p: nat, f: string, i: nat)
    requires p < |s| && i < |f| && '\0' !in f && '\0' !in s && s[p] == f[i] != '%'
    requires IsFormatBlank(f[i]) ==> !StartsWith(s[p + 1..], IsBlank) && (i + 1 < |f| ==> !IsFormatBlank(f[i + 1]))
    ensures ScanFrom(s, p, f, i) == ScanFrom(s, p + 1, f, i + 1)
  {
    if IsFormatBlank(f[i]) {
      assert p + 1 < |s| ==> s[p + 1] == s[p + 1..][0];
      assert SkipWhile(s, p, IsBlank) == p + 1;
      assert SkipWhile(f, i + 1, IsFormatBlank) == i + 1;
      hide SkipWhile;
    }
  }

  lemma FieldScans(s: string, p: nat, end: nat, f: string, i: nat, next: nat, piece: Piece)
    requires piece.Writable() && piece.Field? && PieceReads(piece) && '\0' !in f && '\0' !in s
    requires i <= next <= |f| && f[i..next] == piece.Format()
    requires p <= end <= |s| && s[p..end] == piece.Output() && Separated(piece, s[end..])
    ensures ScanFrom(s, p, f, i) == Prefixed(Items(piece), ScanFrom(s, end, f, next))
  {
    hide ScanFrom, ScanConversion, ScanWidth, ConversionAt, WidthAt, SkipDigits;
    hide Piece.Format, Datum.Letters, Datum.Written, ItemOf, Reads, Ends;
    var datum := piece.datum;
    FieldIsConversion(f, i, next, piece);
    var k := next - |datum.Letters()|;
    DatumIsRead(s, p, end, datum, piece.width, k, f, ScannedWidth(piece.zeros, piece.width));
    NoBlanks(s, p);
    assert Items(piece) == [ItemOf(datum)];
    assert f[i] == '%' && At(f, i + 1) != '%' && SkipDigits(f, i + 1, 10) == k;
    hide *;
    ScanStep(s, p, f, i, ItemOf(datum), end, next);
    PrefixedByOne(ItemOf(datum), ScanFrom(s, end, f, next));
  }

  lemma PrefixedByOne(item: Item, rest: Option<seq<Item>>)
    ensures Prefixed([item], rest) == PrependItem(item, rest)
  {
  }

  lemma PrefixedSome(items: seq<Item>, rest: seq<Item>)
    ensures Prefixed(items, Some(rest)) == Some(items + rest)
  {
  }

  lemma {:induction false} PiecesScan(s: string, p: nat, f: string, i: nat, pieces: seq<Piece>, tail: string)
    requires AllWritable(pieces) && AllSeparated(pieces, tail) && '\0' !in f && '\0' !in s
    requires i <= |f| && f[i..] == FormatOf(pieces)
    requires p <= |s| && s[p..] == OutputOf(pieces) + tail
    ensures ScanFrom(s, p, f, i) == Some(ItemsOf(pieces))
    decreases |pieces|
  {
    hide *;
    if pieces == [] {
      NoPieces();
      NothingScanned();
      ScanDone(s, p, f);
    } else {
      var piece, rest := pieces[0], pieces[1..];
      var next, end := i + |piece.Format()|, p + |piece.Output()|;
      FirstPiece(pieces);
      FirstScanned(pieces, tail);
      HeadAndRest(f, i, piece.Format(), FormatOf(rest));
      assert OutputOf(pieces) + tail == piece.Output() + (OutputOf(rest) + tail);
      HeadAndRest(s, p, piece.Output(), OutputOf(rest) + tail);
      if piece.Literal? && IsFormatBlank(piece.c) {
        BlankIsAlone(piece, rest, tail);
      }
      assert next < |f| ==> f[next] == f[next..][0];
      PieceScans(s, p, end, f, i, next, piece);
      PiecesScan(s, end, f, next, rest, tail);
      PrefixedSome(Items(piece), ItemsOf(rest));
    }
  }

  /** A blank literal is not followed by another blank in the format. */
  lemma BlankIsAlone(piece: Piece, rest: seq<Piece>, tail: string)
    requires Separated(piece, OutputOf(rest) + tail) && piece.Literal? && IsFormatBlank(piece.c)
    ensures FormatOf(rest) != "" ==> !IsFormatBlank(FormatOf(rest)[0])
  {
    if rest != [] && rest[0].Literal? {
      assert (OutputOf(rest) + tail)[0] == rest[0].c;
    }
  }

  lemma PadHasNoNul(text: string, width: nat)
    requires '\0' !in text
    ensures '\0' !in PadTo(text, width)
  {
  }

  lemma DecimalHasNoNul(i: int)
    ensures '\0' !in SignedDecimal(i)
  {
    TextHasNoNul(Integers.Abs(i), 10, false, 0);
    hide Numeral;
  }

  lemma PlainHasNoNul(datum: Datum)
    requires datum.IsNumber()
    ensures '\0' !in datum.Plain()
  {
    hide Numeral, SignedDecimal;
    match datum {
      case Signed(i) =>
        DecimalHasNoNul(i);
      case SignedAlias(i) =>
        DecimalHasNoNul(i);
      case Unsigned(w) =>
        TextHasNoNul(w, 10, false, 0);
      case Hex(upperCase, w) =>
        TextHasNoNul(w, 16, upperCase, 0);
      case Binary(w) =>
        TextHasNoNul(w, 2, false, 0);
      case Pointer(w) =>
        TextHasNoNul(w, 16, false, 0);
      case Size(w) =>
        TextHasNoNul(w, 10, false, 0);
      case Long(l) =>
        DecimalHasNoNul(l);
      case LongWord(w) =>
        TextHasNoNul(w, 10, false, 0);
      case LongLong(l) =>
        DecimalHasNoNul(l);
      case Huge(lw) =>
        TextHasNoNul(lw, 10, false, 0);
      case HugeHex(upperCase, lw) =>
        TextHasNoNul(lw, 16, upperCase, 0);
    }
  }

  lemma WrittenHasNoNul(datum: Datum, width: nat)
    requires datum != Character('\0') && (datum.Text? ==> '\0' !in datum.text)
    ensures '\0' !in datum.Written(width)
  {
    hide PadTo, SignedText, Datum.Plain;
    if datum.Signed? || datum.SignedAlias? {
      TextHasNoNul(datum.i, 10, false, -TWO31);
      PadHasNoNul(SignedText(datum.i, 10, false, -TWO31), width);
    } else if datum.IsNumber() {
      PlainHasNoNul(datum);
      PadHasNoNul(datum.Plain(), width);
    } else {
      PlainIsText(datum);
    }
  }

  lemma PlainIsText(datum: Datum)
    ensures datum.Character? ==> datum.Plain() == [datum.c]
    ensures datum.Text? ==> datum.Plain() == datum.text
  {
  }

  lemma OutputHasNoNul(piece: Piece)
    requires piece.Writable() && (piece.Field? ==> piece.datum != Character('\0'))
    ensures '\0' !in piece.Output()
  {
    hide Datum.Written;
    if piece.Field? {
      WrittenHasNoNul(piece.datum, piece.width);
    }
  }

  lemma ReadIsNoNul(piece: Piece)
    requires PieceReads(piece)
    ensures piece.Field? ==> piece.datum != Character('\0')
  {
  }

  lemma {:induction false} OutputsHaveNoNul(pieces: seq<Piece>, tail: string)
    requires AllWritable(pieces) && AllSeparated(pieces, tail)
    ensures '\0' !in OutputOf(pieces)
  {
    hide *;
    if pieces == [] {
      NoPieces();
    } else {
      FirstPiece(pieces);
      FirstScanned(pieces, tail);
      ReadIsNoNul(pieces[0]);
      OutputHasNoNul(pieces[0]);
      OutputsHaveNoNul(pieces[1..], tail);
    }
  }

  /**
   * Scanning undoes printing: for every list of literals and conversions whose prints can be told
   * apart, scanning what is printed, whatever follows it, with the same format stores an item for
   * each, and these have the values that were printed exactly when every value fits in 32 bits.
   */
  lemma ScanInvertsPrint(pieces: seq<Piece>, tail: string)
    requires AllWritable(pieces) && AllSeparated(pieces, tail) && '\0' !in tail
    ensures '\0' !in FormatOf(pieces) && '\0' !in OutputOf(pieces) + tail
    ensures FormatText(FormatOf(pieces), ArgsOf(pieces)) == Some(OutputOf(pieces))
    ensures ScanText(OutputOf(pieces) + tail, FormatOf(pieces)) == Some(ItemsOf(pieces))
    ensures Restores(ItemsOf(pieces), ArgsOf(pieces)) <==> AllFit(pieces)
  {
    PrintsAsDocumented(pieces);
    OutputsHaveNoNul(pieces, tail);
    PiecesScan(OutputOf(pieces) + tail, 0, FormatOf(pieces), 0, pieces, tail);
    ItemsRestore(pieces);
  }

  lemma ItemCarries(datum: Datum)
    ensures Carries(ItemOf(datum), datum.Arg()) <==> Fits(datum)
  {
    match datum {
      case Long(l) => LowBits(l);
      case LongLong(l) => LowBits(l);
      case Huge(lw) => LowBits(lw);
      case HugeHex(_, lw) => LowBits(lw);
      case _ =>
    }
  }

  lemma LowBits(x: int)
    ensures ToInt32(x) == x <==> -TWO31 <= x < TWO31
    ensures ToUInt32(x) == x <==> 0 <= x < TWO32
  {
  }

  lemma RestoresCons(item: Item, items: seq<Item>, arg: Arg, args: seq<Arg>)
    ensures Restores([item] + items, [arg] + args) <==> Carries(item, arg) && Restores(items, args)
  {
    hide Carries;
    if Restores([item] + items, [arg] + args) {
      assert ([item] + items)[0] == item && ([arg] + args)[0] == arg;
      forall k | 0 <= k < |items|
        ensures Carries(items[k], args[k])
      {
        assert ([item] + items)[k + 1] == items[k] && ([arg] + args)[k + 1] == args[k];
      }
    }
  }

  lemma {:induction false} ItemsRestore(pieces: seq<Piece>)
    ensures Restores(ItemsOf(pieces), ArgsOf(pieces)) <==> AllFit(pieces)
  {
    hide *;
    if pieces == [] {
      NothingToRestore();
    } else {
      var piece, rest := pieces[0], pieces[1..];
      FirstPiece(pieces);
      FirstScanned(pieces, "");
      FirstFits(pieces);
      ItemsRestore(rest);
      PieceRestores(piece, ItemsOf(rest), ArgsOf(rest));
    }
  }

  lemma PieceRestores(piece: Piece, items: seq<Item>, args: seq<Arg>)
    ensures Restores(Items(piece) + items, piece.Args() + args) <==> PieceFits(piece) && Restores(items, args)
  {
    hide Restores, Carries, ItemOf, Datum.Arg, Fits;
    if piece.Field? {
      ItemCarries(piece.datum);
      RestoresCons(ItemOf(piece.datum), items, piece.datum.Arg(), args);
    } else {
      assert [] + items == items && [] + args == args;
    }
  }

  lemma FirstFits(pieces: seq<Piece>)
    requires pieces != []
    ensures AllFit(pieces) <==> PieceFits(pieces[0]) && AllFit(pieces[1..])
  {
    hide PieceFits;
    assert pieces == [pieces[0]] + pieces[1..];
  }

  lemma NothingToRestore()
    ensures Restores(ItemsOf([]), ArgsOf([])) && AllFit([]) && forall arg :: !Restores([], [arg])
  {
  }

  /** What the format prints for an argument has no NUL in it and scans back to the item. */
  ghost predicate RoundTrips(format: string, arg: Arg, item: Item) {
    && '\0' !in format
    && FormatText(format, [arg]).Some?
    && '\0' !in FormatText(format, [arg]).value
    && ScanText(FormatText(format, [arg]).value, format) == Some([item])
  }

  /** A word printed with %u, %lu, %zu, %x, %X, %p or %b scans back, as does every number above INT_MIN with %d. */
  lemma NumberRoundTrip(w: UInt32, i: Int32)
    requires i != -TWO31
    ensures RoundTrips("%u", WordArg(w), WordItem(w)) && RoundTrips("%b", WordArg(w), WordItem(w))
    ensures RoundTrips("%x", WordArg(w), WordItem(w)) && RoundTrips("%X", WordArg(w), WordItem(w))
    ensures RoundTrips("%p", WordArg(w), WordItem(w)) && RoundTrips("%zu", WordArg(w), WordItem(w))
    ensures RoundTrips("%lu", WordArg(w), WordItem(w)) && RoundTrips("%d", IntArg(i), IntItem(i))
  {
    hide RoundTrips, SignedDecimal, Numeral;
    OneRoundTrip(Unsigned(w), "%u");
    OneRoundTrip(Hex(false, w), "%x");
    OneRoundTrip(Hex(true, w), "%X");
    OneRoundTrip(Binary(w), "%b");
    OneRoundTrip(Pointer(w), "%p");
    OneRoundTrip(Size(w), "%zu");
    OneRoundTrip(LongWord(w), "%lu");
    OneRoundTrip(Signed(i), "%d");
  }

  /** Longer numbers come back as their low 32 bits: unchanged exactly when they fit. */
  lemma LongRoundTripIff(l: Int64, lw: UInt64)
    ensures RoundTrips("%ld", LongArg(l), IntItem(ToInt32(l))) && RoundTrips("%lld", LongArg(l), IntItem(ToInt32(l)))
    ensures RoundTrips("%llu", LongWordArg(lw), WordItem(ToUInt32(lw)))
    ensures ToInt32(l) == l <==> -TWO31 <= l < TWO31
    ensures ToUInt32(lw) == lw <==> lw < TWO32
  {
    hide RoundTrips, SignedDecimal, Numeral;
    OneRoundTrip(Long(l), "%ld");
    OneRoundTrip(LongLong(l), "%lld");
    OneRoundTrip(Huge(lw), "%llu");
  }

  lemma OneRoundTrip(datum: Datum, format: string)
    requires Reads(datum, 0) && Ends(datum, "") && format == "%" + datum.Letters()
    ensures RoundTrips(format, datum.Arg(), ItemOf(datum))
  {
    assert !datum.Text?;
    var piece := Field(0, 0, datum);
    PlainFormat(datum);
    assert piece.Args() == [datum.Arg()] && Items(piece) == [ItemOf(datum)];
    hide ScanText, FormatText, Piece.Format, Piece.Output, Datum.Letters, Datum.Arg, ItemOf;
    OnePiece(piece);
  }

  lemma OnePiece(piece: Piece)
    requires piece.Writable() && PieceReads(piece) && Separated(piece, "")
    ensures '\0' !in piece.Format() && '\0' !in piece.Output()
    ensures FormatText(piece.Format(), piece.Args()) == Some(piece.Output())
    ensures ScanText(piece.Output(), piece.Format()) == Some(Items(piece))
    ensures Restores(Items(piece), piece.Args()) <==> PieceFits(piece)
  {
    hide *;
    SinglePiece(piece);
    SingleScanned(piece);
    ScanInvertsPrint([piece], "");
    assert piece.Output() + "" == piece.Output();
  }

  lemma SingleScanned(piece: Piece)
    ensures ItemsOf([piece]) == Items(piece) && (AllFit([piece]) <==> PieceFits(piece))
    ensures AllSeparated([piece], "") <==> PieceReads(piece) && Separated(piece, "")
  {
    hide Items, PieceFits, PieceReads, Separated, OutputOf;
    NoPieces();
    NothingScanned();
    ConsScanned(piece, [], "");
    assert [piece] + [] == [piece] && "" + "" == "" && Items(piece) + [] == Items(piece);
  }

  // ---------- What does not come back ----------

  /** A format that is one conversion: what is scanned is up to that conversion. */
  lemma ScanOne(s: string, f: string, zeros: nat, width: nat, letters: string)
    requires '\0' !in s && '\0' !in f && width < TWO31 && IsConversionAt(f, 0, |f|, zeros, width, letters)
    ensures var q := SkipWhile(s, 0, IsBlank);
            var o := ScanConversion(s, q, f, |f| - |letters|, ScannedWidth(zeros, width));
            (o.Stored? ==> ScanText(s, f) == PrependItem(o.item, ScanFrom(s, o.input, f, o.format)))
            && (o.Passed? ==> ScanText(s, f) == ScanFrom(s, q, f, o.format))
            && (o.Stopped? ==> ScanText(s, f) == Some([]))
  {
    ConversionParts(f, zeros, width, letters);
    hide IsConversionAt, ScanConversion, SkipDigits, ScanWidth, ScannedWidth, ScanFrom, SkipWhile, At;
    ScanTurn(s, 0, f, 0);
  }

  lemma ConversionParts(f: string, zeros: nat, width: nat, letters: string)
    requires width < TWO31 && IsConversionAt(f, 0, |f|, zeros, width, letters)
    ensures |f| > 1 && f[0] == '%' && At(f, 1) != '%' && SkipDigits(f, 1, 10) == |f| - |letters| > 0
    ensures ScanWidth(f, 1) == ScannedWidth(zeros, width) && f[|f| - |letters|..|f|] == letters
  {
    hide SkipDigits, ScanWidth, WidthAt, ConversionAt, ScannedWidth;
  }

  /** The scan of a text with one conversion. */
  lemma ScanSingle(piece: Piece, s: string)
    requires piece.Writable() && piece.Field? && !piece.datum.HugeHex? && '\0' !in s
    ensures '\0' !in piece.Format()
    ensures var r := DatumParse(piece.datum, s, SkipWhile(s, 0, IsBlank), ScannedWidth(piece.zeros, piece.width));
            ScanText(s, piece.Format()) == Some(if r.Some? then [r.value.0] else [])
  {
    FieldWritable(piece);
    hide *;
    var f := piece.Format();
    PieceHasNoNul(piece);
    assert f[0..|f|] == f;
    FieldIsConversion(f, 0, |f|, piece);
    ScanOneParses(piece.datum, piece.zeros, piece.width, s, f);
  }

  lemma FieldWritable(piece: Piece)
    requires piece.Writable() && piece.Field?
    ensures piece.width < TWO31
  {
  }

  lemma ScanOneParses(datum: Datum, zeros: nat, width: nat, s: string, f: string)
    requires !datum.HugeHex? && '\0' !in s && '\0' !in f && width < TWO31
    requires IsConversionAt(f, 0, |f|, zeros, width, datum.Letters())
    ensures var r := DatumParse(datum, s, SkipWhile(s, 0, IsBlank), ScannedWidth(zeros, width));
            ScanText(s, f) == Some(if r.Some? then [r.value.0] else [])
  {
    hide ScanConversion, ScanText, ScanFrom, SkipWhile, DatumParse, Datum.Letters, ScannedWidth, IsConversionAt;
    ConversionParts(f, zeros, width, datum.Letters());
    var q, k := SkipWhile(s, 0, IsBlank), |f| - |datum.Letters()|;
    ScanOne(s, f, zeros, width, datum.Letters());
    ConversionParses(s, q, datum, k, f, ScannedWidth(zeros, width));
    var r := DatumParse(datum, s, q, ScannedWidth(zeros, width));
    if r.Some? {
      ParsedInside(datum, s, q, ScannedWidth(zeros, width));
      ScanDone(s, r.value.1, f);
      assert [r.value.0] + [] == [r.value.0];
    }
  }

  lemma ParsedInside(datum: Datum, s: string, p: nat, width: Int32)
    requires p <= |s|
    ensures var r := DatumParse(datum, s, p, width); r.Some? ==> p < r.value.1 <= |s|
  {
  }

  // ---------- Numbers as anyone may write them ----------

  lemma ParsersSkip(s: string, p: nat, q: nat, base: nat)
    requires p <= |s| && q <= |s| && SkipWhile(s, p, IsBlank) == q == SkipWhile(s, q, IsBlank) && base in {2, 10, 16}
    ensures ParseInt(s, q) == ParseInt(s, p) && ParseWord(s, q, base) == ParseWord(s, p, base)
  {
    hide SkipWhile, ParseRun, IsBlank, IsSign, HasHexPrefix;
  }

  lemma SkipTwice(s: string)
    ensures var q := SkipWhile(s, 0, IsBlank); q <= |s| && SkipWhile(s, q, IsBlank) == q
  {
    NoBlanks(s, SkipWhile(s, 0, IsBlank));
  }

  /** Skipping blanks twice is skipping them once. */
  lemma SkippedAlready(s: string, base: nat)
    requires base in {2, 10, 16}
    ensures var q := SkipWhile(s, 0, IsBlank);
            q <= |s| && ParseInt(s, q) == ParseInt(s, 0) && ParseWord(s, q, base) == ParseWord(s, 0, base)
  {
    hide *;
    SkipTwice(s);
    ParsersSkip(s, 0, SkipWhile(s, 0, IsBlank), base);
  }

  lemma NumberHasNoNul(white: string, prefix: string, n: nat, base: nat, upperCase: bool, tail: string)
    requires Blanks(white) && '\0' !in prefix && 2 <= base <= 36 && '\0' !in tail
    ensures '\0' !in white + prefix + Numeral(n, base, upperCase) + tail
  {
    TextHasNoNul(n, base, upperCase, 0);
    hide Numeral;
  }

  /** The base a word is read in, 0 for what is no word. */
  function ReadBase(datum: Datum): (base: nat)
    ensures base in {0, 2, 10, 16}
  {
    match datum
    case Unsigned(_) => 10
    case Size(_) => 10
    case LongWord(_) => 10
    case Huge(_) => 10
    case Hex(_, _) => 16
    case Pointer(_) => 16
    case Binary(_) => 2
    case _ => 0
  }

  lemma DatumParseIs(datum: Datum, s: string, p: nat, width: Int32)
    requires p <= |s|
    ensures datum.Signed? || datum.Long? || datum.LongLong? ==> DatumParse(datum, s, p, width) == ParseInt(s, p)
    ensures ReadBase(datum) > 0 ==> DatumParse(datum, s, p, width) == ParseWord(s, p, ReadBase(datum))
  {
    hide ParseInt, ParseWord, ParseText;
  }

  /** %d, %ld and %lld read blanks, a sign and a decimal, whatever follows, and whatever their width. */
  lemma IntScans(piece: Piece, white: string, sign: string, n: nat, tail: string)
    requires piece.Writable() && piece.Field? && (piece.datum.Signed? || piece.datum.Long? || piece.datum.LongLong?)
    requires Blanks(white) && sign in {"", "+", "-"} && '\0' !in tail && (tail != "" ==> DigitValue(tail[0]) >= 10)
    ensures var s := white + sign + Numeral(n, 10, false) + tail;
            '\0' !in s && '\0' !in piece.Format()
            && ScanText(s, piece.Format()) == Some([IntItem(ToInt32(if sign == "-" then -(n as int) else n))])
  {
    FieldWritable(piece);
    hide *;
    var s := white + sign + Numeral(n, 10, false) + tail;
    NumberHasNoNul(white, sign, n, 10, false, tail);
    IntReads(white, sign, n, tail);
    SkippedAlready(s, 10);
    DatumParseIs(piece.datum, s, SkipWhile(s, 0, IsBlank), ScannedWidth(piece.zeros, piece.width));
    ScanSingle(piece, s);
  }

  /** The other numbers are read without a sign, those in base 16 in either case and with or without 0x. */
  lemma WordScans(piece: Piece, white: string, prefix: string, n: nat, upperCase: bool, tail: string)
    requires piece.Writable() && piece.Field? && ReadBase(piece.datum) > 0
    requires Blanks(white) && '\0' !in tail && (prefix == "" || (ReadBase(piece.datum) == 16 && prefix in {"0x", "0X"}))
    requires tail != "" ==>
               DigitValue(tail[0]) >= ReadBase(piece.datum)
               && (prefix == "" && n == 0 && ReadBase(piece.datum) == 16 ==> tail[0] !in {'x', 'X'})
    ensures var s := white + prefix + Numeral(n, ReadBase(piece.datum), upperCase) + tail;
            '\0' !in s && '\0' !in piece.Format() && ScanText(s, piece.Format()) == Some([WordItem(ToUInt32(n))])
  {
    FieldWritable(piece);
    assert !piece.datum.HugeHex?;
    hide *;
    var base := ReadBase(piece.datum);
    var s := white + prefix + Numeral(n, base, upperCase) + tail;
    NumberHasNoNul(white, prefix, n, base, upperCase, tail);
    WordReads(white, prefix, n, base, upperCase, tail);
    SkippedAlready(s, base);
    DatumParseIs(piece.datum, s, SkipWhile(s, 0, IsBlank), ScannedWidth(piece.zeros, piece.width));
    ScanSingle(piece, s);
  }

  /** The documented scans, and a sign, blanks and a prefix. */
  lemma ScanExamples()
    ensures ScanText("42", "%d") == Some([IntItem(42)]) && ScanText("\r +5,", "%d") == Some([IntItem(5)])
    ensures ScanText("100", "%u") == Some([WordItem(100)]) && ScanText("FF", "%x") == Some([WordItem(255)])
    ensures ScanText("1010", "%b") == Some([WordItem(10)]) && ScanText("0x10", "%p") == Some([WordItem(16)])
  {
    hide ScanText, Numeral, ToInt32, ToUInt32;
    ScanNumerals();
    MoreScanNumerals();
    IntExample("", "", 42, "", "42");
    IntExample("\r ", "+", 5, ",", "\r +5,");
    WordExample(Unsigned(0), "", 100, false, "100", "%u");
    WordExample(Hex(false, 0), "", 255, true, "FF", "%x");
    WordExample(Binary(0), "", 10, false, "1010", "%b");
    WordExample(Pointer(0), "0x", 16, false, "0x10", "%p");
  }

  lemma ScanNumerals()
    ensures Numeral(42, 10, false) == "42" && Numeral(5, 10, false) == "5" && Numeral(100, 10, false) == "100"
  {
    assert Digits(0, 10, false) == "" && Digits(4, 10, false) == "4" && Digits(1, 10, false) == "1";
    assert Digits(10, 10, false) == "10";
  }

  lemma MoreScanNumerals()
    ensures Numeral(255, 16, true) == "FF" && Numeral(10, 2, false) == "1010" && Numeral(16, 16, false) == "10"
  {
    assert Digits(0, 16, true) == Digits(0, 16, false) == Digits(0, 2, false) == "";
    assert Digits(15, 16, true) == "F" && Digits(1, 2, false) == "1" && Digits(5, 2, false) == "101";
    assert Digits(1, 16, false) == "1";
  }

  lemma IntExample(white: string, sign: string, n: nat, tail: string, s: string)
    requires Blanks(white) && sign in {"", "+"} && n < TWO31
    requires '\0' !in tail && (tail != "" ==> DigitValue(tail[0]) >= 10)
    requires s == white + sign + Numeral(n, 10, false) + tail
    ensures '\0' !in s && ScanText(s, "%d") == Some([IntItem(n)])
  {
    hide ScanText, Numeral, ToInt32, DigitValue, Blanks;
    SignedValue(n);
    PlainFormat(Signed(0));
    assert "%" + "d" == "%d";
    IntScans(Field(0, 0, Signed(0)), white, sign, n, tail);
  }

  lemma WordWritable(datum: Datum)
    requires ReadBase(datum) > 0
    ensures Field(0, 0, datum).Writable()
  {
  }

  lemma WordExample(datum: Datum, prefix: string, n: nat, upperCase: bool, s: string, format: string)
    requires ReadBase(datum) > 0 && (prefix == "" || (ReadBase(datum) == 16 && prefix == "0x")) && n < TWO32
    requires s == prefix + Numeral(n, ReadBase(datum), upperCase) && format == "%" + datum.Letters()
    ensures '\0' !in s && '\0' !in format && ScanText(s, format) == Some([WordItem(n)])
  {
    assert Blanks("");
    hide *;
    UnsignedValue(n);
    PlainFormat(datum);
    WordWritable(datum);
    WordScans(Field(0, 0, datum), "", prefix, n, upperCase, "");
    assert "" + prefix == prefix && s + "" == s;
  }

  /** A text whose own print is read back as itself is one the scanner can read. */
  lemma TextNeedsRoom(text: string, p: nat, width: Int32)
    requires p <= |text| && ParseText(text, p, width).Some? && ParseText(text, p, width).value.0 == TextItem(text)
    ensures text != "" && NoSpace(text) && |text| < width as int
  {
  }

  /** A zero-padded negative number: the scanner reads the zeros and stops at the sign. */
  lemma PaddedNegativeIsZero(s: string, width: nat, i: Int32)
    requires i < 0 && width > |SignedDecimal(i)| && s == PadTo(SignedDecimal(i), width)
    ensures SkipWhile(s, 0, IsBlank) == 0 && ParseInt(s, 0) == Some((IntItem(0), width - |SignedDecimal(i)|))
  {
    var zeros := width - |SignedDecimal(i)|;
    assert s[zeros] == SignedDecimal(i)[0] == '-' && forall k | 0 <= k < zeros :: s[k] == '0';
    hide SignedDecimal, PadTo;
    RunOfDigits(s, 0, 0, zeros, 10);
    ZeroRun(s[0..zeros], 10);
    NoBlanks(s, 0);
    SignedValue(0);
  }

  lemma NoHexIsX(n: nat, upperCase: bool)
    ensures var t := Numeral(n, 16, upperCase); t != "" && DigitValue(t[0]) < 16 && !IsBlank(t[0])
  {
    NumeralRoundTrip(n, 16, upperCase);
    var t := Numeral(n, 16, upperCase);
    DigitIsNoSpace(t[0], 16);
  }

  lemma HugeHexShape(zeros: nat, width: nat, upperCase: bool, lw: UInt64)
    requires width < TWO31
    ensures var piece := Field(zeros, width, HugeHex(upperCase, lw));
            piece.Writable() && piece.Output() != "" && !IsBlank(piece.Output()[0])
            && piece.Output()[0] != 'x' && piece.Output()[0] != 'X' && '\0' !in piece.Output()
            && (piece.datum.Letters() == "llx" || piece.datum.Letters() == "llX")
  {
    hide Numeral, IsBlank;
    NoHexIsX(lw, upperCase);
    OutputHasNoNul(Field(zeros, width, HugeHex(upperCase, lw)));
  }

  /** After %ll the scanner takes an x for a literal, which no numeral starts with. */
  lemma HugeHexStops(zeros: nat, width: nat, upperCase: bool, lw: UInt64)
    requires width < TWO31
    ensures var piece := Field(zeros, width, HugeHex(upperCase, lw));
            '\0' !in piece.Output() && '\0' !in piece.Format() && ScanText(piece.Output(), piece.Format()) == Some([])
  {
    HugeHexShape(zeros, width, upperCase, lw);
    hide *;
    var piece := Field(zeros, width, HugeHex(upperCase, lw));
    PieceHasNoNul(piece);
    assert piece.Format()[0..|piece.Format()|] == piece.Format();
    FieldIsConversion(piece.Format(), 0, |piece.Format()|, piece);
    NoBlanks(piece.Output(), 0);
    LongHexStops(piece.Output(), piece.Format(), zeros, width, piece.datum.Letters());
  }

  lemma LongHexStops(s: string, f: string, zeros: nat, width: nat, letters: string)
    requires '\0' !in s && '\0' !in f && width < TWO31 && IsConversionAt(f, 0, |f|, zeros, width, letters)
    requires letters == "llx" || letters == "llX"
    requires s != "" && s[0] != 'x' && s[0] != 'X' && SkipWhile(s, 0, IsBlank) == 0
    ensures ScanText(s, f) == Some([])
  {
    hide SkipWhile, ScanFrom, ScanText, ScanConversion, IsConversionAt, ScannedWidth, SkipDigits, ScanWidth, At;
    ConversionParts(f, zeros, width, letters);
    ScanOne(s, f, zeros, width, letters);
    LettersAt(f, |f| - 3, letters);
    LongHexPasses(s, f, |f| - 3, ScannedWidth(zeros, width));
    LiteralStep(s, 0, f, |f| - 1);
  }

  lemma LongHexPasses(s: string, f: string, k: nat, width: Int32)
    requires |f| == k + 3 && f[k] == 'l' && f[k + 1] == 'l' && (f[k + 2] == 'x' || f[k + 2] == 'X') && '\0' !in f
    ensures ScanConversion(s, 0, f, k, width) == Passed(k + 2)
  {
    hide ParseInt, ParseWord, ParseText;
  }

  /** Text without a character above '0' scans to no number but 0. */
  lemma LowScansToZero(s: string, p: nat)
    requires p <= |s| && forall c | c in s :: c <= '0'
    ensures var r := ParseInt(s, p); r.Some? ==> r.value.0 == IntItem(0)
  {
    hide ParseRun, ToInt32, SkipWhile, At;
    var q := SkipWhile(s, p, IsBlank);
    var start := if IsSign(At(s, q)) then q + 1 else q;
    SignIsInside(s, q);
    LowRun(s, start);
    assert 0 * Sign(At(s, q)) == 0;
    SignedValue(0);
  }

  lemma SignIsInside(s: string, q: nat)
    requires q <= |s|
    ensures IsSign(At(s, q)) ==> q < |s|
  {
  }

  lemma LowRun(s: string, start: nat)
    requires start <= |s| && forall c | c in s :: c <= '0'
    ensures var r := ParseRun(s, start, 10); r.Some? ==> r.value.0 == 0
  {
    var end := SkipDigits(s, start, 10);
    forall k | start <= k < end
      ensures s[k] == '0'
    {
      assert s[k] in s && DigitValue(s[k]) < 10;
    }
    ZeroRun(s[start..end], 10);
    hide SkipDigits, Value;
  }

  lemma LowPads(text: string, width: nat)
    requires forall c | c in text :: c <= '0'
    ensures forall c | c in PadTo(text, width) :: c <= '0'
  {
  }

  /** The characters in front of the first NUL, which is where a scan of the buffer ends. */
  function Terminated(s: string): (t: string)
    ensures '\0' !in t && ('\0' !in s ==> t == s)
  {
    var end := SkipWhile(s, 0, c => c != '\0');
    s[..end]
  }

  lemma NulEnds()
    ensures Terminated("\0") == ""
  {
  }

  /** What is scanned of a print: all of it, or nothing of a NUL. */
  lemma TerminatedOutput(piece: Piece)
    requires piece.Writable()
    ensures if piece.Field? && piece.datum == Character('\0') then Terminated(piece.Output()) == ""
            else Terminated(piece.Output()) == piece.Output()
  {
    if piece.Field? && piece.datum == Character('\0') {
      NulEnds();
    } else {
      OutputHasNoNul(piece);
    }
    hide Piece.Output;
  }

  /** A conversion that is not read gives nothing, or another value. */
  lemma LostWhenNotRead(piece: Piece, s: string)
    requires piece.Writable() && piece.Field? && !piece.datum.HugeHex? && !Reads(piece.datum, piece.width)
    requires s == Terminated(piece.Output())
    ensures var r := DatumParse(piece.datum, s, SkipWhile(s, 0, IsBlank), ScannedWidth(piece.zeros, piece.width));
            r.Some? ==> !Carries(r.value.0, piece.datum.Arg())
  {
    hide PadTo, SignedDecimal, SignedText, ParseInt, ParseText, Numeral, Terminated;
    TerminatedOutput(piece);
    var width, p, scanned := piece.width, SkipWhile(s, 0, IsBlank), ScannedWidth(piece.zeros, piece.width);
    match piece.datum {
      case Character(c) =>
      case Text(text) =>
        if ParseText(text, p, scanned).Some? && ParseText(text, p, scanned).value.0 == TextItem(text) {
          TextNeedsRoom(text, p, scanned);
        }
      case Signed(i) =>
        if i == -TWO31 {
          LeastText();
          LowPads(SignedText(i, 10, false, -TWO31), width);
          LowScansToZero(s, p);
        } else {
          SignedTextIsDecimal(i, false, -TWO31);
          PaddedNegativeIsZero(s, width, i);
        }
      case SignedAlias(_) =>
    }
  }

  /**
   * Which conversions undo themselves: what one piece printed, scanned with the same format, gives
   * its value back exactly when ComesBack says so, for every conversion, argument and width an int holds.
   */
  lemma ComesBackIff(piece: Piece)
    requires piece.Writable()
    ensures '\0' !in piece.Format() && FormatText(piece.Format(), piece.Args()) == Some(piece.Output())
    ensures var r := ScanText(Terminated(piece.Output()), piece.Format());
            (r.Some? && Restores(r.value, piece.Args())) <==> ComesBack(piece)
  {
    hide ScanText, FormatText, Restores, Carries, Terminated, Piece.Format, Piece.Output, OutputOf, FormatOf, ArgsOf;
    hide PrintedOf, DatumParse, Datum.Arg, ItemOf, Fits;
    SinglePiece(piece);
    PrintsAsDocumented([piece]);
    TerminatedOutput(piece);
    var s := Terminated(piece.Output());
    if PieceReads(piece) {
      assert Separated(piece, "");
      OnePiece(piece);
    } else if piece.datum.HugeHex? {
      HugeHexStops(piece.zeros, piece.width, piece.datum.upperCase, piece.datum.lw);
      NothingToRestore();
    } else {
      ScanSingle(piece, s);
      LostWhenNotRead(piece, s);
      NothingToRestore();
      var r := DatumParse(piece.datum, s, SkipWhile(s, 0, IsBlank), ScannedWidth(piece.zeros, piece.width));
      if r.Some? {
        RestoresCons(r.value.0, [], piece.datum.Arg(), []);
        assert [r.value.0] + [] == [r.value.0] && [piece.datum.Arg()] + [] == [piece.datum.Arg()];
      }
    }
  }

  /** A long number that does not: its low 32 bits are all that is scanned. */
  lemma LongExample()
    ensures RoundTrips("%lld", LongArg(0x1_0000_0000), IntItem(0))
  {
    LongRoundTripIff(0x1_0000_0000, 0);
    assert ToInt32(0x1_0000_0000) == 0;
    hide RoundTrips;
  }
}
