/** The screen size, scanned out of the frame buffer's mode line. */
module ScreenModes {
  import opened Words
  import opened Options
  import opened Numerals
  import opened Stdlib
  import opened Scanf
  import opened Formats
  import opened PrintScan

  const MODE_FORMAT := "%c:%dx%dp"

  /** The line the frame buffer device offers for one mode. */
  function ModeLine(width: nat, height: nat): string {
    "U:" + Numeral(width, 10, false) + "x" + Numeral(height, 10, false) + "p-60\n"
  }

  /** From position f of the mode format, at most this many numbers are still to come. */
  function NumbersFrom(f: nat): nat {
    if f <= 3 then 2 else if f <= 6 then 1 else 0
  }

  predicate IsModeFormat(format: string) {
    && |format| == 9 && '\0' !in format
    && format[0] == '%' && format[1] == 'c' && format[2] == ':'
    && format[3] == '%' && format[4] == 'd' && format[5] == 'x'
    && format[6] == '%' && format[7] == 'd' && format[8] == 'p'
  }

  /** A scan in which everything stored is a number. */
  predicate AllNumbers(r: Option<seq<Item>>, most: nat) {
    r.Some? && |r.value| <= most && forall item | item in r.value :: item.IntItem?
  }

  lemma NumbersCons(item: Item, rest: Option<seq<Item>>, most: nat)
    ensures AllNumbers(Some([]), most)
    ensures item.IntItem? && AllNumbers(rest, most) ==> AllNumbers(PrependItem(item, rest), most + 1)
  {
  }

  /** Whatever the text, the mode format stores a character first and then numbers. */
  lemma {:induction false} ModeItems(s: string, p: nat, format: string, f: nat)
    requires p <= |s| && '\0' !in s && IsModeFormat(format) && f in {2, 3, 5, 6, 8, 9}
    ensures AllNumbers(ScanFrom(s, p, format, f), NumbersFrom(f))
    decreases 9 - f
  {
    hide ParseInt, SkipWhile, ScanFrom, AllNumbers, PrependItem;
    NumbersCons(IntItem(0), None, NumbersFrom(f));
    if f == 3 || f == 6 {
      IntStep(s, p, format, f);
      var read := ParseInt(s, SkipWhile(s, p, IsBlank));
      if read.Some? {
        ModeItems(s, read.value.1, format, f + 2);
        NumbersCons(read.value.0, ScanFrom(s, read.value.1, format, f + 2), NumbersFrom(f + 2));
      }
    } else if f < 9 {
      LiteralStep(s, p, format, f);
      if p < |s| {
        ModeItems(s, p + 1, format, f + 1);
      }
    } else {
      ScanDone(s, p, format);
    }
  }

  /** A scan that stored a character and two numbers. */
  predicate IsSize(r: Option<seq<Item>>) {
    r.Some? && |r.value| == 3 && r.value[1].IntItem? && r.value[2].IntItem?
  }

  lemma SizeCons(c: char, rest: Option<seq<Item>>)
    requires AllNumbers(rest, 2)
    ensures var r := PrependItem(CharItem(c), rest); r.Some? && (|r.value| >= 3 <==> IsSize(r))
  {
  }

  lemma ModeFormatShape()
    ensures IsModeFormat(MODE_FORMAT)
  {
  }

  lemma ModeScan(s: string)
    requires '\0' !in s
    ensures var r := ScanText(s, MODE_FORMAT);
            r.Some? && (|r.value| >= 3 <==> IsSize(r))
  {
    ModeFormatShape();
    hide ScanFrom, SkipWhile, AllNumbers, PrependItem, MODE_FORMAT;
    CharStep(s, 0, MODE_FORMAT, 0);
    var q := SkipWhile(s, 0, IsBlank);
    if q < |s| {
      ModeItems(s, q + 1, MODE_FORMAT, 2);
      SizeCons(s[q], ScanFrom(s, q + 1, MODE_FORMAT, 2));
    }
  }

  /**
   * The screen dimensions in the text read from the mode file, or the fallback: when there is no
   * text, or fewer than three items scan.
   */
  method GetScreenDimensions(modes: Option<string>) returns (width: UInt32, height: UInt32, ok: bool)
    requires modes.Some? ==> '\0' !in modes.value
    ensures ok <==> modes.Some? && IsSize(ScanText(modes.value, MODE_FORMAT))
    ensures ok ==> var items := ScanText(modes.value, MODE_FORMAT).value;
                   width == ToUInt32(items[1].i) && height == ToUInt32(items[2].i)
    ensures !ok ==> width == 640 && height == 480
  {
    if modes.None? {
      return 640, 480, false;
    }
    ModeScan(modes.value);
    hide ScanText;
    var items := VSScanf(modes.value, MODE_FORMAT);
    if |items| >= 3 {
      return ToUInt32(items[1].i), ToUInt32(items[2].i), true;
    }
    return 640, 480, false;
  }

  /** Every mode line with dimensions an int can hold scans to exactly three items, the dimensions among them. */
  lemma ModeLineScans(width: nat, height: nat)
    requires width < TWO31 && height < TWO31
    ensures '\0' !in ModeLine(width, height)
    ensures ScanText(ModeLine(width, height), MODE_FORMAT)
            == Some([CharItem('U'), IntItem(width), IntItem(height)])
  {
    var w, h := Numeral(width, 10, false), Numeral(height, 10, false);
    var pieces := ModePieces(width, height, w, h, "-60\n");
    hide FormatOf, OutputOf, ItemsOf, AllWritable, AllSeparated, ScanText, Numeral;
    ModeLineShape(w, h);
    ScanInvertsPrint(pieces, "-60\n");
  }

  lemma ModePieces(width: nat, height: nat, w: string, h: string, tail: string) returns (pieces: seq<Piece>)
    requires width < TWO31 && height < TWO31 && w == Numeral(width, 10, false) && h == Numeral(height, 10, false)
    ensures FormatOf(pieces) == "%c" + ([':'] + ("%d" + (['x'] + ("%d" + ['p']))))
    ensures OutputOf(pieces) == "U" + ([':'] + (w + (['x'] + (h + ['p']))))
    ensures ItemsOf(pieces) == [CharItem('U'), IntItem(width), IntItem(height)]
    ensures AllWritable(pieces) && AllSeparated(pieces, tail)
  {
    hide FormatOf, OutputOf, ItemsOf, AllWritable, AllSeparated, Numeral;
    var f, t := ['x'] + ("%d" + ['p']), ['x'] + (h + ['p']);
    pieces := HeightPieces(height, h, tail);
    pieces := NumberPiece(width, pieces, tail, f, t, [IntItem(height)]);
    pieces := LiteralPiece(':', pieces, tail, "%d" + f, w + t, [IntItem(width)] + [IntItem(height)]);
    pieces := CharacterPiece('U', pieces, tail, [':'] + ("%d" + f), [':'] + (w + t),
                             [IntItem(width)] + [IntItem(height)]);
  }

  lemma HeightPieces(height: nat, h: string, tail: string) returns (pieces: seq<Piece>)
    requires height < TWO31 && h == Numeral(height, 10, false)
    ensures FormatOf(pieces) == ['x'] + ("%d" + ['p']) && OutputOf(pieces) == ['x'] + (h + ['p'])
    ensures ItemsOf(pieces) == [IntItem(height)] && AllWritable(pieces) && AllSeparated(pieces, tail)
  {
    NoPieces();
    NothingScanned();
    hide FormatOf, OutputOf, ItemsOf, AllWritable, AllSeparated, Numeral;
    pieces := LiteralPiece('p', [], tail, "", "", []);
    assert ['p'] + "" == ['p'];
    pieces := NumberPiece(height, pieces, tail, ['p'], ['p'], []);
    pieces := LiteralPiece('x', pieces, tail, "%d" + ['p'], h + ['p'], [IntItem(height)] + []);
  }

  lemma PlainCharacter(c: char, following: string) returns (field: Piece)
    requires !IsBlank(c) && c != '\0'
    ensures field.Format() == "%c" && field.Output() == [c] && Items(field) == [CharItem(c)]
    ensures field.Writable() && PieceReads(field) && Separated(field, following)
  {
    field := Field(0, 0, Character(c));
    PlainFormat(field.datum);
    hide WidthText;
  }

  lemma CharacterPiece(c: char, rest: seq<Piece>, tail: string, format: string, printed: string, items: seq<Item>)
    returns (pieces: seq<Piece>)
    requires !IsBlank(c) && c != '\0' && AllWritable(rest) && AllSeparated(rest, tail)
    requires FormatOf(rest) == format && OutputOf(rest) == printed && ItemsOf(rest) == items
    ensures FormatOf(pieces) == "%c" + format && OutputOf(pieces) == [c] + printed
    ensures ItemsOf(pieces) == [CharItem(c)] + items && AllWritable(pieces) && AllSeparated(pieces, tail)
  {
    hide *;
    var field := PlainCharacter(c, printed + tail);
    pieces := [field] + rest;
    ConsPiece(field, rest);
    ConsScanned(field, rest, tail);
  }

  lemma ModeLineShape(w: string, h: string)
    ensures "U" + ([':'] + (w + (['x'] + (h + ['p'])))) + "-60\n" == "U:" + w + "x" + h + "p-60\n"
    ensures "%c" + ([':'] + ("%d" + (['x'] + ("%d" + ['p'])))) == MODE_FORMAT
  {
  }

  lemma LiteralReads(c: char, following: string)
    requires c in {'p', 'x', ':'}
    ensures var piece := Literal(c);
            piece.Format() == [c] && piece.Output() == [c] && Items(piece) == []
            && piece.Writable() && PieceReads(piece) && Separated(piece, following)
  {
  }

  lemma LiteralPiece(c: char, rest: seq<Piece>, tail: string, format: string, printed: string, items: seq<Item>)
    returns (pieces: seq<Piece>)
    requires c in {'p', 'x', ':'} && AllWritable(rest) && AllSeparated(rest, tail)
    requires FormatOf(rest) == format && OutputOf(rest) == printed && ItemsOf(rest) == items
    ensures FormatOf(pieces) == [c] + format && OutputOf(pieces) == [c] + printed
    ensures ItemsOf(pieces) == items && AllWritable(pieces) && AllSeparated(pieces, tail)
  {
    LiteralReads(c, printed + tail);
    hide *;
    ConsPiece(Literal(c), rest);
    ConsScanned(Literal(c), rest, tail);
    pieces := [Literal(c)] + rest;
    assert [] + items == items;
  }

  /** A plain %d in front of something that is no digit. */
  lemma PlainNumber(n: nat, following: string) returns (field: Piece)
    requires n < TWO31 && following != "" && DigitValue(following[0]) >= 10
    ensures field.Format() == "%d" && field.Output() == Numeral(n, 10, false) && Items(field) == [IntItem(n)]
    ensures field.Writable() && PieceReads(field) && Separated(field, following)
  {
    field := Field(0, 0, Signed(n));
    PlainFormat(field.datum);
    SignedTextIsDecimal(n, false, -TWO31);
    PadNothing(Numeral(n, 10, false));
    hide SignedText, SignedDecimal, PadTo, Numeral, WidthText;
  }

  lemma NumberPiece(n: nat, rest: seq<Piece>, tail: string, format: string, printed: string, items: seq<Item>)
    returns (pieces: seq<Piece>)
    requires n < TWO31 && AllWritable(rest) && AllSeparated(rest, tail)
    requires FormatOf(rest) == format && OutputOf(rest) == printed && ItemsOf(rest) == items
    requires printed != "" && DigitValue(printed[0]) >= 10
    ensures FormatOf(pieces) == "%d" + format && OutputOf(pieces) == Numeral(n, 10, false) + printed
    ensures ItemsOf(pieces) == [IntItem(n)] + items && AllWritable(pieces) && AllSeparated(pieces, tail)
  {
    hide *;
    assert (printed + tail)[0] == printed[0];
    var field := PlainNumber(n, printed + tail);
    pieces := [field] + rest;
    ConsPiece(field, rest);
    ConsScanned(field, rest, tail);
  }
}
