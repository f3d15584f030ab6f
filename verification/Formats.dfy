/** Formats taken apart: what each piece of one is documented to print, and what is printed. */
module Formats {
  import opened Words
  import opened Options
  import opened Numerals
  import opened Splitting
  import opened Stdlib
  import opened Strto
  import opened Printf
  import opened Scanf

  /** A conversion with its argument: every one but the floating-point one. */
  datatype Datum =
    | Character(c: char)                     // %c
    | Text(text: string)                     // %s
    | Signed(i: Int32)                       // %d
    | SignedAlias(i: Int32)                  // %i
    | Unsigned(w: UInt32)                    // %u
    | Hex(upperCase: bool, w: UInt32)        // %x, %X
    | Binary(w: UInt32)                      // %b
    | Pointer(w: UInt32)                     // %p
    | Size(w: UInt32)                        // %zu
    | Long(l: Int64)                         // %ld
    | LongWord(w: UInt32)                    // %lu
    | LongLong(l: Int64)                     // %lld
    | Huge(lw: UInt64)                       // %llu
    | HugeHex(upperCase: bool, lw: UInt64)   // %llx, %llX
  {
    /** What stands behind the width in the format. */
    function Letters(): (t: string)
      ensures 1 <= |t| <= 3 && DigitValue(t[0]) >= 10 && t[0] != '.' && t[0] != '%'
    {
      match this
      case Character(_) => "c"
      case Text(_) => "s"
      case Signed(_) => "d"
      case SignedAlias(_) => "i"
      case Unsigned(_) => "u"
      case Hex(upperCase, _) => if upperCase then "X" else "x"
      case Binary(_) => "b"
      case Pointer(_) => "p"
      case Size(_) => "zu"
      case Long(_) => "ld"
      case LongWord(_) => "lu"
      case LongLong(_) => "lld"
      case Huge(_) => "llu"
      case HugeHex(upperCase, _) => if upperCase then "llX" else "llx"
    }

    function Arg(): Arg {
      match this
      case Character(c) => CharArg(c)
      case Text(text) => TextArg(text)
      case Signed(i) => IntArg(i)
      case SignedAlias(i) => IntArg(i)
      case Unsigned(w) => WordArg(w)
      case Hex(_, w) => WordArg(w)
      case Binary(w) => WordArg(w)
      case Pointer(w) => WordArg(w)
      case Size(w) => WordArg(w)
      case Long(l) => LongArg(l)
      case LongWord(w) => WordArg(w)
      case LongLong(l) => LongArg(l)
      case Huge(lw) => LongWordArg(lw)
      case HugeHex(_, lw) => LongWordArg(lw)
    }

    predicate IsNumber() {
      !Character? && !Text?
    }

    /** What is documented without a width. */
    function Plain(): string {
      match this
      case Character(c) => [c]
      case Text(text) => text
      case Signed(i) => SignedDecimal(i)
      case SignedAlias(i) => SignedDecimal(i)
      case Unsigned(w) => Numeral(w, 10, false)
      case Hex(upperCase, w) => Numeral(w, 16, upperCase)
      case Binary(w) => Numeral(w, 2, false)
      case Pointer(w) => "0x" + Numeral(w, 16, false)
      case Size(w) => Numeral(w, 10, false)
      case Long(l) => SignedDecimal(l)
      case LongWord(w) => Numeral(w, 10, false)
      case LongLong(l) => SignedDecimal(l)
      case Huge(lw) => Numeral(lw, 10, false)
      case HugeHex(upperCase, lw) => Numeral(lw, 16, upperCase)
    }

    /** The sign, or the 0x of a pointer, which stays in front of the padding. */
    function Prefix(): (n: nat)
      ensures n <= |Plain()|
    {
      match this
      case Signed(i) => if i < 0 then 1 else 0
      case SignedAlias(i) => if i < 0 then 1 else 0
      case Long(l) => if l < 0 then 1 else 0
      case LongLong(l) => if l < 0 then 1 else 0
      case Pointer(_) => 2
      case _ => 0
    }

    /**
     * What is documented with a width, a minimum for the length of the field: a number is padded with
     * zeros between its sign and its digits, and anything else with blanks.
     */
    function InField(width: nat): (t: string)
      ensures |t| == if width > |Plain()| then width else |Plain()|
    {
      var text := Plain();
      var pad := if width > |text| then width - |text| else 0;
      if IsNumber() then text[..Prefix()] + Zeros(pad) + text[Prefix()..] else Repeated(' ', pad) + text
    }

    /** What is written: %d, %i and %u are padded, the first two in front of their sign, and nothing else is. */
    function Written(width: nat): string {
      match this
      case Signed(i) => PadTo(SignedText(i, 10, false, -TWO31), width)
      case SignedAlias(i) => PadTo(SignedText(i, 10, false, -TWO31), width)
      case Unsigned(_) => PadTo(Plain(), width)
      case _ => Plain()
    }

    /** When what is written is what is documented. */
    predicate AsDocumented(width: nat) {
      match this
      case Signed(i) => i > -TWO31 && (i >= 0 || width <= |Plain()|)
      case SignedAlias(i) => i > -TWO31 && (i >= 0 || width <= |Plain()|)
      case Unsigned(_) => true
      case _ => width <= |Plain()|
    }
  }

  /** A piece of a format: a literal character, %%, or a conversion with a width, which may have leading zeros. */
  datatype Piece = Literal(c: char) | Percent | Field(zeros: nat, width: nat, datum: Datum)
  {
    /** The piece as it stands in the format string. */
    function Format(): string {
      match this
      case Literal(c) => [c]
      case Percent => "%%"
      case Field(zeros, width, datum) => "%" + WidthText(zeros, width) + datum.Letters()
    }

    function Args(): seq<Arg> {
      if Field? then [datum.Arg()] else []
    }

    /** What the piece is documented to print. */
    function Printed(): string {
      match this
      case Literal(c) => [c]
      case Percent => "%"
      case Field(_, width, datum) => datum.InField(width)
    }

    /** What it prints. */
    function Output(): string {
      match this
      case Literal(c) => [c]
      case Percent => "%"
      case Field(_, width, datum) => datum.Written(width)
    }

    /** A piece that can be written: literals are no conversions, widths fit an int, texts end at their NUL. */
    predicate Writable() {
      match this
      case Literal(c) => c != '%' && c != '\0'
      case Percent => true
      case Field(_, width, datum) => width < TWO31 && (datum.Text? ==> '\0' !in datum.text)
    }

    /** A piece that is printed as documented. */
    predicate Printable()
      ensures Printable() ==> Writable()
    {
      Writable() && (Field? ==> datum.AsDocumented(width))
    }
  }

  /** A width in digits; nothing for none. */
  function WidthText(zeros: nat, width: nat): string {
    Zeros(zeros) + if width == 0 then "" else Numeral(width, 10, false)
  }

  function PadTo(text: string, width: nat): string {
    Zeros(if width > |text| then width - |text| else 0) + text
  }

  function FormatOf(pieces: seq<Piece>): string {
    if pieces == [] then "" else pieces[0].Format() + FormatOf(pieces[1..])
  }

  function ArgsOf(pieces: seq<Piece>): seq<Arg> {
    if pieces == [] then [] else pieces[0].Args() + ArgsOf(pieces[1..])
  }

  function PrintedOf(pieces: seq<Piece>): string {
    if pieces == [] then "" else pieces[0].Printed() + PrintedOf(pieces[1..])
  }

  function OutputOf(pieces: seq<Piece>): string {
    if pieces == [] then "" else pieces[0].Output() + OutputOf(pieces[1..])
  }

  predicate AllWritable(pieces: seq<Piece>) {
    forall p | p in pieces :: p.Writable()
  }

  predicate AllPrintable(pieces: seq<Piece>)
    ensures AllPrintable(pieces) ==> AllWritable(pieces)
  {
    forall p | p in pieces :: p.Printable()
  }

  lemma NoPieces()
    ensures FormatOf([]) == "" && ArgsOf([]) == [] && PrintedOf([]) == "" && OutputOf([]) == "" && AllPrintable([])
  {
  }

  lemma FirstPiece(pieces: seq<Piece>)
    requires pieces != []
    ensures FormatOf(pieces) == pieces[0].Format() + FormatOf(pieces[1..])
    ensures ArgsOf(pieces) == pieces[0].Args() + ArgsOf(pieces[1..])
    ensures PrintedOf(pieces) == pieces[0].Printed() + PrintedOf(pieces[1..])
    ensures OutputOf(pieces) == pieces[0].Output() + OutputOf(pieces[1..])
    ensures AllWritable(pieces) <==> pieces[0].Writable() && AllWritable(pieces[1..])
    ensures AllPrintable(pieces) <==> pieces[0].Printable() && AllPrintable(pieces[1..])
  {
    hide Piece.Format, Piece.Args, Piece.Printed, Piece.Output, Piece.Writable, Piece.Printable;
    assert pieces == [pieces[0]] + pieces[1..];
  }

  lemma ConsPiece(piece: Piece, rest: seq<Piece>)
    ensures FormatOf([piece] + rest) == piece.Format() + FormatOf(rest)
    ensures ArgsOf([piece] + rest) == piece.Args() + ArgsOf(rest)
    ensures PrintedOf([piece] + rest) == piece.Printed() + PrintedOf(rest)
    ensures OutputOf([piece] + rest) == piece.Output() + OutputOf(rest)
    ensures AllWritable([piece] + rest) <==> piece.Writable() && AllWritable(rest)
    ensures AllPrintable([piece] + rest) <==> piece.Printable() && AllPrintable(rest)
  {
    hide *;
    FirstPiece([piece] + rest);
    assert ([piece] + rest)[1..] == rest;
  }

  lemma SinglePiece(piece: Piece)
    ensures FormatOf([piece]) == piece.Format() && ArgsOf([piece]) == piece.Args()
    ensures PrintedOf([piece]) == piece.Printed() && OutputOf([piece]) == piece.Output()
    ensures AllWritable([piece]) <==> piece.Writable()
    ensures AllPrintable([piece]) <==> piece.Printable()
  {
    hide *;
    NoPieces();
    ConsPiece(piece, []);
    assert [piece] + [] == [piece] && piece.Format() + "" == piece.Format() && piece.Args() + [] == piece.Args();
    assert piece.Printed() + "" == piece.Printed() && piece.Output() + "" == piece.Output();
  }

  // ---------- Conversions in a format ----------

  /** The width as the scanner takes it: -1 when no digit is there. */
  function ScannedWidth(zeros: nat, width: nat): Int32
    requires width < TWO31
  {
    if zeros == 0 && width == 0 then -1 else width
  }

  lemma WidthIsNumber(zeros: nat, width: nat)
    ensures var t := WidthText(zeros, width); AllDigits(t, 10) && Value(t, 10) == width && '\0' !in t
    ensures WidthText(zeros, width) == "" <==> zeros == 0 && width == 0
  {
    hide Value, Numeral;
    var digits := if width == 0 then "" else Numeral(width, 10, false);
    if width == 0 {
      NothingIsZero();
    } else {
      NumeralRoundTrip(width, 10, false);
    }
    LeadingZeros(zeros, digits, 10);
    var t := WidthText(zeros, width);
    forall k | 0 <= k < |t|
      ensures DigitValue(t[k]) < 10 && t[k] != '\0'
    {
      assert t[k] == if k < zeros then '0' else digits[k - zeros];
    }
  }

  lemma NothingIsZero()
    ensures Value("", 10) == 0
  {
  }

  /** The format holds one conversion from i to next, with a width and letters. */
  ghost predicate IsConversionAt(f: string, i: nat, next: nat, zeros: nat, width: nat, letters: string)
    requires width < TWO31
  {
    && letters != "" && i + 1 + |letters| <= next <= |f|
    && f[i] == '%' && f[i + 1] != '%' && f[next - |letters|..next] == letters
    && SkipDigits(f, i + 1, 10) == next - |letters| == ConversionAt(f, i + 1)
    && WidthAt(f, i + 1) == width && ScanWidth(f, i + 1) == ScannedWidth(zeros, width)
  }

  lemma ConversionIsFound(f: string, i: nat, next: nat, zeros: nat, width: nat, letters: string)
    requires width < TWO31 && letters != "" && DigitValue(letters[0]) >= 10 && letters[0] != '.' && letters[0] != '%'
    requires i <= next <= |f| && f[i..next] == "%" + WidthText(zeros, width) + letters
    ensures IsConversionAt(f, i, next, zeros, width, letters)
  {
    hide Value, Numeral, WidthText;
    var at, end := i + 1, next - |letters|;
    ThreeParts(f, i, next, WidthText(zeros, width), letters);
    WidthIsNumber(zeros, width);
    WidthReads(f, at, end, WidthText(zeros, width), width);
    FirstOfWidth(f, at, end, letters[0]);
    hide SkipDigits, WidthAt, ScanWidth;
  }

  lemma FirstOfWidth(f: string, at: nat, end: nat, c: char)
    requires at <= end < |f| && AllDigits(f[at..end], 10) && f[end] == c != '%' && c != '.'
    ensures f[at] != '%'
  {
    if at < end {
      assert f[at..end][0] == f[at];
    }
  }

  lemma ThreeParts(f: string, i: nat, next: nat, width: string, letters: string)
    requires i <= next <= |f| && f[i..next] == "%" + width + letters && letters != ""
    ensures next == i + 1 + |width| + |letters| && f[i] == '%'
    ensures f[i + 1..next - |letters|] == width && f[next - |letters|..next] == letters
    ensures f[next - |letters|] == letters[0]
  {
    var t := "%" + width + letters;
    assert |t| == next - i && f[i] == t[0];
    assert t[1..1 + |width|] == width && t[1 + |width|..|t|] == letters;
    SliceOfSlice(f, i, next, 1, 1 + |width|);
    SliceOfSlice(f, i, next, 1 + |width|, |t|);
    assert f[next - |letters|..next][0] == f[next - |letters|];
  }

  lemma WidthReads(f: string, at: nat, end: nat, t: string, width: nat)
    requires at <= end < |f| && f[at..end] == t && AllDigits(t, 10) && Value(t, 10) == width < TWO31
    requires DigitValue(f[end]) >= 10
    ensures SkipDigits(f, at, 10) == end && WidthAt(f, at) == width
    ensures ScanWidth(f, at) == if t == "" then -1 else width
  {
    forall k | at <= k < end
      ensures DigitValue(f[k]) < 10
    {
      assert f[k] == f[at..end][k - at];
    }
    RunOfDigits(f, at, at, end, 10);
    SignedValue(width);
    if t != "" {
      var g := f[at..];
      assert g[0..end - at] == t && g[end - at] == f[end];
      DigitsStart(g, end - at, t);
    }
    hide SkipDigits, StrtolResult, ToInt32, Value;
  }

  /** Digits at the start of a text are what the text parses to. */
  lemma DigitsStart(g: string, end: nat, t: string)
    requires 0 < end < |g| && g[0..end] == t && AllDigits(t, 10) && DigitValue(g[end]) >= 10
    ensures StrtolResult(g, 10) == (ToInt32(Value(t, 10)), end)
  {
    hide Value, ToInt32, SkipDigits;
    forall k | 0 <= k < end
      ensures DigitValue(g[k]) < 10
    {
      assert g[k] == g[0..end][k];
    }
    RunOfDigits(g, 0, 0, end, 10);
    DigitIsNoSpace(g[0], 10);
    assert SkipSpace(g, 0) == 0;
    assert ResolveBase(g, 0, 10) == (10, 0);
    assert Value(t, 10) * 1 == Value(t, 10);
    hide SkipSpace, ResolveBase;
  }

  lemma FieldIsConversion(f: string, i: nat, next: nat, piece: Piece)
    requires piece.Writable() && piece.Field? && i <= next <= |f| && f[i..next] == piece.Format()
    ensures IsConversionAt(f, i, next, piece.zeros, piece.width, piece.datum.Letters())
  {
    ConversionIsFound(f, i, next, piece.zeros, piece.width, piece.datum.Letters());
  }

  /** The letters of a conversion, one by one. */
  lemma LettersAt(f: string, k: nat, letters: string)
    requires k + |letters| <= |f| && f[k..k + |letters|] == letters
    ensures |letters| > 0 ==> At(f, k) == f[k] == letters[0]
    ensures |letters| > 1 ==> At(f, k + 1) == f[k + 1] == letters[1]
    ensures |letters| > 2 ==> At(f, k + 2) == f[k + 2] == letters[2]
  {
    var part := f[k..k + |letters|];
    assert |letters| > 0 ==> f[k] == part[0];
    assert |letters| > 1 ==> f[k + 1] == part[1];
    assert |letters| > 2 ==> f[k + 2] == part[2];
  }

  // ---------- What is printed ----------

  lemma PaddingAgrees(text: string, width: nat)
    requires width < TWO31
    ensures Padded(text, width) == PadTo(text, width)
  {
    UnsignedValue(width);
  }

  lemma LongTextIsDecimal(l: Int64)
    ensures LongText(l) == SignedDecimal(l)
  {
  }

  lemma DatumConverts(f: string, k: nat, width: nat, datum: Datum, args: seq<Arg>)
    requires width < TWO31 && (datum.Text? ==> '\0' !in datum.text) && '\0' !in f
    requires k + |datum.Letters()| <= |f| && f[k..k + |datum.Letters()|] == datum.Letters()
    ensures Convert(f, k, width, [datum.Arg()] + args)
            == Some(Conversion(datum.Written(width), 1, k + |datum.Letters()|))
  {
    hide Numeral, SignedText, Padded, PadTo, SignedDecimal, LongText;
    LettersAt(f, k, datum.Letters());
    var all := [datum.Arg()] + args;
    assert all != [] && all[0] == datum.Arg();
    match datum {
      case Signed(i) =>
        PaddingAgrees(SignedText(i, 10, false, -TWO31), width);
      case SignedAlias(i) =>
        PaddingAgrees(SignedText(i, 10, false, -TWO31), width);
      case Unsigned(w) =>
        PaddingAgrees(Numeral(w, 10, false), width);
      case Long(l) =>
        LongTextIsDecimal(l);
      case LongLong(l) =>
        LongTextIsDecimal(l);
      case _ =>
    }
  }

  /** The formatter prints a piece and goes on behind it. */
  lemma PiecePrints(f: string, i: nat, next: nat, piece: Piece, args: seq<Arg>)
    requires piece.Writable() && '\0' !in f
    requires i <= next <= |f| && f[i..next] == piece.Format()
    ensures FormatFrom(f, i, piece.Args() + args) == Prepend(piece.Output(), FormatFrom(f, next, args))
  {
    if piece.Field? {
      FieldPrints(f, i, next, piece, args);
    } else {
      assert f[i] == f[i..next][0] && (piece.Percent? ==> f[i + 1] == f[i..next][1]);
      assert piece.Args() + args == args;
    }
  }

  lemma FieldPrints(f: string, i: nat, next: nat, piece: Piece, args: seq<Arg>)
    requires piece.Writable() && piece.Field? && '\0' !in f
    requires i <= next <= |f| && f[i..next] == piece.Format()
    ensures FormatFrom(f, i, piece.Args() + args) == Prepend(piece.Output(), FormatFrom(f, next, args))
  {
    hide Piece.Format, Datum.Written, Datum.Arg, Datum.Letters, Convert, ConversionAt, WidthAt;
    var datum, letters := piece.datum, piece.datum.Letters();
    assert (piece.Args() + args)[1..] == args && piece.Args() == [datum.Arg()];
    FieldIsConversion(f, i, next, piece);
    var k := next - |letters|;
    DatumConverts(f, k, piece.width, datum, args);
    assert ConversionAt(f, i + 1) == k && WidthAt(f, i + 1) == piece.width && At(f, i + 1) != '%' && f[i] == '%';
    assert piece.Output() == datum.Written(piece.width);
    hide *;
    FormatStep(f, i, piece.Args() + args, Conversion(piece.Output(), 1, next));
  }

  lemma LettersHaveNoNul(datum: Datum)
    ensures '\0' !in datum.Letters()
  {
  }

  lemma PieceHasNoNul(piece: Piece)
    requires piece.Writable()
    ensures '\0' !in piece.Format()
  {
    hide WidthText, Datum.Letters;
    if piece.Field? {
      WidthIsNumber(piece.zeros, piece.width);
      LettersHaveNoNul(piece.datum);
    }
  }

  lemma {:induction false} FormatHasNoNul(pieces: seq<Piece>)
    requires AllWritable(pieces)
    ensures '\0' !in FormatOf(pieces)
  {
    hide *;
    if pieces == [] {
      NoPieces();
    } else {
      FirstPiece(pieces);
      PieceHasNoNul(pieces[0]);
      FormatHasNoNul(pieces[1..]);
    }
  }

  lemma FormatEnds(f: string)
    requires '\0' !in f
    ensures FormatFrom(f, |f|, []) == Some("")
  {
  }

  lemma PrependSome(text: string, rest: string)
    ensures Prepend(text, Some(rest)) == Some(text + rest)
  {
  }

  lemma {:induction false} PiecesPrint(f: string, i: nat, pieces: seq<Piece>)
    requires AllWritable(pieces) && '\0' !in f && i <= |f| && f[i..] == FormatOf(pieces)
    ensures FormatFrom(f, i, ArgsOf(pieces)) == Some(OutputOf(pieces))
    decreases |pieces|
  {
    hide *;
    if pieces == [] {
      NoPieces();
      FormatEnds(f);
    } else {
      var piece, rest := pieces[0], pieces[1..];
      var next := i + |piece.Format()|;
      FirstPiece(pieces);
      HeadAndRest(f, i, piece.Format(), FormatOf(rest));
      PiecePrints(f, i, next, piece, ArgsOf(rest));
      PiecesPrint(f, next, rest);
      PrependSome(piece.Output(), OutputOf(rest));
    }
  }

  // ---------- When that is what is documented ----------

  lemma LastDigit(n: nat)
    requires n > 0
    ensures var t := Numeral(n, 10, false); t != "" && t[|t| - 1] == DigitChar(n % 10, false)
  {
  }

  /** The digits of the least int come out as characters up to the digit zero, the documented ones do not. */
  lemma LeastText()
    ensures var low, text := SignedText(-TWO31, 10, false, -TWO31), SignedDecimal(-TWO31);
            |low| == |text| > 1 && '\0' !in low && (forall c | c in low :: c <= '0') && text[|text| - 1] == '8'
  {
    NegativeDigitsAreLow(-TWO31, 10, false);
    TextHasNoNul(-TWO31, 10, false, -TWO31);
    CDigitsLength(-TWO31, 10, false);
    LastDigit(TWO31);
    assert DigitChar(TWO31 % 10, false) == '8';
    hide CDigits, Digits;
  }

  /** How a signed number of the type int is padded: in front of everything, where zeros belong behind the sign. */
  lemma SignedPads(text: string, plain: string, prefix: nat, width: nat)
    requires |text| == |plain| > prefix
    ensures var pad := if width > |plain| then width - |plain| else 0;
            var u := plain[..prefix] + Zeros(pad) + plain[prefix..];
            |PadTo(text, width)| == |u| && (text == plain && (prefix == 0 || pad == 0) ==> PadTo(text, width) == u)
            && (prefix > 0 && pad > 0 && plain[0] != '0' ==> PadTo(text, width) != u)
            && (text[|text| - 1] != plain[|plain| - 1] ==> PadTo(text, width) != u)
  {
    var pad := if width > |plain| then width - |plain| else 0;
    var t, u := PadTo(text, width), plain[..prefix] + Zeros(pad) + plain[prefix..];
    assert t[|t| - 1] == text[|text| - 1] && u[|u| - 1] == plain[|plain| - 1];
    assert pad > 0 ==> t[0] == '0';
    assert prefix > 0 ==> u[0] == plain[0];
    if prefix == 0 || pad == 0 {
      assert u == Zeros(pad) + plain;
    }
  }

  /** A signed number of the type int, in a field. */
  lemma SignedInField(i: Int32, width: nat)
    ensures var text, plain, prefix := SignedText(i, 10, false, -TWO31), SignedDecimal(i), if i < 0 then 1 else 0;
            var pad := if width > |plain| then width - |plain| else 0;
            prefix <= |plain| && |PadTo(text, width)| == (if width > |plain| then width else |plain|)
            && (PadTo(text, width) == plain[..prefix] + Zeros(pad) + plain[prefix..]
                <==> i > -TWO31 && (i >= 0 || width <= |plain|))
  {
    var text, plain, prefix := SignedText(i, 10, false, -TWO31), SignedDecimal(i), if i < 0 then 1 else 0;
    if i == -TWO31 {
      LeastText();
      assert text[|text| - 1] in text;
    } else {
      SignedTextIsDecimal(i, false, -TWO31);
      NumeralRoundTrip(if i < 0 then -i else i, 10, false);
    }
    assert i < 0 ==> plain[0] == '-';
    hide SignedText, SignedDecimal, Numeral, PadTo, Value;
    SignedPads(text, plain, prefix, width);
  }

  /** One conversion is printed as documented exactly when AsDocumented says so; it is never longer than that. */
  lemma DatumAsDocumentedIff(datum: Datum, width: nat)
    ensures datum.Written(width) == datum.InField(width) <==> datum.AsDocumented(width)
    ensures |datum.Written(width)| <= |datum.InField(width)|
  {
    hide *;
    if datum.Signed? || datum.SignedAlias? {
      SignedAsDocumented(datum, datum.i, width);
    } else if datum.Unsigned? {
      UnsignedAsDocumented(datum, width);
    } else {
      PlainAsDocumented(datum, width);
      PlainInField(datum, width);
    }
  }

  lemma SignedAsDocumented(datum: Datum, i: Int32, width: nat)
    requires datum == Signed(i) || datum == SignedAlias(i)
    ensures datum.Written(width) == datum.InField(width) <==> datum.AsDocumented(width)
    ensures |datum.Written(width)| <= |datum.InField(width)|
  {
    hide SignedText, SignedDecimal, PadTo, Datum.Written, Datum.InField, Datum.Plain, Datum.Prefix;
    SignedField(datum, i, width);
    SignedInField(i, width);
  }

  lemma SignedField(datum: Datum, i: Int32, width: nat)
    requires datum == Signed(i) || datum == SignedAlias(i)
    ensures datum.Plain() == SignedDecimal(i) && datum.Prefix() == if i < 0 then 1 else 0
    ensures datum.Written(width) == PadTo(SignedText(i, 10, false, -TWO31), width)
    ensures var plain := datum.Plain();
            datum.InField(width) == plain[..datum.Prefix()]
                                    + Zeros(if width > |plain| then width - |plain| else 0) + plain[datum.Prefix()..]
  {
    hide SignedText, SignedDecimal, PadTo, Zeros;
  }

  lemma UnsignedAsDocumented(datum: Datum, width: nat)
    requires datum.Unsigned?
    ensures datum.Written(width) == datum.InField(width) && datum.AsDocumented(width)
  {
    hide Numeral;
    var text := datum.Plain();
    assert text[..0] == "" && text[0..] == text;
  }

  lemma PlainAsDocumented(datum: Datum, width: nat)
    requires !datum.Signed? && !datum.SignedAlias? && !datum.Unsigned?
    ensures datum.Written(width) == datum.Plain() && (datum.AsDocumented(width) <==> width <= |datum.Plain()|)
  {
    hide Datum.Plain;
  }

  lemma PlainInField(datum: Datum, width: nat)
    ensures width <= |datum.Plain()| ==> datum.InField(width) == datum.Plain()
    ensures width > |datum.Plain()| ==> datum.InField(width) != datum.Plain()
    ensures |datum.Plain()| <= |datum.InField(width)|
  {
    hide Datum.Plain, Datum.Prefix;
    var text := datum.Plain();
    assert text[..datum.Prefix()] + "" + text[datum.Prefix()..] == text && "" + text == text;
  }

  lemma PiecePrintedIff(piece: Piece)
    requires piece.Writable()
    ensures piece.Output() == piece.Printed() <==> piece.Printable()
    ensures |piece.Output()| <= |piece.Printed()|
  {
    hide Datum.Written, Datum.InField, Datum.AsDocumented;
    if piece.Field? {
      DatumAsDocumentedIff(piece.datum, piece.width);
    }
  }

  lemma {:induction false} OutputsArePrinted(pieces: seq<Piece>)
    requires AllWritable(pieces)
    ensures OutputOf(pieces) == PrintedOf(pieces) <==> AllPrintable(pieces)
    ensures |OutputOf(pieces)| <= |PrintedOf(pieces)|
  {
    hide *;
    if pieces == [] {
      NoPieces();
    } else {
      FirstPiece(pieces);
      PiecePrintedIff(pieces[0]);
      OutputsArePrinted(pieces[1..]);
      EqualParts(pieces[0].Output(), OutputOf(pieces[1..]), pieces[0].Printed(), PrintedOf(pieces[1..]));
    }
  }

  lemma EqualParts(a: string, b: string, c: string, d: string)
    requires |a| <= |c| && |b| <= |d|
    ensures a + b == c + d <==> a == c && b == d
  {
    if a + b == c + d {
      assert |a + b| == |c + d|;
      assert a == (a + b)[..|a|] && b == (a + b)[|a|..] && c == (c + d)[..|c|] && d == (c + d)[|c|..];
    }
  }

  /**
   * Printing: what every format of literals and conversions prints, and that it is what is documented
   * exactly when every piece is Printable: no width asks for padding that is not written, or that is
   * written in front of a sign, and no %d or %i prints the least int.
   */
  lemma PrintsAsDocumented(pieces: seq<Piece>)
    requires AllWritable(pieces)
    ensures '\0' !in FormatOf(pieces)
    ensures FormatText(FormatOf(pieces), ArgsOf(pieces)) == Some(OutputOf(pieces))
    ensures OutputOf(pieces) == PrintedOf(pieces) <==> AllPrintable(pieces)
  {
    FormatHasNoNul(pieces);
    PiecesPrint(FormatOf(pieces), 0, pieces);
    OutputsArePrinted(pieces);
    hide OutputOf, PrintedOf, FormatOf, ArgsOf, FormatFrom, AllPrintable;
  }

  /** The same of a single conversion, with any leading zeros in front of its width. */
  lemma ConversionAsDocumentedIff(zeros: nat, width: nat, datum: Datum)
    requires Field(zeros, width, datum).Writable()
    ensures '\0' !in "%" + WidthText(zeros, width) + datum.Letters()
    ensures FormatText("%" + WidthText(zeros, width) + datum.Letters(), [datum.Arg()]) == Some(datum.InField(width))
            <==> datum.AsDocumented(width)
  {
    var piece := Field(zeros, width, datum);
    assert piece.Format() == "%" + WidthText(zeros, width) + datum.Letters();
    assert piece.Args() == [datum.Arg()] && piece.Output() == datum.Written(width);
    hide *;
    SinglePiece(piece);
    PrintsAsDocumented([piece]);
    DatumAsDocumentedIff(datum, width);
  }

  lemma PadNothing(text: string)
    ensures PadTo(text, 0) == text
  {
  }

  /** A conversion without a width. */
  lemma PlainFormat(datum: Datum)
    ensures Field(0, 0, datum).Format() == "%" + datum.Letters()
  {
    assert Zeros(0) + "" == "" && "%" + "" == "%";
  }

  // ---------- Text around a conversion ----------

  function Literals(text: string): seq<Piece> {
    if text == "" then [] else [Literal(text[0])] + Literals(text[1..])
  }

  lemma LiteralsCons(text: string, rest: seq<Piece>)
    ensures text == "" ==> Literals(text) + rest == rest
    ensures text != "" ==> Literals(text) + rest == [Literal(text[0])] + (Literals(text[1..]) + rest)
  {
  }

  lemma LiteralIs(c: char)
    ensures Literal(c).Format() == [c] && Literal(c).Args() == [] && Literal(c).Output() == [c]
    ensures Literal(c).Writable() <==> c != '%' && c != '\0'
  {
  }

  lemma {:induction false} LiteralsPrint(text: string, rest: seq<Piece>)
    requires '%' !in text && '\0' !in text
    ensures FormatOf(Literals(text) + rest) == text + FormatOf(rest)
    ensures ArgsOf(Literals(text) + rest) == ArgsOf(rest)
    ensures OutputOf(Literals(text) + rest) == text + OutputOf(rest)
    ensures AllWritable(Literals(text) + rest) <==> AllWritable(rest)
  {
    hide *;
    LiteralsCons(text, rest);
    if text != "" {
      LiteralsPrint(text[1..], rest);
      LiteralIs(text[0]);
      ConsPiece(Literal(text[0]), Literals(text[1..]) + rest);
      assert text == [text[0]] + text[1..] && [] + ArgsOf(rest) == ArgsOf(rest);
    }
  }

  /** A text and a conversion without a width behind it, which is printed as documented. */
  lemma Labelled(text: string, datum: Datum, format: string, output: string)
    requires '%' !in text && '\0' !in text && Field(0, 0, datum).Printable()
    requires format == text + ("%" + datum.Letters()) && output == text + datum.Plain()
    ensures '\0' !in format && FormatText(format, [datum.Arg()]) == Some(output)
  {
    var field := Field(0, 0, datum);
    assert field.Args() == [datum.Arg()] && field.Printed() == datum.InField(0);
    PlainFormat(datum);
    hide *;
    PlainField(datum);
    LiteralsPrint(text, [field]);
    SinglePiece(field);
    PiecePrintedIff(field);
    PrintsAsDocumented(Literals(text) + [field]);
  }

  lemma PlainField(datum: Datum)
    ensures datum.InField(0) == datum.Plain()
  {
    hide Datum.Plain, Datum.Prefix;
    var text := datum.Plain();
    assert text[..datum.Prefix()] + "" + text[datum.Prefix()..] == text && "" + text == text;
  }

  lemma ExampleNumerals()
    ensures Numeral(0xFF, 16, true) == "FF" && Numeral(42, 10, false) == "42"
    ensures Numeral(4, 10, false) == "4" && Numeral(5, 10, false) == "5"
  {
    assert Digits(0, 16, true) == "" && Digits(15, 16, true) == "F" && Digits(0xFF, 16, true) == "F" + "F";
    assert Digits(0, 10, false) == "" && Digits(4, 10, false) == "4" && Digits(42, 10, false) == "4" + "2";
    assert Digits(5, 10, false) == "5";
  }

  lemma MoreNumerals()
    ensures Numeral(0xFF, 16, false) == "ff" && Numeral(15, 2, false) == "1111" && Numeral(12345, 10, false) == "12345"
  {
    hide Numeral;
    LowerCaseNumeral();
    BinaryNumeral();
    LongNumeral();
  }

  lemma LowerCaseNumeral()
    ensures Numeral(0xFF, 16, false) == "ff"
  {
    assert Digits(0, 16, false) == "" && Digits(15, 16, false) == "f";
  }

  lemma BinaryNumeral()
    ensures Numeral(15, 2, false) == "1111"
  {
    assert Digits(0, 2, false) == "" && Digits(1, 2, false) == "1" && Digits(3, 2, false) == "11";
    assert Digits(7, 2, false) == "111";
  }

  lemma LongNumeral()
    ensures Numeral(12345, 10, false) == "12345"
  {
    assert Digits(0, 10, false) == "" && Digits(1, 10, false) == "1" && Digits(12, 10, false) == "12";
    assert Digits(123, 10, false) == "123" && Digits(1234, 10, false) == "1234";
  }

  /** Conversions as they are documented, one by one: text and decimal words, */
  lemma WordExamples()
    ensures FormatText("Name: %s", [TextArg("Alice")]) == Some("Name: Alice")
    ensures FormatText("Value: %u", [WordArg(12345)]) == Some("Value: 12345")
  {
    hide FormatText, Numeral;
    ExampleNumerals();
    MoreNumerals();
    Labelled("Name: ", Text("Alice"), "Name: %s", "Name: Alice");
    Labelled("Value: ", Unsigned(12345), "Value: %u", "Value: 12345");
  }

  /** words of other types, */
  lemma SizeExamples()
    ensures FormatText("Size: %zu", [WordArg(4)]) == Some("Size: 4")
    ensures FormatText("Ticks: %lu", [WordArg(12345)]) == Some("Ticks: 12345")
  {
    hide FormatText, Numeral;
    ExampleNumerals();
    MoreNumerals();
    Labelled("Size: ", Size(4), "Size: %zu", "Size: 4");
    Labelled("Ticks: ", LongWord(12345), "Ticks: %lu", "Ticks: 12345");
  }

  /** words in base 16, in either case, */
  lemma HexExamples()
    ensures FormatText("Hex: %x", [WordArg(255)]) == Some("Hex: ff")
    ensures FormatText("Hex: %X", [WordArg(255)]) == Some("Hex: FF")
  {
    hide FormatText, Numeral;
    ExampleNumerals();
    MoreNumerals();
    Labelled("Hex: ", Hex(false, 255), "Hex: %x", "Hex: ff");
    Labelled("Hex: ", Hex(true, 255), "Hex: %X", "Hex: FF");
  }

  /** in base 2, and behind 0x, */
  lemma BaseExamples()
    ensures FormatText("Binary: %b", [WordArg(15)]) == Some("Binary: 1111")
    ensures FormatText("Addr: %p", [WordArg(255)]) == Some("Addr: 0xff")
  {
    hide FormatText, Numeral;
    ExampleNumerals();
    MoreNumerals();
    Labelled("Binary: ", Binary(15), "Binary: %b", "Binary: 1111");
    Labelled("Addr: ", Pointer(255), "Addr: %p", "Addr: 0xff");
  }

  /** signed numbers, */
  lemma SignedExamples()
    ensures FormatText("Count: %d", [IntArg(-42)]) == Some("Count: -42")
    ensures FormatText("Count: %i", [IntArg(42)]) == Some("Count: 42")
  {
    hide FormatText, Numeral;
    ExampleNumerals();
    MoreNumerals();
    Labelled("Count: ", Signed(-42), "Count: %d", "Count: -42");
    Labelled("Count: ", SignedAlias(42), "Count: %i", "Count: 42");
  }

  /** long ones, */
  lemma LongExamples()
    ensures FormatText("Ticks: %ld", [LongArg(-42)]) == Some("Ticks: -42")
    ensures FormatText("BigNum: %lld", [LongArg(-12345)]) == Some("BigNum: -12345")
  {
    hide FormatText, Numeral;
    ExampleNumerals();
    MoreNumerals();
    Labelled("Ticks: ", Long(-42), "Ticks: %ld", "Ticks: -42");
    Labelled("BigNum: ", LongLong(-12345), "BigNum: %lld", "BigNum: -12345");
  }

  /** long words in decimal, and characters, */
  lemma LongWordExamples()
    ensures FormatText("BigNum: %llu", [LongWordArg(12345)]) == Some("BigNum: 12345")
    ensures FormatText("Grade: %c", [CharArg('A')]) == Some("Grade: A")
  {
    hide FormatText, Numeral;
    ExampleNumerals();
    MoreNumerals();
    Labelled("BigNum: ", Huge(12345), "BigNum: %llu", "BigNum: 12345");
    Labelled("Grade: ", Character('A'), "Grade: %c", "Grade: A");
  }

  /** and long words in base 16. */
  lemma LongHexExamples()
    ensures FormatText("Addr: %llx", [LongWordArg(255)]) == Some("Addr: ff")
    ensures FormatText("Addr: %llX", [LongWordArg(255)]) == Some("Addr: FF")
  {
    hide FormatText, Numeral;
    ExampleNumerals();
    MoreNumerals();
    Labelled("Addr: ", HugeHex(false, 255), "Addr: %llx", "Addr: ff");
    Labelled("Addr: ", HugeHex(true, 255), "Addr: %llX", "Addr: FF");
  }

  lemma Echoed(f: string, args: seq<Arg>)
    requires '\0' !in f && |f| >= 2 && f[0] == '%' && f[1] != '%' && f[1] != '.' && DigitValue(f[1]) >= 10
    requires Convert(f, 1, 0, args) == Some(Conversion(f, 0, |f|))
    ensures FormatText(f, args) == Some(f)
  {
    assert SkipDigits(f, 1, 10) == 1 && ConversionAt(f, 1) == 1 && WidthAt(f, 1) == 0;
    hide Convert, ConversionAt, WidthAt, SkipDigits;
    FormatStep(f, 0, args, Conversion(f, 0, |f|));
    assert args[0..] == args && FormatFrom(f, |f|, args) == Some("") && f + "" == f;
  }

  /** What the source does not know it writes as it stands, and takes no argument for. */
  lemma UnknownIsEchoed(c: char, args: seq<Arg>)
    requires c !in {'s', 'c', 'p', 'd', 'i', 'u', 'b', 'x', 'X', 'z', 'l', 'f', '%', '.', '\0'} && !('0' <= c <= '9')
    ensures FormatText(['%', c], args) == Some(['%', c])
    ensures FormatText("%z", args) == Some("%z") && FormatText("%l", args) == Some("%l")
    ensures FormatText("%ll", args) == Some("%ll")
  {
    hide FormatText;
    Echoed(['%', c], args);
    Echoed("%z", args);
    Echoed("%l", args);
    Echoed("%ll", args);
  }

  /** A precision is passed over, except by %f. */
  lemma PrecisionExample()
    ensures FormatText("%5.2d", [IntArg(42)]) == Some("00042")
  {
    var f, args := "%5.2d", [IntArg(42)];
    hide *;
    PrecisionIsPassed(f);
    FortyTwo();
    assert |f| == 5 && f[0] == '%';
    FormatStep(f, 0, args, Conversion("00042", 1, 5));
    FormatEnds(f);
    PrependSome("00042", "");
    assert args[1..] == [] && "00042" + "" == "00042";
    FormatTextIs(f, args);
  }

  lemma FortyTwo()
    ensures Convert("%5.2d", 4, 5, [IntArg(42)]) == Some(Conversion("00042", 1, 5))
  {
    ExampleNumerals();
    SignedTextIsDecimal(42, false, -TWO31);
    hide SignedText, Numeral;
    PaddingAgrees("42", 5);
    assert Zeros(3) == "000" && "000" + "42" == "00042" && PadTo("42", 5) == "00042";
    hide PadTo, Padded;
  }

  lemma FormatTextIs(f: string, args: seq<Arg>)
    requires '\0' !in f
    ensures FormatText(f, args) == FormatFrom(f, 0, args)
  {
  }

  lemma PrecisionIsPassed(f: string)
    requires f == "%5.2d"
    ensures '\0' !in f && f[4..5] == "d" && At(f, 1) != '%' && ConversionAt(f, 1) == 4 && WidthAt(f, 1) == 5
  {
    assert SkipDigits(f, 2, 10) == 2 && SkipDigits(f, 1, 10) == 2;
    assert SkipDigits(f, 4, 10) == 4 && SkipDigits(f, 3, 10) == 4;
    assert f[1..][0..1] == "5" && "5"[..0] == "" && Value("", 10) == 0 && Value("5", 10) == 5;
    SignedValue(5);
    DigitsStart(f[1..], 1, "5");
    hide StrtolResult, SkipDigits, Value, ToInt32;
  }

  lemma HexExample()
    ensures FormatText("%4X", [WordArg(0xFF)]) == Some("FF") && Hex(true, 0xFF).InField(4) == "00FF"
  {
    ExampleNumerals();
    hide Numeral, FormatText;
    var hex := Field(0, 4, Hex(true, 0xFF));
    assert Zeros(0) + "4" == "4" && "%" + "4" + "X" == "%4X";
    assert "FF"[..0] == "" && "FF"[0..] == "FF" && Zeros(2) == "00" && "" + "00" + "FF" == "00FF";
    assert hex.Output() == "FF" && hex.Format() == "%4X" && hex.Args() == [WordArg(0xFF)];
    hide *;
    SinglePiece(hex);
    PrintsAsDocumented([hex]);
  }

  lemma NegativeExample()
    ensures FormatText("%5d", [IntArg(-42)]) == Some("00-42") && Signed(-42).InField(5) == "-0042"
  {
    ExampleNumerals();
    hide Numeral, FormatText;
    var decimal := Field(0, 5, Signed(-42));
    assert Zeros(0) + "5" == "5" && "%" + "5" + "d" == "%5d";
    SignedTextIsDecimal(-42, false, -TWO31);
    hide SignedText;
    assert "-" + "42" == "-42" && "-42"[..1] == "-" && "-42"[1..] == "42";
    assert Zeros(2) == "00" && "00" + "-42" == "00-42" && "-" + "00" + "42" == "-0042";
    assert decimal.Output() == "00-42" && decimal.Format() == "%5d" && decimal.Args() == [IntArg(-42)];
    hide *;
    SinglePiece(decimal);
    PrintsAsDocumented([decimal]);
  }

  /** Two that are not: %4X of 255 is not padded, and %5d of -42 is padded in front of its sign. */
  lemma WidthExamples()
    ensures FormatText("%4X", [WordArg(0xFF)]) == Some("FF") && Hex(true, 0xFF).InField(4) == "00FF"
    ensures FormatText("%5d", [IntArg(-42)]) == Some("00-42") && Signed(-42).InField(5) == "-0042"
  {
    HexExample();
    NegativeExample();
    hide *;
  }
}
