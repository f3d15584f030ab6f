/** Dotted-quad internet addresses. */
module Inet {
  import opened Words
  import opened Options
  import opened Numerals
  import opened Splitting
  import opened Stdlib
  import opened Printf
  import Integers
  import Formats

  /** A decimal octet: at least one digit, any number of leading zeros, value at most 255. */
  predicate IsOctet(s: string) {
    s != "" && AllDigits(s, 10) && Value(s, 10) <= 255
  }

  /** Four octets between dots. */
  predicate IsQuad(s: string) {
    var parts := SplitOn(s, '.');
    |parts| == 4 && forall p | p in parts :: IsOctet(p)
  }

  /** The texts accepted are exactly the joins of four octets. */
  lemma QuadIffJoined(s: string)
    ensures IsQuad(s)
            <==> exists parts: seq<string> ::
                   |parts| == 4 && Join(parts, '.') == s && forall p | p in parts :: IsOctet(p)
  {
    JoinSplit(s, '.');
    if parts: seq<string> :| |parts| == 4 && Join(parts, '.') == s && forall p | p in parts :: IsOctet(p) {
      forall p | p in parts
        ensures '.' !in p
      {
        assert IsOctet(p);
      }
      SplitJoin(parts, '.');
    }
  }

  function Combine(b0: Byte, b1: Byte, b2: Byte, b3: Byte): UInt32 {
    b0 * 0x100_0000 + b1 * 0x1_0000 + b2 * 0x100 + b3
  }

  /** The address a text stands for, and 0 for any text that is not a dotted quad. */
  function AddressOf(s: string): UInt32 {
    if IsQuad(s) then
      var parts := SplitOn(s, '.');
      assert IsOctet(parts[0]) && IsOctet(parts[1]) && IsOctet(parts[2]) && IsOctet(parts[3]);
      Combine(Value(parts[0], 10), Value(parts[1], 10), Value(parts[2], 10), Value(parts[3], 10))
    else 0
  }

  /** A text that starts with another is worth at least as much. */
  lemma {:induction false} ValueOfPrefix(s: string, t: string, base: nat)
    requires base >= 1
    ensures Value(s, base) <= Value(s + t, base)
  {
    if t == "" {
      assert s + t == s;
    } else {
      ValueOfPrefix(s, t[..|t| - 1], base);
      assert (s + t)[..|s + t| - 1] == s + t[..|t| - 1];
      Integers.ProductMonotone(1, base, Value(s + t[..|t| - 1], base));
    }
  }

  /** Once a piece under way cannot become an octet, the text is no quad. */
  lemma BadPiece(s: string, i: nat, done: seq<string>, current: string)
    requires SplitState(s, i, '.', done, current)
    requires !AllDigits(current, 10) || Value(current, 10) > 255
    ensures !IsQuad(s)
  {
    var rest := SplitOn(s[i..], '.');
    var piece := current + rest[0];
    assert SplitOn(s, '.')[|done|] == piece;
    if AllDigits(piece, 10) {
      assert forall k | 0 <= k < |current| :: current[k] == piece[k];
      ValueOfPrefix(current, rest[0], 10);
    }
    assert piece in SplitOn(s, '.') && !IsOctet(piece);
  }

  /** An empty piece, or a fifth one, rules out a quad too. */
  lemma BadShape(s: string, i: nat, done: seq<string>, current: string)
    requires i < |s| && s[i] == '.' && SplitState(s, i, '.', done, current)
    requires current == "" || |done| >= 3
    ensures !IsQuad(s)
  {
    SplitStep(s, i, '.', done, current);
    var rest := SplitOn(s[i + 1..], '.');
    assert SplitOn(s, '.') == (done + [current]) + Attach([], rest);
    assert SplitOn(s, '.')[|done|] == current && current in SplitOn(s, '.');
    assert !IsOctet("");
  }

  lemma PushDigit(s: string, c: char)
    requires AllDigits(s, 10) && IsDecimalDigit(c)
    ensures AllDigits(s + [c], 10) && Value(s + [c], 10) == Value(s, 10) * 10 + (c as int - '0' as int)
    ensures s + [c] != "" && c >= '0' && c != '.'
  {
    assert (s + [c])[..|s|] == s;
  }

  lemma NoDigit(s: string, c: char)
    requires !IsDecimalDigit(c)
    ensures !AllDigits(s + [c], 10)
  {
    assert (s + [c])[|s|] == c;
  }

  lemma OctetRead(s: string)
    requires s != "" && AllDigits(s, 10) && Value(s, 10) <= 255
    ensures IsOctet(s)
  {
  }

  lemma NothingRead()
    ensures Value("", 10) == 0 && AllDigits("", 10)
  {
  }

  /** inet_addr: the address of a dotted quad, and 0 for anything else. */
  method InetAddr(s: string) returns (address: UInt32)
    requires '\0' !in s
    ensures address == AddressOf(s)
  {
    hide *;
    var octets := new Byte[4](_ => 0);
    var octetIndex, currentValue: int, hasDigit := 0, 0, false;
    ghost var done: seq<string>, current := [], "";
    SplitStarts(s, '.');
    NothingRead();
    var i := 0;
    while i < |s|
      invariant 0 <= i <= |s| && 0 <= octetIndex == |done| <= 3
      invariant SplitState(s, i, '.', done, current)
      invariant forall k | 0 <= k < octetIndex :: IsOctet(done[k]) && octets[k] == Value(done[k], 10)
      invariant AllDigits(current, 10) && 0 <= currentValue == Value(current, 10) <= 255
      invariant hasDigit == (current != "")
    {
      SplitStep(s, i, '.', done, current);
      if IsDecimalDigit(s[i]) {
        PushDigit(current, s[i]);
        currentValue := currentValue * 10 + (s[i] as int - '0' as int);
        hasDigit := true;
        current := current + [s[i]];
        if currentValue > 255 {
          BadPiece(s, i + 1, done, current);
          NotAQuad(s);
          return 0;
        }
      } else if s[i] == '.' {
        if !hasDigit || octetIndex >= 3 {
          BadShape(s, i, done, current);
          NotAQuad(s);
          return 0;
        }
        OctetRead(current);
        octets[octetIndex] := currentValue;
        octetIndex := octetIndex + 1;
        currentValue, hasDigit := 0, false;
        done, current := done + [current], "";
      } else {
        NoDigit(current, s[i]);
        BadPiece(s, i + 1, done, current + [s[i]]);
        NotAQuad(s);
        return 0;
      }
      i := i + 1;
    }
    SplitEnds(s, '.', done, current);
    if !hasDigit || octetIndex != 3 {
      Incomplete(s, done, current);
      NotAQuad(s);
      return 0;
    }
    octets[octetIndex] := currentValue;
    OctetRead(current);
    Complete(s, done, current);
    address := Combine(octets[0], octets[1], octets[2], octets[3]);
  }

  lemma NotAQuad(s: string)
    requires !IsQuad(s)
    ensures AddressOf(s) == 0
  {
  }

  lemma Incomplete(s: string, done: seq<string>, current: string)
    requires SplitOn(s, '.') == done + [current] && (current == "" || |done| != 3)
    ensures !IsQuad(s)
  {
    assert current in SplitOn(s, '.');
  }

  lemma Complete(s: string, done: seq<string>, current: string)
    requires SplitOn(s, '.') == done + [current] && |done| == 3 && IsOctet(current)
    requires IsOctet(done[0]) && IsOctet(done[1]) && IsOctet(done[2])
    ensures AddressOf(s) == Combine(Value(done[0], 10), Value(done[1], 10), Value(done[2], 10), Value(current, 10))
  {
    hide Value, SplitOn, IsOctet, Combine;
    var parts := SplitOn(s, '.');
    assert parts[0] == done[0] && parts[1] == done[1] && parts[2] == done[2] && parts[3] == current;
    forall p | p in parts
      ensures IsOctet(p)
    {
      var k :| 0 <= k < 4 && parts[k] == p;
    }
    assert IsQuad(s);
  }

  /** Byte k of an address, the most significant first. */
  function Octet(ip: UInt32, k: nat): Byte
    requires k < 4
  {
    if k == 0 then ip / 0x100_0000 else if k == 1 then ip / 0x1_0000 % 0x100
    else if k == 2 then ip / 0x100 % 0x100 else ip % 0x100
  }

  function OctetText(ip: UInt32, k: nat): string
    requires k < 4
  {
    Numeral(Octet(ip, k), 10, false)
  }

  function QuadTexts(ip: UInt32): (texts: seq<string>)
    ensures |texts| == 4
  {
    [OctetText(ip, 0), OctetText(ip, 1), OctetText(ip, 2), OctetText(ip, 3)]
  }

  /** The dotted form of an address. */
  function DottedQuad(ip: UInt32): string {
    Join(QuadTexts(ip), '.')
  }

  const QUAD_FORMAT := "%u.%u.%u.%u"

  function QuadArgs(ip: UInt32): seq<Arg> {
    [WordArg(Octet(ip, 0)), WordArg(Octet(ip, 1)), WordArg(Octet(ip, 2)), WordArg(Octet(ip, 3))]
  }

  /** An octet as a format piece. */
  function OctetField(ip: UInt32, k: nat): Formats.Piece
    requires k < 4
  {
    Formats.Field(0, 0, Formats.Unsigned(Octet(ip, k)))
  }

  /** The octets from k on, with dots between them, as format pieces. */
  function QuadPieces(ip: UInt32, k: nat): seq<Formats.Piece>
    requires k < 4
    decreases 4 - k
  {
    if k == 3 then [OctetField(ip, 3)]
    else [OctetField(ip, k)] + ([Formats.Literal('.')] + QuadPieces(ip, k + 1))
  }

  function OctetTexts(ip: UInt32, k: nat): (texts: seq<string>)
    requires k < 4
    ensures texts != []
    decreases 4 - k
  {
    if k == 3 then [OctetText(ip, 3)] else [OctetText(ip, k)] + OctetTexts(ip, k + 1)
  }

  /** The format of the last n numbers. */
  function QuadFormat(n: nat): string {
    if n == 0 then "" else if n == 1 then "%u" else "%u." + QuadFormat(n - 1)
  }

  function WordArgs(ip: UInt32, k: nat): seq<Arg>
    requires k < 4
    decreases 4 - k
  {
    [WordArg(Octet(ip, k))] + if k == 3 then [] else WordArgs(ip, k + 1)
  }

  lemma OctetPrints(ip: UInt32, k: nat)
    requires k < 4
    ensures var field := OctetField(ip, k);
            field.Format() == "%u" && field.Args() == [WordArg(Octet(ip, k))]
            && field.Printed() == OctetText(ip, k) && field.Printable()
  {
    hide Numeral, Octet, Formats.WidthText;
    var field := OctetField(ip, k);
    Formats.PlainFormat(field.datum);
    var text := OctetText(ip, k);
    assert text[..0] == "" && text[0..] == text && "" + Zeros(0) + text == text;
  }

  lemma OctetPiece(ip: UInt32, k: nat, rest: seq<Formats.Piece>)
    requires k < 4
    ensures var pieces := [OctetField(ip, k)] + rest;
            Formats.FormatOf(pieces) == "%u" + Formats.FormatOf(rest)
            && Formats.ArgsOf(pieces) == [WordArg(Octet(ip, k))] + Formats.ArgsOf(rest)
            && Formats.PrintedOf(pieces) == OctetText(ip, k) + Formats.PrintedOf(rest)
            && (Formats.AllPrintable(rest) ==> Formats.AllPrintable(pieces))
  {
    hide *;
    OctetPrints(ip, k);
    Formats.ConsPiece(OctetField(ip, k), rest);
  }

  lemma DotPiece(rest: seq<Formats.Piece>)
    ensures var pieces := [Formats.Literal('.')] + rest;
            Formats.FormatOf(pieces) == "." + Formats.FormatOf(rest)
            && Formats.ArgsOf(pieces) == Formats.ArgsOf(rest)
            && Formats.PrintedOf(pieces) == "." + Formats.PrintedOf(rest)
            && (Formats.AllPrintable(rest) ==> Formats.AllPrintable(pieces))
  {
    Formats.ConsPiece(Formats.Literal('.'), rest);
    hide Formats.FormatOf, Formats.PrintedOf, Formats.AllPrintable;
  }

  /** The octets from k on, with their first piece told apart. */
  lemma QuadCons(ip: UInt32, k: nat)
    requires k < 4
    ensures k == 3 ==>
              QuadPieces(ip, k) == [OctetField(ip, k)] + [] && QuadFormat(4 - k) == "%u" + ""
              && WordArgs(ip, k) == [WordArg(Octet(ip, k))] + []
              && Join(OctetTexts(ip, k), '.') == OctetText(ip, k) + ""
    ensures k < 3 ==>
              QuadPieces(ip, k)
              == [OctetField(ip, k)] + ([Formats.Literal('.')] + QuadPieces(ip, k + 1))
              && QuadFormat(4 - k) == "%u" + ("." + QuadFormat(3 - k))
              && WordArgs(ip, k) == [WordArg(Octet(ip, k))] + WordArgs(ip, k + 1)
              && Join(OctetTexts(ip, k), '.') == OctetText(ip, k) + ("." + Join(OctetTexts(ip, k + 1), '.'))
  {
    hide Octet, OctetText;
    if k < 3 {
      assert OctetTexts(ip, k)[1..] == OctetTexts(ip, k + 1);
      assert "%u" + ("." + QuadFormat(3 - k)) == "%u." + QuadFormat(3 - k);
    }
  }

  lemma {:induction false} QuadPiecesUnfold(ip: UInt32, k: nat)
    requires k < 4
    ensures var pieces := QuadPieces(ip, k);
            Formats.FormatOf(pieces) == QuadFormat(4 - k) && Formats.ArgsOf(pieces) == WordArgs(ip, k)
            && Formats.PrintedOf(pieces) == Join(OctetTexts(ip, k), '.') && Formats.AllPrintable(pieces)
    decreases 4 - k
  {
    hide *;
    QuadCons(ip, k);
    if k == 3 {
      OctetPiece(ip, 3, []);
      Formats.NoPieces();
    } else {
      QuadPiecesUnfold(ip, k + 1);
      DotPiece(QuadPieces(ip, k + 1));
      OctetPiece(ip, k, [Formats.Literal('.')] + QuadPieces(ip, k + 1));
    }
  }

  lemma QuadFormatIs()
    ensures QuadFormat(4) == QUAD_FORMAT
  {
    assert QuadFormat(2) == "%u.%u";
    assert "%u." + ("%u." + "%u.%u") == QUAD_FORMAT;
  }

  lemma QuadArgsAre(ip: UInt32)
    ensures WordArgs(ip, 0) == QuadArgs(ip)
  {
    hide Octet;
    assert WordArgs(ip, 2) == [WordArg(Octet(ip, 2)), WordArg(Octet(ip, 3))];
  }

  lemma QuadTextsAre(ip: UInt32)
    ensures OctetTexts(ip, 0) == QuadTexts(ip)
  {
    hide OctetText;
    assert OctetTexts(ip, 2) == [OctetText(ip, 2), OctetText(ip, 3)];
  }

  /** The print of the quad format is the dotted form. */
  lemma QuadPrints(ip: UInt32)
    ensures FormatText(QUAD_FORMAT, QuadArgs(ip)) == Some(DottedQuad(ip))
    ensures |DottedQuad(ip)| <= 15
  {
    hide *;
    QuadPiecesUnfold(ip, 0);
    QuadFormatIs();
    QuadArgsAre(ip);
    QuadTextsAre(ip);
    Formats.PrintsAsDocumented(QuadPieces(ip, 0));
    DottedQuadIs(ip);
    QuadLength(ip);
  }

  lemma DottedQuadIs(ip: UInt32)
    ensures DottedQuad(ip) == Join(QuadTexts(ip), '.')
  {
  }

  lemma QuadLength(ip: UInt32)
    ensures |DottedQuad(ip)| <= 15
  {
    assert forall k | 0 <= k < 4 :: |OctetText(ip, k)| <= 3 by {
      forall k | 0 <= k < 4
        ensures |OctetText(ip, k)| <= 3
      {
        DigitsFit(Octet(ip, k), 10, false, 3);
        assert Pow(10, 2) == 100 && Pow(10, 3) == 1000;
      }
    }
    hide OctetText;
    var t := QuadTexts(ip);
    assert t[1..] == [t[1], t[2], t[3]] && t[1..][1..] == [t[2], t[3]] && t[1..][1..][1..] == [t[3]];
    assert |Join([t[3]], '.')| <= 3;
    assert |Join([t[2], t[3]], '.')| <= 7;
    assert |Join([t[1], t[2], t[3]], '.')| <= 11;
  }

  /** Reading a printed address gives the address back, for every 32-bit address. */
  lemma AddrInvertsNtoa(ip: UInt32)
    ensures AddressOf(DottedQuad(ip)) == ip && '\0' !in DottedQuad(ip)
  {
    hide OctetText, IsOctet, Value;
    var t := QuadTexts(ip);
    OctetReads(ip, 0);
    OctetReads(ip, 1);
    OctetReads(ip, 2);
    OctetReads(ip, 3);
    SplitJoin(t, '.');
    OctetsCombine(ip);
    JoinHasNoNul(t);
  }

  lemma OctetReads(ip: UInt32, k: nat)
    requires k < 4
    ensures IsOctet(OctetText(ip, k)) && Value(OctetText(ip, k), 10) == Octet(ip, k)
    ensures '.' !in OctetText(ip, k) && '\0' !in OctetText(ip, k)
  {
    NumeralRoundTrip(Octet(ip, k), 10, false);
    assert forall c | c in OctetText(ip, k) :: DigitValue(c) < 10;
  }

  lemma {:induction false} JoinHasNoNul(pieces: seq<string>)
    requires pieces != [] && forall p | p in pieces :: '\0' !in p
    ensures '\0' !in Join(pieces, '.')
  {
    if |pieces| > 1 {
      JoinHasNoNul(pieces[1..]);
    }
  }

  /** A quotient by steps of a byte each. */
  lemma NestedQuotient(n: nat, p: nat, q: nat)
    requires q == n / 0x100 && p == q / 0x100
    ensures n / 0x1_0000 == p && n == p * 0x1_0000 + q % 0x100 * 0x100 + n % 0x100
  {
  }

  lemma OctetsCombine(ip: UInt32)
    ensures Combine(Octet(ip, 0), Octet(ip, 1), Octet(ip, 2), Octet(ip, 3)) == ip
  {
    var high: nat := ip / 0x1_0000;
    NestedQuotient(ip, ip / 0x100 / 0x100, ip / 0x100);
    assert high / 0x100 == ip / 0x100_0000;
  }

  /** The address of the loopback, both ways, and three texts that are none. */
  lemma QuadExamples()
    ensures DottedQuad(0x7F00_0001) == "127.0.0.1" && AddressOf("127.0.0.1") == 0x7F00_0001
    ensures AddressOf("1.2.3") == 0 && AddressOf("1.2.3.") == 0 && AddressOf("1.2.3.256") == 0
  {
    QuadExample();
    AddrInvertsNtoa(0x7F00_0001);
    hide DottedQuad;
    BadExamples();
  }

  lemma QuadNumerals()
    ensures Numeral(127, 10, false) == "127" && Numeral(0, 10, false) == "0" && Numeral(1, 10, false) == "1"
  {
    assert Digits(0, 10, false) == "" && Digits(1, 10, false) == "1" && Digits(12, 10, false) == "12";
  }

  lemma QuadExample()
    ensures DottedQuad(0x7F00_0001) == "127.0.0.1"
  {
    QuadNumerals();
    hide Numeral;
    var t := ["127", "0", "0", "1"];
    assert QuadTexts(0x7F00_0001) == t;
    hide QuadTexts;
    assert t[1..] == ["0", "0", "1"] && t[1..][1..] == ["0", "1"] && t[1..][1..][1..] == ["1"];
    assert Join(["0", "1"], '.') == "0.1" && Join(["0", "0", "1"], '.') == "0.0.1";
  }

  lemma BadExamples()
    ensures AddressOf("1.2.3") == 0 && AddressOf("1.2.3.") == 0 && AddressOf("1.2.3.256") == 0
  {
    hide *;
    ThreeParts();
    ThreeAndMore("");
    ThreeAndMore("256");
    NoOctets();
    assert "1.2.3." + "" == "1.2.3." && "1.2.3." + "256" == "1.2.3.256";
    NoQuad("1.2.3", ["1", "2", "3"], "1");
    NoQuad("1.2.3.", ["1", "2", "3", ""], "");
    NoQuad("1.2.3.256", ["1", "2", "3", "256"], "256");
  }

  lemma NoOctets()
    ensures !IsOctet("") && !IsOctet("256")
  {
    assert "256"[..2] == "25" && "25"[..1] == "2" && "2"[..0] == "" && Value("", 10) == 0;
    assert Value("2", 10) == 2 && Value("25", 10) == 25 && Value("256", 10) == 256;
  }

  lemma NoQuad(s: string, parts: seq<string>, p: string)
    requires SplitOn(s, '.') == parts && (|parts| != 4 || (p == parts[3] && !IsOctet(p)))
    ensures AddressOf(s) == 0
  {
    assert |parts| == 4 ==> p in parts;
    hide SplitOn, IsOctet;
  }

  lemma ThreeParts()
    ensures SplitOn("1.2.3", '.') == ["1", "2", "3"]
  {
    SplitFirst("3", "", '.');
    SplitFirst("2", "3", '.');
    SplitFirst("1", "2.3", '.');
    assert "1" + ['.'] + "2.3" == "1.2.3" && "2" + ['.'] + "3" == "2.3";
    hide SplitOn;
  }

  lemma ThreeAndMore(last: string)
    requires '.' !in last
    ensures SplitOn("1.2.3." + last, '.') == ["1", "2", "3", last]
  {
    hide *;
    SplitFirst(last, "", '.');
    SplitFirst("3", last, '.');
    SplitFirst("2", "3." + last, '.');
    SplitFirst("1", "2.3." + last, '.');
    assert "3" + ['.'] + last == "3." + last;
    assert "2" + ['.'] + ("3." + last) == "2.3." + last;
    assert "1" + ['.'] + ("2.3." + last) == "1.2.3." + last;
  }

  /** inet_ntoa_r: writes the dotted form when there is room for any address, and reports failure otherwise. */
  method InetNtoaR(ip: UInt32, buffer: array?<char>, bufferSize: UInt32) returns (ok: bool)
    requires buffer != null ==> bufferSize <= buffer.Length
    modifies if buffer == null then {} else {buffer}
    ensures ok <==> buffer != null && bufferSize >= 16
    ensures ok ==> var text := DottedQuad(ip);
                   |text| < buffer.Length && buffer[..] == text + ['\0'] + old(buffer[..])[|text| + 1..]
    ensures !ok && buffer != null ==> buffer[..] == old(buffer[..])
  {
    if buffer == null || bufferSize < 16 {
      return false;
    }
    QuadPrints(ip);
    assert '\0' !in QUAD_FORMAT;
    var written := VSNPrintf(buffer, bufferSize, QUAD_FORMAT, QuadArgs(ip));
    ok := true;
  }
}
