# PalmyraOS algorithms in Dafny

A model of the algorithmic layers of PalmyraOS, a 32-bit hobby operating system, with proofs of
what they promise:

- **Raster** (`FrameBuffer`, `Brush`, `LineGeometry`, `CircleGeometry`): the Bresenham line and the
  midpoint circle, outlined and filled, over an in-place back buffer. Both shapes have a closed form,
  and each drawing method changes exactly the pixels of that form.
- **Text and numbers** (`Numerals`, `Stdlib`, `Strto`, `Printf`, `Scanf`, `Formats`, `PrintScan`,
  `Inet`, `ScreenModes`, `Encodings`, `LongNames`): conversions between numbers and text, formatted output
  and input as inverse walks over one list of directives, dotted quads, UTF-8 and UTF-16, and the
  reassembly of long file names from a FAT directory.
- **Wire formats and boot data** (`DnsNames`, `DnsResponse`, `Checksum`, `Multiboot2`): a serialiser
  written from the standard beside each parser, and the proof that the parser undoes it.
- **Arithmetic runtime** (`Libgcc`): 64-bit division one bit at a time.
- **State kept in place** (`Rings`, `BootConsole`, `CircularBuffer`, `CStrings`, `Tokenizer`,
  `Separator`, `KernelString`, `DirectoryPath`): rings, tokenizers with a hidden pointer and the
  terminated string class, each tied to a plain sequence over every run.

`Words` holds the fixed-width integers of the target, `Options`, `Integers` and `Splitting` the
common vocabulary. Loops and objects that the source updates in place are methods and classes here;
each is proved against a function on values, and the theorems are about those functions. Where the
source wraps, truncates or compares as unsigned, the model does so explicitly.

Some promises do not hold on all inputs. The model keeps the code's behaviour; each has a lemma that
says exactly when it holds, and most an example beside it:

| promise | holds exactly when | example |
|---|---|---|
| UTF-16 is encoded as standard UTF-8 | `Encodings.EncodesStandardUtf8Iff` | `Encodings.SupplementaryExample` |
| decoding stays inside the string | `Encodings.DecodeOverrunsIff` | `Encodings.StrayLettersOverrun` |
| `strtol` undoes signed `itoa` | `Strto.StrtolInvertsItoa` | `Strto.NegativesLost` |
| `vsnprintf` stays within its arrays | `Printf.StaysWithinSizeIff` | `Printf.SizeExample` |
| `vsnprintf` returns the length of the whole text | `Printf.ReturnsLengthIff` | `Printf.SizeExample` |
| `%Ns` stores a word of N characters | `Scanf.WordIsStoredIff` | `Scanf.WidthExample` |
| a format prints as documented | `Formats.PrintsAsDocumented`, `Formats.ConversionAsDocumentedIff` | `Formats.WidthExamples`, `Formats.LeastText` |
| scanning a conversion gives back what it printed | `PrintScan.ComesBackIff` | `PrintScan.LongExample`, `PrintScan.HugeHexStops` |
| a circular buffer shows the newest capacity - 1 characters | `CircularBuffers.HoldsLastIff` | `CircularBuffers.ErasingLoses` |
| the console's overflow test is the signed comparison | `BootConsoles.OverflowMeaning` | `BootConsoles.OverflowExample` |
| the name of a DNS record is passed | `DnsResponse.NameIsPassedIff` | `DnsResponse.MixedNameExample` |
| a DNS response is read within its end | `DnsResponse.ResponseOverrunsIff` | `DnsResponse.CutExample` |
| the search for a boot tag stops | `Multiboot2.HaltsIff`, `Multiboot2.HaltsUnlessEmpty` | `Multiboot2.RoundExample` |
| the ICMP checksum is the one's-complement checksum | `Checksum.WrapsIff` | `Checksum.LongestIsSharp` |
| a directory path splits back into its names | `DirectoryPaths.SplitInvertsPath` | `DirectoryPaths.PathExample` |
| the signed 64-bit quotient needs no cutting | `Libgcc.QuotientIsExact` | |
| a filled circle is its clipped disc | `CircleGeometry.FilledIsDiscIff` | `CircleGeometry.FillsExample` |

`strsep` skips empty tokens in front of a token but returns one at the end of the text
(`Separators.SepCallsReturnTokens`).

`dafny verify dfyconfig.toml` checks the whole project.

## Model

| member | source | states |
|---|---|---|
| FrameBuffers.FrameBuffer.DrawPixel | PalmyraOS/source/core/FrameBuffer.cpp:114-117 | inside the frame exactly the addressed pixel changes; the row-major index does not leave 32 bits |
| FrameBuffers.FrameBuffer.IndexInjective | PalmyraOS/source/core/FrameBuffer.cpp:114-117 | two pixels of the frame share a cell only if they are the same pixel |
| FrameBuffers.FrameBuffer.StoreIsLocal | PalmyraOS/source/core/FrameBuffer.cpp:114-117 | storing at a pixel's index changes that pixel and no other |
| FrameBuffers.FrameBuffer.PixelOfSlot | PalmyraOS/source/core/FrameBuffer.cpp:114-117 | every slot of the buffer belongs to a pixel of the frame |
| Brushes.Brush.DrawHLine | PalmyraOS/source/core/Display.cpp:37-54 | for any coordinates, in either order, exactly the pixels of the row between the ends that lie in the frame change |
| Brushes.Brush.DrawLine | PalmyraOS/source/core/Display.cpp:63-102 | the frame changes exactly in the closed-form pixels of the line, both ends included; the dx+dy cap never cuts the loop short |
| LineGeometry.LineStep | PalmyraOS/source/core/Display.cpp:90-100 | the two error tests move from the k-th to the (k+1)-th rounded point of the ideal line |
| LineGeometry.LoopAdvances | PalmyraOS/source/core/Display.cpp:90-100 | one turn of the loop keeps the invariant: position and error term are the closed form of the move count |
| LineGeometry.LoopStops | PalmyraOS/source/core/Display.cpp:81-88 | the end test succeeds after exactly max(dx, dy) moves, no earlier and no later |
| LineGeometry.LineArrives | PalmyraOS/source/core/Display.cpp:63-102 | the step counts equal (dx, dy) exactly after max(dx, dy) moves |
| LineGeometry.HalfPixelBound | PalmyraOS/source/core/Display.cpp:63-102 | for every visited point twice the distance abs(b dx - a dy) is at most max(dx, dy), with a and b the steps taken |
| LineGeometry.MinorStepsUnique | PalmyraOS/source/core/Display.cpp:63-102 | the rounded point is the only one within half a pixel, ties counted to one side |
| LineGeometry.LineIsConnected | PalmyraOS/source/core/Display.cpp:63-102 | consecutive pixels of a line are distinct neighbours |
| LineGeometry.EndsAreDrawn | PalmyraOS/source/core/Display.cpp:63-102 | both ends are pixels of the closed form |
| Brushes.Brush.DrawCircle | PalmyraOS/source/core/Display.cpp:104-125 | without filling exactly the pixels of the closed-form outline change; with filling, for every centre and radius below 0x20000000, exactly what the scanlines of the octant points fill; and the loop ends |
| Brushes.Brush.PlotCirclePerimeterPoints | PalmyraOS/source/core/Display.cpp:127-136 | exactly the eight mirror images of an octant point are drawn |
| Brushes.Brush.FillCircleSymmetricScanlines | PalmyraOS/source/core/Display.cpp:138-145 | exactly the four scanlines of an octant point are drawn, with rows and ends computed as unsigned words, for every centre |
| Brushes.Brush.FillCircle | PalmyraOS/source/core/Display.cpp:147 | a filled circle paints what its scanlines fill, which is the closed-form disc when the radius is at most the centre's column |
| CircleGeometry.FilledIsDiscIff | PalmyraOS/source/core/Display.cpp:104-147 | a filled circle, with its centre on the frame or off it (sums with the radius below 2^32), is painted as its clipped disc exactly when on every row of the frame where the disc passes the left edge, the disc covers the row and the outline meets column 0; with the centre on a row of the frame, exactly when the radius is at most the centre's column |
| CircleGeometry.RowIsFilled | PalmyraOS/source/core/Display.cpp:104-147 | on each row the scanlines of a filled circle are those between the outline's points and their mirror images |
| CircleGeometry.CapExample | PalmyraOS/source/core/Display.cpp:104-147 | radius 10 around (1, 19) passes the left edge of a frame of 5 by 10 pixels, and is painted as its disc all the same |
| CircleGeometry.FillsRunIff | PalmyraOS/source/core/Display.cpp:138-145 | a scanline whose ends are computed as unsigned words fills the columns within x of the centre, as far as they exist, exactly when x is at most the centre's column |
| CircleGeometry.FillsExample | PalmyraOS/source/core/Display.cpp:138-145 | around column 0 a scanline of half-width 1 misses its centre and fills every column behind it |
| CircleGeometry.NearestBounds | PalmyraOS/source/core/Display.cpp:104-125 | nearest means y^2 - y < r^2 - x^2 <= y^2 + y |
| CircleGeometry.NearestUnique | PalmyraOS/source/core/Display.cpp:104-125 | a column has at most one nearest row |
| CircleGeometry.NearestExists | PalmyraOS/source/core/Display.cpp:104-125 | a column in front of the circle has a nearest row |
| CircleGeometry.LoopAdvances | PalmyraOS/source/core/Display.cpp:114-124 | one turn keeps p = (x+1)^2 + y(y-1) - r^2 and the nearest-row property, and adds exactly the images of the new point; a last step past the diagonal only repeats images |
| CircleGeometry.LoopBounds | PalmyraOS/source/core/Display.cpp:104-125 | while the loop runs its values stay in bounds, so no 32-bit sum overflows |
| CircleGeometry.LoopEnds | PalmyraOS/source/core/Display.cpp:104-125 | when the loop stops no octant column is left |
| CircleGeometry.NoOctantBeyond | PalmyraOS/source/core/Display.cpp:104-125 | octant columns have no gap |
| CircleGeometry.ShapeIsTouched | PalmyraOS/source/core/Display.cpp:104-145 | the mirror images of all octant points make up exactly the closed-form outline, their scanlines exactly the closed-form disc |
| CircleGeometry.ShapeIsDrawn | PalmyraOS/source/core/Display.cpp:104-145 | what has been drawn when the loop stops is the closed-form shape |
| CircleGeometry.DiscBounds | PalmyraOS/source/core/Display.cpp:104-145 | the disc holds every offset with X^2 + Y^2 <= r^2 and none with X^2 + Y^2 >= r^2 + r |
| CircleGeometry.DiscHasNoEmptyRow | PalmyraOS/source/core/Display.cpp:104-145 | the disc meets exactly the rows from -r to r |
| CircleGeometry.DiscIsConvex | PalmyraOS/source/core/Display.cpp:104-145 | the disc has no hole: with an offset it holds everything nearer to both axes |
| CircleGeometry.OutlineIsRim | PalmyraOS/source/core/Display.cpp:104-145 | for every radius from 1, an offset other than the centre is on the outline exactly when it is in the disc and the next offset outwards, along its longer axis, is not |
| Encodings.DecodePreservesMeaning | PalmyraOS/source/core/encodings.cpp:25-104 | decoding the UTF-8 form (section 3 of RFC 3629) of any scalar values gives exactly their UTF-16 form (section 2.1 of RFC 2781), surrogate pairs included |
| Encodings.RoundTripDropsSurrogates | PalmyraOS/source/core/encodings.cpp:7-104 | encoding any 16-bit units and decoding again gives the same units with exactly the surrogates removed |
| Encodings.EncodesStandardUtf8Iff | PalmyraOS/source/core/encodings.cpp:7-23 | the encoder produces standard UTF-8 exactly for texts without supplementary characters |
| Encodings.SupplementaryExample | PalmyraOS/source/core/encodings.cpp:7-23 | a supplementary character for which the encoder does not produce standard UTF-8 |
| Encodings.ScalarDecodes | PalmyraOS/source/core/encodings.cpp:33-100 | one scalar value is decoded from exactly its 1 to 4 bytes |
| Encodings.Utf16LeToUtf8 | PalmyraOS/source/core/encodings.cpp:7-23 | the loop appends the 1 to 3 bytes of each unit in turn |
| Encodings.Utf8ToUtf16Le | PalmyraOS/source/core/encodings.cpp:25-104 | the loop returns what the decoding function gives, ill-formed bytes included, for every string in which no sequence takes it behind the terminator |
| Encodings.DecodeOverrunsIff | PalmyraOS/source/core/encodings.cpp:25-104 | decoding any string from any position reads behind the terminator exactly when the decoder comes to a sequence that overruns |
| Encodings.SequenceOverrunsIff | PalmyraOS/source/core/encodings.cpp:60-79 | a sequence overruns exactly when it has four bytes, its continuation is ill formed in one of two ways and the string ends too soon |
| Encodings.NoLateLeadDecodes | PalmyraOS/source/core/encodings.cpp:60-79 | a string whose fourth and fifth last bytes are no first bytes of four is decoded inside its end |
| Encodings.StrayByteIsSkipped | PalmyraOS/source/core/encodings.cpp:53-58 | a continuation byte or one from 0xF8 on, met as a first byte, gives nothing and takes one byte |
| Encodings.CutSequenceIsDropped | PalmyraOS/source/core/encodings.cpp:60-65 | a sequence that the string ends in gives nothing, and ends the text |
| Encodings.BrokenPairDecodes | PalmyraOS/source/core/encodings.cpp:67-79 | a two-byte sequence with an ill-formed continuation gives the bits of its first byte and takes three bytes |
| Encodings.AnyFormDecodes | PalmyraOS/source/core/encodings.cpp:38-101 | three bytes of any value below 2^16 and four of any below 2^21, overlong forms included, are read as that value; one beyond the last code point gives nothing |
| Encodings.StandardExamples | PalmyraOS/source/core/encodings.cpp:7-104 | the examples of section 7 of RFC 3629 and section 5 of RFC 2781, byte by byte |
| Encodings.StrayLettersOverrun | PalmyraOS/source/core/encodings.cpp:60-79 | a string that is not: the first byte of four and three letters |
| LongNames.FileIsFound | PalmyraOS/source/core/kernel.cpp:1011-1128 | whatever was collected before, a chain of entries stored last-first (section 7 of the Microsoft FAT Specification) and a short entry with any attribute byte that is not a long entry's add exactly that name, say whether the checksum stored is the short name's, and leave nothing collected |
| LongNames.DirectoryIsRead | PalmyraOS/source/core/kernel.cpp:1011-1128 | over any directory of long-named, short-named and erased entries, and long entries whose short entry is gone, the walk finds exactly the long names, in order, at their short entries |
| LongNames.LongEntryBits | PalmyraOS/source/core/kernel.cpp:1019-1020 | an entry is a long one exactly when the read-only, hidden, system and volume bits are set and the directory and archive bits are clear |
| LongNames.DirectoryExample | PalmyraOS/source/core/kernel.cpp:1011-1128 | 64 literal bytes, a long entry and a short one with the archive attribute 0x20, whose name is found at byte 32 with a matching checksum |
| LongNames.ChecksumExample | PalmyraOS/source/core/kernel.cpp:1057-1058 | the checksum of README TXT is 0x73 |
| LongNames.EntryReads | PalmyraOS/source/core/kernel.cpp:1018-1044 | the three ranges of an entry give back the fragment stored in it, fillers dropped |
| LongNames.ChainWalks | PalmyraOS/source/core/kernel.cpp:1018-1044 | the entries of a chain leave all fragments collected, the first one dropping what was there |
| LongNames.PartsSpellName | PalmyraOS/source/core/kernel.cpp:1076-1081 | the fragments sorted by ordinal and joined spell the name |
| LongNames.SortSorts | PalmyraOS/source/core/kernel.cpp:1078 | sorting gives a permutation in ascending order of ordinals |
| LongNames.SortIsUnique | PalmyraOS/source/core/kernel.cpp:1078 | with distinct ordinals there is only one such order, so any sort gives it |
| LongNames.AnalyzeDirectory | PalmyraOS/source/core/kernel.cpp:1011-1128 | the loop finds what the walk function finds, for any bytes |
| LongNames.OneEntry | PalmyraOS/source/core/kernel.cpp:1012-1128 | one turn of the loop takes the walk function's step; at a short entry that sorts the collected fragments and joins them |
| LongNames.ReadPart | PalmyraOS/source/core/kernel.cpp:1033-1043 | a fragment is read from its three ranges up to a terminator |
| LongNames.ChecksumOf | PalmyraOS/source/core/kernel.cpp:1057-1058 | the loop computes the rotating checksum of the short name |
| LongNames.BuildName | PalmyraOS/source/core/kernel.cpp:1079-1081 | the fragments are joined in the order they stand |
| LongNames.AsciiFromUtf16 | PalmyraOS/source/core/kernel.cpp:1001-1009 | the narrowed name, cut to the buffer |
| LongNames.AsciiIsFaithful | PalmyraOS/source/core/kernel.cpp:1001-1009 | as much of any name as fits is narrowed: ASCII characters as they are, a question mark for any other |
| DnsNames.EncodeDNSName | PalmyraOS/source/palmyraOS/network.cpp:39-64 | length + 2 for names of 1 to 253 bytes with labels of 1 to 63 bytes that fit, written in the form of section 3.1 of RFC 1035; otherwise -22 or -7, the first failing check first, and nothing changes behind the name's room |
| DnsNames.WriteLabel | PalmyraOS/source/palmyraOS/network.cpp:52-58 | one label is written in lower case behind its length, and nothing else changes |
| DnsNames.WireDecodes | PalmyraOS/source/palmyraOS/network.cpp:39-64 | an independent reader of the wire form gets the lower-cased host name back and stops right behind it, whatever follows |
| DnsNames.WireIgnoresCase | PalmyraOS/source/palmyraOS/network.cpp:55-57 | two host names are encoded alike exactly when they differ in case only |
| DnsNames.WireIsShifted | PalmyraOS/source/palmyraOS/network.cpp:39-64 | every byte but the dots stands one place further on, in lower case, and a zero comes last |
| DnsNames.WireExample | PalmyraOS/source/palmyraOS/network.cpp:39-64 | the wire form of Ab.c, byte by byte |
| DnsNames.ReadsBack | PalmyraOS/source/palmyraOS/network.cpp:39-64 | reading undoes writing for every list of labels |
| DnsNames.ScanCloses | PalmyraOS/source/palmyraOS/network.cpp:48-60 | at a dot or at the end the scan adds a label, or the whole name is bad |
| DnsResponse.ParseDNSResponse | PalmyraOS/source/palmyraOS/network.cpp:67-125 | 0 and the address, -2 or -22 as the parse function says, for every response in which no record takes the parser behind the end |
| DnsResponse.ResponseOverrunsIff | PalmyraOS/source/palmyraOS/network.cpp:67-125 | whatever the bytes, the parser reads behind the end exactly when it comes to a record that announces an address the response does not hold |
| DnsResponse.NoLateAddressIsRead | PalmyraOS/source/palmyraOS/network.cpp:105-119 | a response without type 1 and length 4 announced in its last thirteen bytes is read within its end |
| DnsResponse.ParseInvertsSerialisation | PalmyraOS/source/palmyraOS/network.cpp:67-125 | for every response with one question and any records named by a pointer or all labels (sections 3.1 and 4.1 of RFC 1035), with any bytes behind it, the parser returns the address of the first record of type 1 with 4 bytes, and -ENOENT when there is none |
| DnsResponse.PrefixIsRead | PalmyraOS/source/palmyraOS/network.cpp:67-125 | what the parser makes of every prefix of such a response: the address, not found, malformed, or a read behind the end |
| DnsResponse.OverrunsIff | PalmyraOS/source/palmyraOS/network.cpp:111-119 | a prefix of a well-formed response is read behind its end exactly when it ends just in front of, or inside, the four bytes of the first address |
| DnsResponse.CutExample | PalmyraOS/source/palmyraOS/network.cpp:111-119 | a response cut in front of its last byte, on which the parser reads behind the end |
| DnsResponse.RecordIsRead | PalmyraOS/source/palmyraOS/network.cpp:93-122 | one turn of the loop reads one record: its address, or the rest of the response |
| DnsResponse.NameIsSkipped | PalmyraOS/source/palmyraOS/network.cpp:82-102 | both name walks stop at the root label of any name |
| DnsResponse.NameIsPassedIff | PalmyraOS/source/palmyraOS/network.cpp:92-106 | of labels, a pointer, or labels and then a pointer, a record's name is passed exactly when it is not a mixture of the two, wherever it stands and whatever follows |
| DnsResponse.PointerBehindLabelsIsRefused | PalmyraOS/source/palmyraOS/network.cpp:92-106 | labels that end in a pointer (section 4.1.4 of RFC 1035) make a response malformed when it ends within 204 bytes of them |
| DnsResponse.MixedNameExample | PalmyraOS/source/palmyraOS/network.cpp:92-106 | a whole response with one such record that holds an address and is refused |
| DnsResponse.LongLabelIsRefused | PalmyraOS/source/palmyraOS/network.cpp:82-86 | a label of more than 63 bytes in the question makes a response malformed, wherever it stands in the name |
| DnsResponse.AnyLabelIsPassed | PalmyraOS/source/palmyraOS/network.cpp:99-103 | in a record's name a label of up to 191 bytes is passed: there is no check |
| DnsResponse.ResponseExample | PalmyraOS/source/palmyraOS/network.cpp:67-125 | a literal response whose address is 93.184.216.34 |
| Checksum.CalculateICMPChecksum | PalmyraOS/source/palmyraOS/network.cpp:265-282 | the complement of the folded sum modulo 2^32 for every message, odd or even; it is the complement of the one's-complement sum exactly when the plain sum of the words stays below 2^32, and so for every message up to 0x20002 bytes |
| Checksum.FoldSum | PalmyraOS/source/palmyraOS/network.cpp:279 | folding ends with the one's-complement representative of the sum |
| Checksum.OnesSumIsCanon | PalmyraOS/source/palmyraOS/network.cpp:265-282 | adding with end-around carries (RFC 1071 section 1) gives the representative of the plain sum |
| Checksum.WrapsIff | PalmyraOS/source/palmyraOS/network.cpp:265-282 | for every message below 2^32 bytes, the sum modulo 2^32 has the representative of the one's-complement sum exactly when the plain sum is below 2^32 |
| Checksum.LongestIsSharp | PalmyraOS/source/palmyraOS/network.cpp:265-282 | of messages of bytes 0xFF the sum stays below 2^32 exactly up to the bound, so no greater bound would do |
| Checksum.StoredChecksumVerifies | PalmyraOS/source/palmyraOS/network.cpp:308-314 | storing the checksum in a zeroed even-offset field makes a recomputation return 0 |
| Checksum.ByteOrderIndependent | PalmyraOS/source/palmyraOS/network.cpp:265-282 | the stored bytes, read in network order, are the checksum RFC 1071 defines on network-order words |
| Checksum.OddIsPadded | PalmyraOS/source/palmyraOS/network.cpp:275-276 | an odd last byte counts as if a zero followed |
| Checksum.Rfc1071Example | PalmyraOS/source/palmyraOS/network.cpp:265-282 | the numbers of the example in section 3 of RFC 1071 |
| Checksum.BuildEchoRequest | PalmyraOS/source/palmyraOS/network.cpp:300-314 | the echo request ping sends: type 8, code 0, the identifier's low 16 bits and sequence 1 in network order, the pattern, and a checksum that verifies |
| Inet.InetAddr | PalmyraOS/source/palmyraOS/network.cpp:388-421 | the address of a dotted quad, and 0 for every other text |
| Inet.QuadIffJoined | PalmyraOS/source/palmyraOS/network.cpp:388-421 | the texts accepted are exactly the joins of four decimal octets |
| Inet.InetNtoaR | PalmyraOS/source/palmyraOS/network.cpp:423-433 | the dotted quad is written, terminated, into any buffer of at least 16 bytes, and nothing behind it changes; otherwise nothing is written |
| Inet.QuadPrints | PalmyraOS/source/palmyraOS/network.cpp:431 | the format string prints the four octets between dots |
| Inet.QuadLength | PalmyraOS/source/palmyraOS/network.cpp:423-433 | a dotted quad has at most 15 characters |
| Inet.AddrInvertsNtoa | PalmyraOS/source/palmyraOS/network.cpp:388-433 | reading the printed form of any 32-bit address gives the address |
| Inet.QuadExamples | PalmyraOS/source/palmyraOS/network.cpp:388-433 | 127.0.0.1 both ways, and three texts that are no quad |
| Libgcc.UDivDI3 | PalmyraOS/source/libs/libgcc.cpp:22-41 | the bit loop computes the quotient of any 64-bit numbers; 0 for divisor 0 |
| Libgcc.UModDI3 | PalmyraOS/source/libs/libgcc.cpp:53-72 | the bit loop computes the remainder; 0 for divisor 0 |
| Libgcc.DivisionStep | PalmyraOS/source/libs/libgcc.cpp:31-38 | one turn keeps: the bits read so far are q d + remainder with remainder < d |
| Libgcc.RegistersFit | PalmyraOS/source/libs/libgcc.cpp:31-38 | the registers never exceed the dividend, so the shift never leaves 64 bits |
| Libgcc.DivisionUnique | PalmyraOS/source/libs/libgcc.cpp:22-72 | n = q d + r with 0 <= r < d determines q and r |
| Libgcc.DivDI3 | PalmyraOS/source/libs/libgcc.cpp:85-99 | the quotient of the magnitudes, negative exactly for operands of different sign when not 0, for every pair but INT64_MIN / -1, where it is cut to 64 bits; 0 for divisor 0 |
| Libgcc.ModDI3 | PalmyraOS/source/libs/libgcc.cpp:112-124 | the remainder of the magnitudes with the dividend's sign, for every pair with a nonzero divisor; 0 for divisor 0 |
| Libgcc.TruncatesIff | PalmyraOS/source/libs/libgcc.cpp:85-124 | n = q d + r, abs(r) < abs(d) and r signed like n hold for exactly one pair |
| Libgcc.QuotientIsExact | PalmyraOS/source/libs/libgcc.cpp:85-99 | the quotient needs no cutting for every pair except INT64_MIN / -1 |
| Libgcc.DivModDI4 | PalmyraOS/source/libs/libgcc.cpp:138-149 | the quotient, and for every nonzero divisor the truncating remainder is stored, INT64_MIN / -1 included |
| Libgcc.UDivModDI4 | PalmyraOS/source/libs/libgcc.cpp:163-174 | dividend = quotient divisor + stored remainder, which is less than the divisor |
| Stdlib.Reverse | PalmyraOS/source/libs/stdlib.cpp:221-231 | the first length characters are reversed, the others untouched |
| Stdlib.UItoa | PalmyraOS/source/libs/stdlib.cpp:132-156 | the numeral of the number in the letter case asked for, then a zero, and everything behind as it was |
| Stdlib.UItoa64 | PalmyraOS/source/libs/stdlib.cpp:195-219 | the same for 64 bits |
| Stdlib.Itoa | PalmyraOS/source/libs/stdlib.cpp:96-129 | the signed text, then a zero, and everything behind as it was; above INT_MIN in base 10 it is the signed decimal |
| Stdlib.Itoa64 | PalmyraOS/source/libs/stdlib.cpp:159-192 | the same for 64 bits |
| Stdlib.UnsignedTextIsNumeral | PalmyraOS/source/libs/stdlib.cpp:132-156 | the text produced is the positional numeral of the number |
| Stdlib.SignedTextIsDecimal | PalmyraOS/source/libs/stdlib.cpp:96-129 | in base 10 the text produced is the sign and the decimal of the magnitude, above the least value |
| Stdlib.NegativeDigitsAreLow | PalmyraOS/source/libs/stdlib.cpp:111-120 | in other bases the digits of a negative number come out as characters up to the digit zero |
| Stdlib.NegativeText | PalmyraOS/source/libs/stdlib.cpp:111-120 | which characters these are: as many as the magnitude has digits, each as far below the digit zero as its digit is above it |
| Numerals.NumeralRoundTrip | PalmyraOS/source/libs/stdlib.cpp:132-156 | the value of a numeral is its number, and it has no leading zero |
| Numerals.NumeralIff | PalmyraOS/source/libs/stdlib.cpp:132-156 | a text is the numeral of a number exactly when its characters are decimal digits and letters of the case asked for, below the base, its positional value is the number, and it has no leading zero |
| Numerals.WordNumeralFits | PalmyraOS/source/libs/stdlib.cpp:132-156 | a 32-bit number has at most 32 digits, so its text fits in 33 bytes |
| Numerals.LongNumeralFits | PalmyraOS/source/libs/stdlib.cpp:195-219 | a 64-bit number has at most 64 digits, 20 in base 10 |
| Strto.AccumulateDigits | PalmyraOS/source/libs/stdlib.cpp:73-84 | the loop reads the longest run of digits, and its value modulo 2^32 |
| Strto.Strtoul | PalmyraOS/source/libs/stdlib.cpp:52-90 | result and end of the parse function, for base 0 and 2 to 36 |
| Strto.Strtol | PalmyraOS/source/libs/stdlib.cpp:7-49 | result and end of the parse function with its sign |
| Strto.StrtolReads | PalmyraOS/source/libs/stdlib.cpp:7-49 | white space, no sign or a plus or minus sign, a prefix the base allows and a numeral of any size in either case, in front of anything that is no digit, give the number with its sign cut to 32 bits, and the place behind the numeral |
| Strto.StrtoulReads | PalmyraOS/source/libs/stdlib.cpp:52-90 | the same without a sign; base 0 takes 0x for base 16 and a leading 0 for base 8 |
| Strto.StrtolReadsNothing | PalmyraOS/source/libs/stdlib.cpp:7-49 | without a digit behind white space and sign the result is 0, and no other character is passed |
| Strto.StrtoulReadsNothing | PalmyraOS/source/libs/stdlib.cpp:52-90 | the same without a sign |
| Strto.ParseExamples | PalmyraOS/source/libs/stdlib.cpp:7-90 | +5 gives 5 and is read whole; -0x1f behind white space gives -31 under base 0, and 010 gives 8 |
| Strto.StrtoulInvertsItoa | PalmyraOS/source/libs/stdlib.cpp:52-156 | in every base from 2 to 36 and either case the text of any 32-bit number parses back to it with all text consumed; decimal text also under base 0 |
| Strto.StrtolInvertsItoa | PalmyraOS/source/libs/stdlib.cpp:7-129 | strtol inverts signed itoa exactly when n >= 0, or the base is 10 and n is above INT_MIN |
| Strto.NegativesLost | PalmyraOS/source/libs/stdlib.cpp:7-129 | two numbers that do not come back: -1 in base 16, written as the character below the digit zero, and INT_MIN |
| Strto.LowTextParsesToZero | PalmyraOS/source/libs/stdlib.cpp:7-49 | text of characters up to the digit zero parses to 0 |
| Printf.VSPrintf | PalmyraOS/source/libs/stdio.cpp:78-285 | the formatted text, a terminator, and everything behind as it was; the text's length is returned |
| Printf.VSNPrintf | PalmyraOS/source/libs/stdio.cpp:297-307 | the first characters of the formatted text, as many as the smaller of its length and size, then a terminator, and everything behind as it was; that number is returned |
| Printf.StaysWithinSizeIff | PalmyraOS/source/libs/stdio.cpp:297-307 | the scratch array and the size given are kept to exactly when the text is shorter than 1024 characters and than the size; a text that is not shorter than the size takes one cell more |
| Printf.ReturnsLengthIff | PalmyraOS/include/libs/stdio.h:6-17 | the length returned is that of the whole text, as documented, exactly when the text is not longer than the size; otherwise it is the size |
| Printf.SizeExample | PalmyraOS/source/libs/stdio.cpp:297-307 | with size 2 the terminator of ab goes to a third cell, and with size 1 its length is returned as 1 |
| Printf.EmitConversion | PalmyraOS/source/libs/stdio.cpp:114-280 | each conversion writes what the specification function gives for its argument |
| Printf.SignedScratchSuffices | PalmyraOS/source/libs/stdio.cpp:78-285 | the scratch array holds every signed number |
| Scanf.VSScanf | PalmyraOS/source/libs/stdio.cpp:537-715 | the values stored, in order, are those of the specification function |
| Scanf.ReadInt | PalmyraOS/source/libs/stdio.cpp:330-354 | a signed number is read as the parse function reads it |
| Scanf.IntReads | PalmyraOS/source/libs/stdio.cpp:330-354 | blanks, no sign or a plus or minus sign, and a decimal of any size in front of what is no digit give the signed number cut to 32 bits |
| Scanf.NoIntIsRead | PalmyraOS/source/libs/stdio.cpp:330-354 | without a digit there, nothing is read |
| Scanf.ReadWord | PalmyraOS/source/libs/stdio.cpp:357-426 | a number in base 10, 16 or 2 is read as the parse function reads it |
| Scanf.WordReads | PalmyraOS/source/libs/stdio.cpp:357-426 | blanks, in base 16 a prefix or none, and a numeral in either case give the number modulo 2^32 |
| Scanf.NoWordIsRead | PalmyraOS/source/libs/stdio.cpp:357-426 | without a digit there, nothing is read |
| Scanf.ReadText | PalmyraOS/source/libs/stdio.cpp:622-640 | a word is read up to white space or one less than its width |
| Scanf.WordIsStoredIff | PalmyraOS/source/libs/stdio.cpp:622-640 | a word of the input is stored whole exactly when the width is greater than its length; otherwise it is cut to width - 1 characters, and a width below 2 stores nothing |
| Scanf.WidthExample | PalmyraOS/source/libs/stdio.cpp:622-640 | the scan of hello with %5s stores hell |
| Scanf.BlankStep | PalmyraOS/source/libs/stdio.cpp:543-561 | blanks in a format pass any number of blanks of the input, none included; a carriage return is a blank in the input only |
| Scanf.PercentStep | PalmyraOS/source/libs/stdio.cpp:537-715 | %% passes one percent sign and stops the scan at anything else |
| Scanf.LoneLettersPass | PalmyraOS/source/libs/stdio.cpp:537-715 | %z, %l and %ll without their letter store nothing, and the scan goes on behind them |
| Scanf.UnknownStops | PalmyraOS/source/libs/stdio.cpp:537-715 | a conversion letter that is not known ends the scan |
| Formats.PrintsAsDocumented | PalmyraOS/source/libs/stdio.cpp:64-285 | what any list of literals and conversions prints (every conversion but %f, each with a width below 2^31 and any leading zeros), and that it is the concatenation of the documented fields exactly when no width asks for padding that is not written (only %d, %i and %u pad), or that is written in front of a sign, and no %d or %i prints INT_MIN |
| Formats.ConversionAsDocumentedIff | PalmyraOS/source/libs/stdio.cpp:64-285 | a single conversion prints its documented field (a minimum width, numbers padded with zeros between sign or 0x and digits, other texts with blanks) exactly when: for %u always; for %d and %i when the number is above INT_MIN and, if negative, not shorter than the width; for all others when the text without a width is not shorter than the width |
| Formats.DatumAsDocumentedIff | PalmyraOS/source/libs/stdio.cpp:64-285 | what is written for a conversion is the documented field exactly under that condition, and never longer |
| Formats.WidthExamples | PalmyraOS/source/libs/stdio.cpp:64-285 | %4X of 255 prints FF where 00FF is documented, and %5d of -42 prints 00-42 where -0042 is |
| Formats.LeastText | PalmyraOS/source/libs/stdio.cpp:78-285 | the text of INT_MIN that %d and %i write is as long as the decimal, but has no character above the digit zero, while the decimal ends in 8 |
| Formats.WordExamples | PalmyraOS/source/libs/stdio.cpp:26-60 | the documented examples of %s and %u, whole texts |
| Formats.SizeExamples | PalmyraOS/source/libs/stdio.cpp:26-60 | %zu of 4 and %lu of 12345 behind a literal |
| Formats.HexExamples | PalmyraOS/source/libs/stdio.cpp:26-60 | %x of 255 writes ff, and %X writes FF |
| Formats.BaseExamples | PalmyraOS/source/libs/stdio.cpp:26-60 | %b of 15 writes 1111, and %p of 255 writes 0xff |
| Formats.SignedExamples | PalmyraOS/source/libs/stdio.cpp:26-60 | %d of -42 and %i of 42 behind a literal |
| Formats.LongExamples | PalmyraOS/source/libs/stdio.cpp:26-60 | %ld of -42 and %lld of -12345 behind a literal |
| Formats.LongWordExamples | PalmyraOS/source/libs/stdio.cpp:26-60 | %llu of 12345, and %c of A |
| Formats.LongHexExamples | PalmyraOS/source/libs/stdio.cpp:26-60 | %llx of 255 writes ff, and %llX writes FF |
| Formats.PrecisionExample | PalmyraOS/source/libs/stdio.cpp:96-112 | %5.2d of 42 prints 00042: a precision is passed over |
| Formats.UnknownIsEchoed | PalmyraOS/source/libs/stdio.cpp:114-280 | an unknown conversion letter, and %z, %l and %ll without their letter, are written as they stand and take no argument |
| PrintScan.ScanInvertsPrint | PalmyraOS/source/libs/stdio.cpp:78-715 | scanning what a list really prints, with any text behind it, under the same format stores an item for each conversion, for every list of literals and conversions, each with any width below 2^31, whose parts are read on their own and can be told apart; the items have the values printed exactly when every value fits in 32 bits |
| PrintScan.ComesBackIff | PalmyraOS/source/libs/stdio.cpp:78-715 | a single conversion of any kind but %f, with any argument and any width below 2^31, scans back to its value exactly when: a character is neither blank nor NUL; a word is not empty, has no white space and is shorter than the width; a %d is above INT_MIN and, if negative, not padded; a %ld, %lld or %llu fits in 32 bits; and the conversion is not %i, %llx or %llX |
| PrintScan.HugeHexStops | PalmyraOS/source/libs/stdio.cpp:78-715 | whatever %llx or %llX prints, with any width, scanning it with the same format stores nothing |
| PrintScan.NumberRoundTrip | PalmyraOS/source/libs/stdio.cpp:78-715 | %u, %lu, %zu, %x, %X, %p and %b output of every word scans back to it, as does %d output of every signed number above INT_MIN |
| PrintScan.LongRoundTripIff | PalmyraOS/source/libs/stdio.cpp:78-715 | %ld, %lld and %llu output scans to the low 32 bits, which are the number exactly when it fits in 32 bits |
| PrintScan.LongExample | PalmyraOS/source/libs/stdio.cpp:78-715 | 2^32 printed with %lld scans to 0 |
| PrintScan.IntScans | PalmyraOS/source/libs/stdio.cpp:537-715 | scanning with %d, %ld or %lld of any width reads blanks, a plus or minus sign or none, and a decimal, whatever follows |
| PrintScan.WordScans | PalmyraOS/source/libs/stdio.cpp:537-715 | the other conversions read a numeral of their base, in base 16 in either case and with or without 0x |
| PrintScan.ScanExamples | PalmyraOS/source/libs/stdio.cpp:475-535 | 42 by %d, 100 by %u, FF by %x, 1010 by %b and 0x10 by %p give their numbers, and blanks with +5 by %d give 5 |
| ScreenModes.GetScreenDimensions | PalmyraOS/source/palmyraOS/palmyraSDK.cpp:428-474 | the dimensions of a mode text that scans to three items, and the fallback otherwise |
| ScreenModes.ModeScan | PalmyraOS/source/palmyraOS/palmyraSDK.cpp:463 | the scan of any text yields at most a letter and two numbers |
| ScreenModes.ModeLineScans | PalmyraOS/source/palmyraOS/palmyraSDK.cpp:463 | a line U:WxHp-60 scans to three items with W and H, for all W and H up to INT_MAX |
| BootConsoles.BootConsole.constructor | PalmyraOS/source/core/BootConsole.cpp:9-17 | the console starts empty; without a buffer it stays silent |
| BootConsoles.BootConsole.AddChar | PalmyraOS/source/core/BootConsole.cpp:62-98 | the new character is held behind the text, without its oldest one if it was full; when the cursor plus 30, both as unsigned words, exceeds the height the first line goes and the rest is redrawn, else nothing is; without a buffer nothing happens |
| BootConsoles.BootConsole.Store | PalmyraOS/source/core/BootConsole.cpp:66-69 | the ring write pushes onto a bounded text, giving up its oldest character when full |
| BootConsoles.BootConsole.DiscardLine | PalmyraOS/source/core/BootConsole.cpp:80-93 | moving the count drops the first line from the text |
| BootConsoles.BootConsole.SkipLine | PalmyraOS/source/core/BootConsole.cpp:81-90 | the bytes skipped are those of the first line with its newline, or all |
| BootConsoles.BootConsole.CountLines | PalmyraOS/source/core/BootConsole.cpp:100-118 | the number of lines of the text held |
| BootConsoles.BootConsole.RedrawVisibleLines | PalmyraOS/source/core/BootConsole.cpp:135-145 | the characters are read out in the order they were written |
| BootConsoles.BootConsole.FindLineStart | PalmyraOS/source/core/BootConsole.cpp:153-166 | the ring index of the line's first character, and of the text's if there is no such line |
| BootConsoles.BootConsole.HoldsNewestText | PalmyraOS/source/core/BootConsole.cpp:62-98 | after any run, the text held is a suffix of everything written |
| BootConsoles.RunIsSuffix | PalmyraOS/source/core/BootConsole.cpp:62-98 | for every sequence of writes and every reported cursor, the text held is a suffix of everything written |
| BootConsoles.RunKeepsAllItCan | PalmyraOS/source/core/BootConsole.cpp:62-69 | while nothing overflows, that suffix is as long as the buffer allows |
| BootConsoles.DropLineDropsOne | PalmyraOS/source/core/BootConsole.cpp:79-93 | an overflow takes away exactly the first line, all text if it has no newline |
| BootConsoles.LineStartIsFound | PalmyraOS/source/core/BootConsole.cpp:153-166 | the search succeeds exactly for the lines there are, and the text from there on is those lines |
| BootConsoles.LinesExample | PalmyraOS/source/core/BootConsole.cpp:79-118 | the lines of two literal texts, and what is left when the first is dropped |
| BootConsoles.OverflowMeaning | PalmyraOS/source/core/BootConsole.cpp:73-79 | the unsigned test agrees with the signed comparison exactly when the cursor is at most 30 above the area, or the height exceeds even the wrapped cursor |
| BootConsoles.OverflowExample | PalmyraOS/source/core/BootConsole.cpp:73-79 | a cursor 31 above the area counts as an overflow for every height below 2^32 - 1 |
| Rings.WritePushes | PalmyraOS/source/core/BootConsole.cpp:66-69 | writing at the head of a ring is pushing onto the sequence read from its oldest item |
| Rings.ForgetDrops | PalmyraOS/source/core/BootConsole.cpp:93 | lowering the count is dropping a prefix |
| Rings.StepBackDrops | PalmyraOS/include/palmyraOS/circularBuffer.h:58-65 | stepping the head back is dropping the newest item |
| CircularBuffers.CircularBuffer.constructor | PalmyraOS/include/palmyraOS/circularBuffer.h:13-18 | the buffer starts empty |
| CircularBuffers.CircularBuffer.Put | PalmyraOS/include/palmyraOS/circularBuffer.h:38-44 | one character more, the oldest given up when all but one cell are full |
| CircularBuffers.CircularBuffer.Append | PalmyraOS/include/palmyraOS/circularBuffer.h:48-56 | the record grows by a typed character and the contents follow the record |
| CircularBuffers.CircularBuffer.AppendText | PalmyraOS/include/palmyraOS/circularBuffer.h:27-46 | afterwards the last capacity - 1 characters are held of what was there and the text up to a zero, of which only the last cells' worth is looked at |
| CircularBuffers.UpToZeroIsFirst | PalmyraOS/include/palmyraOS/circularBuffer.h:34-36 | no zero is taken into the buffer |
| CircularBuffers.CircularBuffer.Backspace | PalmyraOS/include/palmyraOS/circularBuffer.h:58-65 | the newest character goes, if there is one |
| CircularBuffers.CircularBuffer.Clear | PalmyraOS/include/palmyraOS/circularBuffer.h:20-25 | nothing is held |
| CircularBuffers.CircularBuffer.Get | PalmyraOS/include/palmyraOS/circularBuffer.h:67-78 | the front buffer holds exactly the contents, terminated inside its array |
| CircularBuffers.CircularBuffer.Size | PalmyraOS/include/palmyraOS/circularBuffer.h:82-85 | the number of characters held, always less than the capacity |
| CircularBuffers.CircularBuffer.ShowsNewestText | PalmyraOS/include/palmyraOS/circularBuffer.h:20-85 | after any run the contents are the newest part of an editor's text, and its last capacity - 1 characters exactly when LostText does not hold of the edits |
| CircularBuffers.HeldIsSuffix | PalmyraOS/include/palmyraOS/circularBuffer.h:20-85 | for every run of edits the contents are a suffix of the text of an editor that never forgets |
| CircularBuffers.HoldsLastIff | PalmyraOS/include/palmyraOS/circularBuffer.h:20-85 | they are its last capacity - 1 characters exactly unless the text was once longer than both capacity - 1 and its final length, and from then on never shrank to its final length less capacity - 1, nor to nothing |
| CircularBuffers.ShortByIff | PalmyraOS/include/palmyraOS/circularBuffer.h:20-85 | the buffer is short of the text by m or more exactly when the text was once at least m + capacity - 1 long and has since never been shorter than m |
| CircularBuffers.HoldsLastWithoutErasing | PalmyraOS/include/palmyraOS/circularBuffer.h:20-56 | without erasing they always are |
| CircularBuffers.ErasingLoses | PalmyraOS/include/palmyraOS/circularBuffer.h:48-65 | with erasing they may not be: a text of at least the capacity, then one backspace |
| CircularBuffers.TypingMakesGood | PalmyraOS/include/palmyraOS/circularBuffer.h:27-65 | text that is given up and then erased from can be made good by typing: a run of three edits that does |
| CStrings.Strchr | PalmyraOS/source/libs/string.cpp:39-44 | the first place of a character, its terminator included, and null exactly when there is none |
| CStrings.Strpbrk | PalmyraOS/source/libs/string.cpp:133-143 | the first place of any of the accepted characters, and null exactly when none occurs |
| Tokenizers.Tokenizer.Strtok | PalmyraOS/source/libs/string.cpp:12-37 | a call returns the next token, writes one zero and moves the static pointer as the call function says, from a new text or the kept one |
| Tokenizers.SpansAreRuns | PalmyraOS/source/libs/string.cpp:12-37 | the tokens of a text are exactly its maximal delimiter-free runs, each once, in order |
| Tokenizers.CallTakesNext | PalmyraOS/source/libs/string.cpp:12-37 | a call takes the first token of what is left and turns only the character behind it into a zero |
| Tokenizers.CallsReturnTokens | PalmyraOS/source/libs/string.cpp:12-37 | for every text and every k the k-th call returns the k-th token, and null when there is none |
| Tokenizers.RunOfCalls | PalmyraOS/source/libs/string.cpp:12-37 | after k calls exactly the first k tokens have a zero behind them, and the others are left |
| Tokenizers.MarkedOnly | PalmyraOS/source/libs/string.cpp:30-34 | a cell of the buffer changes only if a returned token ends there |
| Tokenizers.TokenReads | PalmyraOS/source/libs/string.cpp:12-37 | a token that has been returned reads, as a terminated string, as its part of the text, whatever calls follow |
| Separators.Strsep | PalmyraOS/source/libs/string.cpp:46-59 | a call blanks the delimiters it passes, moves the pointer and returns the token as the call function says |
| Separators.SepCallsReturnTokens | PalmyraOS/source/libs/string.cpp:46-59 | repeated calls return strtok's tokens, then one empty text if the text does not end in a token, then null |
| Separators.SepTakesNext | PalmyraOS/source/libs/string.cpp:46-59 | a call takes the next token, or what is left behind the last delimiter |
| Separators.SepCallsCut | PalmyraOS/source/libs/string.cpp:46-59 | after any number of calls exactly the delimiters passed have become zeros |
| KernelStrings.KernelString.constructor | PalmyraOS/include/libs/string.h:139-142 | an empty string is just its terminator |
| KernelStrings.KernelString.FromRange | PalmyraOS/include/libs/string.h:146-156 | the range becomes the contents; a zero at its end is taken as the terminator |
| KernelStrings.KernelString.EnsureNullTerminator | PalmyraOS/include/libs/string.h:502-504 | a terminator is added exactly when there is none |
| KernelStrings.KernelString.Size | PalmyraOS/include/libs/string.h:213 | the length of the contents |
| KernelStrings.KernelString.Empty | PalmyraOS/include/libs/string.h:215-218 | whether zero-free contents are empty |
| KernelStrings.KernelString.PushBack | PalmyraOS/include/libs/string.h:268-272 | one character behind the contents, and the terminator stays |
| KernelStrings.KernelString.AppendString | PalmyraOS/include/libs/string.h:287-292 | another string's contents behind these |
| KernelStrings.KernelString.AppendText | PalmyraOS/include/libs/string.h:294-297 | text behind the contents, without renewing the terminator |
| KernelStrings.KernelString.Insert | PalmyraOS/include/libs/string.h:446-453 | text in front of a position, which is cut to the length |
| KernelStrings.KernelString.Erase | PalmyraOS/include/libs/string.h:338-354 | a range is erased, cut to the contents; nothing beyond the end |
| KernelStrings.KernelString.InsertThenErase | PalmyraOS/include/libs/string.h:338-453 | erasing what was inserted gives the contents back |
| KernelStrings.KernelString.Find | PalmyraOS/include/libs/string.h:319-324 | the first place of a character from a position on, and npos exactly when there is none |
| KernelStrings.KernelString.Strip | PalmyraOS/include/libs/string.h:393-414 | the contents without white space around them |
| KernelStrings.StrippedIsUnique | PalmyraOS/include/libs/string.h:393-414 | there is just one such text |
| KernelStrings.KernelString.Split | PalmyraOS/include/libs/string.h:507-526 | the pieces between delimiters, without an empty one at the end, or without any empty one |
| KernelStrings.TokensRejoin | PalmyraOS/include/libs/string.h:507-526 | the tokens hold no delimiter and rejoin to the contents minus one delimiter at their end |
| KernelStrings.NoTokens | PalmyraOS/include/libs/string.h:507-526 | the empty string has no token |
| KernelStrings.IgnoringEmpty | PalmyraOS/include/libs/string.h:514-522 | leaving out empty tokens while splitting or afterwards is the same |
| Splitting.JoinSplit | PalmyraOS/include/libs/string.h:507-526 | the pieces of a split hold no separator and join to the original |
| Splitting.SplitJoin | PalmyraOS/include/libs/string.h:507-526 | joining separator-free pieces and splitting again gives the pieces |
| DirectoryPaths.ConstructDirectoryPath | PalmyraOS/source/palmyraOS/palmyraSDK.cpp:11-45 | the path and its length, or -1 exactly when names and terminator do not fit; nothing else in the buffer changes |
| DirectoryPaths.SplitInvertsPath | PalmyraOS/source/palmyraOS/palmyraSDK.cpp:11-45 | splitting a path at its slashes, empties ignored, gives the names back exactly when no name is empty or holds a slash |
| DirectoryPaths.PathExample | PalmyraOS/source/palmyraOS/palmyraSDK.cpp:11-45 | a name with a slash that is split in two |
| DirectoryPaths.PathsAsWritten | PalmyraOS/source/palmyraOS/palmyraSDK.cpp:11-45 | the root alone, and /usr/bin/ |
| Multiboot2.AlignUp8Is | PalmyraOS/include/core/boot/multiboot2.h:507 | the next multiple of 8, and 0 when that lies beyond the address space |
| Multiboot2.AlignUp8IsLeast | PalmyraOS/include/core/boot/multiboot2.h:507 | no multiple of 8 at or above the address is smaller |
| Multiboot2.NextTagAdvancesIff | PalmyraOS/source/core/boot/multiboot2.cpp:41-49 | from an aligned tag the walk moves on exactly when the tag has a size and ends inside the address space |
| Multiboot2.HaltsIff | PalmyraOS/source/core/boot/multiboot2.cpp:41-76 | whatever the memory, a walk over tags stops exactly when it meets no address twice |
| Multiboot2.HaltsUnlessEmpty | PalmyraOS/source/core/boot/multiboot2.cpp:41-76 | where no tag ends beyond the address space, a walk stops exactly when it meets no aligned tag of size 0 in front of what it looks for |
| Multiboot2.FindsUnlessEmpty | PalmyraOS/source/core/boot/multiboot2.cpp:51-76 | in such memory findTag returns exactly when it meets no such tag |
| Multiboot2.MultibootInfo.constructor | PalmyraOS/source/core/boot/multiboot2.cpp:12-32 | the header is read, and an unusable one leaves total size 0 |
| Multiboot2.MultibootInfo.FindTag | PalmyraOS/source/core/boot/multiboot2.cpp:51-76 | the tag the walk meets first, or null, on every memory on which the walk meets no address twice, be its end an end tag, the end of the structure or a null next address |
| Multiboot2.MultibootInfo.ForEachTag | PalmyraOS/include/core/boot/multiboot2.h:420-427 | the tags met in order, on every memory on which the walk meets no address twice and does not leave memory |
| Multiboot2.MultibootInfo.GetACPIRSDP | PalmyraOS/source/core/boot/multiboot2.cpp:78-95 | 8 bytes behind the tag of type 15 that the walk meets first, else of type 14, else null |
| Multiboot2.StopsForOther | PalmyraOS/source/core/boot/multiboot2.cpp:78-95 | a search that finds nothing stops for any other type as well, so getACPIRSDP asks only that the first search meets no address twice |
| Multiboot2.MovesDoNotMatter | PalmyraOS/source/core/boot/multiboot2.cpp:51-76 | what a walk finds and meets does not depend on the number of moves allowed, once it is enough to stop |
| Multiboot2.EmptyTagLoops | PalmyraOS/source/core/boot/multiboot2.cpp:41-76 | a walk that meets an aligned tag of size 0 comes round |
| Multiboot2.WrappingTagLoops | PalmyraOS/source/core/boot/multiboot2.cpp:41-76 | a walk comes round at an 8-byte tag in front of one of size 2^32 - 8 |
| Multiboot2.RoundExample | PalmyraOS/source/core/boot/multiboot2.cpp:41-76 | a structure of 32 bytes with an end tag and no empty tag, in which the search for the ACPI tag goes round for ever |
| Multiboot2.FindsFirstOfKind | PalmyraOS/source/core/boot/multiboot2.cpp:51-76 | for every well-formed list (section 3.6.2 of the Multiboot2 Specification) the first tag of the type, and null when there is none |
| Multiboot2.VisitsAll | PalmyraOS/include/core/boot/multiboot2.h:420-427 | for every well-formed list exactly its tags, each once, in order |
| Multiboot2.RsdpIsFound | PalmyraOS/source/core/boot/multiboot2.cpp:78-95 | the result is where the contents of the first new ACPI tag stand, else of the first old one |
| Multiboot2.ListIsSearched | PalmyraOS/source/core/boot/multiboot2.cpp:51-76 | the walk over any list stops and finds the first tag of the type |
| Multiboot2.OpenListIsSearched | PalmyraOS/source/core/boot/multiboot2.cpp:51-76 | the same for a list without an end tag: the search goes up to the end of the structure, where fewer than 8 bytes hold no tag |

## Left out

- Brushes.Brush.DrawLine: coordinates are below 0x20000000, so that the differences and sums of the loop stay inside a signed 32-bit int as the source assumes.
- Brushes.Brush.PlotCirclePerimeterPoints: the eight points lie inside the frame, as their pixels are stored without clipping.
- Brushes.Brush.FillCircle: the radius is below 0x20000000.
- Brushes.Brush.DrawCircle: the radius is below 0x20000000, so that the error term stays inside an int; an outline also has to lie inside the frame, because its points are stored without clipping. `CircleGeometry.FilledIsDiscIff` takes centres whose sums with the radius stay below 2^32.
- Encodings.Utf8ToUtf16Le: strings on which the source reads behind the terminator are outside the precondition; `Encodings.DecodeOverrunsIff` ties that to the decoding, and `Encodings.NoLateLeadDecodes` is a test of two bytes. The source's `continue` for an ill-formed continuation byte only continues the inner loop, and so it does here.
- Stdlib.Itoa: bases are 2 to 36, in which every digit has a character, and the buffer has room for the text; the source checks neither. The same holds for the three other conversions.
- Strto.Strtol: bases are 0 and 2 to 36.
- Strto.Strtoul: bases are 0 and 2 to 36.
- Strto.AccumulateDigits: an overflowing number wraps modulo 2^32 as the source's loop does; there is no ERANGE to model.
- Printf.VSPrintf: the variable arguments are a list of typed values, and `%f` is not modelled.
- Printf.VSNPrintf: texts of 1024 characters and more overrun the source's scratch buffer and are outside the precondition, as are buffers without a cell for every character written and the terminator; `Printf.StaysWithinSizeIff` says when `size` cells are enough.
- Printf.EmitConversion: `%f` is not modelled.
- Formats.PrintsAsDocumented: the lists have no conversion letter the source does not know, none without the letter behind %z, %l or %ll, no width in front of %%, no precision and no width of 2^31 or more; what `vsprintf` and `vsscanf` do with them is part of the specification functions, and `Formats.UnknownIsEchoed`, `Formats.PrecisionExample`, `Scanf.LoneLettersPass` and `Scanf.UnknownStops` say some of it.
- PrintScan.ScanInvertsPrint: the lists are those of `Formats`.
- Scanf.VSScanf: the targets are a list of stored values, without null pointers, and `%f` is not modelled.
- DnsResponse.ParseDNSResponse: responses on which the source reads up to four bytes behind the end are outside the precondition; `DnsResponse.ResponseOverrunsIff` says which these are, and `DnsResponse.NoLateAddressIsRead` is a test of the last bytes.
- DnsNames.EncodeDNSName: the host name is the bytes in front of its terminator; its length is not recomputed.
- Inet.InetNtoaR: `inet_ntoa` with its static buffer is only a call of it.
- LongNames.AnalyzeDirectory: logging, the printed short name and the search for one target file are left out; the directory's bytes are a parameter, and `std::sort` is an insertion sort, which by `LongNames.SortIsUnique` gives the same result for distinct ordinals.
- BootConsoles.BootConsole.constructor: the buffer size is at most 2^31, so that the ring's index sums stay within 32 bits as the source assumes.
- BootConsoles.BootConsole.AddChar: the renderer's cursor and height are parameters and the characters redrawn are a result; colours, clearing the area and swapping buffers are left out, as are the number operators, which only format and print.
- CircularBuffers.CircularBuffer.AppendText: the template is modelled for characters.
- Tokenizers.Tokenizer.Strtok: a text starts at the first cell of its array, and one object stands for the function with its static pointer.
- Separators.Strsep: a null `stringp` is left out; the pointer is passed and returned as a place in the text.
- KernelStrings.KernelString.AppendString: appending a string to itself is outside the precondition, because the source inserts a vector into itself.
- KernelStrings.KernelString.Erase: `pos + len` does not wrap; an absent length stands for npos.
- KernelStrings.KernelString.InsertThenErase: not a member of the source's class but a use of two of them, to state that one undoes the other.
- DirectoryPaths.ConstructDirectoryPath: sizes are below 0x40000000 so that the int sums do not overflow, and the buffer has room for the root path.
- Multiboot2.MultibootInfo.FindTag: the structure does not reach into the last 8 bytes of the address space, and the walk has to stop: it meets no address twice (`Multiboot2.HaltsIff`).
- Multiboot2.MultibootInfo.GetACPIRSDP: the first search has to stop, too.
- Multiboot2.MultibootInfo.ForEachTag: the walk has to stop, and inside memory, as the source looks at no other bound.
- The `size_t` counters are natural numbers wherever they count bytes of an existing object.
- `drawVLine`, rectangles, fonts, the text renderer, `ftoa` and `parse_float`: constant data, easy loops or floating point.
- The three-argument comparison in `string::find(const char*)` and the comparison operators of the string class.
- Sockets, timeouts and retries in the network code; the kernel's own network, file system, memory and process classes, whose bodies are not part of this model.
