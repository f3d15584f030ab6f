/** Long file names in a FAT directory: how the directory walk puts them together again. */
module LongNames {
  import opened Integers
  import opened Words
  import opened Splitting

  /** One fragment of a long name, kept until its short entry is met. */
  datatype Part = Part(ord: nat, units: seq<UInt16>, off: nat)

  /** A long name paired with the short entry at an offset, and whether the checksums agree. */
  datatype Found = Found(name: seq<UInt16>, off: nat, matches: bool)

  /** The state of the walk. */
  datatype Walk = Walk(parts: seq<Part>, active: bool, checksum: Byte, found: seq<Found>)

  const START := Walk([], false, 0, [])

  // ---------- One entry ----------

  function UnitAt(d: seq<Byte>, at: nat): UInt16
    requires at + 1 < |d|
  {
    (d[at] as int) + 0x100 * (d[at + 1] as int)
  }

  /** A filler or terminator, which ends the range it stands in. */
  predicate EndsName(u: UInt16) {
    u == 0x0000 || u == 0xFFFF
  }

  /** The units of one range of an entry, up to a terminator. */
  function RangeUnits(d: seq<Byte>, at: nat, count: nat): (units: seq<UInt16>)
    requires at + 2 * count <= |d|
    ensures |units| <= count
    decreases count
  {
    if count == 0 || EndsName(UnitAt(d, at)) then []
    else [UnitAt(d, at)] + RangeUnits(d, at + 2, count - 1)
  }

  /** The units of a long-name entry: three ranges of 5, 6 and 2. */
  function EntryUnits(d: seq<Byte>, i: nat): seq<UInt16>
    requires i + 32 <= |d|
  {
    RangeUnits(d, i + 1, 5) + RangeUnits(d, i + 14, 6) + RangeUnits(d, i + 28, 2)
  }

  /** The checksum of the 11 bytes of a short name: rotate right, then add, in one byte. */
  function ShortChecksum(name: seq<Byte>): Byte {
    if name == [] then 0
    else
      var sum := ShortChecksum(name[..|name| - 1]);
      (sum % 2 * 0x80 + sum / 2 + name[|name| - 1]) % 0x100
  }

  function Insert(p: Part, parts: seq<Part>): seq<Part> {
    if parts == [] then [p]
    else if p.ord <= parts[0].ord then [p] + parts
    else [parts[0]] + Insert(p, parts[1..])
  }

  /** The parts by ascending ordinal. */
  function SortByOrd(parts: seq<Part>): seq<Part> {
    if parts == [] then [] else Insert(parts[0], SortByOrd(parts[1..]))
  }

  function Concat(parts: seq<Part>): seq<UInt16> {
    if parts == [] then [] else parts[0].units + Concat(parts[1..])
  }

  predicate IsLongEntry(attr: Byte) {
    attr % 0x40 == 0x0F
  }

  /** What one entry that is neither the end nor deleted does to the state. */
  function StepEntry(d: seq<Byte>, i: nat, w: Walk): Walk
    requires i + 32 <= |d|
  {
    if IsLongEntry(d[i + 11]) then
      var isLast := d[i] / 0x40 % 2 == 1;
      var started := if isLast then Walk([], true, d[i + 13], w.found) else w;
      if started.active then started.(parts := started.parts + [Part(d[i] % 0x40, EntryUnits(d, i), i)]) else started
    else if w.active && w.parts != [] then
      Walk([], false, 0, w.found + [Found(Concat(SortByOrd(w.parts)), i, ShortChecksum(d[i..i + 11]) == w.checksum)])
    else Walk([], false, 0, w.found)
  }

  /** The walk over all whole entries from i on, up to the end mark. */
  function WalkFrom(d: seq<Byte>, i: nat, w: Walk): Walk
    decreases |d| - i
  {
    if i + 32 > |d| || d[i] == 0x00 then w
    else WalkFrom(d, i + 32, if d[i] == 0xE5 then w else StepEntry(d, i, w))
  }

  // ---------- The directory format (section 7 of the Microsoft FAT specification) ----------

  function LittleEndian(units: seq<UInt16>): (b: seq<Byte>)
    ensures |b| == 2 * |units|
  {
    if units == [] then [] else [units[0] % 0x100, units[0] / 0x100] + LittleEndian(units[1..])
  }

  predicate IsName(units: seq<UInt16>) {
    forall k | 0 <= k < |units| :: units[k] != 0x0000 && units[k] != 0xFFFF
  }

  /** A fragment filled up to 13 units: a terminator, then fillers. */
  function Filled(fragment: seq<UInt16>): (f: seq<UInt16>)
    requires |fragment| <= 13
    ensures |f| == 13
  {
    if |fragment| == 13 then fragment else fragment + [0x0000] + seq(12 - |fragment|, _ => 0xFFFF)
  }

  function LongEntry(seqNo: Byte, checksum: Byte, fragment: seq<UInt16>): (e: seq<Byte>)
    requires |fragment| <= 13
    ensures |e| == 32
  {
    var f := Filled(fragment);
    [seqNo] + LittleEndian(f[0..5]) + [0x0F, 0, checksum] + LittleEndian(f[5..11]) + [0, 0] + LittleEndian(f[11..13])
  }

  /** The number of entries a name takes. */
  function EntryCount(name: seq<UInt16>): nat {
    (|name| + 12) / 13
  }

  /** The k-th fragment of a name, counted from 1. */
  function Fragment(name: seq<UInt16>, k: nat): (f: seq<UInt16>)
    requires 1 <= k <= EntryCount(name)
    ensures 1 <= |f| <= 13
  {
    name[13 * (k - 1)..if 13 * k <= |name| then 13 * k else |name|]
  }

  /** The entries k, k-1, ..., 1 of a name; the first one stored carries the mark of the last. */
  function ChainFrom(name: seq<UInt16>, k: nat, checksum: Byte): (c: seq<Byte>)
    requires k <= EntryCount(name) <= 63
    ensures |c| == 32 * k
  {
    if k == 0 then []
    else
      LongEntry(if k == EntryCount(name) then k + 0x40 else k, checksum, Fragment(name, k))
      + ChainFrom(name, k - 1, checksum)
  }

  /** An entry in use whose attributes are not those of a long name. */
  predicate IsShortEntry(e: seq<Byte>) {
    |e| == 32 && e[0] != 0x00 && e[0] != 0xE5 && e[11] % 0x40 != 0x0F
  }

  /** A long-name entry has the attributes read-only, hidden, system and volume, and neither directory nor archive. */
  lemma LongEntryBits(readOnly: bool, hidden: bool, system: bool, volume: bool, directory: bool, archive: bool,
                      rest: nat)
    requires rest < 4
    ensures var attr := (if readOnly then 0x01 else 0) + (if hidden then 0x02 else 0) + (if system then 0x04 else 0)
                        + (if volume then 0x08 else 0) + (if directory then 0x10 else 0) + (if archive then 0x20 else 0)
                        + 0x40 * rest;
            attr < 0x100
            && (IsLongEntry(attr) <==> readOnly && hidden && system && volume && !directory && !archive)
  {
  }

  // ---------- Reading one entry back ----------

  /** The units before the first terminator or filler. */
  function UpToEnd(units: seq<UInt16>): seq<UInt16> {
    if units == [] || EndsName(units[0]) then [] else [units[0]] + UpToEnd(units[1..])
  }

  lemma {:induction false} RangeReads(d: seq<Byte>, at: nat, units: seq<UInt16>)
    requires at + 2 * |units| <= |d| && d[at..at + 2 * |units|] == LittleEndian(units)
    ensures RangeUnits(d, at, |units|) == UpToEnd(units)
    decreases |units|
  {
    if units != [] {
      var b := LittleEndian(units);
      assert d[at] == d[at..at + 2 * |units|][0] == b[0] && d[at + 1] == d[at..at + 2 * |units|][1] == b[1];
      assert UnitAt(d, at) == units[0];
      SliceOfSlice(d, at, at + 2 * |units|, 2, 2 * |units|);
      assert b[2..] == LittleEndian(units[1..]);
      RangeReads(d, at + 2, units[1..]);
    }
  }

  /** A range of a filled fragment, cut at the first filler, is what the range holds of the fragment. */
  lemma {:induction false} FilledRange(fragment: seq<UInt16>, lo: nat, hi: nat)
    requires |fragment| <= 13 && IsName(fragment) && lo <= hi <= 13
    ensures UpToEnd(Filled(fragment)[lo..hi]) == fragment[Min(lo, |fragment|)..Min(hi, |fragment|)]
    decreases hi - lo
  {
    hide Filled, EndsName, IsName;
    var f := Filled(fragment);
    if lo < hi {
      var r, n := f[lo..hi], |fragment|;
      assert r[0] == f[lo] && r[1..] == f[lo + 1..hi];
      FilledAt(fragment, lo);
      if lo < n {
        FilledRange(fragment, lo + 1, hi);
        assert fragment[lo..Min(hi, n)] == [fragment[lo]] + fragment[lo + 1..Min(hi, n)];
      }
    }
  }

  lemma FilledAt(fragment: seq<UInt16>, k: nat)
    requires |fragment| <= 13 && IsName(fragment) && k < 13
    ensures if k < |fragment| then Filled(fragment)[k] == fragment[k] && !EndsName(fragment[k])
            else EndsName(Filled(fragment)[k])
  {
  }

  /** A long-name entry reads back as the fragment it was written for. */
  lemma EntryReads(d: seq<Byte>, i: nat, seqNo: Byte, checksum: Byte, fragment: seq<UInt16>)
    requires |fragment| <= 13 && IsName(fragment)
    requires i + 32 <= |d| && d[i..i + 32] == LongEntry(seqNo, checksum, fragment)
    ensures d[i] == seqNo && d[i + 11] == 0x0F && d[i + 13] == checksum && EntryUnits(d, i) == fragment
  {
    var f := Filled(fragment);
    EntryLayout(d, i, seqNo, checksum, fragment);
    hide LongEntry, LittleEndian, Filled, UpToEnd, RangeUnits;
    RangeReads(d, i + 1, f[0..5]);
    RangeReads(d, i + 14, f[5..11]);
    RangeReads(d, i + 28, f[11..13]);
    FilledRange(fragment, 0, 5);
    FilledRange(fragment, 5, 11);
    FilledRange(fragment, 11, 13);
    ThreePieces(fragment);
  }

  lemma ThreePieces(fragment: seq<UInt16>)
    requires |fragment| <= 13
    ensures var n := |fragment|;
            fragment[0..Min(5, n)] + fragment[Min(5, n)..Min(11, n)] + fragment[Min(11, n)..Min(13, n)]
            == fragment
  {
  }

  /** Where the fields of a long-name entry lie. */
  lemma EntryLayout(d: seq<Byte>, i: nat, seqNo: Byte, checksum: Byte, fragment: seq<UInt16>)
    requires |fragment| <= 13 && i + 32 <= |d| && d[i..i + 32] == LongEntry(seqNo, checksum, fragment)
    ensures d[i] == seqNo && d[i + 11] == 0x0F && d[i + 13] == checksum
    ensures var f := Filled(fragment);
            d[i + 1..i + 11] == LittleEndian(f[0..5]) && d[i + 14..i + 26] == LittleEndian(f[5..11])
            && d[i + 28..i + 32] == LittleEndian(f[11..13])
  {
    var f, e := Filled(fragment), LongEntry(seqNo, checksum, fragment);
    var a, b, c := LittleEndian(f[0..5]), LittleEndian(f[5..11]), LittleEndian(f[11..13]);
    hide Filled, LittleEndian;
    assert e == [seqNo] + a + [0x0F, 0, checksum] + b + [0, 0] + c;
    hide LongEntry;
    assert e[1..11] == a && e[14..26] == b && e[28..32] == c;
    assert d[i] == d[i..i + 32][0] && d[i + 11] == d[i..i + 32][11] && d[i + 13] == d[i..i + 32][13];
    SliceOfSlice(d, i, i + 32, 1, 11);
    SliceOfSlice(d, i, i + 32, 14, 26);
    SliceOfSlice(d, i, i + 32, 28, 32);
  }

  // ---------- Reading a chain back ----------

  /** The part for ordinal k of a name whose chain starts at offset off. */
  function PartOf(name: seq<UInt16>, k: nat, off: nat): Part
    requires 1 <= k <= EntryCount(name)
  {
    Part(k, Fragment(name, k), off + 32 * (EntryCount(name) - k))
  }

  /** The parts hi, hi-1, ..., lo+1, in the order they are met. */
  function PartsDown(name: seq<UInt16>, hi: nat, lo: nat, off: nat): (parts: seq<Part>)
    requires lo <= hi <= EntryCount(name)
    ensures |parts| == hi - lo
    decreases hi
  {
    if hi == lo then [] else [PartOf(name, hi, off)] + PartsDown(name, hi - 1, lo, off)
  }

  function PartsUp(name: seq<UInt16>, k: nat, off: nat): seq<Part>
    requires k <= EntryCount(name)
  {
    if k == 0 then [] else PartsUp(name, k - 1, off) + [PartOf(name, k, off)]
  }

  lemma {:induction false} PartsDownSnoc(name: seq<UInt16>, hi: nat, lo: nat, off: nat)
    requires lo < hi <= EntryCount(name)
    ensures PartsDown(name, hi, lo, off) == PartsDown(name, hi, lo + 1, off) + [PartOf(name, lo + 1, off)]
    decreases hi
  {
    if hi > lo + 1 {
      PartsDownSnoc(name, hi - 1, lo, off);
    }
  }

  lemma {:induction false} InsertLast(p: Part, parts: seq<Part>)
    requires forall k | 0 <= k < |parts| :: parts[k].ord < p.ord
    ensures Insert(p, parts) == parts + [p]
  {
    if parts != [] {
      InsertLast(p, parts[1..]);
    }
  }

  lemma {:induction false} PartsUpOrdered(name: seq<UInt16>, k: nat, off: nat)
    requires k <= EntryCount(name)
    ensures var parts := PartsUp(name, k, off);
            |parts| == k && (forall j | 0 <= j < k :: parts[j].ord == j + 1)
            && Concat(parts) == name[..Min(13 * k, |name|)]
  {
    if k > 0 {
      PartsUpOrdered(name, k - 1, off);
      ConcatSnoc(PartsUp(name, k - 1, off), PartOf(name, k, off));
    }
  }

  lemma {:induction false} ConcatSnoc(parts: seq<Part>, p: Part)
    ensures Concat(parts + [p]) == Concat(parts) + p.units
  {
    if parts == [] {
      assert [p][1..] == [] && parts + [p] == [p];
    } else {
      assert (parts + [p])[1..] == parts[1..] + [p];
      ConcatSnoc(parts[1..], p);
    }
  }

  /** Sorting the parts as met gives them in name order. */
  lemma {:induction false} SortTurnsRound(name: seq<UInt16>, k: nat, off: nat)
    requires k <= EntryCount(name)
    ensures SortByOrd(PartsDown(name, k, 0, off)) == PartsUp(name, k, off)
  {
    if k > 0 {
      SortTurnsRound(name, k - 1, off);
      PartsUpOrdered(name, k - 1, off);
      InsertLast(PartOf(name, k, off), PartsUp(name, k - 1, off));
    }
  }

  /** The sorted parts of a whole chain spell the name. */
  lemma PartsSpellName(name: seq<UInt16>, off: nat)
    ensures Concat(SortByOrd(PartsDown(name, EntryCount(name), 0, off))) == name
  {
    SortTurnsRound(name, EntryCount(name), off);
    PartsUpOrdered(name, EntryCount(name), off);
    assert name[..|name|] == name;
  }

  lemma FragmentIsName(name: seq<UInt16>, k: nat)
    requires IsName(name) && 1 <= k <= EntryCount(name)
    ensures IsName(Fragment(name, k))
  {
  }

  lemma PartCollected(name: seq<UInt16>, k: nat, off: nat)
    requires 1 <= k <= EntryCount(name)
    ensures PartsDown(name, EntryCount(name), k - 1, off)
            == (if k == EntryCount(name) then [] else PartsDown(name, EntryCount(name), k, off))
               + [PartOf(name, k, off)]
  {
    hide PartOf;
    PartsDownSnoc(name, EntryCount(name), k - 1, off);
    assert PartsDown(name, EntryCount(name), EntryCount(name), off) == [];
  }

  /** One long entry of a chain: the first one drops whatever was collected before. */
  lemma ChainStep(d: seq<Byte>, i: nat, name: seq<UInt16>, k: nat, checksum: Byte, off: nat, w: Walk)
    requires IsName(name) && 1 <= k <= EntryCount(name) <= 63 && i + 32 <= |d|
    requires d[i..i + 32] == LongEntry(if k == EntryCount(name) then k + 0x40 else k, checksum, Fragment(name, k))
    requires i == off + 32 * (EntryCount(name) - k)
    requires k < EntryCount(name) ==>
               w.active && w.checksum == checksum && w.parts == PartsDown(name, EntryCount(name), k, off)
    ensures WalkFrom(d, i, w)
            == WalkFrom(d, i + 32, Walk(PartsDown(name, EntryCount(name), k - 1, off), true, checksum, w.found))
  {
    var n, seqNo: Byte := EntryCount(name), if k == EntryCount(name) then k + 0x40 else k;
    FragmentIsName(name, k);
    EntryReads(d, i, seqNo, checksum, Fragment(name, k));
    PartCollected(name, k, off);
    var p := PartOf(name, k, off);
    assert p == Part(k, Fragment(name, k), i);
    assert [] + [p] == [p];
    hide *;
    LongStep(d, i, k, k == n, checksum, w);
    WalkStep(d, i, w);
  }

  /** A long entry collects its part; the one marked last starts afresh. */
  lemma LongStep(d: seq<Byte>, i: nat, k: nat, isLast: bool, checksum: Byte, w: Walk)
    requires i + 32 <= |d| && 1 <= k <= 63 && d[i] == (if isLast then k + 0x40 else k)
    requires d[i + 11] == 0x0F && d[i + 13] == checksum && (isLast || w.active)
    ensures d[i] != 0x00 && d[i] != 0xE5
    ensures StepEntry(d, i, w)
            == if isLast then Walk([Part(k, EntryUnits(d, i), i)], true, checksum, w.found)
               else w.(parts := w.parts + [Part(k, EntryUnits(d, i), i)])
  {
    hide EntryUnits;
    assert d[i] % 0x40 == k && (d[i] / 0x40 % 2 == 1 <==> isLast);
  }

  lemma WalkStep(d: seq<Byte>, i: nat, w: Walk)
    requires i + 32 <= |d| && d[i] != 0x00
    ensures WalkFrom(d, i, w) == WalkFrom(d, i + 32, if d[i] == 0xE5 then w else StepEntry(d, i, w))
  {
    hide StepEntry;
  }

  /** The entries of a chain from the k-th down leave all their parts collected. */
  lemma {:induction false} ChainWalks(d: seq<Byte>, i: nat, name: seq<UInt16>, k: nat, checksum: Byte,
                                      off: nat, w: Walk)
    requires IsName(name) && k <= EntryCount(name) <= 63 && 1 <= EntryCount(name)
    requires i + 32 * k <= |d| && d[i..i + 32 * k] == ChainFrom(name, k, checksum)
    requires i == off + 32 * (EntryCount(name) - k)
    requires k < EntryCount(name) ==>
               w.active && w.checksum == checksum && w.parts == PartsDown(name, EntryCount(name), k, off)
    ensures WalkFrom(d, i, w)
            == WalkFrom(d, i + 32 * k, Walk(PartsDown(name, EntryCount(name), 0, off), true, checksum, w.found))
    decreases k
  {
    hide LongEntry, Fragment, IsName, WalkFrom, PartsDown, ChainFrom;
    if k > 0 {
      ChainSplit(d, i, name, k, checksum);
      ChainStep(d, i, name, k, checksum, off, w);
      ChainWalks(d, i + 32, name, k - 1, checksum, off,
                 Walk(PartsDown(name, EntryCount(name), k - 1, off), true, checksum, w.found));
    }
  }

  lemma ChainSplit(d: seq<Byte>, i: nat, name: seq<UInt16>, k: nat, checksum: Byte)
    requires 1 <= k <= EntryCount(name) <= 63
    requires i + 32 * k <= |d| && d[i..i + 32 * k] == ChainFrom(name, k, checksum)
    ensures d[i..i + 32] == LongEntry(if k == EntryCount(name) then k + 0x40 else k, checksum, Fragment(name, k))
    ensures d[i + 32..i + 32 * k] == ChainFrom(name, k - 1, checksum)
  {
    var c := ChainFrom(name, k, checksum);
    hide LongEntry, Fragment;
    assert c[0..32] == LongEntry(if k == EntryCount(name) then k + 0x40 else k, checksum, Fragment(name, k));
    assert c[32..32 * k] == ChainFrom(name, k - 1, checksum);
    hide ChainFrom;
    SliceOfSlice(d, i, i + 32 * k, 0, 32);
    SliceOfSlice(d, i, i + 32 * k, 32, 32 * k);
  }

  /** A name with its short entry, as stored: the chain, whose entries carry a checksum, then the short entry. */
  function FileEntries(name: seq<UInt16>, short: seq<Byte>, checksum: Byte): (e: seq<Byte>)
    requires 1 <= EntryCount(name) <= 63 && IsShortEntry(short)
    ensures |e| == 32 * EntryCount(name) + 32
  {
    ChainFrom(name, EntryCount(name), checksum) + short
  }

  /**
   * Reassembly: whatever the walk has collected before, the chain of a name and its short entry add
   * exactly that name to what was found, say whether the checksum stored is that of the short name, and
   * leave nothing behind.
   */
  lemma FileIsFound(d: seq<Byte>, i: nat, name: seq<UInt16>, short: seq<Byte>, chk: Byte, w: Walk)
    requires IsName(name) && 1 <= EntryCount(name) <= 63 && IsShortEntry(short)
    requires i + |FileEntries(name, short, chk)| <= |d|
    requires d[i..i + |FileEntries(name, short, chk)|] == FileEntries(name, short, chk)
    ensures var at := i + 32 * EntryCount(name);
            WalkFrom(d, i, w)
            == WalkFrom(d, at + 32,
                        Walk([], false, 0, w.found + [Found(name, at, ShortChecksum(short[..11]) == chk)]))
  {
    hide ChainFrom, WalkFrom, ShortChecksum;
    var n := EntryCount(name);
    var at, e := i + 32 * n, FileEntries(name, short, chk);
    assert e[0..32 * n] == ChainFrom(name, n, chk) && e[32 * n..32 * n + 32] == short;
    hide FileEntries, EntryCount, IsShortEntry;
    SliceOfSlice(d, i, i + |e|, 0, 32 * n);
    SliceOfSlice(d, i, i + |e|, 32 * n, 32 * n + 32);
    ChainWalks(d, i, name, n, chk, i, w);
    PartsSpellName(name, i);
    ShortStep(d, at, short, Walk(PartsDown(name, n, 0, i), true, chk, w.found));
  }

  lemma ShortStep(d: seq<Byte>, at: nat, short: seq<Byte>, w: Walk)
    requires IsShortEntry(short) && at + 32 <= |d| && d[at..at + 32] == short && w.active && w.parts != []
    ensures WalkFrom(d, at, w)
            == WalkFrom(d, at + 32, Walk([], false, 0, w.found
                 + [Found(Concat(SortByOrd(w.parts)), at, ShortChecksum(short[..11]) == w.checksum)]))
  {
    assert d[at] == d[at..at + 32][0] && d[at + 11] == d[at..at + 32][11];
    SliceOfSlice(d, at, at + 32, 0, 11);
    assert short[0..11] == short[..11];
    hide WalkFrom, ShortChecksum;
    WalkStep(d, at, w);
  }

  // ---------- A whole directory ----------

  /** A long-name entry that is not marked as the last of a chain. */
  predicate IsOrphan(e: seq<Byte>) {
    |e| == 32 && e[0] != 0x00 && e[0] != 0xE5 && e[11] % 0x40 == 0x0F && e[0] / 0x40 % 2 == 0
  }

  /**
   * What a directory holds: files with a long name, files with a short name only, erased entries, and
   * long-name entries whose chain has lost its first one.
   */
  datatype Item =
    | LongFile(name: seq<UInt16>, short: seq<Byte>, checksum: Byte)
    | ShortFile(short: seq<Byte>)
    | Erased(rest: seq<Byte>)
    | Orphan(entry: seq<Byte>)
  {
    predicate Valid() {
      match this
      case LongFile(name, short, _) => IsName(name) && 1 <= EntryCount(name) <= 63 && IsShortEntry(short)
      case ShortFile(short) => IsShortEntry(short)
      case Erased(rest) => |rest| == 31
      case Orphan(entry) => IsOrphan(entry)
    }

    function Bytes(): (b: seq<Byte>)
      requires Valid()
      ensures |b| >= 32
    {
      match this
      case LongFile(name, short, checksum) => FileEntries(name, short, checksum)
      case ShortFile(short) => short
      case Erased(rest) => [0xE5] + rest
      case Orphan(entry) => entry
    }

    /** The long name found when the item starts at an offset. */
    function Names(off: nat): seq<Found>
      requires Valid()
    {
      match this
      case LongFile(name, short, checksum) =>
        [Found(name, off + 32 * EntryCount(name), ShortChecksum(short[..11]) == checksum)]
      case _ => []
    }
  }

  predicate AllValid(items: seq<Item>) {
    forall item | item in items :: item.Valid()
  }

  function DirectoryBytes(items: seq<Item>): seq<Byte>
    requires AllValid(items)
  {
    if items == [] then [] else items[0].Bytes() + DirectoryBytes(items[1..])
  }

  function NamesIn(items: seq<Item>, off: nat): seq<Found>
    requires AllValid(items)
  {
    if items == [] then [] else items[0].Names(off) + NamesIn(items[1..], off + |items[0].Bytes()|)
  }

  /** The end of a directory: no room for another entry, or an end mark. */
  predicate EndsDirectory(tail: seq<Byte>) {
    |tail| < 32 || tail[0] == 0x00
  }

  lemma ItemIsRead(d: seq<Byte>, i: nat, item: Item, found: seq<Found>)
    requires item.Valid() && i + |item.Bytes()| <= |d| && d[i..i + |item.Bytes()|] == item.Bytes()
    ensures WalkFrom(d, i, START.(found := found))
            == WalkFrom(d, i + |item.Bytes()|, START.(found := found + item.Names(i)))
  {
    hide FileEntries, WalkFrom, EntryCount, IsName, ShortChecksum;
    match item {
      case LongFile(name, short, checksum) =>
        hide IsShortEntry;
        FileIsFound(d, i, name, short, checksum, START.(found := found));
      case ShortFile(short) =>
        assert d[i] == d[i..i + 32][0] && d[i + 11] == d[i..i + 32][11];
        PlainStep(d, i, found);
        assert found + [] == found;
      case Erased(rest) =>
        assert d[i] == d[i..i + 32][0];
        PlainStep(d, i, found);
        assert found + [] == found;
      case Orphan(entry) =>
        assert d[i] == d[i..i + 32][0] && d[i + 11] == d[i..i + 32][11];
        PlainStep(d, i, found);
        assert found + [] == found;
    }
  }

  /** With nothing collected, a short or erased entry changes nothing, nor does a long one that starts no chain. */
  lemma PlainStep(d: seq<Byte>, i: nat, found: seq<Found>)
    requires i + 32 <= |d| && d[i] != 0x00 && (d[i] == 0xE5 || d[i + 11] % 0x40 != 0x0F || d[i] / 0x40 % 2 == 0)
    ensures WalkFrom(d, i, START.(found := found)) == WalkFrom(d, i + 32, START.(found := found))
  {
    hide WalkFrom;
    WalkStep(d, i, START.(found := found));
  }

  lemma FirstItem(items: seq<Item>, i: nat)
    requires items != [] && AllValid(items)
    ensures items[0].Valid() && AllValid(items[1..])
    ensures DirectoryBytes(items) == items[0].Bytes() + DirectoryBytes(items[1..])
    ensures NamesIn(items, i) == items[0].Names(i) + NamesIn(items[1..], i + |items[0].Bytes()|)
  {
    assert items[0].Valid();
    hide Item.Bytes, Item.Names, Item.Valid;
  }

  lemma NoItems(d: seq<Byte>, i: nat, tail: seq<Byte>, found: seq<Found>)
    requires i <= |d| && d[i..] == DirectoryBytes([]) + tail && EndsDirectory(tail)
    ensures WalkFrom(d, i, START.(found := found)) == START.(found := found + NamesIn([], i))
  {
    assert d[i..] == tail;
    assert i < |d| ==> d[i] == d[i..][0];
    assert found + [] == found;
  }

  lemma {:induction false} ItemsAreRead(d: seq<Byte>, i: nat, items: seq<Item>, tail: seq<Byte>, found: seq<Found>)
    requires AllValid(items) && i <= |d| && d[i..] == DirectoryBytes(items) + tail && EndsDirectory(tail)
    ensures WalkFrom(d, i, START.(found := found)) == START.(found := found + NamesIn(items, i))
    decreases |items|
  {
    hide *;
    if items == [] {
      NoItems(d, i, tail, found);
    } else {
      FirstItem(items, i);
      var head, rest, more := items[0].Bytes(), DirectoryBytes(items[1..]) + tail, items[0].Names(i);
      assert DirectoryBytes(items) + tail == head + rest;
      HeadAndRest(d, i, head, rest);
      ItemIsRead(d, i, items[0], found);
      ItemsAreRead(d, i + |head|, items[1..], tail, found + more);
      assert (found + more) + NamesIn(items[1..], i + |head|) == found + (more + NamesIn(items[1..], i + |head|));
    }
  }

  /** The walk over a well-formed directory finds exactly its long names, each once, in order, at its short entry. */
  lemma DirectoryIsRead(items: seq<Item>, tail: seq<Byte>)
    requires AllValid(items) && EndsDirectory(tail)
    ensures WalkFrom(DirectoryBytes(items) + tail, 0, START).found == NamesIn(items, 0)
  {
    var d := DirectoryBytes(items) + tail;
    assert d[0..] == d;
    ItemsAreRead(d, 0, items, tail, []);
    assert [] + NamesIn(items, 0) == NamesIn(items, 0);
  }

  // ---------- Examples ----------

  /** One more byte of a short name under the checksum: the sum so far is rotated right by one bit. */
  lemma ChecksumStep(name: seq<Byte>, k: nat, sum: Byte)
    requires k < |name| && ShortChecksum(name[..k]) == sum
    ensures ShortChecksum(name[..k + 1]) as int
            == ((if sum % 2 == 1 then 0x80 else 0) + sum / 2 + name[k] as int) % 0x100
  {
    assert name[..k + 1][..k] == name[..k];
  }

  /** README.TXT, in blanks. */
  const README: seq<Byte> := [0x52, 0x45, 0x41, 0x44, 0x4D, 0x45, 0x20, 0x20, 0x54, 0x58, 0x54]

  lemma ChecksumExample()
    ensures ShortChecksum(README) == 0x73
  {
    hide ShortChecksum;
    NothingSummed(README);
    ChecksumStep(README, 0, 0x00);
    ChecksumStep(README, 1, 0x52);
    ChecksumStep(README, 2, 0x6E);
    ChecksumStep(README, 3, 0x78);
    ChecksumStep(README, 4, 0x80);
    ChecksumStep(README, 5, 0x8D);
    ChecksumStep(README, 6, 0x0B);
    ChecksumStep(README, 7, 0xA5);
    ChecksumStep(README, 8, 0xF2);
    ChecksumStep(README, 9, 0xCD);
    ChecksumStep(README, 10, 0x3E);
    assert README[..11] == README;
  }

  lemma NothingSummed(name: seq<Byte>)
    ensures ShortChecksum(name[..0]) == 0
  {
  }

  /** The entry of a name of two characters, byte by byte: a terminator and fillers behind the name. */
  const README_ENTRY: seq<Byte> :=
    [0x41] + [0x52, 0, 0x6D, 0, 0, 0, 0xFF, 0xFF, 0xFF, 0xFF] + [0x0F, 0, 0x73]
    + [0xFF, 0xFF, 0xFF, 0xFF, 0xFF, 0xFF, 0xFF, 0xFF, 0xFF, 0xFF, 0xFF, 0xFF] + [0, 0] + [0xFF, 0xFF, 0xFF, 0xFF]

  /** Its short entry, with the archive attribute, and 20 bytes that are not looked at. */
  function ReadmeShort(rest: seq<Byte>): (e: seq<Byte>)
    requires |rest| == 20
    ensures |e| == 32
  {
    README + [0x20] + rest
  }

  /** The bytes of units: the low half first. */
  lemma {:induction false} LittleEndianIs(units: seq<UInt16>, bytes: seq<Byte>)
    requires |bytes| == 2 * |units|
    requires forall k | 0 <= k < |units| :: units[k] as int == bytes[2 * k] as int + 0x100 * bytes[2 * k + 1] as int
    ensures LittleEndian(units) == bytes
  {
    if units != [] {
      assert bytes == [bytes[0], bytes[1]] + bytes[2..];
      forall k | 0 <= k < |units| - 1
        ensures units[1..][k] as int == bytes[2..][2 * k] as int + 0x100 * bytes[2..][2 * k + 1] as int
      {
        assert units[k + 1] as int == bytes[2 * (k + 1)] as int + 0x100 * bytes[2 * (k + 1) + 1] as int;
      }
      LittleEndianIs(units[1..], bytes[2..]);
      assert units[0] as int == bytes[2 * 0] as int + 0x100 * bytes[2 * 0 + 1] as int;
    }
  }

  lemma ReadmeRanges(f: seq<UInt16>)
    requires f == Filled([0x52, 0x6D])
    ensures LittleEndian(f[0..5]) == [0x52, 0, 0x6D, 0, 0, 0, 0xFF, 0xFF, 0xFF, 0xFF]
    ensures LittleEndian(f[5..11]) == [0xFF, 0xFF, 0xFF, 0xFF, 0xFF, 0xFF, 0xFF, 0xFF, 0xFF, 0xFF, 0xFF, 0xFF]
    ensures LittleEndian(f[11..13]) == [0xFF, 0xFF, 0xFF, 0xFF]
  {
    assert f[0] == 0x52 && f[1] == 0x6D && f[2] == 0 && forall k | 3 <= k < 13 :: f[k] == 0xFFFF;
    hide Filled, LittleEndian;
    LittleEndianIs(f[0..5], [0x52, 0, 0x6D, 0, 0, 0, 0xFF, 0xFF, 0xFF, 0xFF]);
    LittleEndianIs(f[5..11], [0xFF, 0xFF, 0xFF, 0xFF, 0xFF, 0xFF, 0xFF, 0xFF, 0xFF, 0xFF, 0xFF, 0xFF]);
    LittleEndianIs(f[11..13], [0xFF, 0xFF, 0xFF, 0xFF]);
  }

  lemma ReadmeEntryIs()
    ensures LongEntry(0x41, 0x73, [0x52, 0x6D]) == README_ENTRY
  {
    hide Filled, LittleEndian;
    ReadmeRanges(Filled([0x52, 0x6D]));
  }

  /** A directory of these two entries holds the name at its short entry, with the right checksum. */
  lemma DirectoryExample(rest: seq<Byte>)
    requires |rest| == 20
    ensures WalkFrom(README_ENTRY + ReadmeShort(rest), 0, START).found == [Found([0x52, 0x6D], 32, true)]
  {
    ChecksumExample();
    ReadmeEntryIs();
    var name, short := [0x52, 0x6D], ReadmeShort(rest);
    assert short[..11] == README;
    hide LongEntry, ShortChecksum, README_ENTRY, WalkFrom, START;
    var item := LongFile(name, short, 0x73);
    assert Fragment(name, 1) == name && ChainFrom(name, 0, 0x73) == [];
    assert item.Bytes() == README_ENTRY + short && item.Names(0) == [Found(name, 32, true)];
    assert DirectoryBytes([item]) == item.Bytes() + [] && NamesIn([item], 0) == item.Names(0) + [];
    assert README_ENTRY + short + [] == README_ENTRY + short;
    DirectoryIsRead([item], []);
  }

  // ---------- Sorting ----------

  predicate Ascending(parts: seq<Part>) {
    forall j, k | 0 <= j < k < |parts| :: parts[j].ord <= parts[k].ord
  }

  lemma TailMultiset(parts: seq<Part>)
    requires parts != []
    ensures multiset(parts[1..]) == multiset(parts) - multiset{parts[0]}
  {
    assert parts == [parts[0]] + parts[1..];
  }

  lemma AscendingCons(p: Part, rest: seq<Part>)
    requires Ascending(rest) && forall q | q in multiset(rest) :: p.ord <= q.ord
    ensures Ascending([p] + rest)
  {
    assert forall k | 0 <= k < |rest| :: rest[k] in multiset(rest);
  }

  lemma FirstIsLeast(parts: seq<Part>)
    requires parts != [] && Ascending(parts)
    ensures forall q | q in multiset(parts) :: parts[0].ord <= q.ord
    ensures Ascending(parts[1..])
  {
  }

  lemma InsertIs(p: Part, parts: seq<Part>)
    ensures Insert(p, parts)
            == if parts == [] then [p]
               else if p.ord <= parts[0].ord then [p] + parts
               else [parts[0]] + Insert(p, parts[1..])
    ensures Ascending([p])
  {
  }

  lemma {:induction false} InsertKeepsOrder(p: Part, parts: seq<Part>)
    requires Ascending(parts)
    ensures Ascending(Insert(p, parts)) && multiset(Insert(p, parts)) == multiset(parts) + multiset{p}
  {
    hide *;
    InsertIs(p, parts);
    if parts != [] {
      FirstIsLeast(parts);
      TailMultiset(parts);
      if p.ord <= parts[0].ord {
        AscendingCons(p, parts);
      } else {
        InsertKeepsOrder(p, parts[1..]);
        AscendingCons(parts[0], Insert(p, parts[1..]));
      }
    }
  }

  /** The sort is a sort: ascending, and a permutation of its input. */
  lemma {:induction false} SortSorts(parts: seq<Part>)
    ensures Ascending(SortByOrd(parts)) && multiset(SortByOrd(parts)) == multiset(parts)
  {
    if parts != [] {
      SortSorts(parts[1..]);
      InsertKeepsOrder(parts[0], SortByOrd(parts[1..]));
      assert parts == [parts[0]] + parts[1..];
    }
  }

  predicate StrictlyAscending(parts: seq<Part>) {
    forall j, k | 0 <= j < k < |parts| :: parts[j].ord < parts[k].ord
  }

  /** Without repeated ordinals there is only one ascending arrangement, so any correct sort gives this one. */
  lemma {:induction false} SortIsUnique(r: seq<Part>, s: seq<Part>)
    requires StrictlyAscending(r) && Ascending(s) && multiset(r) == multiset(s)
    ensures r == s
  {
    assert |r| == |multiset(r)| == |multiset(s)| == |s|;
    if r != [] {
      SameFirst(r, s);
      TailMultiset(r);
      TailMultiset(s);
      SortIsUnique(r[1..], s[1..]);
    }
  }

  lemma SameFirst(r: seq<Part>, s: seq<Part>)
    requires r != [] && s != [] && StrictlyAscending(r) && Ascending(s) && multiset(r) == multiset(s)
    ensures r[0] == s[0]
  {
    assert s[0] in multiset(s) && r[0] in multiset(r);
    var k :| 0 <= k < |r| && r[k] == s[0];
    var j :| 0 <= j < |s| && s[j] == r[0];
    assert forall m | 0 <= m < |s| :: s[0].ord <= s[m].ord;
    assert forall m | 0 < m < |r| :: r[0].ord < r[m].ord;
  }

  // ---------- The loop ----------

  /** Appends the units of one range to a part, stopping at a terminator. */
  method AddRange(d: seq<Byte>, at: nat, count: nat, part: seq<UInt16>) returns (longer: seq<UInt16>)
    requires at + 2 * count <= |d|
    ensures longer == part + RangeUnits(d, at, count)
  {
    longer := part;
    var j := 0;
    while j < count
      invariant j <= count
      invariant longer + RangeUnits(d, at + 2 * j, count - j) == part + RangeUnits(d, at, count)
    {
      var ch := UnitAt(d, at + j * 2);
      if ch == 0x0000 || ch == 0xFFFF {
        break;
      }
      assert longer + ([ch] + RangeUnits(d, at + 2 * (j + 1), count - (j + 1)))
          == (longer + [ch]) + RangeUnits(d, at + 2 * (j + 1), count - (j + 1));
      longer := longer + [ch];
      j := j + 1;
    }
    assert longer + [] == longer;
  }

  method ReadPart(d: seq<Byte>, i: nat) returns (part: seq<UInt16>)
    requires i + 32 <= |d|
    ensures part == EntryUnits(d, i)
  {
    hide RangeUnits;
    part := AddRange(d, i + 1, 5, []);
    part := AddRange(d, i + 14, 6, part);
    part := AddRange(d, i + 28, 2, part);
  }

  /** The checksum loop over the 11 bytes of a short name. */
  method ChecksumOf(d: seq<Byte>, i: nat) returns (sum: Byte)
    requires i + 11 <= |d|
    ensures sum == ShortChecksum(d[i..i + 11])
  {
    sum := 0;
    for k := 0 to 11
      invariant sum == ShortChecksum(d[i..i + k])
    {
      assert d[i..i + (k + 1)][..k] == d[i..i + k];
      sum := (sum % 2 * 0x80 + sum / 2 + d[i + k]) % 0x100;
    }
  }

  /** The long name spelled by the sorted parts. */
  method BuildName(parts: seq<Part>) returns (name: seq<UInt16>)
    ensures name == Concat(parts)
  {
    name := [];
    var k := 0;
    while k < |parts|
      invariant k <= |parts| && name + Concat(parts[k..]) == Concat(parts)
    {
      assert name + (parts[k].units + Concat(parts[k + 1..])) == (name + parts[k].units) + Concat(parts[k + 1..]);
      assert parts[k..][1..] == parts[k + 1..];
      name := name + parts[k].units;
      k := k + 1;
    }
    assert name + [] == name;
  }

  /** The directory walk: collects fragments, and pairs each long name with its short entry. */
  method AnalyzeDirectory(d: seq<Byte>) returns (found: seq<Found>)
    ensures found == WalkFrom(d, 0, START).found
  {
    var lfnParts: seq<Part>, lfnActive, lfnChecksum: Byte := [], false, 0;
    found := [];
    var i := 0;
    hide EntryUnits, ShortChecksum, SortByOrd, Concat, START;
    assert START == Walk([], false, 0, []);
    while i + 32 <= |d|
      invariant 0 <= i
      invariant WalkFrom(d, 0, START) == WalkFrom(d, i, Walk(lfnParts, lfnActive, lfnChecksum, found))
    {
      ghost var before := Walk(lfnParts, lfnActive, lfnChecksum, found);
      var first := d[i];
      if first == 0x00 {
        break;
      }
      if first != 0xE5 {
        lfnParts, lfnActive, lfnChecksum, found := OneEntry(d, i, lfnParts, lfnActive, lfnChecksum, found);
      }
      WalkStep(d, i, before);
      i := i + 32;
    }
  }

  /** The body of the walk for an entry in use. */
  method OneEntry(d: seq<Byte>, i: nat, parts: seq<Part>, active: bool, checksum: Byte, log: seq<Found>)
    returns (lfnParts: seq<Part>, lfnActive: bool, lfnChecksum: Byte, found: seq<Found>)
    requires i + 32 <= |d|
    ensures Walk(lfnParts, lfnActive, lfnChecksum, found) == StepEntry(d, i, Walk(parts, active, checksum, log))
  {
    hide EntryUnits, ShortChecksum, Concat, SortByOrd;
    lfnParts, lfnActive, lfnChecksum, found := parts, active, checksum, log;
    var attr := d[i + 11];
    if attr % 0x40 == 0x0F {
      var chk := d[i + 13];
      var isLast := d[i] / 0x40 % 2 == 1;
      var ord := d[i] % 0x40;
      if isLast {
        lfnParts := [];
        lfnChecksum := chk;
        lfnActive := true;
      }
      var part := ReadPart(d, i);
      if lfnActive {
        lfnParts := lfnParts + [Part(ord, part, i)];
      }
    } else {
      var sum := ChecksumOf(d, i);
      if lfnActive && lfnParts != [] {
        lfnParts := SortByOrd(lfnParts);
        var lfnFull := BuildName(lfnParts);
        found := found + [Found(lfnFull, i, sum == lfnChecksum)];
      }
      lfnParts := [];
      lfnActive := false;
      lfnChecksum := 0;
    }
  }

  // ---------- The name as it is logged ----------

  /** At most so many characters of the name in ASCII: other characters become question marks. */
  function AsciiOf(w: seq<UInt16>, most: nat): (s: string)
    ensures |s| <= |w| && |s| <= most
  {
    if w == [] || most == 0 || w[0] == 0x0000 then ""
    else [if w[0] < 128 then w[0] as char else '?'] + AsciiOf(w[1..], most - 1)
  }

  /** Fills a buffer of a given capacity, keeping one place for the terminator. */
  method AsciiFromUtf16(w: seq<UInt16>, capacity: nat) returns (out: string)
    requires capacity >= 1
    ensures out == AsciiOf(w, capacity - 1)
  {
    out := "";
    var i := 0;
    while i < |w| && i + 1 < capacity
      invariant i <= |w| && i < capacity
      invariant AsciiOf(w, capacity - 1) == out + AsciiOf(w[i..], capacity - 1 - i)
    {
      var ch := w[i];
      if ch == 0x0000 {
        break;
      }
      var c := if ch < 128 then ch as char else '?';
      AsciiStep(w, i, capacity - 1 - i, out, c);
      out := out + [c];
      i := i + 1;
    }
    assert out + "" == out;
  }

  lemma AsciiStep(w: seq<UInt16>, i: nat, room: nat, out: string, c: char)
    requires i < |w| && room > 0 && w[i] != 0x0000 && c == if w[i] < 128 then w[i] as char else '?'
    ensures out + AsciiOf(w[i..], room) == (out + [c]) + AsciiOf(w[i + 1..], room - 1)
  {
    assert w[i..][1..] == w[i + 1..];
    assert AsciiOf(w[i..], room) == [c] + AsciiOf(w[i + 1..], room - 1);
  }

  /** As much of a name as fits is logged: ASCII characters as they are, a question mark for any other. */
  lemma {:induction false} AsciiIsFaithful(w: seq<UInt16>, most: nat)
    requires IsName(w)
    ensures |AsciiOf(w, most)| == Min(|w|, most)
    ensures forall k | 0 <= k < Min(|w|, most) ::
              if w[k] < 128 then AsciiOf(w, most)[k] as int == w[k] else AsciiOf(w, most)[k] == '?'
  {
    if w != [] && most > 0 {
      AsciiIsFaithful(w[1..], most - 1);
      assert forall k | 1 <= k < Min(|w|, most) ::
          AsciiOf(w, most)[k] == AsciiOf(w[1..], most - 1)[k - 1] && w[k] == w[1..][k - 1];
    }
  }
}
