/** Domain names in the wire form of section 3.1 of RFC 1035. */
module DnsNames {
  import opened Words
  import opened Options
  import opened Splitting

  const DOT: Byte := 46
  const E2BIG := 7
  const EINVAL := 22

  /** A label holds 1 to 63 bytes. */
  predicate IsLabel(p: seq<Byte>) {
    1 <= |p| <= 63
  }

  predicate AreLabels(labels: seq<seq<Byte>>) {
    forall p | p in labels :: IsLabel(p)
  }

  predicate IsHostname(h: seq<Byte>) {
    1 <= |h| <= 253 && AreLabels(SplitOn(h, DOT))
  }

  function LowerByte(b: Byte): Byte {
    if 65 <= b <= 90 then b + 32 else b
  }

  function Lower(s: seq<Byte>): (r: seq<Byte>)
    ensures |r| == |s|
  {
    seq(|s|, k requires 0 <= k < |s| => LowerByte(s[k]))
  }

  function LabelBytes(p: seq<Byte>): (b: seq<Byte>)
    requires IsLabel(p)
    ensures |b| == |p| + 1
  {
    [|p|] + p
  }

  function LabelsBytes(labels: seq<seq<Byte>>): seq<Byte>
    requires AreLabels(labels)
  {
    if labels == [] then [] else LabelBytes(labels[0]) + LabelsBytes(labels[1..])
  }

  /** The wire form of a list of labels: each behind its length, then the root label. */
  function NameBytes(labels: seq<seq<Byte>>): seq<Byte>
    requires AreLabels(labels)
  {
    LabelsBytes(labels) + [0]
  }

  /** A reader of the wire form: the labels at the front, and how many bytes they take. */
  function ReadName(d: seq<Byte>): Option<(seq<seq<Byte>>, nat)> {
    if d == [] then None
    else if d[0] == 0 then Some(([], 1))
    else if d[0] > 63 || |d| < 1 + d[0] as int then None
    else
      match ReadName(d[1 + d[0] as int..])
      case None => None
      case Some((labels, n)) => Some(([d[1..1 + d[0] as int]] + labels, 1 + d[0] as int + n))
  }

  /** Reading undoes writing, whatever follows. */
  lemma {:induction false} ReadsBack(labels: seq<seq<Byte>>, tail: seq<Byte>)
    requires AreLabels(labels)
    ensures ReadName(NameBytes(labels) + tail) == Some((labels, |NameBytes(labels)|))
  {
    var d := NameBytes(labels) + tail;
    if labels != [] {
      var p, rest := labels[0], labels[1..];
      ReadsBack(rest, tail);
      assert IsLabel(p);
      assert d == [|p|] + p + (NameBytes(rest) + tail);
      assert d[1..1 + |p|] == p && d[1 + |p|..] == NameBytes(rest) + tail;
      assert labels == [p] + rest;
    }
  }

  lemma {:induction false} LabelsSnoc(labels: seq<seq<Byte>>, p: seq<Byte>)
    requires AreLabels(labels) && IsLabel(p)
    ensures AreLabels(labels + [p]) && LabelsBytes(labels + [p]) == LabelsBytes(labels) + LabelBytes(p)
  {
    if labels == [] {
      assert labels + [p] == [p];
      assert [p][1..] == [];
    } else {
      assert (labels + [p])[1..] == labels[1..] + [p];
      LabelsSnoc(labels[1..], p);
    }
  }

  /** Lower case moves no dot, so it changes no label's length. */
  lemma {:induction false} LowerKeepsLengths(h: seq<Byte>)
    ensures var a, b := SplitOn(h, DOT), SplitOn(Lower(h), DOT);
            |a| == |b| && forall k | 0 <= k < |a| :: |a[k]| == |b[k]|
  {
    if h != [] {
      LowerKeepsLengths(h[1..]);
      var l := Lower(h);
      assert l[1..] == Lower(h[1..]) && (l[0] == DOT <==> h[0] == DOT);
      assert |SplitOn(h, DOT)| == |SplitOn(l, DOT)|;
      hide Lower;
      if h[0] != DOT {
        var a, b := SplitOn(h[1..], DOT), SplitOn(l[1..], DOT);
        assert SplitOn(h, DOT) == Attach([h[0]], a) && SplitOn(l, DOT) == Attach([l[0]], b);
        hide SplitOn;
      }
    }
  }

  lemma LowerKeepsLabels(h: seq<Byte>)
    ensures AreLabels(SplitOn(h, DOT)) <==> AreLabels(SplitOn(Lower(h), DOT))
  {
    LowerKeepsLengths(h);
    var a, b := SplitOn(h, DOT), SplitOn(Lower(h), DOT);
    assert forall k | 0 <= k < |a| :: IsLabel(a[k]) <==> IsLabel(b[k]);
  }

  lemma {:induction false} WireLength(labels: seq<seq<Byte>>)
    requires labels != [] && AreLabels(labels)
    ensures |LabelsBytes(labels)| == |Join(labels, DOT)| + 1
  {
    if |labels| > 1 {
      WireLength(labels[1..]);
    } else {
      assert labels[1..] == [];
    }
  }

  /** What a host name is sent as: its lower-cased labels. */
  function Wire(h: seq<Byte>): (w: seq<Byte>)
    requires IsHostname(h)
    ensures |w| == |h| + 2
  {
    LowerKeepsLabels(h);
    JoinSplit(Lower(h), DOT);
    WireLength(SplitOn(Lower(h), DOT));
    NameBytes(SplitOn(Lower(h), DOT))
  }

  /** A reader of the wire form gets the lower-cased host name back, and stops right behind it. */
  lemma WireDecodes(h: seq<Byte>, tail: seq<Byte>)
    requires IsHostname(h)
    ensures var r := ReadName(Wire(h) + tail);
            r.Some? && r.value.1 == |h| + 2 && r.value.0 != [] && Join(r.value.0, DOT) == Lower(h)
  {
    LowerKeepsLabels(h);
    JoinSplit(Lower(h), DOT);
    ReadsBack(SplitOn(Lower(h), DOT), tail);
  }

  /** Two host names are sent alike exactly when they differ in case only. */
  lemma WireIgnoresCase(g: seq<Byte>, h: seq<Byte>)
    requires IsHostname(g) && IsHostname(h)
    ensures Wire(g) == Wire(h) <==> Lower(g) == Lower(h)
  {
    WireDecodes(g, []);
    WireDecodes(h, []);
  }

  /** In the wire form every byte of a label stands one place further on than in the text. */
  lemma {:induction false} LabelsAreShifted(labels: seq<seq<Byte>>, i: nat)
    requires labels != [] && AreLabels(labels) && i < |Join(labels, DOT)| && Join(labels, DOT)[i] != DOT
    ensures i + 1 < |LabelsBytes(labels)| && LabelsBytes(labels)[i + 1] == Join(labels, DOT)[i]
  {
    var p, rest := labels[0], labels[1..];
    assert IsLabel(p) && LabelsBytes(labels) == LabelBytes(p) + LabelsBytes(rest);
    if |labels| == 1 {
      assert LabelsBytes(labels) == LabelBytes(p) + [];
    } else {
      assert Join(labels, DOT) == p + [DOT] + Join(rest, DOT);
      if i > |p| {
        LabelsAreShifted(rest, i - |p| - 1);
      }
    }
  }

  /** Where the bytes of a host name go: one place further on, in lower case; a zero comes last. */
  lemma WireIsShifted(h: seq<Byte>, i: nat)
    requires IsHostname(h) && i < |h| && h[i] != 46
    ensures |Wire(h)| == |h| + 2 && Wire(h)[|h| + 1] == 0
    ensures Wire(h)[i + 1] == if 'A' as int <= h[i] <= 'Z' as int then h[i] + 32 else h[i]
  {
    LowerKeepsLabels(h);
    LowerAt(h, i);
    var labels := SplitOn(Lower(h), DOT);
    JoinSplit(Lower(h), DOT);
    WireLength(labels);
    LabelsAreShifted(labels, i);
    hide SplitOn, Join, Lower, LabelsBytes;
  }

  /** The wire form of Ab.c, byte by byte. */
  lemma WireExample()
    ensures IsHostname([65, 98, 46, 99]) && Wire([65, 98, 46, 99]) == [2, 97, 98, 1, 99, 0]
  {
    var h, low: seq<Byte> := [65, 98, 46, 99], [97, 98, 46, 99];
    assert Lower(h) == low;
    NameSplits(65, 98, 99);
    NameSplits(97, 98, 99);
    assert LabelsBytes([]) == [] && LabelsBytes([[99]]) == [1, 99];
    assert [[97, 98], [99]][1..] == [[99]];
    assert LabelsBytes([[97, 98], [99]]) == [2, 97, 98] + [1, 99];
    hide SplitOn, Lower, LabelsBytes;
  }

  lemma NameSplits(a: Byte, b: Byte, c: Byte)
    requires a != 46 && b != 46 && c != 46
    ensures SplitOn([a, b, 46, c], 46) == [[a, b], [c]]
  {
    SplitFirst([a, b], [c], 46);
    SplitFirst([c], [], 46);
    assert [a, b] + [46] + [c] == [a, b, 46, c];
  }

  /** The scan of a host name up to i: the labels done, what was written for them, and where the next one starts. */
  ghost predicate Scanned(h: seq<Byte>, i: nat, start: nat, done: seq<seq<Byte>>, written: seq<Byte>) {
    start <= i <= |h| + 1 && AreLabels(done) && written == LabelsBytes(done) && |written| == start
    && if i <= |h| then SplitState(Lower(h), i, DOT, done, Lower(h)[start..i])
       else start == i && SplitOn(Lower(h), DOT) == done
  }

  lemma ScanStarts(h: seq<Byte>)
    ensures Scanned(h, 0, 0, [], [])
  {
    SplitStarts(Lower(h), DOT);
    assert Lower(h)[0..0] == [];
  }

  /** A dot or the end closes a label. */
  lemma ScanCloses(h: seq<Byte>, i: nat, start: nat, done: seq<seq<Byte>>, written: seq<Byte>)
    requires i <= |h| && Scanned(h, i, start, done, written) && (i == |h| || h[i] == DOT)
    ensures var p := Lower(h)[start..i];
            if IsLabel(p) then Scanned(h, i + 1, i + 1, done + [p], written + LabelBytes(p))
            else !AreLabels(SplitOn(h, DOT))
  {
    var l, p := Lower(h), Lower(h)[start..i];
    if i == |h| {
      SplitEnds(l, DOT, done, p);
    } else {
      SplitStep(l, i, DOT, done, p);
      assert l[i + 1..i + 1] == [];
    }
    assert SplitOn(l, DOT)[|done|] == p;
    if IsLabel(p) {
      LabelsSnoc(done, p);
    } else {
      LowerKeepsLabels(h);
    }
  }

  lemma ScanContinues(h: seq<Byte>, i: nat, start: nat, done: seq<seq<Byte>>, written: seq<Byte>)
    requires i < |h| && Scanned(h, i, start, done, written) && h[i] != DOT
    ensures Scanned(h, i + 1, start, done, written)
  {
    var l := Lower(h);
    SplitStep(l, i, DOT, done, l[start..i]);
    assert l[start..i + 1] == l[start..i] + [l[i]];
  }

  lemma ScanEnds(h: seq<Byte>, start: nat, done: seq<seq<Byte>>, written: seq<Byte>)
    requires 1 <= |h| <= 253 && Scanned(h, |h| + 1, start, done, written)
    ensures IsHostname(h) && written + [0] == Wire(h)
  {
    LowerKeepsLabels(h);
  }

  /** The return value: the length written, or the error of the first check that fails. */
  function EncodeResult(h: seq<Byte>, bufferSize: nat): (r: int) {
    if h == [] || |h| > 253 then -EINVAL
    else if bufferSize < |h| + 2 then -E2BIG
    else if !AreLabels(SplitOn(h, DOT)) then -EINVAL
    else |h| + 2
  }

  /** Copies one label in lower case behind its length. */
  method WriteLabel(hostname: seq<Byte>, start: nat, end: nat, buffer: array<Byte>, at: nat) returns (writePos: nat)
    requires start <= end <= |hostname| && IsLabel(hostname[start..end]) && at + 1 + (end - start) <= buffer.Length
    modifies buffer
    ensures writePos == at + 1 + (end - start)
    ensures buffer[..writePos] == old(buffer[..at]) + LabelBytes(Lower(hostname)[start..end])
    ensures buffer[writePos..] == old(buffer[writePos..])
  {
    hide *;
    ghost var piece := Lower(hostname)[start..end];
    LabelSize(hostname[start..end]);
    var segmentLen := end - start;
    buffer[at] := segmentLen;
    writePos := at + 1;
    var j := 0;
    while j < segmentLen
      invariant 0 <= j <= segmentLen && writePos == at + 1 + j
      invariant buffer[at] == segmentLen
      invariant forall k | 0 <= k < j :: buffer[at + 1 + k] == piece[k]
      invariant forall k | 0 <= k < at || at + 1 + segmentLen <= k < buffer.Length :: buffer[k] == old(buffer[k])
    {
      LowerAt(hostname, start + j);
      var c := hostname[start + j];
      if 65 <= c <= 90 {
        c := c + 32;
      }
      buffer[writePos] := c;
      writePos := writePos + 1;
      j := j + 1;
    }
    LabelWritten(old(buffer[..]), buffer[..], at, piece);
  }

  lemma LowerAt(h: seq<Byte>, k: nat)
    requires k < |h|
    ensures Lower(h)[k] == if 65 <= h[k] <= 90 then h[k] + 32 else h[k]
  {
  }

  /** The cells of a label, put together. */
  lemma LabelWritten(before: seq<Byte>, after: seq<Byte>, at: nat, p: seq<Byte>)
    requires 1 <= |p| <= 63 && |after| == |before| && at + 1 + |p| <= |after|
    requires after[at] == |p| && forall k | 0 <= k < |p| :: after[at + 1 + k] == p[k]
    requires forall k | 0 <= k < at || at + 1 + |p| <= k < |after| :: after[k] == before[k]
    ensures IsLabel(p) && after[..at + 1 + |p|] == before[..at] + LabelBytes(p)
    ensures after[at + 1 + |p|..] == before[at + 1 + |p|..]
  {
    assert after[..at] == before[..at];
    assert after[at + 1..at + 1 + |p|] == p;
    assert after[..at + 1 + |p|] == after[..at] + [after[at]] + after[at + 1..at + 1 + |p|];
  }

  /** What the return value says. */
  lemma ResultMeans(h: seq<Byte>, bufferSize: nat)
    ensures -EINVAL < 0 && -E2BIG < 0 && -EINVAL != -E2BIG
    ensures h == [] || |h| > 253 ==> EncodeResult(h, bufferSize) == -EINVAL && !IsHostname(h)
    ensures 0 < |h| <= 253 && bufferSize < |h| + 2 ==> EncodeResult(h, bufferSize) == -E2BIG
    ensures 0 < |h| <= 253 && bufferSize >= |h| + 2 ==>
              EncodeResult(h, bufferSize) == if IsHostname(h) then |h| + 2 else -EINVAL
    ensures IsHostname(h) <==> 1 <= |h| <= 253 && AreLabels(SplitOn(h, DOT))
  {
    hide AreLabels, SplitOn;
  }

  lemma ResultIs(h: seq<Byte>, bufferSize: nat)
    ensures EncodeResult(h, bufferSize)
            == if h == [] || |h| > 253 then -22
               else if bufferSize < |h| + 2 then -7
               else if forall p | p in SplitOn(h, 46) :: 1 <= |p| <= 63 then |h| + 2
               else -22
  {
    hide SplitOn;
  }

  lemma LabelSize(p: seq<Byte>)
    ensures IsLabel(p) <==> 1 <= |p| <= 63
    ensures IsLabel(p) ==> |LabelBytes(p)| == |p| + 1
  {
  }

  /** Encodes a host name; the buffer changes in its first |hostname| + 2 bytes at most. */
  method EncodeDNSName(hostname: seq<Byte>, buffer: array<Byte>, bufferSize: nat) returns (r: int)
    requires bufferSize <= buffer.Length
    modifies buffer
    ensures r == if hostname == [] || |hostname| > 253 then -22
                 else if bufferSize < |hostname| + 2 then -7
                 else if forall p | p in SplitOn(hostname, 46) :: 1 <= |p| <= 63 then |hostname| + 2
                 else -22
    ensures r > 0 <==> IsHostname(hostname) && |hostname| + 2 <= bufferSize
    ensures r > 0 ==> r <= buffer.Length && buffer[..r] == Wire(hostname)
    ensures r == -E2BIG ==> buffer[..] == old(buffer[..])
    ensures r != -E2BIG && |hostname| + 2 <= buffer.Length ==> buffer[|hostname| + 2..] == old(buffer[|hostname| + 2..])
  {
    hide *;
    ResultMeans(hostname, bufferSize);
    ResultIs(hostname, bufferSize);
    var hostnameLen := |hostname|;
    if hostnameLen == 0 || hostnameLen > 253 {
      return -EINVAL;
    }
    if bufferSize < hostnameLen + 2 {
      return -E2BIG;
    }
    ghost var done: seq<seq<Byte>> := [];
    ScanStarts(hostname);
    var writePos, segmentStart, i := 0, 0, 0;
    while i <= hostnameLen
      invariant 0 <= writePos == segmentStart <= i <= hostnameLen + 1
      invariant Scanned(hostname, i, segmentStart, done, buffer[..writePos])
      invariant buffer[hostnameLen + 2..] == old(buffer[hostnameLen + 2..])
    {
      if i == hostnameLen || hostname[i] == DOT {
        var segmentLen := i - segmentStart;
        ScanCloses(hostname, i, segmentStart, done, buffer[..writePos]);
        LabelSize(Lower(hostname)[segmentStart..i]);
        LabelSize(hostname[segmentStart..i]);
        if segmentLen == 0 || segmentLen > 63 {
          return -EINVAL;
        }
        done := done + [Lower(hostname)[segmentStart..i]];
        writePos := WriteLabel(hostname, segmentStart, i, buffer, writePos);
        segmentStart := i + 1;
      } else {
        ScanContinues(hostname, i, segmentStart, done, buffer[..writePos]);
      }
      i := i + 1;
    }
    ScanEnds(hostname, segmentStart, done, buffer[..writePos]);
    buffer[writePos] := 0;
    return writePos + 1;
  }
}
