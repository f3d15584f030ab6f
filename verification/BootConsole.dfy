/** The boot console: a ring of text that gives up its oldest line when the screen is full. */
module BootConsoles {
  import opened Words
  import opened Options
  import opened Splitting
  import opened Rings

  const LINE_HEIGHT := 20
  const BOTTOM_MARGIN := 10

  /** A character written, with the cursor and the height the renderer reports after it. */
  datatype Write = Write(ch: char, cursorY: Int32, textHeight: UInt32)
  {
    /** The cursor is taken as an unsigned word before the margins are added. */
    predicate Overflows() {
      ToUInt32(ToUInt32(cursorY) + LINE_HEIGHT + BOTTOM_MARGIN) > textHeight
    }
  }

  /** The test means what it says exactly when the cursor does not go round, or the height is beyond it all the same. */
  lemma OverflowMeaning(w: Write)
    ensures (w.Overflows() <==> w.cursorY + LINE_HEIGHT + BOTTOM_MARGIN > w.textHeight)
            <==> w.cursorY >= -30 || w.textHeight as int >= TWO32 + w.cursorY + 30
  {
  }

  /** A cursor 31 above a text area of any usual height counts as an overflow. */
  lemma OverflowExample(ch: char, textHeight: UInt32)
    requires textHeight as int < TWO32 - 1
    ensures Write(ch, -31, textHeight).Overflows()
  {
  }

  // ---------- Lines ----------

  /** The length of the first line with its newline; the whole text when it has none. */
  function FirstLineLength(t: string): (k: nat)
    ensures k <= |t| && (t != "" ==> k > 0)
  {
    if t == "" then 0 else if t[0] == '\n' then 1 else 1 + FirstLineLength(t[1..])
  }

  /** The text without its first line, its newline included. */
  function DropLine(t: string): string {
    t[FirstLineLength(t)..]
  }

  /** The lines of a text; behind a last newline there is none. */
  function LinesOf(t: string): seq<string> {
    Fields(t, '\n')
  }

  /** A newline in front is one more, empty, line. */
  lemma NewlineInFront(t: string)
    requires t != "" && t[0] == '\n'
    ensures LinesOf(t) == [""] + LinesOf(t[1..])
  {
    var rest := SplitOn(t[1..], '\n');
    var pieces := [""] + rest;
    assert SplitOn(t, '\n') == pieces;
    hide SplitOn;
    assert pieces[|pieces| - 1] == rest[|rest| - 1] && pieces[..|pieces| - 1] == [""] + rest[..|rest| - 1];
  }

  /** Any other character in front is part of the first line. */
  lemma CharacterInFront(t: string)
    requires |t| > 1 && t[0] != '\n'
    ensures LinesOf(t[1..]) != [] && LinesOf(t) == Attach([t[0]], LinesOf(t[1..]))
  {
    var rest := SplitOn(t[1..], '\n');
    assert SplitOn(t, '\n') == Attach([t[0]], rest);
    NoEmptyText(t[1..]);
    hide SplitOn;
  }

  /** Only the empty text has the empty piece alone. */
  lemma NoEmptyText(t: string)
    requires t != ""
    ensures SplitOn(t, '\n') != [""]
  {
    JoinSplit(t, '\n');
  }

  /** Dropping a line takes away exactly the first line. */
  lemma {:induction false} DropLineDropsOne(t: string)
    requires t != ""
    ensures LinesOf(t) != [] && LinesOf(DropLine(t)) == LinesOf(t)[1..]
  {
    assert LinesOf("") == [];
    if t[0] == '\n' {
      NewlineInFront(t);
      hide LinesOf;
      assert DropLine(t) == t[1..] && ([""] + LinesOf(t[1..]))[1..] == LinesOf(t[1..]);
    } else if t[1..] == "" {
      assert SplitOn(t, '\n') == Attach([t[0]], [""]);
      assert [t[0]] + "" == [t[0]] && LinesOf(t) == [[t[0]]];
      assert DropLine(t) == "";
    } else {
      CharacterInFront(t);
      hide LinesOf;
      DropLineDropsOne(t[1..]);
      assert DropLine(t) == DropLine(t[1..]);
    }
  }

  /** Two lines, and what is left when the first is dropped. */
  lemma LinesExample()
    ensures LinesOf("ab\ncd") == ["ab", "cd"] && DropLine("ab\ncd") == "cd" && LinesOf("ab\n") == ["ab"]
  {
    SplitFirst("ab", "cd", '\n');
    SplitFirst("ab", "", '\n');
    SplitFirst("cd", "", '\n');
    SplitFirst("", "", '\n');
    assert "ab" + ['\n'] + "cd" == "ab\ncd" && "ab" + ['\n'] + "" == "ab\n";
    hide SplitOn;
    FirstLine();
    assert "ab\ncd"[3..] == "cd";
  }

  lemma FirstLine()
    ensures FirstLineLength("ab\ncd") == 3
  {
    var t := "ab\ncd";
    assert t[1..] == "b\ncd" && t[1..][1..] == "\ncd";
    assert FirstLineLength("\ncd") == 1 && FirstLineLength("b\ncd") == 2;
  }

  /** Where line k starts, found as the console looks for it. */
  function ScanLine(t: string, i: nat, current: nat, k: nat): Option<nat>
    requires i <= |t|
    decreases |t| - i
  {
    if i == |t| then None
    else if current == k then Some(i)
    else ScanLine(t, i + 1, if t[i] == '\n' then current + 1 else current, k)
  }

  lemma {:induction false} ScanFinds(t: string, i: nat, done: seq<string>, under: string, k: nat)
    requires SplitState(t, i, '\n', done, under) && |done| <= k && (|done| == k ==> under == "")
    ensures match ScanLine(t, i, |done|, k)
            case None => k >= |LinesOf(t)|
            case Some(at) => at < |t| && k < |LinesOf(t)| && LinesOf(t[at..]) == LinesOf(t)[k..]
    decreases |t| - i
  {
    if i == |t| {
      SplitEnds(t, '\n', done, under);
    } else if |done| == k {
      AttachNothing(SplitOn(t[i..], '\n'));
      TailLines(t, t[i..], done);
    } else {
      SplitStep(t, i, '\n', done, under);
      hide SplitState, LinesOf;
      if t[i] == '\n' {
        ScanFinds(t, i + 1, done + [under], "", k);
      } else {
        ScanFinds(t, i + 1, done, under + [t[i]], k);
      }
    }
  }

  lemma TailLines(t: string, u: string, done: seq<string>)
    requires u != "" && SplitOn(t, '\n') == done + SplitOn(u, '\n')
    ensures |done| < |LinesOf(t)| && LinesOf(u) == LinesOf(t)[|done|..]
  {
    var pieces := SplitOn(u, '\n');
    var all := done + pieces;
    NoEmptyText(u);
    hide SplitOn;
    assert all[|all| - 1] == pieces[|pieces| - 1] && all[|done|..] == pieces;
    assert all[..|all| - 1] == done + pieces[..|pieces| - 1];
  }

  lemma NoLines(t: string)
    requires |t| == 0
    ensures LinesOf(t) == []
  {
  }

  /** The lines counted when the scan is through. */
  lemma LinesCounted(t: string, done: seq<string>, under: string)
    requires SplitState(t, |t|, '\n', done, under)
    ensures |LinesOf(t)| == |done| + if under == "" then 0 else 1
  {
    SplitEnds(t, '\n', done, under);
  }

  /** The search finds exactly the lines there are, and what it finds is where that line's text begins. */
  lemma LineStartIsFound(t: string, k: nat)
    ensures match ScanLine(t, 0, 0, k)
            case None => k >= |LinesOf(t)|
            case Some(at) => at < |t| && k < |LinesOf(t)| && LinesOf(t[at..]) == LinesOf(t)[k..]
  {
    SplitStarts(t, '\n');
    ScanFinds(t, 0, [], "", k);
  }

  // ---------- Runs ----------

  /** What a write does to the text held. */
  function Next(t: string, capacity: nat, w: Write): (r: string)
    requires |t| <= capacity && capacity > 0
    ensures |r| <= capacity
  {
    var pushed := Push(t, capacity, w.ch);
    if w.Overflows() then DropLine(pushed) else pushed
  }

  /** The text held after a run of writes. */
  function Run(capacity: nat, writes: seq<Write>): (t: string)
    requires capacity > 0
    ensures |t| <= capacity
  {
    if writes == [] then "" else Next(Run(capacity, writes[..|writes| - 1]), capacity, writes[|writes| - 1])
  }

  /** Everything ever written. */
  function Characters(writes: seq<Write>): (t: string)
    ensures |t| == |writes|
  {
    seq(|writes|, k requires 0 <= k < |writes| => writes[k].ch)
  }

  lemma NextIs(t: string, capacity: nat, w: Write)
    requires |t| <= capacity && capacity > 0
    ensures Next(t, capacity, w) == if w.Overflows() then DropLine(Push(t, capacity, w.ch)) else Push(t, capacity, w.ch)
    ensures w.Overflows() <==> ToUInt32(ToUInt32(w.cursorY) + LINE_HEIGHT + BOTTOM_MARGIN) > w.textHeight
  {
  }

  /** A write in plain terms: one more character, without the oldest if there is no room, or its line on an overflow. */
  lemma NextMeans(t: string, capacity: nat, ch: char, cursorY: Int32, textHeight: UInt32)
    requires |t| <= capacity && capacity > 0
    ensures var u := t + [ch];
            var kept := if |u| > capacity then u[1..] else u;
            Next(t, capacity, Write(ch, cursorY, textHeight))
            == if ToUInt32(ToUInt32(cursorY) + 30) > textHeight then DropLine(kept) else kept
    ensures Write(ch, cursorY, textHeight).Overflows() <==> ToUInt32(ToUInt32(cursorY) + 30) > textHeight
  {
    hide DropLine, ToUInt32;
  }

  lemma RunStep(capacity: nat, writes: seq<Write>, w: Write)
    requires capacity > 0
    ensures Run(capacity, writes + [w]) == Next(Run(capacity, writes), capacity, w)
  {
    assert (writes + [w])[..|writes|] == writes;
  }

  /** Whatever the renderer reports, the console holds the newest text, without a gap. */
  lemma {:induction false} RunIsSuffix(capacity: nat, writes: seq<Write>)
    requires capacity > 0
    ensures IsSuffix(Run(capacity, writes), Characters(writes))
  {
    if writes != [] {
      var n := |writes| - 1;
      var before, w := Run(capacity, writes[..n]), writes[n];
      RunIsSuffix(capacity, writes[..n]);
      assert Characters(writes) == Characters(writes[..n]) + [w.ch];
      PushKeepsSuffix(before, capacity, Characters(writes[..n]), w.ch);
      var pushed := Push(before, capacity, w.ch);
      SuffixDrops(pushed, Characters(writes), FirstLineLength(pushed));
    }
  }

  /** While nothing overflows, the console holds as much of the text as it has room for. */
  lemma {:induction false} RunKeepsAllItCan(capacity: nat, writes: seq<Write>)
    requires capacity > 0 && forall w | w in writes :: !w.Overflows()
    ensures |Run(capacity, writes)| == if |writes| < capacity then |writes| else capacity
  {
    if writes != [] {
      RunKeepsAllItCan(capacity, writes[..|writes| - 1]);
    }
  }

  // ---------- The console ----------

  class BootConsole {
    const buffer: array?<char>
    const bufferSize: UInt32
    var bufferHead: UInt32
    var bufferCount: UInt32
    /** Everything written so far. */
    ghost var log: seq<Write>

    /** The fields describe a ring, or the console is silent. */
    ghost predicate Shaped()
      reads this`bufferHead, this`bufferCount
    {
      0 < bufferSize <= TWO31 && bufferHead < bufferSize && bufferCount <= bufferSize
      && if buffer == null then bufferCount == 0 else buffer.Length == bufferSize as int
    }

    /** The text held, oldest character first. */
    ghost function Contents(): (t: string)
      requires Shaped()
      reads this`bufferHead, this`bufferCount, buffer
      ensures |t| == bufferCount as int
    {
      if buffer == null then ""
      else ReadRing(buffer[..], Oldest(bufferHead, bufferCount, bufferSize), bufferCount)
    }

    ghost predicate Valid()
      reads this, buffer
    {
      Shaped() && if buffer == null then log == [] else Contents() == Run(bufferSize, log)
    }

    /** The allocation may fail; the console then stays silent. */
    constructor (storage: array?<char>, bufferSize: UInt32)
      requires 0 < bufferSize <= TWO31 && (storage != null ==> storage.Length == bufferSize as int)
      ensures Valid() && buffer == storage && this.bufferSize == bufferSize && Contents() == ""
    {
      this.buffer, this.bufferSize := storage, bufferSize;
      this.bufferHead, this.bufferCount, this.log := 0, 0, [];
    }

    /** Adds a character; on an overflow gives up one line and returns what the screen then shows. */
    method AddChar(ch: char, cursorY: Int32, textHeight: UInt32) returns (redrawn: Option<string>)
      requires Valid()
      modifies this, buffer
      ensures Valid()
      ensures buffer == null ==> Contents() == old(Contents()) && redrawn == None
      ensures buffer != null ==> log == old(log) + [Write(ch, cursorY, textHeight)]
      ensures buffer != null ==>
                var t := old(Contents()) + [ch];
                var kept := if |t| > bufferSize as int then t[1..] else t;
                if ToUInt32(ToUInt32(cursorY) + 30) > textHeight then
                  Contents() == DropLine(kept) && redrawn == Some(Contents())
                else Contents() == kept && redrawn == None
    {
      assert bufferSize > 0;
      HasRoom();
      if buffer != null {
        NextMeans(Contents(), bufferSize, ch, cursorY, textHeight);
      }
      hide Shaped, Contents, Run, Next;
      redrawn := None;
      if buffer != null {
        RunStep(bufferSize, log, Write(ch, cursorY, textHeight));
        log := log + [Write(ch, cursorY, textHeight)];
        redrawn := Append(ch, cursorY, textHeight);
      }
    }

    lemma HasRoom()
      requires Shaped()
      ensures bufferSize > 0 && |Contents()| <= bufferSize as int && (buffer == null ==> bufferCount == 0)
    {
    }

    /** AddChar once the buffer is known to be there. */
    method Append(ch: char, cursorY: Int32, textHeight: UInt32) returns (redrawn: Option<string>)
      requires Shaped() && buffer != null
      modifies this`bufferHead, this`bufferCount, buffer
      ensures Shaped() && Contents() == Next(old(Contents()), bufferSize, Write(ch, cursorY, textHeight))
      ensures redrawn == if Write(ch, cursorY, textHeight).Overflows() then Some(Contents()) else None
    {
      hide *;
      redrawn := None;
      HasRoom();
      NextIs(Contents(), bufferSize, Write(ch, cursorY, textHeight));
      Store(ch);
      if ToUInt32(ToUInt32(cursorY) + LINE_HEIGHT + BOTTOM_MARGIN) > textHeight {
        var drawn := GiveUpLine();
        redrawn := Some(drawn);
      }
    }

    /** What an overflow does: the oldest line goes, and the rest is drawn again. */
    method GiveUpLine() returns (drawn: string)
      requires Shaped() && buffer != null
      modifies this`bufferCount
      ensures Shaped() && Contents() == DropLine(old(Contents())) == drawn
    {
      hide *;
      DiscardLine();
      drawn := RedrawVisibleLines();
    }

    /** Stores a character at the head of the ring. */
    method Store(ch: char)
      requires Shaped() && buffer != null
      modifies this`bufferHead, this`bufferCount, buffer
      ensures Shaped() && Contents() == Push(old(Contents()), bufferSize, ch)
    {
      WritePushes(buffer[..], bufferHead, bufferCount, ch);
      WrapIsModulo(bufferHead + 1, bufferSize);
      ghost var before, head := buffer[..], bufferHead;
      buffer[bufferHead] := ch;
      assert buffer[..] == before[head := ch];
      bufferHead := (bufferHead + 1) % bufferSize;
      if bufferCount < bufferSize {
        bufferCount := bufferCount + 1;
      }
    }

    /** Gives up the oldest line. */
    method DiscardLine()
      requires Shaped() && buffer != null
      modifies this`bufferCount
      ensures Shaped() && Contents() == DropLine(old(Contents()))
    {
      var bytesSkipped := SkipLine();
      hide FirstLineLength;
      ForgetDrops(buffer[..], bufferHead, bufferCount, bytesSkipped);
      assert bytesSkipped == 0 ==> DropLine(Contents()) == Contents();
      if bytesSkipped > 0 && bytesSkipped <= bufferCount {
        bufferCount := bufferCount - bytesSkipped;
      }
    }

    /** Index of the oldest character; the sum stays within a word. */
    method StartIndex() returns (start: UInt32)
      requires Shaped()
      ensures start == Oldest(bufferHead, bufferCount, bufferSize)
    {
      var sum: UInt32 := bufferHead as int + bufferSize;
      WrapIsModulo(sum - bufferCount, bufferSize);
      start := (sum - bufferCount) % bufferSize;
    }

    /** The i-th character of the text t held. */
    method CharAt(start: UInt32, i: UInt32, ghost t: string) returns (ch: char)
      requires Shaped() && buffer != null && t == Contents()
      requires start == Oldest(bufferHead, bufferCount, bufferSize) && i < bufferCount
      ensures i as int < |t| && ch == t[i]
    {
      var sum: UInt32 := start as int + i;
      WrapIsModulo(sum, bufferSize);
      ch := buffer[sum % bufferSize];
    }

    /** Counts the bytes up to and including the first newline. */
    method SkipLine() returns (bytesSkipped: UInt32)
      requires Shaped() && buffer != null
      ensures bytesSkipped == FirstLineLength(Contents())
    {
      hide Shaped, Contents, Oldest;
      var oldestIdx := StartIndex();
      ghost var t := Contents();
      assert t[0..] == t;
      bytesSkipped := 0;
      var i: UInt32 := 0;
      while i < bufferCount
        invariant i == bytesSkipped <= bufferCount
        invariant FirstLineLength(t) == i + FirstLineLength(t[i..])
      {
        var ch := CharAt(oldestIdx, i, t);
        bytesSkipped := bytesSkipped + 1;
        assert t[i..][1..] == t[i + 1..];
        if ch == '\n' {
          break;
        }
        i := i + 1;
      }
    }

    /** The number of lines held. */
    method CountLines() returns (lineCount: UInt32)
      requires Shaped()
      ensures lineCount as int == |LinesOf(Contents())|
    {
      hide *;
      ghost var t := Contents();
      HasRoom();
      if buffer == null || bufferCount == 0 {
        NoLines(t);
        return 0;
      }
      lineCount := CountNewlines();
      var startIdx := StartIndex();
      var last := CharAt(startIdx, bufferCount - 1, t);
      if last != '\n' {
        lineCount := lineCount + 1;
      }
    }

    /** The newlines held: with the text behind the last one, all the lines. */
    method CountNewlines() returns (lineCount: UInt32)
      requires Shaped() && buffer != null && bufferCount > 0
      ensures var t := Contents();
              |LinesOf(t)| == lineCount as int + if t[|t| - 1] == '\n' then 0 else 1
      ensures Contents()[bufferCount - 1] != '\n' ==> lineCount < bufferCount
    {
      hide *;
      ghost var t := Contents();
      ghost var done: seq<string>, under := [], "";
      var startIdx := StartIndex();
      lineCount := 0;
      SplitStarts(t, '\n');
      var i: UInt32 := 0;
      while i < bufferCount
        invariant i <= bufferCount && lineCount as int == |done| <= i as int
        invariant SplitState(t, i, '\n', done, under)
        invariant under != "" ==> lineCount < i
        invariant i > 0 ==> (under == "" <==> t[i - 1] == '\n')
      {
        SplitStep(t, i, '\n', done, under);
        var ch := CharAt(startIdx, i, t);
        if ch == '\n' {
          lineCount := lineCount + 1;
          done, under := done + [under], "";
        } else {
          under := under + [ch];
        }
        i := i + 1;
      }
      LinesCounted(t, done, under);
    }

    /** Reads the text out for drawing, oldest character first. */
    method RedrawVisibleLines() returns (drawn: string)
      requires Shaped()
      ensures drawn == Contents()
    {
      drawn := "";
      if buffer == null {
        return;
      }
      var startIdx := StartIndex();
      var i: UInt32 := 0;
      while i < bufferCount
        invariant i <= bufferCount && drawn == Contents()[..i]
      {
        var ch := CharAt(startIdx, i, Contents());
        drawn := drawn + [ch];
        i := i + 1;
      }
    }

    /** The ring index where a line starts, and the start of the text when there is no such line. */
    method FindLineStart(lineIndex: UInt32) returns (at: UInt32)
      requires Shaped() && buffer != null
      ensures var start, t := Oldest(bufferHead, bufferCount, bufferSize), Contents();
              match ScanLine(t, 0, 0, lineIndex)
              case None => at == start
              case Some(k) => k < |t| && at == Wrap(start + k, bufferSize)
    {
      var currentLine: UInt32 := 0;
      var startIdx := StartIndex();
      ghost var t := Contents();
      var i: UInt32 := 0;
      while i < bufferCount
        invariant i <= bufferCount && currentLine <= i
        invariant ScanLine(t, 0, 0, lineIndex) == ScanLine(t, i, currentLine, lineIndex)
      {
        if currentLine == lineIndex {
          var sum: UInt32 := startIdx as int + i;
          WrapIsModulo(sum, bufferSize);
          return sum % bufferSize;
        }
        var ch := CharAt(startIdx, i, t);
        if ch == '\n' {
          currentLine := currentLine + 1;
        }
        i := i + 1;
      }
      return startIdx;
    }

    /** After any run, the text held is the newest part of everything written. */
    lemma HoldsNewestText()
      requires Valid() && buffer != null
      ensures IsSuffix(Contents(), Characters(log)) && |Contents()| <= bufferSize as int
    {
      RunIsSuffix(bufferSize, log);
    }
  }
}
