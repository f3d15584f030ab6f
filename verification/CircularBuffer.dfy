/** The terminal's circular buffer, against the text of an editor that never forgets. */
module CircularBuffers {
  import opened CStrings
  import opened Integers
  import opened Rings

  datatype Edit = Typed(ch: char) | Pasted(text: string) | Erased | Cleared

  lemma KeepLastAppend<T>(s: seq<T>, u: seq<T>, k: nat)
    ensures KeepLast(KeepLast(s, k) + u, k) == KeepLast(s + u, k)
  {
    hide KeepLast;
    KeepLastIs(s, k);
    if |s| > k {
      Regroup(s, |s| - k, u);
      TailOfTail(s[..|s| - k], s[|s| - k..] + u, k);
    }
  }

  lemma KeepLastIs<T>(s: seq<T>, k: nat)
    ensures KeepLast(s, k) == if |s| <= k then s else s[|s| - k..]
  {
  }

  lemma Regroup<T>(s: seq<T>, i: nat, u: seq<T>)
    requires i <= |s|
    ensures s[..i] + (s[i..] + u) == s + u
  {
    assert s == s[..i] + s[i..];
  }

  lemma TailOfTail<T>(a: seq<T>, b: seq<T>, k: nat)
    requires |b| >= k
    ensures KeepLast(a + b, k) == KeepLast(b, k)
  {
    assert (a + b)[|a| + |b| - k..] == b[|b| - k..];
  }

  lemma KeepLastTwice<T>(s: seq<T>, u: seq<T>, j: nat, k: nat)
    requires k <= j
    ensures KeepLast(s + KeepLast(u, j), k) == KeepLast(s + u, k)
  {
    if |u| > j {
      var t := u[|u| - j..];
      assert s + u == (s + u[..|u| - j]) + t;
      TailOfTail(s + u[..|u| - j], t, k);
      TailOfTail(s, t, k);
    }
  }

  /** The text in front of the first zero. */
  function UpToZero(s: string): (r: string)
    ensures r <= s && (|r| < |s| ==> s[|r|] == '\0')
    ensures '\0' !in s ==> r == s
  {
    s[..FirstZero(s, 0)]
  }

  lemma UpToZeroIsFirst(s: string)
    ensures '\0' !in UpToZero(s)
  {
    FirstZeroIsFirst(s, 0);
  }

  lemma OneMore<T>(t: seq<T>, s: seq<T>, i: nat)
    requires i < |s|
    ensures (t + s[..i]) + [s[i]] == t + s[..i + 1]
  {
    assert s[..i + 1] == s[..i] + [s[i]];
  }

  /** What an edit does to a buffer of n cells: one cell always stays free. */
  function Next(t: string, n: nat, e: Edit): (r: string)
    requires n > 0
    ensures |t| < n ==> |r| < n
  {
    match e
    case Typed(ch) => KeepLast(t + [ch], n - 1)
    case Pasted(text) => KeepLast(t + UpToZero(KeepLast(text, n)), n - 1)
    case Erased => if t == "" then "" else t[..|t| - 1]
    case Cleared => ""
  }

  /** What the buffer holds after a run of edits. */
  function Held(n: nat, log: seq<Edit>): (t: string)
    requires n > 0
    ensures |t| < n
  {
    if log == [] then "" else Next(Held(n, log[..|log| - 1]), n, log[|log| - 1])
  }

  /** The editor's step. */
  function Edited(t: string, e: Edit): string {
    match e
    case Typed(ch) => t + [ch]
    case Pasted(text) => t + text
    case Erased => if t == "" then "" else t[..|t| - 1]
    case Cleared => ""
  }

  /** The same run in an editor with room for everything. */
  function History(log: seq<Edit>): string {
    if log == [] then "" else Edited(History(log[..|log| - 1]), log[|log| - 1])
  }

  predicate ZeroFree(log: seq<Edit>) {
    forall e | e in log :: e.Pasted? ==> '\0' !in e.text
  }

  lemma HeldStep(n: nat, log: seq<Edit>, e: Edit)
    requires n > 0
    ensures Held(n, log + [e]) == Next(Held(n, log), n, e)
  {
    assert (log + [e])[..|log|] == log;
  }

  // ---------- All runs ----------

  lemma ZeroFreePrefix(log: seq<Edit>)
    requires log != [] && ZeroFree(log)
    ensures ZeroFree(log[..|log| - 1])
    ensures var e := log[|log| - 1]; e.Pasted? ==> '\0' !in e.text
  {
    assert forall e | e in log[..|log| - 1] :: e in log;
    assert log[|log| - 1] in log;
  }

  lemma NextPastes(t: string, n: nat, u: string)
    requires n > 0 && '\0' !in u
    ensures Next(t, n, Pasted(u)) == KeepLast(t + u, n - 1)
  {
    assert '\0' !in KeepLast(u, n);
    hide UpToZero, KeepLast;
    KeepLastTwice(t, u, n, n - 1);
  }

  lemma SuffixAppends<T>(t: seq<T>, s: seq<T>, u: seq<T>, k: nat)
    requires IsSuffix(t, s)
    ensures IsSuffix(KeepLast(t + u, k), s + u)
  {
    var d := |s| - |t|;
    assert s + u == s[..d] + (t + u);
  }

  lemma StepKeepsSuffix(t: string, s: string, n: nat, e: Edit)
    requires n > 0 && IsSuffix(t, s) && (e.Pasted? ==> '\0' !in e.text)
    ensures IsSuffix(Next(t, n, e), Edited(s, e))
  {
    match e {
      case Typed(ch) =>
        SuffixAppends(t, s, [ch], n - 1);
      case Pasted(u) =>
        NextPastes(t, n, u);
        hide Next;
        SuffixAppends(t, s, u, n - 1);
      case Erased =>
      case Cleared =>
    }
  }

  /** Whatever the run, the buffer holds the newest part of the editor's text. */
  lemma {:induction false} HeldIsSuffix(n: nat, log: seq<Edit>)
    requires n > 0 && ZeroFree(log)
    ensures IsSuffix(Held(n, log), History(log))
  {
    if log != [] {
      var last := |log| - 1;
      ZeroFreePrefix(log);
      HeldIsSuffix(n, log[..last]);
      StepKeepsSuffix(Held(n, log[..last]), History(log[..last]), n, log[last]);
    }
  }

  /** How long the editor's text was after the first j edits. */
  function LengthAfter(log: seq<Edit>, j: nat): nat
    requires j <= |log|
  {
    |History(log[..j])|
  }

  /** From the j-th edit on the text was never shorter than low. */
  predicate LongFrom(log: seq<Edit>, j: nat, low: nat) {
    forall k: nat | j <= k <= |log| :: LengthAfter(log, k) >= low
  }

  /** The text once had the length high, and was never shorter than low from then on. */
  ghost predicate StayedLong(log: seq<Edit>, high: nat, low: nat) {
    exists j: nat :: j <= |log| && LengthAfter(log, j) >= high && LongFrom(log, j, low)
  }

  /**
   * The edits that cost the buffer text which it should show: the editor's text, of length h now, was
   * once longer than both n - 1 and h, and has since then always been longer than the part of it that
   * lies in front of its last n - 1 characters now.
   */
  ghost predicate LostText(n: nat, log: seq<Edit>)
    requires n > 0
  {
    var h := LengthAfter(log, |log|);
    exists j: nat :: j <= |log| && LengthAfter(log, j) > Max(n - 1, h)
                     && forall k: nat | j <= k <= |log| :: LengthAfter(log, k) > Max(0, h - (n - 1))
  }

  lemma LengthOfPrefix(log: seq<Edit>, last: nat, j: nat)
    requires j <= last <= |log|
    ensures LengthAfter(log[..last], j) == LengthAfter(log, j)
  {
    assert log[..last][..j] == log[..j];
  }

  lemma LongFromStep(log: seq<Edit>, j: nat, low: nat)
    requires log != [] && j < |log|
    ensures LongFrom(log, j, low) <==> LongFrom(log[..|log| - 1], j, low) && LengthAfter(log, |log|) >= low
    ensures LengthAfter(log[..|log| - 1], j) == LengthAfter(log, j)
  {
    var last := |log| - 1;
    hide LengthAfter;
    forall k: nat | k <= last
      ensures LengthAfter(log[..last], k) == LengthAfter(log, k)
    {
      LengthOfPrefix(log, last, k);
    }
  }

  /** One edit more: the text stays long if it is not too short now, and was long before or is now. */
  lemma StayedLongStep(log: seq<Edit>, high: nat, low: nat)
    requires log != [] && low <= high
    ensures var h := LengthAfter(log, |log|);
            StayedLong(log, high, low) <==> h >= low && (h >= high || StayedLong(log[..|log| - 1], high, low))
  {
    var last := |log| - 1;
    assert LongFrom(log, |log|, low) <==> LengthAfter(log, |log|) >= low;
    assert forall j: nat | j <= |log| && LongFrom(log, j, low) :: LengthAfter(log, |log|) >= low;
    hide LengthAfter, LongFrom;
    forall j: nat | j <= last
      ensures LongFrom(log, j, low) <==> LongFrom(log[..last], j, low) && LengthAfter(log, |log|) >= low
      ensures LengthAfter(log[..last], j) == LengthAfter(log, j)
    {
      LongFromStep(log, j, low);
    }
  }

  /** Lengths after one edit. */
  lemma LengthStep(t: string, s: string, n: nat, e: Edit)
    requires n > 0 && (e.Pasted? ==> '\0' !in e.text) && |t| < n
    ensures var grown := if e.Typed? then 1 else if e.Pasted? then |e.text| else 0;
            if e.Cleared? then |Next(t, n, e)| == |Edited(s, e)| == 0
            else if e.Erased? then
              |Next(t, n, e)| == Max(|t| - 1, 0) && |Edited(s, e)| == Max(|s| - 1, 0)
            else |Next(t, n, e)| == Min(|t| + grown, n - 1) && |Edited(s, e)| == |s| + grown
  {
    if e.Pasted? {
      NextPastes(t, n, e.text);
    }
  }

  /** How much of the text the buffer has lost, read off the lengths of the text alone. */
  lemma {:induction false} ShortByIff(n: nat, log: seq<Edit>, m: nat)
    requires n > 0 && m > 0 && ZeroFree(log)
    ensures |Held(n, log)| + m <= |History(log)| <==> StayedLong(log, m + n - 1, m)
  {
    hide StayedLong, Next, Edited;
    if log == [] {
      NothingStays(m + n - 1, m);
    } else {
      var last := |log| - 1;
      var t, s := Held(n, log[..last]), History(log[..last]);
      ZeroFreePrefix(log);
      ShortByIff(n, log[..last], m);
      StayedLongStep(log, m + n - 1, m);
      LengthStep(t, s, n, log[last]);
      HeldIsSuffix(n, log[..last]);
      assert log[..|log|] == log;
    }
  }

  lemma NothingStays(high: nat, low: nat)
    requires high > 0
    ensures !StayedLong([], high, low)
  {
  }

  /**
   * The buffer holds the last n - 1 characters of that text exactly when the lengths of the text
   * never went up and down as LostText says; the condition is one on the edits alone.
   */
  lemma HoldsLastIff(n: nat, log: seq<Edit>)
    requires n > 0 && ZeroFree(log)
    ensures Held(n, log) == KeepLast(History(log), n - 1) <==> !LostText(n, log)
  {
    hide Held, History, StayedLong, LostText, LengthAfter, KeepLast, IsSuffix;
    HeldIsSuffix(n, log);
    SuffixIsLast(Held(n, log), History(log), n - 1);
    LengthNow(log);
    var m := Max(0, |History(log)| - (n - 1)) + 1;
    ShortByIff(n, log, m);
    LostTextIs(n, log, m);
  }

  lemma LengthNow(log: seq<Edit>)
    ensures LengthAfter(log, |log|) == |History(log)|
  {
    assert log[..|log|] == log;
  }

  lemma SuffixIsLast<T>(t: seq<T>, s: seq<T>, k: nat)
    requires IsSuffix(t, s) && |t| <= k
    ensures t == KeepLast(s, k) <==> |t| == Min(|s|, k)
  {
  }

  lemma LostTextIs(n: nat, log: seq<Edit>, m: nat)
    requires n > 0 && m == Max(0, LengthAfter(log, |log|) - (n - 1)) + 1
    ensures StayedLong(log, m + n - 1, m) <==> LostText(n, log)
  {
    hide LengthAfter;
    assert m + n - 1 == Max(n - 1, LengthAfter(log, |log|)) + 1;
  }

  lemma StepHoldsLast(t: string, s: string, n: nat, e: Edit)
    requires n > 0 && t == KeepLast(s, n - 1) && e != Erased && (e.Pasted? ==> '\0' !in e.text)
    ensures Next(t, n, e) == KeepLast(Edited(s, e), n - 1)
  {
    match e {
      case Typed(ch) =>
        KeepLastAppend(s, [ch], n - 1);
      case Pasted(u) =>
        NextPastes(t, n, u);
        KeepLastAppend(s, u, n - 1);
      case Cleared =>
    }
  }

  /** Without erasing, it always is. */
  lemma {:induction false} HoldsLastWithoutErasing(n: nat, log: seq<Edit>)
    requires n > 0 && ZeroFree(log) && Erased !in log
    ensures Held(n, log) == KeepLast(History(log), n - 1)
  {
    hide Next, Edited;
    if log != [] {
      var last := |log| - 1;
      ZeroFreePrefix(log);
      assert log[last] in log;
      HoldsLastWithoutErasing(n, log[..last]);
      StepHoldsLast(Held(n, log[..last]), History(log[..last]), n, log[last]);
    }
  }

  /** With erasing it may not be: fill the buffer beyond its room, then erase one character. */
  lemma ErasingLoses(n: nat, text: string)
    requires n > 1 && '\0' !in text && |text| >= n
    ensures LostText(n, [Pasted(text), Erased])
    ensures Held(n, [Pasted(text), Erased]) != KeepLast(History([Pasted(text), Erased]), n - 1)
  {
    var log := [Pasted(text), Erased];
    assert log[..2] == log && log[..2][..1] == log[..1] == [Pasted(text)] && log[..1][..0] == [];
    assert History(log[..1]) == "" + text == text;
    assert LengthAfter(log, 1) == |text| && LengthAfter(log, 2) == |text| - 1;
    hide LengthAfter, History, Held;
    assert LengthAfter(log, 1) > Max(n - 1, LengthAfter(log, |log|));
    HoldsLastIff(n, log);
  }

  /** Typing over what was lost makes it good again: here two characters are given up and one comes back in view. */
  lemma TypingMakesGood(a: char, b: char, c: char)
    requires '\0' !in [a, b]
    ensures var log := [Pasted([a, b]), Erased, Typed(c)];
            !LostText(2, log) && Held(2, log) == KeepLast(History(log), 1) == [c]
  {
    var log := [Pasted([a, b]), Erased, Typed(c)];
    HeldStep(2, [Pasted([a, b]), Erased], Typed(c));
    assert [Pasted([a, b]), Erased] + [Typed(c)] == log;
    HoldsLastIff(2, log);
    assert log[..2] == [Pasted([a, b]), Erased];
  }

  // ---------- The buffer ----------

  class CircularBuffer {
    const backBuffer: array<char>
    const frontBuffer: array<char>
    var start: nat
    var end: nat
    /** Every edit so far. */
    ghost var log: seq<Edit>

    ghost predicate Shaped()
      reads `start, `end
    {
      backBuffer.Length == frontBuffer.Length > 0 && backBuffer != frontBuffer
      && start < backBuffer.Length && end < backBuffer.Length
    }

    ghost function Contents(): (t: string)
      requires Shaped()
      reads `start, `end, backBuffer
      ensures |t| < backBuffer.Length
    {
      ReadRing(backBuffer[..], start, Size())
    }

    ghost predicate Valid()
      reads this, backBuffer
    {
      Shaped() && Contents() == Held(backBuffer.Length, log)
    }

    constructor (capacity: nat)
      requires capacity > 0
      ensures Valid() && log == [] && Contents() == ""
      ensures fresh(backBuffer) && fresh(frontBuffer) && backBuffer.Length == capacity
    {
      backBuffer := new char[capacity](_ => '\0');
      frontBuffer := new char[capacity](_ => '\0');
      start, end, log := 0, 0, [];
    }

    function Capacity(): nat {
      backBuffer.Length
    }

    /** The number of characters held. */
    function Size(): (n: nat)
      requires Shaped()
      reads `start, `end
      ensures n < backBuffer.Length && start == Oldest(end, n, backBuffer.Length)
      ensures start == end <==> n == 0
    {
      if end >= start then end - start else backBuffer.Length - start + end
    }

    method Clear()
      requires Valid()
      modifies this, backBuffer
      ensures Valid() && log == old(log) + [Cleared] && Contents() == ""
    {
      HeldStep(backBuffer.Length, log, Cleared);
      hide Held;
      start, end := 0, 0;
      log := log + [Cleared];
      for i := 0 to backBuffer.Length
        invariant start == 0 && end == 0 && log == old(log) + [Cleared]
      {
        backBuffer[i] := '\0';
      }
      assert Contents() == "";
    }

    /** Stores one character, giving up the oldest when the end meets the start. */
    method Put(ch: char)
      requires Shaped()
      modifies `start, `end, backBuffer
      ensures Shaped() && Contents() == KeepLast(old(Contents()) + [ch], backBuffer.Length - 1)
    {
      ghost var before, head := backBuffer[..], end;
      PutKeepsLast(before, start, end, Size(), ch);
      ghost var count := if Wrap(end + 1, backBuffer.Length) == start then backBuffer.Length - 1 else Size() + 1;
      hide ReadRing, KeepLast, Oldest, Wrap, Contents, Size;
      backBuffer[end] := ch;
      assert backBuffer[..] == before[head := ch];
      end := Advanced(end);
      if end == start {
        start := Advanced(start);
      }
      ContentsAre(count);
    }

    /** The next index, going round. */
    method Advanced(i: nat) returns (next: nat)
      requires i < backBuffer.Length
      ensures next == Wrap(i + 1, backBuffer.Length)
    {
      WrapIsModulo(i + 1, backBuffer.Length);
      next := (i + 1) % backBuffer.Length;
    }

    /** The text read from the ring, when its length is known. */
    lemma ContentsAre(count: nat)
      requires Shaped() && count < backBuffer.Length && start == Oldest(end, count, backBuffer.Length)
      ensures Contents() == ReadRing(backBuffer[..], start, count) && Size() == count
    {
      hide ReadRing;
    }

    method Append(ch: char)
      requires Valid()
      modifies this, backBuffer
      ensures Valid() && log == old(log) + [Typed(ch)]
    {
      HeldStep(backBuffer.Length, log, Typed(ch));
      NextTypes(Held(backBuffer.Length, log), backBuffer.Length, ch);
      hide Held, KeepLast, Contents, Shaped, Next;
      log := log + [Typed(ch)];
      Put(ch);
    }

    /** Appends text up to its first zero; only the last cells' worth of it is looked at. */
    method AppendText(str: string, length: nat)
      requires Valid() && length <= |str|
      modifies this, backBuffer
      ensures Valid() && log == old(log) + [Pasted(str[..length])]
      ensures var n := backBuffer.Length;
              Contents() == KeepLast(old(Contents()) + UpToZero(KeepLast(str[..length], n)), n - 1)
    {
      hide Held, KeepLast, UpToZero, Contents, Shaped, Next;
      ghost var n, text, t := backBuffer.Length, str[..length], Contents();
      HeldStep(n, log, Pasted(text));
      NextPastesKept(t, n, text);
      LastOfPrefix(str, length, n);
      log := log + [Pasted(text)];
      var from, len := 0, length;
      if length > backBuffer.Length {
        from := length - backBuffer.Length;
        len := backBuffer.Length;
      }
      PutAll(str[from..from + len]);
    }

    /** The loop of AppendText. */
    method PutAll(str: string)
      requires Shaped()
      modifies `start, `end, backBuffer
      ensures Shaped() && Contents() == KeepLast(old(Contents()) + UpToZero(str), backBuffer.Length - 1)
    {
      hide *;
      ghost var n, t := backBuffer.Length, Contents();
      NothingAppended(t, str, n - 1);
      var i := 0;
      while i < |str|
        invariant 0 <= i <= |str| && Shaped()
        invariant FirstZero(str, 0) == FirstZero(str, i)
        invariant Contents() == KeepLast(t + str[..i], n - 1)
      {
        if str[i] == '\0' {
          break;
        }
        ZeroStep(str, i);
        KeepLastAppend(t + str[..i], [str[i]], n - 1);
        OneMore(t, str, i);
        Put(str[i]);
        i := i + 1;
      }
      ZeroStep(str, i);
    }

    method Backspace()
      requires Valid()
      modifies this, backBuffer
      ensures Valid() && log == old(log) + [Erased]
    {
      ghost var t := Contents();
      HeldStep(backBuffer.Length, log, Erased);
      assert start == end ==> t == "";
      log := log + [Erased];
      hide Held, Contents, Shaped;
      if start == end {
        return;
      }
      DropNewest();
    }

    /** Steps the end back over the newest character. */
    method DropNewest()
      requires Shaped() && start != end
      modifies `end, backBuffer
      ensures Shaped() && Contents() == old(Contents())[..|old(Contents())| - 1]
    {
      ghost var n, count, before := backBuffer.Length, Size(), backBuffer[..];
      StepBackDrops(before, end, count);
      SpareCell(before, start, count - 1, Wrap(end + n - 1, n), '\0');
      hide ReadRing;
      if end == 0 {
        end := backBuffer.Length - 1;
      } else {
        end := end - 1;
      }
      backBuffer[end] := '\0';
      assert backBuffer[..] == before[end := '\0'];
    }

    /** Copies what is held to the front buffer and ends it with a zero. */
    method Get()
      requires Valid()
      modifies frontBuffer
      ensures Valid() && Size() < frontBuffer.Length
      ensures frontBuffer[..Size()] == Contents() && frontBuffer[Size()] == '\0'
    {
      ghost var n, count, b, t := backBuffer.Length, Size(), backBuffer[..], Contents();
      hide ReadRing, Held;
      var current, index := start, 0;
      while current != end
        invariant 0 <= index <= count && current == Wrap(start + index, n)
        invariant frontBuffer[..index] == t[..index] && backBuffer[..] == b
        decreases count - index
      {
        ReadAt(b, start, count, index);
        assert backBuffer[current] == b[current];
        frontBuffer[index] := backBuffer[current];
        index := index + 1;
        current := Advanced(current);
      }
      frontBuffer[index] := '\0';
    }

    /** After any run without zeros in pasted text, get shows the newest part of the editor's text. */
    lemma ShowsNewestText()
      requires Valid() && ZeroFree(log)
      ensures IsSuffix(Contents(), History(log))
      ensures Contents() == KeepLast(History(log), Capacity() - 1) <==> !LostText(Capacity(), log)
    {
      HeldIsSuffix(backBuffer.Length, log);
      HoldsLastIff(backBuffer.Length, log);
    }
  }

  lemma NextTypes(t: string, n: nat, ch: char)
    requires n > 0
    ensures Next(t, n, Typed(ch)) == KeepLast(t + [ch], n - 1)
  {
  }

  lemma NextPastesKept(t: string, n: nat, text: string)
    requires n > 0
    ensures Next(t, n, Pasted(text)) == KeepLast(t + UpToZero(KeepLast(text, n)), n - 1)
  {
  }

  lemma ZeroStep(s: string, i: nat)
    requires i <= |s| && FirstZero(s, 0) == FirstZero(s, i)
    ensures if i < |s| && s[i] != '\0' then FirstZero(s, i) == FirstZero(s, i + 1) else UpToZero(s) == s[..i]
  {
  }

  lemma NothingAppended(t: string, s: string, k: nat)
    requires |t| <= k
    ensures KeepLast(t + s[..0], k) == t
  {
    assert t + s[..0] == t;
  }

  lemma LastOfPrefix(s: string, length: nat, n: nat)
    requires length <= |s|
    ensures KeepLast(s[..length], n) == if length > n then s[length - n..length] else s[0..length]
  {
  }

  lemma ReadAt(a: seq<char>, start: nat, count: nat, i: nat)
    requires start < |a| && i < count <= |a|
    ensures ReadRing(a, start, count)[i] == a[Wrap(start + i, |a|)]
  {
  }

  /** What storing a character does to the text read from the ring. */
  lemma PutKeepsLast(a: seq<char>, start: nat, end: nat, count: nat, ch: char)
    requires start < |a| && end < |a| && count < |a| && start == Oldest(end, count, |a|)
    requires start == end <==> count == 0
    ensures var n, end' := |a|, Wrap(end + 1, |a|);
            var t := KeepLast(ReadRing(a, start, count) + [ch], n - 1);
            if end' == start then
              t == ReadRing(a[end := ch], Wrap(start + 1, n), n - 1)
              && (n > 1 ==> count == n - 1) && Wrap(start + 1, n) == Oldest(end', n - 1, n)
            else t == ReadRing(a[end := ch], start, count + 1) && start == Oldest(end', count + 1, n)
  {
    hide ReadRing, Wrap, Oldest;
    var n := |a|;
    OldestStays(start, end, count, n);
    WritePushes(a, end, count, ch);
    ForgetDrops(a[end := ch], Wrap(end + 1, n), count + 1, 1);
    assert ReadRing(a[end := ch], start, count + 1) == ReadRing(a, start, count) + [ch];
  }

  /** One more item leaves the oldest where it is, and the ring is full when the head comes round to it. */
  lemma OldestStays(start: nat, end: nat, count: nat, n: nat)
    requires end < n && count < n && start == Oldest(end, count, n)
    ensures var end' := Wrap(end + 1, n);
            start == Oldest(end', count + 1, n) && (end' == start <==> count == n - 1)
            && (end' == start ==> Wrap(start + 1, n) == Oldest(end', n - 1, n))
  {
  }

  /** A cell outside the part read may be overwritten. */
  lemma SpareCell<T>(a: seq<T>, start: nat, count: nat, at: nat, x: T)
    requires start < |a| && count < |a| && at == Wrap(start + count, |a|)
    ensures ReadRing(a[at := x], start, count) == ReadRing(a, start, count)
  {
    forall i | 0 <= i < count
      ensures ReadRing(a[at := x], start, count)[i] == ReadRing(a, start, count)[i]
    {
      assert Wrap(start + i, |a|) != at;
    }
  }
}
