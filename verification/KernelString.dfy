/** The kernel's string class: a vector of characters that ends in a zero. */
module KernelStrings {
  import opened Options
  import opened Splitting
  import opened CStrings
  import opened Strto

  // ---------- Splitting at a delimiter ----------

  /** What split returns. */
  function SplitTokens(t: string, delimiter: char, ignoreEmpty: bool): seq<string> {
    if ignoreEmpty then NonEmpty(SplitOn(t, delimiter)) else Fields(t, delimiter)
  }

  lemma {:induction false} JoinSnoc(pieces: seq<string>, p: string, d: char)
    requires pieces != []
    ensures Join(pieces + [p], d) == Join(pieces, d) + [d] + p
  {
    if |pieces| == 1 {
      assert (pieces + [p])[1..] == [p];
    } else {
      assert (pieces + [p])[1..] == pieces[1..] + [p];
      JoinSnoc(pieces[1..], p, d);
      assert Join(pieces + [p], d) == pieces[0] + [d] + (Join(pieces[1..], d) + [d] + p);
    }
  }

  /** The tokens hold no delimiter, and joined they give the text back, but for one delimiter at its end. */
  lemma TokensRejoin(t: string, d: char)
    requires t != ""
    ensures var tokens := SplitTokens(t, d, false);
            tokens != [] && (forall p | p in tokens :: d !in p)
            && t == Join(tokens, d) + if t[|t| - 1] == d then [d] else []
  {
    var pieces := SplitOn(t, d);
    var n := |pieces| - 1;
    JoinSplit(t, d);
    assert pieces == pieces[..n] + [pieces[n]];
    if n > 0 {
      JoinSnoc(pieces[..n], pieces[n], d);
    }
    hide SplitOn, Join;
    if pieces[n] == "" {
      SinglePiece(pieces, d);
    } else {
      assert n > 0 ==> t[|t| - 1] == pieces[n][|pieces[n]| - 1];
      SinglePiece(pieces, d);
      assert t[|t| - 1] == pieces[n][|pieces[n]| - 1];
      assert pieces[n] in pieces;
      assert Join(pieces, d) + [] == Join(pieces, d);
    }
  }

  lemma NoTokens(d: char, ignoreEmpty: bool)
    ensures SplitTokens("", d, ignoreEmpty) == []
  {
    assert SplitOn("", d) == [""];
    assert NonEmpty([""]) == NonEmpty([]);
  }

  lemma SinglePiece(pieces: seq<string>, d: char)
    requires pieces != []
    ensures |pieces| == 1 ==> Join(pieces, d) == pieces[0]
  {
  }

  lemma {:induction false} NonEmptySame(pieces: seq<string>)
    requires forall p | p in pieces :: p != ""
    ensures NonEmpty(pieces) == pieces
  {
    if pieces != [] {
      assert pieces[0] in pieces && forall p | p in pieces[1..] :: p in pieces;
      NonEmptySame(pieces[1..]);
    }
  }

  /** Leaving out the empty tokens afterwards or at once is the same. */
  lemma IgnoringEmpty(t: string, d: char)
    ensures SplitTokens(t, d, true) == NonEmpty(SplitTokens(t, d, false))
  {
    var pieces := SplitOn(t, d);
    var n := |pieces| - 1;
    if pieces[n] == "" {
      assert pieces == pieces[..n] + [""];
      NonEmptyConcat(pieces[..n], [""]);
      assert [""][1..] == [];
      assert NonEmpty([""]) == [];
    }
  }

  // ---------- Stripping white space ----------

  /** A text without its leading and trailing white space. */
  ghost predicate IsStripped(r: string, s: string) {
    (exists left, right :: s == left + r + right && AllWhite(left) && AllWhite(right))
    && (r != "" ==> !AllWhite(r[..1]) && !AllWhite(r[|r| - 1..]))
  }

  lemma WhiteAround(s: string, start: nat, end: nat)
    requires start <= end <= |s| && (start < end ==> !IsSpace(s[start]) && !IsSpace(s[end - 1]))
    requires forall k | 0 <= k < start || end <= k < |s| :: IsSpace(s[k])
    ensures IsStripped(s[start..end], s)
  {
    hide IsSpace, AllWhite;
    var left, r, right := s[..start], s[start..end], s[end..];
    assert s == left + r + right;
    WhiteIff(left);
    WhiteIff(right);
    if r != "" {
      WhiteIff(r[..1]);
      WhiteIff(r[|r| - 1..]);
    }
  }

  /** Where a stripped text stands: everything around it is white. */
  lemma StrippedStands(r: string, s: string) returns (at: nat)
    requires IsStripped(r, s)
    ensures at + |r| <= |s| && r == s[at..at + |r|]
    ensures forall k | 0 <= k < at || at + |r| <= k < |s| :: IsSpace(s[k])
    ensures r != "" ==> !IsSpace(s[at]) && !IsSpace(s[at + |r| - 1])
  {
    hide IsSpace, AllWhite;
    var left, right :| s == left + r + right && AllWhite(left) && AllWhite(right);
    at := |left|;
    WhiteIff(left);
    WhiteIff(right);
    forall k | 0 <= k < at || at + |r| <= k < |s|
      ensures IsSpace(s[k])
    {
      assert s[k] == if k < at then left[k] else right[k - at - |r|];
    }
    if r != "" {
      WhiteIff(r[..1]);
      WhiteIff(r[|r| - 1..]);
      assert r[..1][0] == r[0] == s[at] && r[|r| - 1..][0] == r[|r| - 1] == s[at + |r| - 1];
    }
  }

  /** There is just one such text. */
  lemma StrippedIsUnique(r: string, u: string, s: string)
    requires IsStripped(r, s) && IsStripped(u, s)
    ensures r == u
  {
    hide *;
    var p := StrippedStands(r, s);
    var q := StrippedStands(u, s);
    assert |r| == |u| && (r != "" ==> p == q);
  }

  // ---------- The class ----------

  /** The first place of a character from start on; none when it does not occur there. */
  predicate IsFirst(t: string, start: nat, ch: char, at: Option<nat>) {
    match at
    case Some(k) => start <= k < |t| && t[k] == ch && ch !in t[start..k]
    case None => start < |t| ==> ch !in t[start..]
  }

  class KernelString {
    var data: seq<char>

    /** The terminator is there. */
    predicate Valid()
      reads this
    {
      data != [] && data[|data| - 1] == '\0'
    }

    function Contents(): string
      requires Valid()
      reads this
    {
      data[..|data| - 1]
    }

    constructor ()
      ensures Valid() && Contents() == ""
    {
      data := ['\0'];
    }

    /** From a range of characters; a zero at its end is taken as the terminator. */
    constructor FromRange(range: seq<char>)
      ensures Valid()
      ensures Contents() == if range != [] && range[|range| - 1] == '\0' then range[..|range| - 1] else range
    {
      data := range;
      new;
      EnsureNullTerminator();
    }

    method EnsureNullTerminator()
      modifies this
      ensures Valid()
      ensures data == if old(data) == [] || old(data)[|old(data)| - 1] != '\0' then old(data) + ['\0'] else old(data)
    {
      if data == [] || data[|data| - 1] != '\0' {
        data := data + ['\0'];
      }
    }

    /** vector::insert: items put in front of a position. */
    method InsertAt(pos: nat, items: seq<char>)
      requires pos <= |data|
      modifies this
      ensures data == old(data[..pos]) + items + old(data[pos..])
    {
      data := data[..pos] + items + data[pos..];
    }

    /** vector::erase: the items from first up to last. */
    method EraseRange(first: nat, last: nat)
      requires first <= last <= |data|
      modifies this
      ensures data == old(data[..first]) + old(data[last..])
    {
      data := data[..first] + data[last..];
    }

    function Size(): (n: nat)
      reads this
      ensures Valid() ==> n == |Contents()|
    {
      if |data| > 0 then |data| - 1 else 0
    }

    predicate Empty()
      reads this
      ensures Valid() && '\0' !in Contents() ==> (Empty() <==> Contents() == "")
    {
      data == [] || data[0] == '\0'
    }

    method PushBack(c: char)
      requires Valid()
      modifies this
      ensures Valid() && Contents() == old(Contents()) + [c]
    {
      InsertAt(|data| - 1, [c]);
      EnsureNullTerminator();
    }

    method AppendString(other: KernelString)
      requires Valid() && other.Valid() && other != this
      modifies this
      ensures Valid() && Contents() == old(Contents()) + other.Contents()
    {
      InsertAt(|data| - 1, other.data[..|other.data| - 1]);
      EnsureNullTerminator();
    }

    /** Appends text that ends at its first zero. */
    method AppendText(text: string)
      requires Valid() && '\0' !in text
      modifies this
      ensures Valid() && Contents() == old(Contents()) + text
    {
      InsertAt(|data| - 1, text);
    }

    method Insert(pos: nat, text: string)
      requires Valid() && '\0' !in text
      modifies this
      ensures Valid()
      ensures var p := if pos > |old(Contents())| then |old(Contents())| else pos;
              Contents() == old(Contents())[..p] + text + old(Contents())[p..]
    {
      var at := pos;
      if at > Size() {
        at := Size();
      }
      InsertAt(at, text);
      EnsureNullTerminator();
    }

    /** Erases len characters from pos on, or all when len is absent or too long. */
    method Erase(pos: nat, len: Option<nat>)
      requires Valid()
      modifies this
      ensures Valid()
      ensures var s := old(Contents());
              Contents() == if pos >= |s| then s
                            else if len == None || pos + len.value > |s| then s[..pos]
                            else s[..pos] + s[pos + len.value..]
    {
      if pos >= Size() {
        return;
      }
      ghost var s := Contents();
      var n := Size() - pos;
      if len != None && pos + len.value <= Size() {
        n := len.value;
      }
      EraseRange(pos, pos + n);
      assert data == s[..pos] + s[pos + n..] + ['\0'];
      EnsureNullTerminator();
    }

    /** Erasing what was inserted gives the text back. */
    method InsertThenErase(pos: nat, text: string)
      requires Valid() && '\0' !in text && pos <= |Contents()|
      modifies this
      ensures Valid() && Contents() == old(Contents())
    {
      Insert(pos, text);
      Erase(pos, Some(|text|));
    }

    /** The first place of a character from start on. */
    method Find(ch: char, start: nat) returns (at: Option<nat>)
      requires Valid()
      ensures IsFirst(Contents(), start, ch, at)
    {
      var i := start;
      while i < Size()
        invariant start <= i && (i > |Contents()| ==> i == start)
        invariant forall k | start <= k < i :: Contents()[k] != ch
      {
        if data[i] == ch {
          return Some(i);
        }
        i := i + 1;
      }
      return None;
    }

    method Strip()
      requires Valid()
      modifies this
      ensures Valid() && IsStripped(Contents(), old(Contents()))
    {
      ghost var s := Contents();
      var start := 0;
      while start < Size() && IsSpace(data[start])
        invariant 0 <= start <= |s| && forall k | 0 <= k < start :: IsSpace(s[k])
      {
        start := start + 1;
      }
      var end := Size();
      while end > start && IsSpace(data[end - 1])
        invariant start <= end <= |s| && forall k | end <= k < |s| :: IsSpace(s[k])
      {
        end := end - 1;
      }
      WhiteAround(s, start, end);
      hide *;
      KeepRange(start, end);
    }

    /** The end of Strip: erases what stands around a range. */
    method KeepRange(start: nat, end: nat)
      requires Valid() && start <= end <= |Contents()|
      modifies this
      ensures Valid() && Contents() == old(Contents())[start..end]
    {
      ghost var kept := Contents()[start..end];
      RangeKept(data, start, end);
      if start > 0 || end < Size() {
        EraseRange(end, |data| - 1);
        EraseRange(0, start);
      }
      EnsureNullTerminator();
      assert Contents() == (kept + ['\0'])[..|kept|];
    }

    /** A token: the characters of a range. */
    method Range(first: nat, last: nat) returns (token: string)
      requires Valid() && first <= last <= |Contents()|
      ensures token == Contents()[first..last] && (last == |Contents()| ==> token == Contents()[first..])
    {
      token := data[first..last];
    }

    /** The tokens between delimiters. */
    method Split(delimiter: char, ignoreEmpty: bool) returns (result: seq<string>)
      requires Valid() && '\0' !in Contents()
      ensures result == SplitTokens(Contents(), delimiter, ignoreEmpty)
    {
      hide *;
      ghost var t, done: seq<string> := Contents(), [];
      KeptNothing(ignoreEmpty);
      SplitStarts(t, delimiter);
      result := [];
      var start := 0;
      var end := Find(delimiter, 0);
      while end != None
        invariant 0 <= start <= |t| && SplitState(t, start, delimiter, done, "")
        invariant result == Kept(done, ignoreEmpty)
        invariant IsFirst(t, start, delimiter, end)
        decreases |t| - start
      {
        SplitField(t, start, end.value, delimiter, done);
        var token := Range(start, end.value);
        KeptSnoc(done, token, ignoreEmpty);
        if token != [] || !ignoreEmpty {
          result := result + [token];
        }
        done := done + [token];
        start := end.value + 1;
        end := Find(delimiter, start);
      }
      SplitLast(t, start, delimiter, done, ignoreEmpty);
      var size := Size();
      if start < size {
        var token := Range(start, size);
        if token != [] || !ignoreEmpty {
          result := result + [token];
        }
      }
    }
  }

  /** What two erasures leave of a terminated vector. */
  lemma RangeKept(data: seq<char>, start: nat, end: nat)
    requires data != [] && data[|data| - 1] == '\0' && start <= end < |data|
    ensures var kept, less := data[..|data| - 1][start..end], data[..end] + data[|data| - 1..];
            start <= |less| && less[..0] + less[start..] == kept + ['\0']
            && (start == 0 && end == |data| - 1 ==> data == kept + ['\0'])
  {
  }

  /** The scan over a token and the delimiter behind it. */
  lemma {:induction false} SplitField(t: string, start: nat, end: nat, d: char, done: seq<string>)
    requires start <= |t| && IsFirst(t, start, d, Some(end)) && SplitState(t, start, d, done, "")
    ensures start <= end < |t| && SplitState(t, end + 1, d, done + [t[start..end]], "")
  {
    assert t[start..start] == "";
    SplitAlong(t, start, start, end, d, done);
    SplitStep(t, end, d, done, t[start..end]);
  }

  lemma {:induction false} SplitAlong(t: string, start: nat, i: nat, end: nat, d: char, done: seq<string>)
    requires start <= i <= end <= |t| && d !in t[start..end] && SplitState(t, i, d, done, t[start..i])
    ensures SplitState(t, end, d, done, t[start..end])
    decreases end - i
  {
    hide SplitState;
    if i < end {
      assert t[i] == t[start..end][i - start];
      SplitStep(t, i, d, done, t[start..i]);
      assert t[start..i] + [t[i]] == t[start..i + 1];
      SplitAlong(t, start, i + 1, end, d, done);
    }
  }

  lemma NonEmptySnoc(done: seq<string>, p: string)
    ensures NonEmpty(done + [p]) == NonEmpty(done) + if p == "" then [] else [p]
  {
    NonEmptyConcat(done, [p]);
    assert [p][1..] == [];
  }

  /** The tokens kept. */
  function Kept(done: seq<string>, ignoreEmpty: bool): seq<string> {
    if ignoreEmpty then NonEmpty(done) else done
  }

  lemma KeptNothing(ignoreEmpty: bool)
    ensures Kept([], ignoreEmpty) == []
  {
  }

  lemma KeptSnoc(done: seq<string>, token: string, ignoreEmpty: bool)
    ensures Kept(done + [token], ignoreEmpty)
            == if token != [] || !ignoreEmpty then Kept(done, ignoreEmpty) + [token] else Kept(done, ignoreEmpty)
  {
    NonEmptySnoc(done, token);
  }

  /** What is left behind the last delimiter. */
  lemma SplitLast(t: string, start: nat, d: char, done: seq<string>, ignoreEmpty: bool)
    requires start <= |t| && IsFirst(t, start, d, None) && SplitState(t, start, d, done, "")
    ensures SplitTokens(t, d, ignoreEmpty)
            == if start < |t| then Kept(done, ignoreEmpty) + [t[start..]] else Kept(done, ignoreEmpty)
  {
    assert t[start..start] == "" && t[start..|t|] == t[start..];
    SplitAlong(t, start, start, |t|, d, done);
    SplitEnds(t, d, done, t[start..]);
    NonEmptySnoc(done, t[start..]);
    hide SplitState, SplitOn, NonEmpty;
    var pieces := done + [t[start..]];
    assert pieces[|pieces| - 1] == t[start..] && pieces[..|pieces| - 1] == done;
  }
}
