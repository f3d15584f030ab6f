/** strsep: the tokens of strtok, and an empty one when the text does not end in a token. */
module Separators {
  import opened Options
  import opened CStrings
  import opened Tokenizers

  /** A buffer whose delimiters in a range have become zeros. */
  function Blanked(b: seq<char>, from: nat, to: nat, delim: string): (r: seq<char>)
    ensures |r| == |b|
  {
    seq(|b|, j requires 0 <= j < |b| => if from <= j < to && b[j] in delim then '\0' else b[j])
  }

  /** One call: the new state, whose pointer is what *stringp becomes, and the token's place. */
  function SepCall(st: State, delim: string): (State, Option<nat>)
    requires st.Valid()
  {
    match st.last
    case None => (st, None)
    case Some(p) =>
      var t := st.buffer[..FirstZero(st.buffer, p)];
      var start := SkipDelimiters(t, p, delim);
      var end := FirstOf(t, start, delim);
      if end < |t| then (State(Blanked(st.buffer, p, end + 1, delim), Some(end + 1)), Some(start))
      else (State(Blanked(st.buffer, p, |t|, delim), None), Some(start))
  }

  /** Whether the last token is followed by a delimiter, or there is no token at all. */
  predicate OpenEnd(t: string, ss: seq<Span>) {
    ss == [] || ss[|ss| - 1].end < |t|
  }

  /** Where the search goes on once the first k tokens are taken. */
  ghost predicate At(t: string, last: Option<nat>, delim: string, ss: seq<Span>, k: nat) {
    if k <= |ss| && (k == 0 || ss[k - 1].end < |t|) then
      last.Some? && last.value <= |t| && Spans(t, last.value, delim) == ss[k..]
    else last == None
  }

  /** A call in terms of the text that remains. */
  lemma SepCallIs(st: State, t: string, delim: string)
    requires Remains(st, t) && st.Valid() && st.last.Some?
    ensures var i := st.last.value;
            i <= |t| && var start := SkipDelimiters(t, i, delim); var end := FirstOf(t, start, delim);
            SepCall(st, delim)
            == if end < |t| then (State(Blanked(st.buffer, i, end + 1, delim), Some(end + 1)), Some(start))
               else (State(Blanked(st.buffer, i, |t|, delim), None), Some(start))
  {
    hide SkipDelimiters, FirstOf, Blanked, FirstZero;
    RemainsValid(st, t);
    var i, u := st.last.value, st.buffer[..|t|];
    assert u[i..] == st.buffer[i..|t|];
    SameSkip(t, u, i, delim);
    var start := SkipDelimiters(t, i, delim);
    SameFrom(t, u, i, start);
    SameFirstOf(t, u, start, delim);
  }

  /** Blanking up to a place leaves the text behind it. */
  lemma BlankedRemains(st: State, t: string, to: nat, delim: string)
    requires Remains(st, t) && st.last.Some? && st.last.value <= to <= |t|
    ensures Remains(State(Blanked(st.buffer, st.last.value, to, delim), Some(to)), t)
    ensures Remains(State(Blanked(st.buffer, st.last.value, to, delim), None), t)
  {
    var i, b := st.last.value, Blanked(st.buffer, st.last.value, to, delim);
    forall j | to <= j < |t|
      ensures b[j] == t[j]
    {
      assert st.buffer[i..|t|][j - i] == t[i..][j - i];
    }
    assert b[to..|t|] == t[to..];
  }

  /** The tokens of a text, from its first. */
  lemma SpansStep(t: string, i: nat, delim: string)
    requires i <= |t|
    ensures var left, start := Spans(t, i, delim), SkipDelimiters(t, i, delim);
            var end := FirstOf(t, start, delim);
            if start == |t| then left == [] && end == |t|
            else left != [] && left[0] == Span(start, end)
                 && left[1..] == if end < |t| then Spans(t, end + 1, delim) else []
  {
    SpansCons(t, i, delim);
    FirstOfStopsAtEnd(t, SkipDelimiters(t, i, delim), delim);
  }

  /** A call on a text takes its next token, or what is left behind the last delimiter. */
  lemma SepTakesNext(st: State, t: string, delim: string)
    requires Remains(st, t) && st.Valid() && st.last.Some? && st.last.value <= |t|
    ensures var left := Spans(t, st.last.value, delim); var next := SepCall(st, delim);
            Remains(next.0, t) && next.0.Valid()
            && next.1 == Some(if left == [] then |t| else left[0].start)
            && next.0.last == (if left != [] && left[0].end < |t| then Some(left[0].end + 1) else None)
            && (left != [] && left[0].end < |t| ==> Spans(t, left[0].end + 1, delim) == left[1..])
            && (left != [] && left[0].end == |t| ==> left[1..] == [])
  {
    hide *;
    SepCallIs(st, t, delim);
    SpansStep(t, st.last.value, delim);
    var end := FirstOf(t, SkipDelimiters(t, st.last.value, delim), delim);
    BlankedRemains(st, t, if end < |t| then end + 1 else |t|, delim);
    RemainsValid(SepCall(st, delim).0, t);
  }

  lemma FirstOfStopsAtEnd(t: string, start: nat, delim: string)
    requires start <= |t|
    ensures start == |t| ==> FirstOf(t, start, delim) == |t|
  {
  }

  function SepAfter(st: State, delim: string, k: nat): (r: State)
    requires st.Valid()
    ensures r.Valid()
  {
    if k == 0 then st
    else
      var before := SepAfter(st, delim, k - 1);
      SepCallKeepsValid(before, delim);
      SepCall(before, delim).0
  }

  lemma SepCallKeepsValid(st: State, delim: string)
    requires st.Valid()
    ensures SepCall(st, delim).0.Valid()
  {
    var next := SepCall(st, delim).0;
    if next.last.Some? {
      var zero := FirstZero(st.buffer, st.last.value);
      assert next.buffer[zero] == '\0';
      SomeZero(next.buffer, next.last.value, zero);
    }
  }

  lemma {:induction false} RunOfSepCalls(t: string, rest: seq<char>, delim: string, k: nat)
    requires '\0' !in t && Fresh(t, rest).Valid()
    ensures Remains(SepAfter(Fresh(t, rest), delim, k), t)
    ensures At(t, SepAfter(Fresh(t, rest), delim, k).last, delim, Spans(t, 0, delim), k)
  {
    hide Remains, Spans, SepCall, Fresh;
    var ss := Spans(t, 0, delim);
    if k == 0 {
      FreshRemains(t, rest);
      FreshStarts(t, rest);
      assert ss[0..] == ss;
    } else {
      RunOfSepCalls(t, rest, delim, k - 1);
      var st := SepAfter(Fresh(t, rest), delim, k - 1);
      LastTokenEnds(t, delim, k);
      LastTokenEnds(t, delim, k - 1);
      RemainsHere(st, t);
      if st.last.Some? {
        SepTakesNext(st, t, delim);
        if k - 1 < |ss| {
          assert ss[k - 1..][0] == ss[k - 1] && ss[k - 1..][1..] == ss[k..];
        }
      } else {
        SepCallEnds(st, delim);
      }
    }
  }

  lemma FreshStarts(t: string, rest: seq<char>)
    ensures Fresh(t, rest).last == Some(0)
  {
  }

  lemma SepCallEnds(st: State, delim: string)
    requires st.Valid() && st.last == None
    ensures SepCall(st, delim) == (st, None)
  {
  }

  lemma RemainsHere(st: State, t: string)
    requires Remains(st, t)
    ensures st.last.Some? ==> st.last.value <= |t|
  {
  }

  /** Only the last token can reach the end of the text. */
  lemma LastTokenEnds(t: string, delim: string, k: nat)
    ensures var ss := Spans(t, 0, delim); 0 < k <= |ss| ==> ss[k - 1].end <= |t| && (ss[k - 1].end == |t| ==> k == |ss|)
  {
    SpansAreRuns(t, 0, delim);
    SpansInText(t, 0, delim);
    var ss := Spans(t, 0, delim);
    if 0 < k < |ss| {
      assert ss[k] in ss && IsRun(t, delim, ss[k]);
    }
  }

  /**
   * The k-th call returns strtok's k-th token; one more call returns the empty text behind the last
   * delimiter if the text does not end in a token; after that nothing is returned.
   */
  lemma SepCallsReturnTokens(t: string, rest: seq<char>, delim: string, k: nat)
    requires '\0' !in t
    ensures Fresh(t, rest).Valid()
    ensures var ss := Spans(t, 0, delim);
            SepCall(SepAfter(Fresh(t, rest), delim, k), delim).1
            == if k < |ss| then Some(ss[k].start)
               else if k == |ss| && OpenEnd(t, ss) then Some(|t|)
               else None
  {
    FreshRemains(t, rest);
    RunOfSepCalls(t, rest, delim, k);
    LastTokenEnds(t, delim, k);
    var ss, st := Spans(t, 0, delim), SepAfter(Fresh(t, rest), delim, k);
    RemainsHere(st, t);
    hide Remains, Spans, SepCall, SepAfter, Fresh;
    if st.last.Some? {
      SepTakesNext(st, t, delim);
      assert k < |ss| ==> ss[k..][0] == ss[k];
    } else {
      SepCallEnds(st, delim);
    }
  }

  /** Where a run of calls has come to. */
  function Reached(t: string, st: State): nat {
    if st.last.Some? then st.last.value else |t|
  }

  /** The text with every delimiter up to a place turned into a zero, and what follows the text in the buffer. */
  ghost predicate IsCut(b: seq<char>, t: string, rest: seq<char>, delim: string, to: nat) {
    |b| == |t| + 1 + |rest| && to <= |t| && b[|t|..] == ['\0'] + rest
    && forall j | 0 <= j < |t| :: b[j] == if j < to && t[j] in delim then '\0' else t[j]
  }

  lemma BlankedIsCut(b: seq<char>, t: string, rest: seq<char>, delim: string, from: nat, to: nat)
    requires IsCut(b, t, rest, delim, from) && from <= to <= |t|
    ensures IsCut(Blanked(b, from, to, delim), t, rest, delim, to)
  {
    assert Blanked(b, from, to, delim)[|t|..] == b[|t|..];
  }

  lemma FreshIsCut(t: string, rest: seq<char>, delim: string)
    ensures IsCut(Fresh(t, rest).buffer, t, rest, delim, 0)
  {
  }

  lemma ReachedIs(t: string, st: State)
    ensures Reached(t, st) == if st.last.Some? then st.last.value else |t|
  {
  }

  lemma StepIsCut(st: State, t: string, rest: seq<char>, delim: string)
    requires Remains(st, t) && st.Valid() && IsCut(st.buffer, t, rest, delim, Reached(t, st))
    ensures var next := SepCall(st, delim).0; IsCut(next.buffer, t, rest, delim, Reached(t, next))
  {
    hide *;
    ReachedIs(t, st);
    ReachedIs(t, SepCall(st, delim).0);
    if st.last.Some? {
      var i := st.last.value;
      SepCallIs(st, t, delim);
      var end := FirstOf(t, SkipDelimiters(t, i, delim), delim);
      BlankedIsCut(st.buffer, t, rest, delim, i, if end < |t| then end + 1 else |t|);
    } else {
      SepCallEnds(st, delim);
    }
  }

  lemma SepAfterIs(st: State, delim: string, k: nat)
    requires st.Valid()
    ensures SepAfter(st, delim, 0) == st
    ensures SepAfter(st, delim, k).Valid() && SepAfter(st, delim, k + 1) == SepCall(SepAfter(st, delim, k), delim).0
  {
    hide SepCall;
  }

  /** After any number of calls exactly the delimiters passed so far have become zeros; nothing else has changed. */
  lemma {:induction false} SepCallsCut(t: string, rest: seq<char>, delim: string, k: nat)
    requires '\0' !in t && Fresh(t, rest).Valid()
    ensures var st := SepAfter(Fresh(t, rest), delim, k);
            IsCut(st.buffer, t, rest, delim, Reached(t, st))
  {
    hide *;
    if k == 0 {
      SepAfterIs(Fresh(t, rest), delim, 0);
      FreshIsCut(t, rest, delim);
      FreshStarts(t, rest);
      ReachedIs(t, Fresh(t, rest));
    } else {
      SepAfterIs(Fresh(t, rest), delim, k - 1);
      SepCallsCut(t, rest, delim, k - 1);
      RunOfSepCalls(t, rest, delim, k - 1);
      StepIsCut(SepAfter(Fresh(t, rest), delim, k - 1), t, rest, delim);
    }
  }

  /** The function itself; at stands for *stringp before the call and next for it afterwards. */
  method Strsep(text: array<char>, at: Option<nat>, delim: string) returns (next: Option<nat>, token: Option<nat>)
    requires State(text[..], at).Valid()
    modifies text
    ensures (State(text[..], next), token) == SepCall(State(old(text[..]), at), delim)
  {
    next, token := at, None;
    if at == None {
      return;
    }
    ghost var b := text[..];
    var p := at.value;
    var n := Length(text, p);
    ghost var t := b[..n];
    var start := p;
    assert Blanked(b, p, p, delim) == b;
    hide FirstZero, Blanked;
    while true
      invariant p <= start <= n && text[..] == Blanked(b, p, start, delim)
      invariant SkipDelimiters(t, p, delim) == SkipDelimiters(t, start, delim)
      decreases n - start
    {
      SearchIsSame(b, n, p, start, delim);
      var end := Strpbrk(text[..n], start, delim);
      BlankedFurther(b, n, p, start, delim);
      if end == None {
        break;
      }
      text[end.value] := '\0';
      next := Some(end.value + 1);
      if start != end.value {
        return next, Some(start);
      }
      start := end.value + 1;
    }
    next := None;
    token := Some(start);
  }

  /** Blanking in front of start does not change where the next delimiter is. */
  lemma SearchIsSame(b: seq<char>, n: nat, p: nat, start: nat, delim: string)
    requires p <= start <= n <= |b|
    ensures FirstOf(Blanked(b, p, start, delim)[..n], start, delim) == FirstOf(b[..n], start, delim)
  {
    var u := Blanked(b, p, start, delim)[..n];
    assert u[start..] == b[..n][start..];
    SameFirstOf(b[..n], u, start, delim);
  }

  /** What one turn of the loop blanks and skips. */
  lemma BlankedFurther(b: seq<char>, n: nat, p: nat, start: nat, delim: string)
    requires p <= start <= n <= |b|
    ensures var t := b[..n]; var end := FirstOf(t, start, delim);
            (end < n ==> Blanked(b, p, start, delim)[end := '\0'] == Blanked(b, p, end + 1, delim))
            && (end == n ==> Blanked(b, p, start, delim) == Blanked(b, p, n, delim))
            && (SkipDelimiters(t, start, delim)
                == if start < n && end == start then SkipDelimiters(t, start + 1, delim) else start)
  {
    var t := b[..n];
    FirstOfStops(t, start, delim);
    var end := FirstOf(t, start, delim);
    assert forall j | start <= j < end :: b[j] == t[j];
    assert end < n ==> b[end] == t[end];
  }

  /** Where the text that starts at p ends. */
  method Length(text: array<char>, p: nat) returns (n: nat)
    requires p <= text.Length && FirstZero(text[..], p) < text.Length
    ensures n == FirstZero(text[..], p)
  {
    n := p;
    while text[n] != '\0'
      invariant p <= n <= FirstZero(text[..], p) && FirstZero(text[..], n) == FirstZero(text[..], p)
      decreases text.Length - n
    {
      n := n + 1;
    }
  }
}
