/** strtok: tokens cut out of a text in place, with the place to go on kept between calls. */
module Tokenizers {
  import opened Integers
  import opened Options
  import opened CStrings

  /** A token: the characters from start up to end. */
  datatype Span = Span(start: nat, end: nat)

  function SkipDelimiters(t: string, i: nat, delim: string): (k: nat)
    requires i <= |t|
    ensures i <= k <= |t|
    decreases |t| - i
  {
    if i < |t| && t[i] in delim then SkipDelimiters(t, i + 1, delim) else i
  }

  /** The tokens of a text from i on. */
  function Spans(t: string, i: nat, delim: string): seq<Span>
    requires i <= |t|
    decreases |t| - i
  {
    var start := SkipDelimiters(t, i, delim);
    if start == |t| then []
    else
      var end := FirstOf(t, start, delim);
      [Span(start, end)] + if end < |t| then Spans(t, end + 1, delim) else []
  }

  // ---------- What the tokens are ----------

  /** A longest stretch without a delimiter. */
  ghost predicate IsRun(t: string, delim: string, s: Span) {
    s.start < s.end <= |t|
    && (forall k | s.start <= k < s.end :: t[k] !in delim)
    && (s.start > 0 ==> t[s.start - 1] in delim)
    && (s.end < |t| ==> t[s.end] in delim)
  }

  lemma {:induction false} SkipStops(t: string, i: nat, delim: string)
    requires i <= |t|
    ensures var k := SkipDelimiters(t, i, delim);
            (forall j | i <= j < k :: t[j] in delim) && (k < |t| ==> t[k] !in delim)
    decreases |t| - i
  {
    if i < |t| && t[i] in delim {
      SkipStops(t, i + 1, delim);
    }
  }

  lemma {:induction false} FirstOfStops(t: string, i: nat, delim: string)
    requires i <= |t|
    ensures forall j | i <= j < FirstOf(t, i, delim) :: t[j] !in delim
    decreases |t| - i
  {
    if i < |t| && t[i] !in delim {
      FirstOfStops(t, i + 1, delim);
    }
  }

  /** Runs do not overlap or touch. */
  lemma RunsApart(t: string, delim: string, r: Span, s: Span)
    requires IsRun(t, delim, r) && IsRun(t, delim, s) && r.start <= s.start
    ensures r == s || r.end < s.start
  {
    if s.start > 0 {
      NoDelimiterInside(t, delim, r, s.start - 1);
    }
    if s.end < |t| {
      NoDelimiterInside(t, delim, r, s.end);
    }
    if r.end < |t| {
      NoDelimiterInside(t, delim, s, r.end);
    }
  }

  lemma NoDelimiterInside(t: string, delim: string, r: Span, k: nat)
    requires IsRun(t, delim, r) && k < |t| && t[k] in delim
    ensures k < r.start || r.end <= k
  {
  }

  lemma FirstIsRun(t: string, i: nat, delim: string)
    requires i <= |t| && (i > 0 ==> t[i - 1] in delim)
    ensures var start := SkipDelimiters(t, i, delim);
            start < |t| ==> IsRun(t, delim, Span(start, FirstOf(t, start, delim)))
  {
    var start := SkipDelimiters(t, i, delim);
    SkipStops(t, i, delim);
    FirstOfStops(t, start, delim);
  }

  /** No run starts before the first token, or between it and what follows. */
  lemma RunIsFirstOrLater(t: string, i: nat, delim: string, s: Span)
    requires i <= |t| && (i > 0 ==> t[i - 1] in delim) && IsRun(t, delim, s) && i <= s.start
    ensures var start := SkipDelimiters(t, i, delim);
            start < |t| && (s == Span(start, FirstOf(t, start, delim)) || FirstOf(t, start, delim) < s.start)
  {
    var start := SkipDelimiters(t, i, delim);
    SkipStops(t, i, delim);
    assert t[s.start] !in delim;
    FirstIsRun(t, i, delim);
    RunsApart(t, delim, Span(start, FirstOf(t, start, delim)), s);
  }

  lemma SpansCons(t: string, i: nat, delim: string)
    requires i <= |t|
    ensures var start := SkipDelimiters(t, i, delim);
            Spans(t, i, delim)
            == if start == |t| then []
               else
                 var end := FirstOf(t, start, delim);
                 [Span(start, end)] + if end < |t| then Spans(t, end + 1, delim) else []
  {
  }

  /** What the first run adds to the runs behind it. */
  lemma RunsCons(t: string, i: nat, delim: string, head: Span, rest: seq<Span>)
    requires IsRun(t, delim, head) && i <= head.start
    requires forall s | IsRun(t, delim, s) && i <= s.start :: s == head || head.end < s.start
    requires forall s :: s in rest <==> IsRun(t, delim, s) && head.end < s.start
    requires forall j, k | 0 <= j < k < |rest| :: rest[j].end < rest[k].start
    ensures forall s :: s in [head] + rest <==> IsRun(t, delim, s) && i <= s.start
    ensures var ss := [head] + rest; forall j, k | 0 <= j < k < |ss| :: ss[j].end < ss[k].start
  {
    assert head.start < head.end;
    hide IsRun;
    var ss := [head] + rest;
    forall j, k | 0 <= j < k < |ss|
      ensures ss[j].end < ss[k].start
    {
      assert ss[k] == rest[k - 1] && rest[k - 1] in rest;
    }
  }

  /** The tokens are all the runs, each once, in order. */
  lemma {:induction false} SpansAreRuns(t: string, i: nat, delim: string)
    requires i <= |t| && (i > 0 ==> t[i - 1] in delim)
    ensures forall s :: s in Spans(t, i, delim) <==> IsRun(t, delim, s) && i <= s.start
    ensures var ss := Spans(t, i, delim); forall j, k | 0 <= j < k < |ss| :: ss[j].end < ss[k].start
    decreases |t| - i
  {
    hide SkipDelimiters, FirstOf, Spans, IsRun;
    SpansCons(t, i, delim);
    FirstIsRun(t, i, delim);
    var start := SkipDelimiters(t, i, delim);
    forall s | IsRun(t, delim, s) && i <= s.start
      ensures start < |t| && (s == Span(start, FirstOf(t, start, delim)) || FirstOf(t, start, delim) < s.start < |t|)
    {
      RunIsFirstOrLater(t, i, delim, s);
      RunInText(t, delim, s);
    }
    if start < |t| {
      var end := FirstOf(t, start, delim);
      if end < |t| {
        FirstOfStops(t, start, delim);
        SpansAreRuns(t, end + 1, delim);
        RunsCons(t, i, delim, Span(start, end), Spans(t, end + 1, delim));
      } else {
        RunsCons(t, i, delim, Span(start, end), []);
      }
    }
  }

  lemma RunInText(t: string, delim: string, s: Span)
    requires IsRun(t, delim, s)
    ensures s.start < |t|
  {
  }

  // ---------- One call ----------

  /** The text being cut up and the static pointer into it. */
  datatype State = State(buffer: seq<char>, last: Option<nat>)
  {
    predicate Valid() {
      last.Some? ==> last.value <= |buffer| && FirstZero(buffer, last.value) < |buffer|
    }
  }

  /** A call that goes on from the static pointer: the new state and the token's place. */
  function Call(st: State, delim: string): (r: (State, Option<nat>))
    requires st.Valid()
  {
    match st.last
    case None => (st, None)
    case Some(p) =>
      var t := st.buffer[..FirstZero(st.buffer, p)];
      var start := SkipDelimiters(t, p, delim);
      if start == |t| then (st.(last := None), None)
      else
        var end := FirstOf(t, start, delim);
        if end < |t| then (State(st.buffer[end := '\0'], Some(end + 1)), Some(start))
        else (st.(last := None), Some(start))
  }

  lemma CallKeepsValid(st: State, delim: string)
    requires st.Valid()
    ensures Call(st, delim).0.Valid()
  {
    var next := Call(st, delim).0;
    if next.last.Some? {
      var zero := FirstZero(st.buffer, st.last.value);
      ZeroStays(st.buffer, zero, next.last.value, next.last.value - 1);
    }
  }

  lemma CallIs(st: State, p: nat, delim: string)
    requires st.Valid() && st.last == Some(p)
    ensures var t := st.buffer[..FirstZero(st.buffer, p)];
            var start := SkipDelimiters(t, p, delim);
            Call(st, delim)
            == if start == |t| then (st.(last := None), None)
               else
                 var end := FirstOf(t, start, delim);
                 if end == |t| then (st.(last := None), Some(start))
                 else (State(st.buffer[end := '\0'], Some(end + 1)), Some(start))
  {
  }

  lemma ZeroStays(b: seq<char>, zero: nat, p: nat, at: nat)
    requires at < p <= zero < |b| && b[zero] == '\0'
    ensures FirstZero(b[at := '\0'], p) < |b|
  {
    SomeZero(b[at := '\0'], p, zero);
  }

  lemma {:induction false} SomeZero(b: seq<char>, p: nat, zero: nat)
    requires p <= zero < |b| && b[zero] == '\0'
    ensures FirstZero(b, p) <= zero
    decreases zero - p
  {
    if p < zero && b[p] != '\0' {
      SomeZero(b, p + 1, zero);
    }
  }

  // ---------- Whole runs ----------

  /** The state after k calls that go on from the static pointer. */
  function After(st: State, delim: string, k: nat): (r: State)
    requires st.Valid()
    ensures r.Valid()
  {
    if k == 0 then st
    else
      var before := After(st, delim, k - 1);
      CallKeepsValid(before, delim);
      Call(before, delim).0
  }

  /** What the k-th such call returns, counting from 0. */
  function Result(st: State, delim: string, k: nat): Option<nat>
    requires st.Valid()
  {
    Call(After(st, delim, k), delim).1
  }

  /** A buffer with a zero behind each of some tokens. */
  function Marked(buffer: seq<char>, ss: seq<Span>): (r: seq<char>)
    requires forall s | s in ss :: s.end < |buffer|
    ensures |r| == |buffer|
  {
    if ss == [] then buffer else Marked(buffer, ss[..|ss| - 1])[ss[|ss| - 1].end := '\0']
  }

  /** What is left of a text in a buffer: from the static pointer on, the text as it was, then a zero. */
  ghost predicate Remains(st: State, t: string) {
    |t| < |st.buffer| && st.buffer[|t|] == '\0' && '\0' !in t
    && match st.last
       case None => true
       case Some(i) => i <= |t| && st.buffer[i..|t|] == t[i..]
  }

  /** The tokens still to come. */
  function Left(t: string, last: Option<nat>, delim: string): seq<Span> {
    if last.Some? && last.value <= |t| then Spans(t, last.value, delim) else []
  }

  lemma RemainsValid(st: State, t: string)
    requires Remains(st, t)
    ensures st.Valid() && (st.last.Some? ==> FirstZero(st.buffer, st.last.value) == |t|)
  {
    if st.last.Some? {
      var i := st.last.value;
      assert '\0' !in t[i..];
      FirstZeroIs(st.buffer, i, |t|);
    }
  }

  /** Both walks only look at the text from i on. */
  lemma {:induction false} SameSkip(t: string, u: string, i: nat, delim: string)
    requires |t| == |u| && i <= |t| && u[i..] == t[i..]
    ensures SkipDelimiters(u, i, delim) == SkipDelimiters(t, i, delim)
    decreases |t| - i
  {
    if i < |t| {
      SameFrom(t, u, i, i + 1);
      SameSkip(t, u, i + 1, delim);
    }
  }

  lemma {:induction false} SameFirstOf(t: string, u: string, i: nat, delim: string)
    requires |t| == |u| && i <= |t| && u[i..] == t[i..]
    ensures FirstOf(u, i, delim) == FirstOf(t, i, delim)
    decreases |t| - i
  {
    if i < |t| {
      SameFrom(t, u, i, i + 1);
      SameFirstOf(t, u, i + 1, delim);
    }
  }

  lemma SameFrom(t: string, u: string, i: nat, k: nat)
    requires |t| == |u| && i <= k <= |t| && u[i..] == t[i..]
    ensures u[k..] == t[k..] && forall j | i <= j < |t| :: u[j] == t[j]
  {
    assert forall j | i <= j < |t| :: u[j] == u[i..][j - i];
    assert forall j | i <= j < |t| :: t[j] == t[i..][j - i];
  }

  /** A call on what remains of a text, in terms of that text. */
  lemma CallOnText(st: State, t: string, i: nat, delim: string)
    requires Remains(st, t) && st.Valid() && st.last == Some(i)
    ensures i <= |t|
    ensures var start := SkipDelimiters(t, i, delim);
            Call(st, delim)
            == if start == |t| then (st.(last := None), None)
               else
                 var end := FirstOf(t, start, delim);
                 if end == |t| then (st.(last := None), Some(start))
                 else (State(st.buffer[end := '\0'], Some(end + 1)), Some(start))
  {
    RemainsValid(st, t);
    CallIs(st, i, delim);
    var u := st.buffer[..|t|];
    assert u[i..] == st.buffer[i..|t|];
    hide *;
    SameSkip(t, u, i, delim);
    var start := SkipDelimiters(t, i, delim);
    SameFrom(t, u, i, start);
    SameFirstOf(t, u, start, delim);
  }

  lemma LastRemains(st: State, t: string)
    requires Remains(st, t)
    ensures |t| < |st.buffer| && Remains(st.(last := None), t) && st.buffer[|t| := '\0'] == st.buffer
  {
  }

  lemma CutRemains(st: State, t: string, i: nat, end: nat)
    requires Remains(st, t) && st.last == Some(i) && i <= end < |t|
    ensures Remains(State(st.buffer[end := '\0'], Some(end + 1)), t)
  {
    var b := st.buffer[end := '\0'];
    assert b[end + 1..|t|] == st.buffer[i..|t|][end + 1 - i..];
    assert t[end + 1..] == t[i..][end + 1 - i..];
  }

  lemma LeftIs(t: string, last: Option<nat>, delim: string)
    ensures Left(t, last, delim) == if last.Some? && last.value <= |t| then Spans(t, last.value, delim) else []
  {
  }

  /** A call takes the next token, and puts a zero behind it. */
  lemma CallTakesNext(st: State, t: string, delim: string)
    requires Remains(st, t) && st.Valid()
    ensures var left := Left(t, st.last, delim); var next := Call(st, delim);
            Remains(next.0, t)
            && if left == [] then next == (st.(last := None), None)
               else
                 left[0].end <= |t| && next.0.buffer == st.buffer[left[0].end := '\0'] && next.1 == Some(left[0].start)
                 && Left(t, next.0.last, delim) == left[1..]
  {
    hide *;
    LastRemains(st, t);
    LeftIs(t, st.last, delim);
    LeftIs(t, None, delim);
    if st.last.None? {
      CallNowhere(st, delim);
    } else {
      var i := st.last.value;
      CallOnText(st, t, i, delim);
      SpansCons(t, i, delim);
      var start := SkipDelimiters(t, i, delim);
      if start < |t| {
        var end := FirstOf(t, start, delim);
        if end < |t| {
          CutRemains(st, t, i, end);
          LeftIs(t, Some(end + 1), delim);
        }
      }
    }
  }

  lemma CallNowhere(st: State, delim: string)
    requires st.Valid() && st.last.None?
    ensures Call(st, delim) == (st, None) && st == st.(last := None)
  {
  }

  lemma {:induction false} SpansInText(t: string, i: nat, delim: string)
    requires i <= |t|
    ensures forall s | s in Spans(t, i, delim) :: s.end <= |t|
    decreases |t| - i
  {
    hide SkipDelimiters, FirstOf, Spans;
    SpansCons(t, i, delim);
    var start := SkipDelimiters(t, i, delim);
    if start < |t| && FirstOf(t, start, delim) < |t| {
      SpansInText(t, FirstOf(t, start, delim) + 1, delim);
    }
  }

  /** A terminated text at the front of a buffer, about to be cut up. */
  function Fresh(t: string, rest: seq<char>): State {
    State(t + ['\0'] + rest, Some(0))
  }

  lemma FreshRemains(t: string, rest: seq<char>)
    requires '\0' !in t
    ensures Remains(Fresh(t, rest), t) && Fresh(t, rest).Valid()
  {
    assert Fresh(t, rest).buffer[0..|t|] == t[0..];
    RemainsValid(Fresh(t, rest), t);
  }

  /** After k calls the first k tokens have been returned, with a zero behind each, and the others are still to come. */
  lemma {:induction false} RunOfCalls(t: string, rest: seq<char>, delim: string, k: nat)
    requires '\0' !in t && Fresh(t, rest).Valid()
    ensures var st, ss := After(Fresh(t, rest), delim, k), Spans(t, 0, delim);
            var n := Min(k, |ss|);
            Remains(st, t) && Left(t, st.last, delim) == ss[n..]
            && (forall s | s in ss[..n] :: s.end < |Fresh(t, rest).buffer|)
            && st.buffer == Marked(Fresh(t, rest).buffer, ss[..n])
  {
    hide Remains, Spans, Left, Call;
    var ss, b := Spans(t, 0, delim), Fresh(t, rest).buffer;
    SpansInText(t, 0, delim);
    if k == 0 {
      FreshRemains(t, rest);
      LeftIs(t, Some(0), delim);
      assert ss[..0] == [] && ss[0..] == ss;
    } else {
      var n := Min(k - 1, |ss|);
      RunOfCalls(t, rest, delim, k - 1);
      CallTakesNext(After(Fresh(t, rest), delim, k - 1), t, delim);
      LeftIs(t, None, delim);
      if n < |ss| {
        assert ss[n..][0] == ss[n] && ss[n..][1..] == ss[n + 1..];
        assert ss[..n + 1][..n] == ss[..n] && ss[..n + 1][n] == ss[n];
      }
    }
  }

  /** The k-th call returns the k-th token, and every later call returns nothing. */
  lemma CallsReturnTokens(t: string, rest: seq<char>, delim: string, k: nat)
    requires '\0' !in t
    ensures Fresh(t, rest).Valid()
    ensures var ss := Spans(t, 0, delim);
            Result(Fresh(t, rest), delim, k) == if k < |ss| then Some(ss[k].start) else None
  {
    FreshRemains(t, rest);
    RunOfCalls(t, rest, delim, k);
    hide Remains, Spans, Left, Call, After, Fresh;
    CallTakesNext(After(Fresh(t, rest), delim, k), t, delim);
    var ss := Spans(t, 0, delim);
    assert k < |ss| ==> ss[k..] != [] && ss[k..][0] == ss[k];
  }

  /** The zeros stand behind the tokens, and nothing else in the buffer changes. */
  lemma {:induction false} MarkedOnly(b: seq<char>, ss: seq<Span>, j: nat)
    requires j < |b| && forall s | s in ss :: s.end < |b|
    ensures Marked(b, ss)[j] == if exists s :: s in ss && s.end == j then '\0' else b[j]
  {
    if ss != [] {
      var n := |ss| - 1;
      assert ss == ss[..n] + [ss[n]];
      MarkedOnly(b, ss[..n], j);
      hide Marked;
      assert forall s :: s in ss <==> s in ss[..n] || s == ss[n];
    }
  }

  lemma NoEndInside(t: string, delim: string, ss: seq<Span>, n: nat, k: nat, j: nat)
    requires k < n <= |ss| && ss[k].start <= j < ss[k].end
    requires forall s | s in ss :: IsRun(t, delim, s)
    requires forall i, m | 0 <= i < m < |ss| :: ss[i].end < ss[m].start
    ensures !exists z :: z in ss[..n] && z.end == j
  {
    forall m | 0 <= m < n
      ensures ss[m].end != j
    {
      assert ss[m] in ss && IsRun(t, delim, ss[m]);
    }
  }

  /** The cells of a token that has been returned. */
  lemma TokenCells(t: string, rest: seq<char>, delim: string, k: nat, calls: nat)
    requires '\0' !in t && k < calls && k < |Spans(t, 0, delim)| && Fresh(t, rest).Valid()
    ensures var s, b := Spans(t, 0, delim)[k], After(Fresh(t, rest), delim, calls).buffer;
            s.start <= s.end <= |t| < |b| && b[s.end] == '\0' && forall j | s.start <= j < s.end :: b[j] == t[j]
  {
    hide Remains, After, Marked;
    RunOfCalls(t, rest, delim, calls);
    var ss, b0, b := Spans(t, 0, delim), Fresh(t, rest).buffer, After(Fresh(t, rest), delim, calls).buffer;
    var n, s := Min(calls, |ss|), ss[k];
    SpansAreRuns(t, 0, delim);
    hide Spans;
    assert ss[..n][k] == s && s in ss;
    assert IsRun(t, delim, s);
    MarkedOnly(b0, ss[..n], s.end);
    forall j | s.start <= j < s.end
      ensures b[j] == t[j]
    {
      MarkedOnly(b0, ss[..n], j);
      NoEndInside(t, delim, ss, n, k, j);
    }
  }

  /** A token that has been returned reads as its part of the text, and stays so whatever calls follow. */
  lemma TokenReads(t: string, rest: seq<char>, delim: string, k: nat, calls: nat)
    requires '\0' !in t && k < calls && k < |Spans(t, 0, delim)|
    ensures Fresh(t, rest).Valid()
    ensures var s, b := Spans(t, 0, delim)[k], After(Fresh(t, rest), delim, calls).buffer;
            s.start <= s.end <= |t| < |b| && FirstZero(b, s.start) == s.end && b[s.start..s.end] == t[s.start..s.end]
  {
    hide After, Spans, FirstZero, Fresh;
    FreshRemains(t, rest);
    TokenCells(t, rest, delim, k, calls);
    var s, b := Spans(t, 0, delim)[k], After(Fresh(t, rest), delim, calls).buffer;
    assert '\0' !in b[s.start..s.end];
    FirstZeroIs(b, s.start, s.end);
  }

  // ---------- The function with its static pointer ----------

  class Tokenizer {
    /** The text that is being cut up, and where to go on in it; null when there is nothing to go on with. */
    var text: array?<char>
    var last: nat

    ghost predicate Valid()
      reads this, text
    {
      text != null ==> last <= text.Length && FirstZero(text[..], last) < text.Length
    }

    /** The state as a value; an absent text has no buffer. */
    ghost function Now(): (st: State)
      requires Valid()
      reads this, text
    {
      if text == null then State([], None) else State(text[..], Some(last))
    }

    constructor ()
      ensures Valid() && text == null
    {
      text, last := null, 0;
    }

    /** The next token of s, or of the text of the call before when s is null: the place where it starts. */
    method Strtok(s: array?<char>, delim: string) returns (token: Option<nat>)
      requires '\0' !in delim
      requires if s == null then Valid() else FirstZero(s[..], 0) < s.Length
      modifies this, text, s
      ensures Valid()
      ensures s == null && old(text) == null ==> token == None && text == null
      ensures var target := if s != null then s else old(text);
              target != null ==>
                var st := State(old(target[..]), Some(if s != null then 0 else old(last)));
                st.Valid() && token == Call(st, delim).1 && target[..] == Call(st, delim).0.buffer
                && (text == null || text == target)
                && Now().last == Call(st, delim).0.last
    {
      var target, i := s, 0;
      if s == null {
        target, i := text, last;
      }
      hide Call, FirstZero;
      if target == null {
        return None;
      }
      token := Next(target, i, delim);
    }

    /** Strtok once it is known where to go on. */
    method Next(target: array<char>, from: nat, delim: string) returns (token: Option<nat>)
      requires '\0' !in delim && from <= target.Length && FirstZero(target[..], from) < target.Length
      modifies this, target
      ensures Valid() && (text == null || text == target)
      ensures var st := State(old(target[..]), Some(from));
              st.Valid() && token == Call(st, delim).1
              && target[..] == Call(st, delim).0.buffer && Now().last == Call(st, delim).0.last
    {
      ghost var st := State(target[..], Some(from));
      CallKeepsValid(st, delim);
      ghost var t := target[..FirstZero(target[..], from)];
      FirstZeroIsFirst(target[..], from);
      CallIs(st, from, delim);
      hide FirstZero, Call, SkipDelimiters, FirstOf;
      var i := from;
      i := SkipIn(target, i, delim, t);
      if target[i] == '\0' {
        text := null;
        return None;
      }
      var tokenStart := i;
      i := TokenIn(target, i, delim, t);
      if target[i] != '\0' {
        target[i] := '\0';
        assert target[..] == st.buffer[i := '\0'];
        text, last := target, i + 1;
      } else {
        text := null;
      }
      return Some(tokenStart);
    }

    /** The loop over leading delimiters; t is the text the array holds. */
    static method SkipIn(s: array<char>, from: nat, delim: string, ghost t: string) returns (i: nat)
      requires from <= |t| < s.Length && s[..|t|] == t && s[|t|] == '\0' && '\0' !in delim
      requires forall j | from <= j < |t| :: t[j] != '\0'
      ensures i == SkipDelimiters(t, from, delim)
    {
      i := from;
      while true
        invariant from <= i <= |t| && SkipDelimiters(t, from, delim) == SkipDelimiters(t, i, delim)
        decreases |t| - i
      {
        var ch := s[i];
        if ch == '\0' {
          break;
        }
        assert ch == t[i];
        var k := Strchr(delim, ch);
        if k == None {
          break;
        }
        i := i + 1;
      }
    }

    /** The loop over a token. */
    static method TokenIn(s: array<char>, from: nat, delim: string, ghost t: string) returns (i: nat)
      requires from <= |t| < s.Length && s[..|t|] == t && s[|t|] == '\0' && '\0' !in delim
      requires forall j | from <= j < |t| :: t[j] != '\0'
      ensures i == FirstOf(t, from, delim)
    {
      i := from;
      while true
        invariant from <= i <= |t| && FirstOf(t, from, delim) == FirstOf(t, i, delim)
        decreases |t| - i
      {
        var ch := s[i];
        if ch == '\0' {
          break;
        }
        assert ch == t[i];
        var k := Strchr(delim, ch);
        if k != None {
          break;
        }
        i := i + 1;
      }
    }
  }
}
