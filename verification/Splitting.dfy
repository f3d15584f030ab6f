/** Splitting a sequence at a separator, and joining the pieces again. */
module Splitting {
  lemma SliceOfSlice<T>(s: seq<T>, a: nat, b: nat, c: nat, d: nat)
    requires a <= b <= |s| && c <= d <= b - a
    ensures s[a..b][c..d] == s[a + c..a + d]
  {
    assert forall k | 0 <= k < d - c :: s[a..b][c..d][k] == s[a..b][c + k] == s[a + c + k];
  }

  /** What stands at a position of a sequence, head first. */
  lemma HeadAndRest<T>(s: seq<T>, at: nat, head: seq<T>, rest: seq<T>)
    requires at <= |s| && s[at..] == head + rest
    ensures at + |head| <= |s| && s[at..at + |head|] == head && s[at + |head|..] == rest
  {
    assert s[at..][..|head|] == head;
    assert s[at..][|head|..] == rest;
  }

  /** A part stands in a sequence at a position. */
  ghost predicate Stands<T>(s: seq<T>, at: nat, part: seq<T>) {
    at + |part| <= |s| && s[at..at + |part|] == part
  }

  lemma StandsSplit<T>(s: seq<T>, at: nat, a: seq<T>, b: seq<T>)
    requires Stands(s, at, a + b)
    ensures Stands(s, at, a) && Stands(s, at + |a|, b)
  {
    assert (a + b)[..|a|] == a && (a + b)[|a|..] == b;
  }

  lemma StandsFits<T>(s: seq<T>, at: nat, part: seq<T>)
    requires Stands(s, at, part)
    ensures at + |part| <= |s|
  {
  }

  lemma StandsAt<T>(s: seq<T>, at: nat, part: seq<T>, k: nat)
    requires Stands(s, at, part) && k < |part|
    ensures at + k < |s| && s[at + k] == part[k]
  {
    assert s[at..at + |part|][k] == s[at + k];
  }

  /** Puts items in front of the first piece. */
  function Attach<T>(front: seq<T>, pieces: seq<seq<T>>): (r: seq<seq<T>>)
    requires pieces != []
    ensures |r| == |pieces|
  {
    [front + pieces[0]] + pieces[1..]
  }

  /** The pieces between separators, empty ones included; always one more than there are separators. */
  function SplitOn<T(==)>(s: seq<T>, separator: T): (pieces: seq<seq<T>>)
    ensures pieces != []
  {
    if s == [] then [[]]
    else if s[0] == separator then [[]] + SplitOn(s[1..], separator)
    else Attach([s[0]], SplitOn(s[1..], separator))
  }

  /** The pieces with a separator between each two. */
  function Join<T>(pieces: seq<seq<T>>, separator: T): seq<T>
    requires pieces != []
  {
    if |pieces| == 1 then pieces[0] else pieces[0] + [separator] + Join(pieces[1..], separator)
  }

  function NonEmpty<T(==)>(pieces: seq<seq<T>>): (r: seq<seq<T>>)
    ensures forall p | p in r :: p in pieces && p != []
  {
    if pieces == [] then []
    else (if pieces[0] == [] then [] else [pieces[0]]) + NonEmpty(pieces[1..])
  }

  /** The pieces, without an empty one behind a last separator. */
  function Fields<T(==)>(s: seq<T>, separator: T): (fields: seq<seq<T>>) {
    var pieces := SplitOn(s, separator);
    if pieces[|pieces| - 1] == [] then pieces[..|pieces| - 1] else pieces
  }

  /** Splitting loses nothing: the pieces hold no separator and join to the original. */
  lemma {:induction false} JoinSplit<T>(s: seq<T>, separator: T)
    ensures var pieces := SplitOn(s, separator);
            Join(pieces, separator) == s && forall p | p in pieces :: separator !in p
  {
    if s != [] {
      JoinSplit(s[1..], separator);
      var rest := SplitOn(s[1..], separator);
      if s[0] == separator {
        assert SplitOn(s, separator)[1..] == rest;
      } else {
        assert SplitOn(s, separator)[1..] == rest[1..];
      }
      assert s == [s[0]] + s[1..];
    }
  }

  /** A piece in front of text that is empty or starts with the separator. */
  lemma {:induction false} SplitFirst<T>(piece: seq<T>, rest: seq<T>, separator: T)
    requires separator !in piece
    ensures SplitOn(piece, separator) == [piece]
    ensures SplitOn(piece + [separator] + rest, separator) == [piece] + SplitOn(rest, separator)
  {
    var s := piece + [separator] + rest;
    if piece == [] {
      assert s[1..] == rest;
    } else {
      SplitFirst(piece[1..], rest, separator);
      assert s[1..] == piece[1..] + [separator] + rest;
      assert piece == [piece[0]] + piece[1..];
      assert [piece[0]] + piece[1..] + [] == piece;
      assert ([piece[1..]] + SplitOn(rest, separator))[1..] == SplitOn(rest, separator);
    }
  }

  /** Joining pieces without a separator in them and splitting again gives the pieces. */
  lemma {:induction false} SplitJoin<T>(pieces: seq<seq<T>>, separator: T)
    requires pieces != [] && forall p | p in pieces :: separator !in p
    ensures SplitOn(Join(pieces, separator), separator) == pieces
  {
    if |pieces| == 1 {
      SplitFirst(pieces[0], [], separator);
    } else {
      SplitJoin(pieces[1..], separator);
      SplitFirst(pieces[0], Join(pieces[1..], separator), separator);
    }
  }

  lemma {:induction false} NonEmptyConcat<T>(a: seq<seq<T>>, b: seq<seq<T>>)
    ensures NonEmpty(a + b) == NonEmpty(a) + NonEmpty(b)
  {
    if a == [] {
      assert a + b == b;
    } else {
      assert (a + b)[1..] == a[1..] + b;
      NonEmptyConcat(a[1..], b);
    }
  }

  /** A scan from left to right: the pieces done, the piece under way, and what is still to be split. */
  ghost predicate SplitState<T>(s: seq<T>, i: nat, separator: T, done: seq<seq<T>>, current: seq<T>) {
    i <= |s| && SplitOn(s, separator) == done + Attach(current, SplitOn(s[i..], separator))
  }

  lemma AttachNothing<T>(pieces: seq<seq<T>>)
    requires pieces != []
    ensures Attach([], pieces) == pieces
  {
    assert [] + pieces[0] == pieces[0];
  }

  lemma SplitStarts<T>(s: seq<T>, separator: T)
    ensures SplitState(s, 0, separator, [], [])
  {
    assert s[0..] == s;
    AttachNothing(SplitOn(s, separator));
  }

  /** A separator ends the current piece; anything else extends it. */
  lemma SplitStep<T>(s: seq<T>, i: nat, separator: T, done: seq<seq<T>>, current: seq<T>)
    requires i < |s| && SplitState(s, i, separator, done, current)
    ensures if s[i] == separator then SplitState(s, i + 1, separator, done + [current], [])
            else SplitState(s, i + 1, separator, done, current + [s[i]])
  {
    var rest := SplitOn(s[i + 1..], separator);
    assert s[i..][1..] == s[i + 1..];
    if s[i] == separator {
      assert ([[]] + rest)[1..] == rest;
      assert current + [] == current;
      AttachNothing(rest);
      assert done + ([current] + rest) == (done + [current]) + rest;
    } else {
      assert current + ([s[i]] + rest[0]) == (current + [s[i]]) + rest[0];
    }
  }

  lemma SplitEnds<T>(s: seq<T>, separator: T, done: seq<seq<T>>, current: seq<T>)
    requires SplitState(s, |s|, separator, done, current)
    ensures SplitOn(s, separator) == done + [current]
  {
    assert s[|s|..] == [];
    assert current + [] == current;
    assert Attach(current, [[]]) == [current];
  }
}
