/** Text that ends at a zero, and the two searches in it. */
module CStrings {
  import opened Options

  /** Where the first zero from i on stands, or the end. */
  function FirstZero(s: seq<char>, i: nat): (k: nat)
    requires i <= |s|
    ensures i <= k <= |s| && (k < |s| ==> s[k] == '\0')
    decreases |s| - i
  {
    if i == |s| || s[i] == '\0' then i else FirstZero(s, i + 1)
  }

  lemma {:induction false} FirstZeroIsFirst(s: seq<char>, i: nat)
    requires i <= |s|
    ensures forall j | i <= j < FirstZero(s, i) :: s[j] != '\0'
    decreases |s| - i
  {
    if i < |s| && s[i] != '\0' {
      FirstZeroIsFirst(s, i + 1);
    }
  }

  lemma {:induction false} FirstZeroIs(s: seq<char>, i: nat, k: nat)
    requires i <= k < |s| && s[k] == '\0' && '\0' !in s[i..k]
    ensures FirstZero(s, i) == k
    decreases k - i
  {
    if i < k {
      assert s[i] == s[i..k][0] && s[i..k][1..] == s[i + 1..k];
      FirstZeroIs(s, i + 1, k);
    }
  }

  /** The place of a character in a text of n characters; its terminator counts as the last place. */
  method Strchr(s: seq<char>, c: char) returns (k: Option<nat>)
    requires '\0' !in s
    ensures match k
            case Some(at) => at <= |s| && c !in s[..at] && (if at == |s| then c == '\0' else s[at] == c)
            case None => c != '\0' && c !in s
  {
    var i := 0;
    while i < |s| && s[i] != c
      invariant 0 <= i <= |s| && c !in s[..i]
    {
      i := i + 1;
    }
    if i == |s| && c != '\0' {
      return None;
    }
    return Some(i);
  }

  /** The first place at or behind start where one of the accepted characters stands. */
  function FirstOf(s: seq<char>, start: nat, accept: seq<char>): (k: nat)
    requires start <= |s|
    ensures start <= k <= |s| && (k < |s| ==> s[k] in accept)
    decreases |s| - start
  {
    if start == |s| || s[start] in accept then start else FirstOf(s, start + 1, accept)
  }

  method Strpbrk(s: seq<char>, start: nat, accept: seq<char>) returns (k: Option<nat>)
    requires start <= |s|
    ensures k == if FirstOf(s, start, accept) < |s| then Some(FirstOf(s, start, accept)) else None
    ensures match k
            case Some(at) => start <= at < |s| && s[at] in accept && forall j | start <= j < at :: s[j] !in accept
            case None => forall j | start <= j < |s| :: s[j] !in accept
  {
    var i := start;
    while i < |s|
      invariant start <= i <= |s| && FirstOf(s, start, accept) == FirstOf(s, i, accept)
      invariant forall j | start <= j < i :: s[j] !in accept
    {
      var a := 0;
      while a < |accept|
        invariant 0 <= a <= |accept| && s[i] !in accept[..a]
      {
        if s[i] == accept[a] {
          return Some(i);
        }
        a := a + 1;
      }
      i := i + 1;
    }
    return None;
  }
}
