/** Reading a ring: a fixed array used as a sequence that wraps around. */
module Rings {
  /** An index that has gone round at most once. */
  function Wrap(x: nat, n: nat): (r: nat)
    requires x < 2 * n
    ensures r < n
  {
    if x < n then x else x - n
  }

  lemma WrapIsModulo(x: nat, n: nat)
    requires x < 2 * n
    ensures x % n == Wrap(x, n)
  {
    if x >= n {
      assert x == 1 * n + (x - n);
      ModuloOf(1, x - n, n);
    } else {
      assert x == 0 * n + x;
      ModuloOf(0, x, n);
    }
  }

  lemma ProductBound(n: nat, d: int)
    ensures d >= 1 ==> n * d >= n
    ensures d <= -1 ==> n * d <= -1 * (n as int)
  {
    if d >= 1 {
      assert n * d == n + n * (d - 1);
    } else if d <= -1 {
      assert n * d == -1 * (n as int) + n * (d + 1);
    }
  }

  lemma ModuloOf(q: nat, r: nat, n: nat)
    requires r < n
    ensures (q * n + r) % n == r
  {
    var x := q * n + r;
    var d := x / n - q;
    assert x == n * (x / n) + x % n;
    assert n * (x / n) == n * d + n * q;
    assert n * d == r - x % n;
    ProductBound(n, d);
  }

  /** The items met from start on, going round. */
  function ReadRing<T>(a: seq<T>, start: nat, count: nat): (r: seq<T>)
    requires count <= |a| && (count > 0 ==> start < |a|)
    ensures |r| == count
  {
    seq(count, i requires 0 <= i < count => a[Wrap(start + i, |a|)])
  }

  /** Where the oldest of count items stands when the next one goes to head. */
  function Oldest(head: nat, count: nat, n: nat): (start: nat)
    requires head < n && count <= n
    ensures start < n
  {
    Wrap(head + n - count, n)
  }

  /** The last k items, or all when there are no more. */
  function KeepLast<T>(s: seq<T>, k: nat): (r: seq<T>)
    ensures |r| == if |s| <= k then |s| else k
  {
    if |s| <= k then s else s[|s| - k..]
  }

  /** A sequence that takes one more item at its end, and gives up its first one when it is full. */
  function Push<T>(s: seq<T>, capacity: nat, x: T): (r: seq<T>)
    ensures |r| <= capacity
  {
    KeepLast(s + [x], capacity)
  }

  /** Writing at the head is pushing. */
  lemma WritePushes<T>(a: seq<T>, head: nat, count: nat, x: T)
    requires head < |a| && count <= |a|
    ensures var n := |a|; var count' := if count < n then count + 1 else count;
            ReadRing(a[head := x], Oldest(Wrap(head + 1, n), count', n), count')
            == Push(ReadRing(a, Oldest(head, count, n), count), n, x)
  {
    var n, count' := |a|, if count < |a| then count + 1 else count;
    var start, start' := Oldest(head, count, n), Oldest(Wrap(head + 1, n), count', n);
    var after, pushed := ReadRing(a[head := x], start', count'), Push(ReadRing(a, start, count), n, x);
    forall i | 0 <= i < count'
      ensures after[i] == pushed[i]
    {
      if i == count' - 1 {
        assert Wrap(start' + i, n) == head;
      } else {
        assert Wrap(start' + i, n) == Wrap(start + (if count < n then i else i + 1), n) != head;
      }
    }
  }

  /** Forgetting the oldest items is dropping a prefix. */
  lemma ForgetDrops<T>(a: seq<T>, head: nat, count: nat, k: nat)
    requires head < |a| && k <= count <= |a|
    ensures ReadRing(a, Oldest(head, count - k, |a|), count - k) == ReadRing(a, Oldest(head, count, |a|), count)[k..]
  {
    var n := |a|;
    var start, start' := Oldest(head, count, n), Oldest(head, count - k, n);
    var after, dropped := ReadRing(a, start', count - k), ReadRing(a, start, count)[k..];
    forall i | 0 <= i < count - k
      ensures after[i] == dropped[i]
    {
      assert Wrap(start' + i, n) == Wrap(start + (k + i), n);
    }
  }

  /** Giving up the newest item by stepping the head back. */
  lemma StepBackDrops<T>(a: seq<T>, head: nat, count: nat)
    requires head < |a| && 1 <= count <= |a|
    ensures var n := |a|;
            ReadRing(a, Oldest(Wrap(head + n - 1, n), count - 1, n), count - 1)
            == ReadRing(a, Oldest(head, count, n), count)[..count - 1]
  {
    var n := |a|;
    assert Oldest(Wrap(head + n - 1, n), count - 1, n) == Oldest(head, count, n);
  }

  predicate IsSuffix<T(==)>(t: seq<T>, s: seq<T>) {
    |t| <= |s| && t == s[|s| - |t|..]
  }

  lemma SuffixDrops<T>(t: seq<T>, s: seq<T>, k: nat)
    requires IsSuffix(t, s) && k <= |t|
    ensures IsSuffix(t[k..], s)
  {
  }

  lemma PushKeepsSuffix<T>(t: seq<T>, capacity: nat, s: seq<T>, x: T)
    requires IsSuffix(t, s) && |t| <= capacity && capacity > 0
    ensures IsSuffix(Push(t, capacity, x), s + [x])
  {
  }
}
