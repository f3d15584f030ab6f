/** The tags a Multiboot2 boot loader leaves in memory: section 3.6 of the Multiboot2 Specification. */
module Multiboot2 {
  import opened Words
  import opened Options
  import opened Splitting
  import Integers

  const END := 0
  const ACPI_OLD := 14
  const ACPI_NEW := 15
  const TAG_SIZE := 8

  // ---------- Addresses ----------

  /** Adds 7 in a 32-bit word and clears the low three bits. */
  function AlignUp8(a: UInt32): UInt32 {
    ToUInt32(a + 7) / 8 * 8
  }

  /** The next multiple of 8, unless that lies beyond the address space; then the result is 0. */
  lemma AlignUp8Is(a: UInt32)
    ensures AlignUp8(a) % 8 == 0
    ensures if a <= TWO32 - 8 then a <= AlignUp8(a) < a + 8 else AlignUp8(a) == 0
  {
  }

  lemma AlignUp8IsLeast(a: UInt32, m: nat)
    requires m % 8 == 0 && a <= m
    ensures AlignUp8(a) <= m
  {
    AlignUp8Is(a);
    assert (AlignUp8(a) - m) % 8 == 0;
  }

  /** A little-endian word in memory, which is indexed by address. */
  function WordAt(memory: seq<Byte>, at: nat): UInt32
    requires at + 4 <= |memory|
  {
    (memory[at] as int) + 0x100 * (memory[at + 1] as int) + 0x1_0000 * (memory[at + 2] as int)
    + 0x100_0000 * (memory[at + 3] as int)
  }

  function NextTag(memory: seq<Byte>, tag: UInt32): UInt32
    requires tag as int + 8 <= |memory|
  {
    AlignUp8(ToUInt32(tag as int + WordAt(memory, tag as int + 4)))
  }

  /** From an aligned tag the walk moves on exactly when the tag has a size and ends inside the address space. */
  lemma NextTagAdvancesIff(memory: seq<Byte>, tag: UInt32)
    requires tag as int + 8 <= |memory| && tag % 8 == 0
    ensures var size := WordAt(memory, tag as int + 4);
            NextTag(memory, tag) > tag <==> size > 0 && tag as int + size <= TWO32 - 8
  {
    hide WordAt;
    var end := tag as int + WordAt(memory, tag as int + 4);
    AlignUp8Is(ToUInt32(end));
    if end >= TWO32 {
      AlignUp8IsLeast(ToUInt32(end), tag);
    }
  }

  /** A tag leads nowhere when it is aligned and empty, else onwards or to null when it ends in the address space. */
  lemma TagLeads(memory: seq<Byte>, tag: UInt32)
    requires tag as int + 8 <= |memory|
    ensures var size, next := WordAt(memory, tag as int + 4), NextTag(memory, tag);
            next % 8 == 0
            && (tag % 8 == 0 && size == 0 ==> next == tag)
            && (tag as int + size <= TWO32 && !(tag % 8 == 0 && size == 0) ==> next == 0 || next > tag)
  {
    hide WordAt, AlignUp8;
    AlignUp8Is(ToUInt32(tag as int + WordAt(memory, tag as int + 4)));
    if tag % 8 == 0 {
      AlignUp8IsLeast(tag, tag);
    }
  }

  // ---------- The walks ----------

  /** A walk over tags: the search for a type inside a structure, or the visit of every tag, which looks at no bound. */
  datatype Walk = Search(memory: seq<Byte>, end: UInt32, kind: UInt32) | Visit(memory: seq<Byte>)
  {
    predicate Valid() {
      Search? ==> end as int <= |memory|
    }

    /** Nothing is found here: null, out of bounds, or the end tag. */
    predicate Ends(at: UInt32)
      requires Valid()
    {
      at == 0 || (Search? && at >= end) || at as int + TAG_SIZE > (if Search? then end as int else |memory|)
      || WordAt(memory, at) == END
    }

    predicate StopsAt(at: UInt32)
      requires Valid()
    {
      Ends(at) || (Search? && WordAt(memory, at) == kind)
    }

    function Next(at: UInt32): UInt32 {
      if at as int + TAG_SIZE <= |memory| then NextTag(memory, at) else 0
    }

    lemma GoesOn(at: UInt32)
      requires Valid() && !StopsAt(at)
      ensures at != 0 && at as int + TAG_SIZE <= |memory| && Next(at) == NextTag(memory, at)
    {
      hide WordAt, NextTag;
    }
  }

  /** Where the walk stands after k moves. */
  function Position(w: Walk, at: UInt32, k: nat): UInt32
    decreases k
  {
    if k == 0 then at else Position(w, w.Next(at), k - 1)
  }

  /** The walk stops within a number of moves. */
  predicate Stops(w: Walk, at: UInt32, moves: nat)
    requires w.Valid()
    decreases moves
  {
    w.StopsAt(at) || (moves > 0 && Stops(w, w.Next(at), moves - 1))
  }

  ghost predicate Halts(w: Walk, at: UInt32)
    requires w.Valid()
  {
    exists moves: nat :: Stops(w, at, moves)
  }

  /** Some address is met a second time. */
  ghost predicate ComesRound(w: Walk, at: UInt32)
    requires w.Valid()
  {
    exists i: nat, j: nat :: i < j && !Stops(w, at, j) && Position(w, at, i) == Position(w, at, j)
  }

  /** An aligned tag of size 0 is met. */
  ghost predicate MeetsEmpty(w: Walk, at: UInt32)
    requires w.Valid()
  {
    exists k: nat :: !Stops(w, at, k) && IsEmpty(w, Position(w, at, k))
  }

  /** An aligned tag of size 0. */
  predicate IsEmpty(w: Walk, at: UInt32) {
    at % 8 == 0 && at as int + TAG_SIZE <= |w.memory| && WordAt(w.memory, at as int + 4) == 0
  }

  /** A tag that is passed ends inside the address space. */
  predicate EndsInside(w: Walk, at: UInt32)
    requires w.Valid()
  {
    !w.StopsAt(at) && at as int + TAG_SIZE <= |w.memory| ==> at as int + WordAt(w.memory, at as int + 4) <= TWO32
  }

  /** What a search finds. */
  function FindFrom(w: Walk, at: UInt32, moves: nat): Option<UInt32>
    requires w.Valid() && Stops(w, at, moves)
    decreases moves
  {
    if w.Ends(at) then None else if w.StopsAt(at) then Some(at) else FindFrom(w, w.Next(at), moves - 1)
  }

  /** The tags a visit meets. */
  function VisitFrom(w: Walk, at: UInt32, moves: nat): seq<UInt32>
    requires w.Valid() && Stops(w, at, moves)
    decreases moves
  {
    if w.StopsAt(at) then [] else [at] + VisitFrom(w, w.Next(at), moves - 1)
  }

  /** Where the walk stops. */
  function LastFrom(w: Walk, at: UInt32, moves: nat): UInt32
    requires w.Valid() && Stops(w, at, moves)
    decreases moves
  {
    if w.StopsAt(at) then at else LastFrom(w, w.Next(at), moves - 1)
  }

  /** Enough moves for a walk that stops. */
  ghost function Enough(w: Walk, at: UInt32): (moves: nat)
    requires w.Valid() && Halts(w, at)
    ensures Stops(w, at, moves)
  {
    var moves: nat :| Stops(w, at, moves);
    moves
  }

  /** A walk that does not stop in a number of moves does not in fewer, and none of the addresses met stops it. */
  lemma {:induction false} StopsLater(w: Walk, at: UInt32, moves: nat, more: nat)
    requires w.Valid() && moves <= more && !Stops(w, at, more)
    ensures !Stops(w, at, moves) && !w.StopsAt(Position(w, at, moves))
    decreases moves
  {
    hide Walk.StopsAt, Walk.Next;
    if moves > 0 {
      StopsLater(w, w.Next(at), moves - 1, more - 1);
    }
  }

  lemma {:induction false} PositionsAdd(w: Walk, at: UInt32, j: nat, k: nat)
    ensures Position(w, at, 0) == at && Position(w, at, j + k) == Position(w, Position(w, at, j), k)
    decreases j
  {
    hide Walk.Next;
    if j > 0 {
      PositionsAdd(w, w.Next(at), j - 1, k);
    }
  }

  /** Going on for one more move. */
  lemma {:induction false} StopsNext(w: Walk, at: UInt32, k: nat)
    requires w.Valid()
    ensures Stops(w, at, k + 1) <==> Stops(w, at, k) || w.StopsAt(Position(w, at, k + 1))
    decreases k
  {
    hide Walk.StopsAt, Walk.Next;
    if k > 0 {
      StopsNext(w, w.Next(at), k - 1);
    }
  }

  /** A walk that comes round goes round for ever. */
  lemma {:induction false} NeverStops(w: Walk, at: UInt32, i: nat, j: nat, moves: nat)
    requires w.Valid() && i < j && !Stops(w, at, j) && Position(w, at, i) == Position(w, at, j)
    ensures !Stops(w, at, moves)
    decreases moves
  {
    hide Walk.StopsAt, Walk.Next, Stops, Position;
    if moves <= j {
      StopsLater(w, at, moves, j);
    } else {
      NeverStops(w, at, i, j, moves - 1);
      StopsNext(w, at, moves - 1);
      PositionsAdd(w, at, j, moves - j);
      PositionsAdd(w, at, i, moves - j);
      StopsLater(w, at, i + (moves - j), moves - 1);
    }
  }

  lemma {:induction false} DistinctFit(s: seq<nat>, n: nat)
    requires (forall k | 0 <= k < |s| :: s[k] < n) && forall j, k | 0 <= j < k < |s| :: s[j] != s[k]
    ensures |s| <= n
    decreases n
  {
    if s != [] {
      assert s[0] < n;
      if p: nat :| p < |s| && s[p] == n - 1 {
        var t := s[..p] + s[p + 1..];
        forall k | 0 <= k < |t|
          ensures t[k] < n - 1
        {
          assert t[k] == s[if k < p then k else k + 1];
        }
        forall j, k | 0 <= j < k < |t|
          ensures t[j] != t[k]
        {
          assert t[j] == s[if j < p then j else j + 1] && t[k] == s[if k < p then k else k + 1];
        }
        DistinctFit(t, n - 1);
      } else {
        DistinctFit(s, n - 1);
      }
    }
  }

  /** Whatever the memory, a walk stops exactly when it meets no address twice. */
  lemma HaltsIff(w: Walk, at: UInt32)
    requires w.Valid()
    ensures Halts(w, at) <==> !ComesRound(w, at)
  {
    hide Stops, Position, Walk.Valid;
    if ComesRound(w, at) {
      var i: nat, j: nat :| i < j && !Stops(w, at, j) && Position(w, at, i) == Position(w, at, j);
      forall moves: nat
        ensures !Stops(w, at, moves)
      {
        NeverStops(w, at, i, j, moves);
      }
    } else if !Halts(w, at) {
      MeetsTwice(w, at);
    }
  }

  lemma MeetsTwice(w: Walk, at: UInt32)
    requires w.Valid() && !Halts(w, at)
    ensures ComesRound(w, at)
  {
    hide Position, Walk.Valid;
    var s: seq<nat> := seq(TWO32 + 1, k requires 0 <= k => Position(w, at, k) as nat);
    if forall j, k | 0 <= j < k < |s| :: s[j] != s[k] {
      DistinctFit(s, TWO32);
    }
    var j, k :| 0 <= j < k < |s| && s[j] == s[k];
    assert !Stops(w, at, k);
    hide Stops;
    assert Position(w, at, j) == Position(w, at, k);
  }

  /** Between two visits to an address the walk met an empty tag, or one that goes beyond the address space. */
  lemma {:induction false} RoundNeedsBackward(w: Walk, at: UInt32, i: nat, j: nat)
    requires w.Valid() && i < j && !Stops(w, at, j)
    requires forall k: nat | k < j :: !IsEmpty(w, Position(w, at, k)) && EndsInside(w, Position(w, at, k))
    ensures Position(w, at, i) < Position(w, at, j)
    decreases j
  {
    hide Stops, Position, IsEmpty, EndsInside, Walk.StopsAt, Walk.Next, Walk.Valid;
    var before, after := Position(w, at, j - 1), Position(w, at, j);
    StopsLater(w, at, j, j);
    StopsLater(w, at, j - 1, j);
    NextPosition(w, at, j - 1);
    OneMove(w, before);
    if i < j - 1 {
      RoundNeedsBackward(w, at, i, j - 1);
    }
  }

  lemma NextPosition(w: Walk, at: UInt32, k: nat)
    ensures Position(w, at, k + 1) == w.Next(Position(w, at, k))
  {
    PositionsAdd(w, at, k, 1);
    assert Position(w, Position(w, at, k), 1) == Position(w, w.Next(Position(w, at, k)), 0);
    hide Walk.Next;
  }

  lemma OneMove(w: Walk, at: UInt32)
    requires w.Valid() && !w.StopsAt(at) && !w.StopsAt(w.Next(at)) && !IsEmpty(w, at) && EndsInside(w, at)
    ensures w.Next(at) > at
  {
    w.GoesOn(at);
    w.GoesOn(w.Next(at));
    TagLeads(w.memory, at);
    hide WordAt, NextTag, Walk.StopsAt, Walk.Next;
  }

  /** An aligned tag of size 0 is met again at once. */
  lemma EmptyTagLoops(w: Walk, at: UInt32)
    requires w.Valid() && MeetsEmpty(w, at)
    ensures ComesRound(w, at)
  {
    hide Stops, Position, IsEmpty, Walk.StopsAt, Walk.Next, Walk.Valid;
    var k: nat :| !Stops(w, at, k) && IsEmpty(w, Position(w, at, k));
    var a := Position(w, at, k);
    StopsLater(w, at, k, k);
    EmptyLeadsNowhere(w, a);
    NextPosition(w, at, k);
    StopsNext(w, at, k);
    assert k < k + 1 && Position(w, at, k) == Position(w, at, k + 1);
  }

  lemma EmptyLeadsNowhere(w: Walk, at: UInt32)
    requires w.Valid() && !w.StopsAt(at) && IsEmpty(w, at)
    ensures w.Next(at) == at
  {
    w.GoesOn(at);
    TagLeads(w.memory, at);
    hide WordAt, NextTag, Walk.StopsAt, Walk.Next;
  }

  /**
   * Where no tag goes beyond the address space, a walk stops exactly when it meets no aligned tag of
   * size 0 in front of what it looks for.
   */
  lemma HaltsUnlessEmpty(w: Walk, at: UInt32)
    requires w.Valid() && forall a: UInt32 | a == at || a % 8 == 0 :: EndsInside(w, a)
    ensures Halts(w, at) <==> !MeetsEmpty(w, at)
  {
    HaltsIff(w, at);
    if MeetsEmpty(w, at) {
      EmptyTagLoops(w, at);
    } else if ComesRound(w, at) {
      var i: nat, j: nat :| i < j && !Stops(w, at, j) && Position(w, at, i) == Position(w, at, j);
      hide Stops, Position, IsEmpty, EndsInside, Walk.StopsAt, Walk.Next, Walk.Valid;
      forall k: nat | k < j
        ensures !IsEmpty(w, Position(w, at, k)) && EndsInside(w, Position(w, at, k))
      {
        StopsLater(w, at, k, j);
        if k > 0 {
          MovesAlign(w, at, k, j);
        } else {
          PositionsAdd(w, at, 0, 0);
        }
      }
      RoundNeedsBackward(w, at, i, j);
    }
  }

  /** Every address after the first is a multiple of 8. */
  lemma MovesAlign(w: Walk, at: UInt32, k: nat, more: nat)
    requires w.Valid() && 0 < k <= more && !Stops(w, at, more)
    ensures Position(w, at, k) % 8 == 0
  {
    hide Stops, Walk.StopsAt, Walk.Valid, WordAt, NextTag;
    StopsLater(w, at, k - 1, more);
    var before := Position(w, at, k - 1);
    NextPosition(w, at, k - 1);
    w.GoesOn(before);
    TagLeads(w.memory, before);
  }

  /** The other way to come round: an 8-byte tag, and behind it one that reaches back by 8 around the address space. */
  lemma WrappingTagLoops(w: Walk, at: UInt32)
    requires w.Valid() && at % 8 == 0 && at as int + 16 <= |w.memory| && at as int + 16 <= TWO32
    requires !w.StopsAt(at) && !w.StopsAt(at + 8)
    requires WordAt(w.memory, at as int + 4) == 8 && WordAt(w.memory, at as int + 12) == TWO32 - 8
    ensures ComesRound(w, at)
  {
    hide WordAt, Walk.StopsAt;
    AlignUp8Is(at + 8);
    AlignUp8Is(at);
    AlignUp8IsLeast(at + 8, at + 8);
    AlignUp8IsLeast(at, at);
    hide AlignUp8;
    assert ToUInt32(at as int + 8) == at + 8 && ToUInt32(at as int + 8 + (TWO32 - 8)) == at;
    assert w.Next(at) == at + 8 && w.Next(at + 8) == at;
    hide Walk.Next;
    assert Position(w, at, 2) == Position(w, at + 8, 1) == Position(w, at, 0) == at;
    assert !Stops(w, at, 0) && !Stops(w, at + 8, 1) && !Stops(w, at, 2);
  }

  /** A structure of 32 bytes at address 8 that holds two such tags. */
  const ROUND_EXAMPLE: seq<Byte> :=
    [0, 0, 0, 0, 0, 0, 0, 0] + [32, 0, 0, 0, 0, 0, 0, 0] + [1, 0, 0, 0, 8, 0, 0, 0]
    + [1, 0, 0, 0, 0xF8, 0xFF, 0xFF, 0xFF] + [0, 0, 0, 0, 8, 0, 0, 0]

  /** The search for an ACPI tag in it goes round for ever, though it holds an end tag and no tag of size 0. */
  lemma RoundExample()
    ensures WordAt(ROUND_EXAMPLE, 8) == 32 && |ROUND_EXAMPLE| == 40 && WordAt(ROUND_EXAMPLE, 32) == END
    ensures ComesRound(Search(ROUND_EXAMPLE, 40, ACPI_NEW), 16)
  {
    var w := Search(ROUND_EXAMPLE, 40, ACPI_NEW);
    assert WordAt(ROUND_EXAMPLE, 16) == 1 && WordAt(ROUND_EXAMPLE, 20) == 8;
    assert WordAt(ROUND_EXAMPLE, 24) == 1 && WordAt(ROUND_EXAMPLE, 28) == 0xFFFF_FFF8;
    hide WordAt;
    WrappingTagLoops(w, 16);
  }

  /** A search that finds nothing is a search for any other type that is not met either: it stops as early. */
  lemma {:induction false} StopsForOther(memory: seq<Byte>, end: UInt32, at: UInt32, kind: UInt32, other: UInt32,
                                         moves: nat)
    requires Search(memory, end, kind).Valid() && Stops(Search(memory, end, kind), at, moves)
    requires FindFrom(Search(memory, end, kind), at, moves) == None
    ensures Stops(Search(memory, end, other), at, moves)
    decreases moves
  {
    hide WordAt, NextTag;
    var w := Search(memory, end, kind);
    if !w.Ends(at) {
      StopsForOther(memory, end, w.Next(at), kind, other, moves - 1);
    }
  }

  /** The number of moves allowed does not matter once it is enough. */
  lemma {:induction false} MovesDoNotMatter(w: Walk, at: UInt32, moves: nat, more: nat)
    requires w.Valid() && moves <= more && Stops(w, at, moves)
    ensures Stops(w, at, more) && FindFrom(w, at, moves) == FindFrom(w, at, more)
    ensures VisitFrom(w, at, moves) == VisitFrom(w, at, more) && LastFrom(w, at, moves) == LastFrom(w, at, more)
    decreases moves
  {
    hide WordAt, NextTag, Walk.Next;
    if !w.StopsAt(at) {
      MovesDoNotMatter(w, w.Next(at), moves - 1, more - 1);
    }
  }

  /** A walk that stops in some number of moves, in terms of Enough. */
  lemma HaltsWithin(w: Walk, at: UInt32, moves: nat)
    requires w.Valid() && Stops(w, at, moves)
    ensures Halts(w, at) && !ComesRound(w, at)
    ensures var enough := Enough(w, at);
            FindFrom(w, at, enough) == FindFrom(w, at, moves) && VisitFrom(w, at, enough) == VisitFrom(w, at, moves)
            && LastFrom(w, at, enough) == LastFrom(w, at, moves)
  {
    hide Stops, Walk.Valid, FindFrom, VisitFrom, LastFrom;
    HaltsIff(w, at);
    var enough := Enough(w, at);
    MovesDoNotMatter(w, at, Integers.Min(moves, enough), Integers.Max(moves, enough));
  }

  // ---------- The information structure ----------

  class MultibootInfo {
    /** All of memory, indexed by address. */
    const memory: seq<Byte>
    const addr: UInt32
    const totalSize: UInt32
    const reserved: UInt32

    /** Reads the header; an unusable one leaves total size 0. */
    constructor (memory: seq<Byte>, addr: UInt32)
      requires addr == 0 || addr as int + 8 <= |memory|
      ensures this.memory == memory && this.addr == addr
      ensures addr == 0 ==> totalSize == 0
      ensures addr != 0 ==> totalSize == (if WordAt(memory, addr) < 8 then 0 else WordAt(memory, addr))
      ensures addr != 0 ==> reserved == WordAt(memory, addr as int + 4)
    {
      this.memory, this.addr := memory, addr;
      this.totalSize, this.reserved := 0, 0;
      if addr != 0 {
        this.reserved := WordAt(memory, addr as int + 4);
        if WordAt(memory, addr) >= 8 {
          this.totalSize := WordAt(memory, addr);
        }
      }
    }

    /** The structure lies in memory, and not at its very end. */
    predicate Placed() {
      addr as int + totalSize <= |memory| <= TWO32 && addr as int + totalSize <= TWO32 - TAG_SIZE
    }

    predicate IsValid() {
      addr != 0 && totalSize >= 8
    }

    function GetFirstTag(): Option<UInt32>
      requires Placed()
    {
      if IsValid() then Some(addr + 8) else None
    }

    function SearchFor(kind: UInt32): (w: Walk)
      requires Placed()
      ensures w.Valid()
    {
      Search(memory, addr + totalSize, kind)
    }

    /** The search for a type meets no address twice. */
    ghost predicate Finds(kind: UInt32)
      requires Placed()
    {
      IsValid() ==> !ComesRound(SearchFor(kind), addr + 8)
    }

    ghost function Found(kind: UInt32): Option<UInt32>
      requires Placed() && Finds(kind)
    {
      if IsValid() then
        HaltsIff(SearchFor(kind), addr + 8);
        FindFrom(SearchFor(kind), addr + 8, Enough(SearchFor(kind), addr + 8))
      else None
    }

    /** The visit meets no address twice, and does not leave memory. */
    ghost predicate Visits()
      requires Placed()
    {
      IsValid() ==>
        !ComesRound(Visit(memory), addr + 8)
        && (HaltsIff(Visit(memory), addr + 8);
            var last := LastFrom(Visit(memory), addr + 8, Enough(Visit(memory), addr + 8));
            last == 0 || last as int + TAG_SIZE <= |memory|)
    }

    ghost function Visited(): seq<UInt32>
      requires Placed() && Visits()
    {
      if IsValid() then
        HaltsIff(Visit(memory), addr + 8);
        VisitFrom(Visit(memory), addr + 8, Enough(Visit(memory), addr + 8))
      else []
    }

    /** The tag of a type that the walk meets first, whenever the walk stops at all. */
    method FindTag(kind: UInt32) returns (found: Option<UInt32>)
      requires Placed() && Finds(kind)
      ensures found == Found(kind)
      ensures addr == 0 || totalSize < 8 ==> found == None
    {
      hide WordAt, NextTag, Stops, FindFrom, Enough, ComesRound;
      if !IsValid() {
        return None;
      }
      ghost var w := SearchFor(kind);
      HaltsIff(w, addr + 8);
      var tag: UInt32 := GetFirstTag().value;
      var endAddr: UInt32 := addr + totalSize;
      ghost var left := Enough(w, addr + 8);
      while tag != 0
        invariant Stops(w, tag, left) && FindFrom(w, tag, left) == Found(kind)
        decreases left, tag != 0
      {
        FindStep(w, tag, left);
        if tag >= endAddr || ToUInt32(tag as int + TAG_SIZE) > endAddr {
          return None;
        }
        if WordAt(memory, tag) == END {
          return None;
        }
        if WordAt(memory, tag) == kind {
          return Some(tag);
        }
        tag := NextTag(memory, tag);
        left := left - 1;
      }
      FindStep(w, tag, left);
      return None;
    }

    /** The tags the walk meets, in order, whenever it stops inside memory. */
    method ForEachTag() returns (visited: seq<UInt32>)
      requires Placed() && Visits()
      ensures visited == Visited()
      ensures addr == 0 || totalSize < 8 ==> visited == []
      ensures addr != 0 && totalSize >= 8 && addr as int + 16 <= |memory| && WordAt(memory, addr as int + 8) != 0 ==>
                visited != [] && visited[0] == addr + 8
    {
      hide WordAt, NextTag, Stops, VisitFrom, LastFrom, Enough, ComesRound;
      visited := [];
      if !IsValid() {
        return;
      }
      ghost var w := Visit(memory);
      HaltsIff(w, addr + 8);
      var tag: UInt32 := GetFirstTag().value;
      ghost var left := Enough(w, addr + 8);
      VisitStep(w, tag, left);
      while tag != 0 && WordAt(memory, tag) != END
        invariant Stops(w, tag, left) && visited + VisitFrom(w, tag, left) == Visited()
        invariant LastFrom(w, tag, left) == LastFrom(w, addr + 8, Enough(w, addr + 8))
        invariant tag == 0 || tag as int + TAG_SIZE <= |memory|
        decreases left
      {
        VisitStep(w, tag, left);
        MovedOne(visited, tag, VisitFrom(w, NextTag(memory, tag), left - 1));
        visited := visited + [tag];
        tag := NextTag(memory, tag);
        left := left - 1;
        VisitStep(w, tag, left);
      }
      VisitStep(w, tag, left);
    }

    /** Where the ACPI root pointer is: in the new tag if there is one, else in the old one. */
    method GetACPIRSDP() returns (rsdp: Option<UInt32>)
      requires Placed() && Finds(15)
      ensures Found(15) == None ==> Finds(14)
      ensures match Found(15)
              case Some(tag) => rsdp == Some(ToUInt32(tag as int + 8))
              case None =>
                match Found(14)
                case Some(tag) => rsdp == Some(ToUInt32(tag as int + 8))
                case None => rsdp == None
    {
      hide Stops, FindFrom, Enough, ComesRound, Halts;
      var acpiNew := FindTag(ACPI_NEW);
      if acpiNew != None {
        return Some(ToUInt32(acpiNew.value as int + TAG_SIZE));
      }
      if IsValid() {
        var at := addr + 8;
        HaltsIff(SearchFor(ACPI_NEW), at);
        ghost var moves := Enough(SearchFor(ACPI_NEW), at);
        StopsForOther(memory, addr + totalSize, at, ACPI_NEW, ACPI_OLD, moves);
        HaltsWithin(SearchFor(ACPI_OLD), at, moves);
      }
      var acpiOld := FindTag(ACPI_OLD);
      if acpiOld != None {
        return Some(ToUInt32(acpiOld.value as int + TAG_SIZE));
      }
      return None;
    }
  }

  /** Behind a tag's header; null stays null. */
  function Behind(tag: Option<UInt32>): Option<UInt32> {
    if tag.Some? then Some(ToUInt32(tag.value as int + TAG_SIZE)) else None
  }

  /** One turn of the search. */
  lemma FindStep(w: Walk, at: UInt32, moves: nat)
    requires w.Search? && w.Valid() && Stops(w, at, moves)
    ensures if at == 0 || at >= w.end || at as int + TAG_SIZE > w.end as int || WordAt(w.memory, at) == END then
              FindFrom(w, at, moves) == None
            else if WordAt(w.memory, at) == w.kind then FindFrom(w, at, moves) == Some(at)
            else
              moves > 0 && Stops(w, NextTag(w.memory, at), moves - 1)
              && FindFrom(w, at, moves) == FindFrom(w, NextTag(w.memory, at), moves - 1)
  {
    hide WordAt, NextTag;
  }

  /** One turn of the visit. */
  lemma VisitStep(w: Walk, at: UInt32, moves: nat)
    requires w.Visit? && Stops(w, at, moves)
    ensures if at == 0 || at as int + TAG_SIZE > |w.memory| || WordAt(w.memory, at) == END then
              VisitFrom(w, at, moves) == [] && LastFrom(w, at, moves) == at
            else
              moves > 0 && Stops(w, NextTag(w.memory, at), moves - 1)
              && VisitFrom(w, at, moves) == [at] + VisitFrom(w, NextTag(w.memory, at), moves - 1)
              && LastFrom(w, at, moves) == LastFrom(w, NextTag(w.memory, at), moves - 1)
  {
    hide WordAt, NextTag;
  }

  lemma MovedOne(visited: seq<UInt32>, tag: UInt32, rest: seq<UInt32>)
    ensures (visited + [tag]) + rest == visited + ([tag] + rest)
  {
  }

  // ---------- What a boot loader writes ----------

  function WordBytes(x: UInt32): (b: seq<Byte>)
    ensures |b| == 4
  {
    [x % 0x100, x / 0x100 % 0x100, x / 0x1_0000 % 0x100, x / 0x100_0000]
  }

  /** A tag: its type, its contents behind the header, and padding up to a multiple of 8. */
  datatype Tag = Tag(kind: UInt32, body: seq<Byte>, padding: seq<Byte>)
  {
    predicate Valid() {
      kind != END && |body| < TWO31 && |padding| < 8 && (|body| + |padding|) % 8 == 0
    }

    function Bytes(): (b: seq<Byte>)
      requires Valid()
      ensures |b| == 8 + |body| + |padding|
    {
      WordBytes(kind) + WordBytes(8 + |body|) + body + padding
    }
  }

  predicate AllValid(tags: seq<Tag>) {
    forall t | t in tags :: t.Valid()
  }

  /** The tags, and the end tag behind them. */
  function ListBytes(tags: seq<Tag>): (b: seq<Byte>)
    requires AllValid(tags)
    ensures |b| >= 8
  {
    if tags == [] then WordBytes(END) + WordBytes(8) else tags[0].Bytes() + ListBytes(tags[1..])
  }

  function InfoBytes(tags: seq<Tag>, reserved: UInt32): seq<Byte>
    requires AllValid(tags) && |ListBytes(tags)| + 8 < TWO32
  {
    WordBytes(8 + |ListBytes(tags)|) + WordBytes(reserved) + ListBytes(tags)
  }

  /** Where each tag stands when the first one stands at an address. */
  function Addresses(tags: seq<Tag>, at: nat): (r: seq<nat>)
    requires AllValid(tags)
    ensures |r| == |tags|
  {
    if tags == [] then [] else [at] + Addresses(tags[1..], at + |tags[0].Bytes()|)
  }

  /** The place of the first tag of a type. */
  function FirstOfKind(tags: seq<Tag>, kind: UInt32): (k: Option<nat>)
    ensures match k
            case Some(i) => i < |tags| && tags[i].kind == kind && forall j | 0 <= j < i :: tags[j].kind != kind
            case None => forall t | t in tags :: t.kind != kind
  {
    if tags == [] then None
    else if tags[0].kind == kind then Some(0)
    else
      match FirstOfKind(tags[1..], kind)
      case Some(i) => Some(i + 1)
      case None => None
  }

  // ---------- Reading it back ----------

  lemma BytesOfWord(x: UInt32)
    ensures x == x % 0x100 + 0x100 * (x / 0x100 % 0x100) + 0x1_0000 * (x / 0x1_0000 % 0x100)
                 + 0x100_0000 * (x / 0x100_0000)
  {
  }

  lemma WordIsRead(memory: seq<Byte>, at: nat, x: UInt32)
    requires Stands(memory, at, WordBytes(x))
    ensures at + 4 <= |memory| && WordAt(memory, at) == x
  {
    hide Stands;
    StandsAt(memory, at, WordBytes(x), 0);
    StandsAt(memory, at, WordBytes(x), 1);
    StandsAt(memory, at, WordBytes(x), 2);
    StandsAt(memory, at, WordBytes(x), 3);
    BytesOfWord(x);
  }

  lemma TagIsRead(memory: seq<Byte>, at: nat, t: Tag)
    requires t.Valid() && Stands(memory, at, t.Bytes())
    ensures at + 8 + |t.body| + |t.padding| <= |memory|
    ensures WordAt(memory, at) == t.kind && WordAt(memory, at + 4) == 8 + |t.body| && Stands(memory, at + 8, t.body)
  {
    hide WordAt, WordBytes, Stands;
    StandsFits(memory, at, t.Bytes());
    StandsSplit(memory, at, WordBytes(t.kind) + WordBytes(8 + |t.body|) + t.body, t.padding);
    StandsSplit(memory, at, WordBytes(t.kind) + WordBytes(8 + |t.body|), t.body);
    StandsSplit(memory, at, WordBytes(t.kind), WordBytes(8 + |t.body|));
    WordIsRead(memory, at, t.kind);
    WordIsRead(memory, at + 4, 8 + |t.body|);
  }

  lemma PaddedEnd(a: UInt32, padding: nat)
    requires padding < 8 && (a + padding) % 8 == 0 && a + padding <= TWO32 - 8
    ensures AlignUp8(a) as int == a + padding
  {
    AlignUp8Is(a);
    AlignUp8IsLeast(a, a + padding);
    hide AlignUp8;
  }

  lemma TagFits(at: nat, t: Tag)
    requires t.Valid() && at % 8 == 0
    ensures t.kind != END && |t.padding| < 8 && (at + |t.Bytes()|) % 8 == 0
  {
    MultiplesAdd(8 + at, |t.body| + |t.padding|);
    hide Tag.Bytes;
  }

  lemma MultiplesAdd(a: nat, b: nat)
    requires a % 8 == 0 && b % 8 == 0
    ensures (a + b) % 8 == 0
  {
  }

  lemma TagEnd(memory: seq<Byte>, at: nat, size: nat, padding: nat)
    requires at + 8 <= |memory| && WordAt(memory, at + 4) == 8 + size && at + 8 + size + padding <= TWO32 - 8
    requires AlignUp8(at + 8 + size) as int == at + 8 + size + padding
    ensures NextTag(memory, at) as int == at + 8 + size + padding
  {
    hide WordAt, AlignUp8;
  }

  lemma TagIsSkipped(memory: seq<Byte>, at: nat, t: Tag)
    requires t.Valid() && Stands(memory, at, t.Bytes()) && at % 8 == 0 && at + |t.Bytes()| <= TWO32 - 8
    ensures at + 8 <= |memory| && WordAt(memory, at) == t.kind != END && NextTag(memory, at) as int == at + |t.Bytes()|
  {
    TagFits(at, t);
    hide WordAt, Stands, AlignUp8, Tag.Valid, Tag.Bytes;
    TagIsRead(memory, at, t);
    PaddedEnd(at + 8 + |t.body|, |t.padding|);
    TagEnd(memory, at, |t.body|, |t.padding|);
  }

  lemma ListSplit(memory: seq<Byte>, at: nat, tags: seq<Tag>)
    requires tags != [] && AllValid(tags) && Stands(memory, at, ListBytes(tags))
    ensures tags[0].Valid() && AllValid(tags[1..]) && |ListBytes(tags)| == |tags[0].Bytes()| + |ListBytes(tags[1..])|
    ensures Stands(memory, at, tags[0].Bytes()) && Stands(memory, at + |tags[0].Bytes()|, ListBytes(tags[1..]))
  {
    hide Stands, Tag.Bytes, Tag.Valid;
    StandsSplit(memory, at, tags[0].Bytes(), ListBytes(tags[1..]));
  }

  lemma EndIsRead(memory: seq<Byte>, at: nat, tags: seq<Tag>)
    requires tags == [] && Stands(memory, at, ListBytes(tags))
    ensures at + 8 <= |memory| && WordAt(memory, at) == END && |ListBytes(tags)| == 8
  {
    hide Stands, WordAt;
    StandsFits(memory, at, ListBytes(tags));
    StandsSplit(memory, at, WordBytes(END), WordBytes(8));
    WordIsRead(memory, at, END);
  }

  lemma WalkStep(memory: seq<Byte>, end: UInt32, kind: UInt32, at: UInt32, moves: nat)
    requires end as int <= |memory| && at != 0 && at as int + TAG_SIZE <= end as int && WordAt(memory, at) != END
    requires Stops(Search(memory, end, kind), NextTag(memory, at), moves)
    ensures var w := Search(memory, end, kind);
            Stops(w, at, moves + 1)
            && FindFrom(w, at, moves + 1)
               == if WordAt(memory, at) == kind then Some(at) else FindFrom(w, NextTag(memory, at), moves)
  {
    hide WordAt, NextTag;
  }

  lemma WalkEnds(memory: seq<Byte>, end: UInt32, kind: UInt32, at: UInt32)
    requires end as int <= |memory| && at as int + TAG_SIZE <= end as int && WordAt(memory, at) == END
    ensures var w := Search(memory, end, kind); Stops(w, at, 0) && FindFrom(w, at, 0) == None
  {
  }

  /** Where the first tag of a type stands. */
  function PlaceOfKind(tags: seq<Tag>, at: nat, kind: UInt32): Option<nat>
    requires AllValid(tags)
  {
    match FirstOfKind(tags, kind)
    case Some(k) => Some(Addresses(tags, at)[k])
    case None => None
  }

  lemma PlaceStep(tags: seq<Tag>, at: nat, kind: UInt32)
    requires AllValid(tags)
    ensures tags == [] ==> PlaceOfKind(tags, at, kind) == None
    ensures tags != [] ==>
              tags[0].Valid() && AllValid(tags[1..])
              && PlaceOfKind(tags, at, kind)
                 == if tags[0].kind == kind then Some(at) else PlaceOfKind(tags[1..], at + |tags[0].Bytes()|, kind)
  {
    hide Tag.Bytes;
    if tags != [] {
      assert tags[0].Valid() && AllValid(tags[1..]);
      assert Addresses(tags, at) == [at] + Addresses(tags[1..], at + |tags[0].Bytes()|);
    }
  }

  /** On a well-formed list the walk stops, and finds the first tag of the type. */
  lemma {:induction false} ListIsSearched(memory: seq<Byte>, at: nat, tags: seq<Tag>, kind: UInt32)
    requires AllValid(tags) && Stands(memory, at, ListBytes(tags)) && at > 0
    requires at % 8 == 0 && at + |ListBytes(tags)| <= TWO32 - TAG_SIZE && at + |ListBytes(tags)| <= |memory|
    ensures var w := Search(memory, at + |ListBytes(tags)|, kind);
            Stops(w, at, |tags|) && FindFrom(w, at, |tags|) == PlaceOfKind(tags, at, kind)
    decreases |tags|
  {
    hide WordAt, NextTag, Stops, FindFrom, ListBytes, Tag.Bytes, Tag.Valid, AllValid, Stands, PlaceOfKind;
    PlaceStep(tags, at, kind);
    var end := at + |ListBytes(tags)|;
    if tags == [] {
      EndIsRead(memory, at, tags);
      WalkEnds(memory, end, kind, at);
    } else {
      var t := tags[0];
      ListSplit(memory, at, tags);
      TagIsSkipped(memory, at, t);
      TagFits(at, t);
      ListIsSearched(memory, at + |t.Bytes()|, tags[1..], kind);
      WalkStep(memory, end, kind, at, |tags| - 1);
    }
  }

  /** The tags without an end tag behind them. */
  function TagsBytes(tags: seq<Tag>): seq<Byte>
    requires AllValid(tags)
  {
    if tags == [] then [] else tags[0].Bytes() + TagsBytes(tags[1..])
  }

  lemma OpenListSplit(memory: seq<Byte>, at: nat, tags: seq<Tag>)
    requires AllValid(tags) && Stands(memory, at, TagsBytes(tags))
    ensures tags == [] ==> TagsBytes(tags) == []
    ensures tags != [] ==>
              tags[0].Valid() && AllValid(tags[1..])
              && |TagsBytes(tags)| == |tags[0].Bytes()| + |TagsBytes(tags[1..])|
              && Stands(memory, at, tags[0].Bytes()) && Stands(memory, at + |tags[0].Bytes()|, TagsBytes(tags[1..]))
  {
    hide Stands, Tag.Bytes;
    if tags != [] {
      assert tags[0].Valid();
      StandsSplit(memory, at, tags[0].Bytes(), TagsBytes(tags[1..]));
    }
  }

  lemma SearchLeaves(memory: seq<Byte>, end: UInt32, kind: UInt32, at: UInt32)
    requires end as int <= |memory| && end as int < at as int + 8
    ensures var w := Search(memory, end, kind); Stops(w, at, 0) && FindFrom(w, at, 0) == None
  {
    hide WordAt;
  }

  /** Without an end tag the search goes up to the end, where fewer than 8 bytes hold no tag. */
  lemma {:induction false} OpenListIsSearched(memory: seq<Byte>, at: nat, tags: seq<Tag>, end: UInt32, kind: UInt32)
    requires AllValid(tags) && Stands(memory, at, TagsBytes(tags)) && at > 0 && at % 8 == 0
    requires at + |TagsBytes(tags)| <= end as int < at + |TagsBytes(tags)| + 8
    requires end as int <= |memory| && at + |TagsBytes(tags)| <= TWO32 - 8
    ensures var w := Search(memory, end, kind);
            Stops(w, at, |tags|) && FindFrom(w, at, |tags|) == PlaceOfKind(tags, at, kind)
    decreases |tags|
  {
    hide WordAt, NextTag, Stops, FindFrom, TagsBytes, Tag.Bytes, Tag.Valid, AllValid, Stands, PlaceOfKind;
    PlaceStep(tags, at, kind);
    OpenListSplit(memory, at, tags);
    if tags == [] {
      SearchLeaves(memory, end, kind, at);
    } else {
      var t := tags[0];
      TagIsSkipped(memory, at, t);
      TagFits(at, t);
      OpenListIsSearched(memory, at + |t.Bytes()|, tags[1..], end, kind);
      WalkStep(memory, end, kind, at, |tags| - 1);
    }
  }

  lemma VisitMoves(memory: seq<Byte>, at: UInt32, moves: nat)
    requires at != 0 && at as int + TAG_SIZE <= |memory|
    ensures var w := Visit(memory);
            (WordAt(memory, at) == END ==>
               Stops(w, at, moves) && VisitFrom(w, at, moves) == [] && LastFrom(w, at, moves) == at)
            && (WordAt(memory, at) != END && moves > 0 && Stops(w, NextTag(memory, at), moves - 1) ==>
                  Stops(w, at, moves) && VisitFrom(w, at, moves) == [at] + VisitFrom(w, NextTag(memory, at), moves - 1)
                  && LastFrom(w, at, moves) == LastFrom(w, NextTag(memory, at), moves - 1))
  {
    hide WordAt, NextTag;
  }

  lemma AddressesStep(tags: seq<Tag>, at: nat)
    requires AllValid(tags)
    ensures tags == [] ==> Addresses(tags, at) == []
    ensures tags != [] ==>
              tags[0].Valid() && AllValid(tags[1..])
              && Addresses(tags, at) == [at] + Addresses(tags[1..], at + |tags[0].Bytes()|)
  {
    hide Tag.Bytes;
  }

  /** On a well-formed list the unbounded walk meets every tag once, in order, and stops at the end tag. */
  lemma {:induction false} ListIsVisited(memory: seq<Byte>, at: nat, tags: seq<Tag>)
    requires AllValid(tags) && Stands(memory, at, ListBytes(tags)) && |memory| <= TWO32 && at > 0
    requires at % 8 == 0 && at + |ListBytes(tags)| <= TWO32 - TAG_SIZE
    ensures at < TWO32
    ensures var w := Visit(memory);
            Stops(w, at, |tags|) && VisitFrom(w, at, |tags|) == Addresses(tags, at)
            && LastFrom(w, at, |tags|) as int + TAG_SIZE <= |memory|
    decreases |tags|
  {
    hide WordAt, NextTag, Stops, VisitFrom, LastFrom, ListBytes, Tag.Bytes, Tag.Valid, AllValid, Stands, Addresses;
    AddressesStep(tags, at);
    if tags == [] {
      EndIsRead(memory, at, tags);
      VisitMoves(memory, at, 0);
    } else {
      var t := tags[0];
      ListSplit(memory, at, tags);
      TagIsSkipped(memory, at, t);
      TagFits(at, t);
      ListIsVisited(memory, at + |t.Bytes()|, tags[1..]);
      VisitMoves(memory, at, |tags|);
    }
  }

  /** The contents of the k-th tag stand behind its header. */
  lemma {:induction false} BodyStands(memory: seq<Byte>, at: nat, tags: seq<Tag>, k: nat)
    requires AllValid(tags) && Stands(memory, at, ListBytes(tags)) && k < |tags|
    ensures Stands(memory, Addresses(tags, at)[k] + 8, tags[k].body)
    decreases k
  {
    hide *;
    AddressesStep(tags, at);
    ListSplit(memory, at, tags);
    TagIsRead(memory, at, tags[0]);
    if k > 0 {
      BodyStands(memory, at + |tags[0].Bytes()|, tags[1..], k - 1);
    }
  }

  // ---------- A whole information structure ----------

  /** A boot loader's structure at an aligned address, not at the very end of memory. */
  ghost predicate Describes(info: MultibootInfo, tags: seq<Tag>, reserved: UInt32) {
    AllValid(tags) && |ListBytes(tags)| + 8 < TWO32 && Stands(info.memory, info.addr, InfoBytes(tags, reserved))
    && info.addr != 0 && info.addr % 8 == 0 && |info.memory| <= TWO32
    && info.addr as int + 8 + |ListBytes(tags)| <= TWO32 - TAG_SIZE
    && info.totalSize as int == 8 + |ListBytes(tags)|
  }

  lemma DescribedParts(info: MultibootInfo, tags: seq<Tag>, reserved: UInt32)
    requires Describes(info, tags, reserved)
    ensures WordAt(info.memory, info.addr) == 8 + |ListBytes(tags)|
    ensures WordAt(info.memory, info.addr as int + 4) == reserved
    ensures Stands(info.memory, info.addr as int + 8, ListBytes(tags)) && info.Placed() && info.IsValid()
  {
    hide Stands, WordAt, WordBytes, ListBytes;
    var b := info.memory;
    StandsFits(b, info.addr, InfoBytes(tags, reserved));
    StandsSplit(b, info.addr, WordBytes(8 + |ListBytes(tags)|) + WordBytes(reserved), ListBytes(tags));
    StandsSplit(b, info.addr, WordBytes(8 + |ListBytes(tags)|), WordBytes(reserved));
    WordIsRead(b, info.addr, 8 + |ListBytes(tags)|);
    WordIsRead(b, info.addr as int + 4, reserved);
  }

  /** findTag returns the first tag of a type, in any list of tags, and null when there is none. */
  lemma FindsFirstOfKind(info: MultibootInfo, tags: seq<Tag>, reserved: UInt32, kind: UInt32)
    requires Describes(info, tags, reserved)
    ensures info.Placed() && info.IsValid() && info.Finds(kind)
    ensures info.Found(kind) == PlaceOfKind(tags, info.addr as int + 8, kind)
  {
    hide WordAt, ListBytes, InfoBytes, Stands, PlaceOfKind, Stops, FindFrom, AllValid, Enough, ComesRound, Halts;
    DescribedParts(info, tags, reserved);
    ListIsSearched(info.memory, info.addr as int + 8, tags, kind);
    HaltsWithin(info.SearchFor(kind), info.addr + 8, |tags|);
  }

  /** In a structure without tags beyond the address space, findTag returns exactly when it meets no empty tag. */
  lemma FindsUnlessEmpty(info: MultibootInfo, kind: UInt32)
    requires info.Placed() && info.IsValid()
    requires forall a: UInt32 | a == info.addr + 8 || a % 8 == 0 :: EndsInside(info.SearchFor(kind), a)
    ensures info.Finds(kind) <==> !MeetsEmpty(info.SearchFor(kind), info.addr + 8)
  {
    hide EndsInside, MeetsEmpty, ComesRound, Halts;
    HaltsIff(info.SearchFor(kind), info.addr + 8);
    HaltsUnlessEmpty(info.SearchFor(kind), info.addr + 8);
  }

  /** forEachTag meets exactly the tags, in order. */
  lemma VisitsAll(info: MultibootInfo, tags: seq<Tag>, reserved: UInt32)
    requires Describes(info, tags, reserved)
    ensures info.Placed() && info.IsValid() && info.Visits()
    ensures info.Visited() == Addresses(tags, info.addr as int + 8)
  {
    hide WordAt, ListBytes, InfoBytes, Stands, Stops, VisitFrom, LastFrom, Addresses, AllValid;
    hide Enough, ComesRound, Halts;
    DescribedParts(info, tags, reserved);
    ListIsVisited(info.memory, info.addr as int + 8, tags);
    HaltsWithin(Visit(info.memory), info.addr + 8, |tags|);
  }

  /** The first new ACPI tag, or else the first old one. */
  function AcpiTag(tags: seq<Tag>): (k: Option<nat>)
    ensures k.Some? ==> k.value < |tags|
  {
    if FirstOfKind(tags, ACPI_NEW).Some? then FirstOfKind(tags, ACPI_NEW) else FirstOfKind(tags, ACPI_OLD)
  }

  lemma AcpiPlace(tags: seq<Tag>, at: nat)
    requires AllValid(tags)
    ensures var newer, older := PlaceOfKind(tags, at, ACPI_NEW), PlaceOfKind(tags, at, ACPI_OLD);
            var place := if newer.Some? then newer else older;
            if AcpiTag(tags).Some? then place == Some(Addresses(tags, at)[AcpiTag(tags).value]) else place == None
  {
    hide Addresses, FirstOfKind, AllValid;
  }

  lemma BehindIs(tag: Option<UInt32>)
    ensures tag == None ==> Behind(tag) == None
    ensures tag.Some? && tag.value as int + 8 < TWO32 ==> Behind(tag) == Some(tag.value + 8)
  {
  }

  /** getACPIRSDP returns where the contents of that tag stand, and null when there is neither. */
  lemma RsdpIsFound(info: MultibootInfo, tags: seq<Tag>, reserved: UInt32)
    requires Describes(info, tags, reserved)
    ensures info.Placed() && info.IsValid() && info.Finds(ACPI_NEW) && info.Finds(ACPI_OLD)
    ensures var newer, older := info.Found(ACPI_NEW), info.Found(ACPI_OLD);
            var rsdp := if newer.Some? then Behind(newer) else Behind(older);
            if AcpiTag(tags).Some? then rsdp.Some? && Stands(info.memory, rsdp.value, tags[AcpiTag(tags).value].body)
            else rsdp == None
  {
    hide WordAt, ListBytes, InfoBytes, Stands, AllValid, Addresses, FirstOfKind, PlaceOfKind, AcpiTag, Behind;
    hide Describes, MultibootInfo.Placed, MultibootInfo.IsValid, MultibootInfo.Finds, MultibootInfo.Found, ToUInt32;
    DescribedList(info, tags, reserved);
    FindsFirstOfKind(info, tags, reserved, ACPI_NEW);
    FindsFirstOfKind(info, tags, reserved, ACPI_OLD);
    var at: nat := info.addr as int + 8;
    AcpiPlace(tags, at);
    BehindIs(info.Found(ACPI_NEW));
    BehindIs(info.Found(ACPI_OLD));
    if AcpiTag(tags).Some? {
      BodyStands(info.memory, at, tags, AcpiTag(tags).value);
      BodyInMemory(info.memory, at, tags, AcpiTag(tags).value);
    }
  }

  lemma DescribedList(info: MultibootInfo, tags: seq<Tag>, reserved: UInt32)
    requires Describes(info, tags, reserved)
    ensures AllValid(tags) && Stands(info.memory, info.addr as int + 8, ListBytes(tags))
    ensures info.addr as int + 8 + |ListBytes(tags)| <= TWO32 - TAG_SIZE
  {
    DescribedParts(info, tags, reserved);
    hide Stands, ListBytes, AllValid, InfoBytes, WordAt;
  }

  lemma BodyInMemory(memory: seq<Byte>, at: nat, tags: seq<Tag>, k: nat)
    requires AllValid(tags) && Stands(memory, at, ListBytes(tags)) && k < |tags|
    requires at + |ListBytes(tags)| <= TWO32 - TAG_SIZE
    ensures Addresses(tags, at)[k] + 8 < TWO32
    decreases k
  {
    hide WordAt, Tag.Bytes, Tag.Valid, Stands, AllValid, ListBytes, Addresses;
    AddressesStep(tags, at);
    ListSplit(memory, at, tags);
    if k > 0 {
      BodyInMemory(memory, at + |tags[0].Bytes()|, tags[1..], k - 1);
    }
  }
}
