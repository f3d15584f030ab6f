/** UTF-16 to UTF-8 and back, bit by bit as the kernel does it. */
module Encodings {
  import opened Options
  import opened Splitting

  /** A Unicode scalar value: a code point that is no surrogate. */
  predicate IsScalar(v: bv32) {
    v < 0x11_0000 && !(0xD800 <= v <= 0xDFFF)
  }

  predicate IsSurrogate(u: bv16) {
    0xD800 <= u <= 0xDFFF
  }

  // ---------- The encodings as the standards define them ----------

  /** The byte that carries the low six bits of a value. */
  function Continuation(v: bv32): bv8 {
    0x80 | (v & 0x3F) as bv8
  }

  /** Sixteen bits in three bytes. */
  function ThreeByteForm(v: bv32): (s: seq<bv8>)
    requires v < 0x1_0000
    ensures |s| == 3
  {
    [0xE0 | (v >> 12) as bv8, Continuation(v >> 6), Continuation(v)]
  }

  /** Twenty-one bits in four bytes. */
  function FourByteForm(v: bv32): (s: seq<bv8>)
    requires v < 0x20_0000
    ensures |s| == 4
  {
    [0xF0 | (v >> 18) as bv8, Continuation(v >> 12), Continuation(v >> 6), Continuation(v)]
  }

  /** The UTF-8 form of a scalar value (section 3 of RFC 3629). */
  function Utf8(v: bv32): (s: seq<bv8>)
    requires IsScalar(v)
    ensures 1 <= |s| <= 4 && (|s| == 4 <==> v >= 0x1_0000)
  {
    if v < 0x80 then [v as bv8]
    else if v < 0x800 then [0xC0 | (v >> 6) as bv8, Continuation(v)]
    else if v < 0x1_0000 then ThreeByteForm(v)
    else FourByteForm(v)
  }

  /** The UTF-16 form of a scalar value (section 2.1 of RFC 2781). */
  function Utf16(v: bv32): (s: seq<bv16>)
    requires IsScalar(v)
  {
    if v < 0x1_0000 then [v as bv16]
    else [0xD800 | ((v - 0x1_0000) >> 10) as bv16, 0xDC00 | ((v - 0x1_0000) & 0x3FF) as bv16]
  }

  predicate AllScalars(vs: seq<bv32>) {
    forall i | 0 <= i < |vs| :: IsScalar(vs[i])
  }

  function Utf8Of(vs: seq<bv32>): seq<bv8>
    requires AllScalars(vs)
  {
    if vs == [] then [] else Utf8(vs[0]) + Utf8Of(vs[1..])
  }

  function Utf16Of(vs: seq<bv32>): seq<bv16>
    requires AllScalars(vs)
  {
    if vs == [] then [] else Utf16(vs[0]) + Utf16Of(vs[1..])
  }

  // ---------- utf16le_to_utf8 ----------

  function EncodeUnit(u: bv16): (s: seq<bv8>)
    ensures 1 <= |s| <= 3
  {
    if u < 0x80 then [u as bv8]
    else if u < 0x800 then [((u >> 6) | 0xC0) as bv8, ((u & 0x3F) | 0x80) as bv8]
    else [((u >> 12) | 0xE0) as bv8, (((u >> 6) & 0x3F) | 0x80) as bv8, ((u & 0x3F) | 0x80) as bv8]
  }

  function EncodeUnits(units: seq<bv16>): seq<bv8> {
    if units == [] then [] else EncodeUnit(units[0]) + EncodeUnits(units[1..])
  }

  // ---------- utf8_to_utf16le ----------

  /** The payload bits of a first byte and the number of bytes that follow; None for a byte that starts nothing. */
  function Lead(b: bv8): (r: Option<(bv32, nat)>)
    ensures r.Some? ==> r.value.1 <= 3
  {
    if b <= 0x7F then Some((b as bv32, 0))
    else if b & 0xE0 == 0xC0 then Some(((b & 0x1F) as bv32, 1))
    else if b & 0xF0 == 0xE0 then Some(((b & 0x0F) as bv32, 2))
    else if b & 0xF8 == 0xF0 then Some(((b & 0x07) as bv32, 3))
    else None
  }

  predicate IsContinuation(b: bv8) {
    b & 0xC0 == 0x80
  }

  /** The byte at a position of a string, its terminator included. */
  function ByteAt(s: seq<bv8>, k: nat): bv8
    requires k <= |s|
  {
    if k < |s| then s[k] else 0
  }

  /**
   * The loop over the continuation bytes: the code point and the position behind the sequence. A byte
   * that continues nothing moves the position on but does not end the loop, so that it can come to
   * read behind the terminator: None.
   */
  function Gather(s: seq<bv8>, i: nat, j: nat, extra: nat, codepoint: bv32): (r: Option<(bv32, nat)>)
    requires j <= extra + 1
    ensures r.Some? ==> r.value.1 > i + extra
    decreases extra + 1 - j
  {
    if j > extra then Some((codepoint, i + extra + 1))
    else if i + j > |s| then None
    else if IsContinuation(ByteAt(s, i + j)) then
      Gather(s, i, j + 1, extra, (codepoint << 6) | (ByteAt(s, i + j) & 0x3F) as bv32)
    else Gather(s, i + j, j + 1, extra, codepoint)
  }

  /** What is appended for a code point: nothing for surrogates and values out of range. */
  function Emit(codepoint: bv32): seq<bv16> {
    if codepoint <= 0xFFFF then
      if codepoint >= 0xD800 && codepoint <= 0xDFFF then [] else [codepoint as bv16]
    else if codepoint <= 0x10FFFF then
      [(0xD800 | (((codepoint - 0x1_0000) >> 10) & 0x3FF)) as bv16, (0xDC00 | ((codepoint - 0x1_0000) & 0x3FF)) as bv16]
    else []
  }

  /** Decoding from position i on; None when the decoder reads behind the string. */
  function DecodeFrom(s: seq<bv8>, i: nat): Option<seq<bv16>>
    decreases |s| - i
  {
    if i >= |s| then Some([])
    else
      var lead := Lead(s[i]);
      if lead.None? then DecodeFrom(s, i + 1)
      else
        var (bits, extra) := lead.value;
        if i + extra >= |s| then Some([])
        else
          var gathered := Gather(s, i, 1, extra, bits);
          if gathered.None? then None
          else
            var rest := DecodeFrom(s, gathered.value.1);
            if rest.None? then None else Some(Emit(gathered.value.0) + rest.value)
  }

  function Decode(s: seq<bv8>): Option<seq<bv16>> {
    DecodeFrom(s, 0)
  }

  // ---------- One code point ----------

  /** The bytes from i on are decoded to the given units, and decoding goes on at next. */
  ghost predicate DecodesTo(s: seq<bv8>, i: nat, next: nat, units: seq<bv16>) {
    && i < next <= |s|
    && Lead(s[i]).Some?
    && next == i + Lead(s[i]).value.1 + 1
    && var gathered := Gather(s, i, 1, Lead(s[i]).value.1, Lead(s[i]).value.0);
       gathered.Some? && gathered.value.1 == next && Emit(gathered.value.0) == units
  }

  /** The continuation byte b takes the bits read so far from c to d. */
  predicate Continues(b: bv8, c: bv32, d: bv32) {
    IsContinuation(b) && d == (c << 6) | (b & 0x3F) as bv32
  }

  /** The bytes t are one sequence, and the values in cs are what is read after each of them. */
  ghost predicate Spells(t: seq<bv8>, cs: seq<bv32>) {
    && 0 < |t| == |cs|
    && Lead(t[0]) == Some((cs[0], |t| - 1))
    && forall k | 1 <= k < |t| :: Continues(t[k], cs[k - 1], cs[k])
  }

  lemma LowBitsAreKept(v: bv32, b: bv8)
    requires b == Continuation(v)
    ensures b & 0xC0 == 0x80 && (b & 0x3F) as bv32 == v & 0x3F
  {
  }

  lemma LowBitsJoin(v: bv32)
    ensures ((v >> 6) << 6) | (v & 0x3F) == v
  {
  }

  lemma Continued(v: bv32)
    ensures Continues(Continuation(v), v >> 6, v)
  {
    hide Continuation;
    LowBitsAreKept(v, Continuation(v));
    LowBitsJoin(v);
  }

  lemma ShiftTwice(v: bv32)
    ensures v >> 12 == (v >> 6) >> 6 && v >> 18 == (v >> 12) >> 6
  {
  }

  lemma TwoBytesLead(v: bv32, b: bv8)
    requires v < 0x800 && b == 0xC0 | (v >> 6) as bv8
    ensures Lead(b) == Some((v >> 6, 1))
  {
    assert b > 0x7F && b & 0xE0 == 0xC0;
  }

  lemma TwoBytesSpell(v: bv32)
    requires 0x80 <= v < 0x800
    ensures Spells(Utf8(v), [v >> 6, v])
  {
    hide Lead, Continues, Continuation;
    TwoBytesLead(v, Utf8(v)[0]);
    Continued(v);
  }

  lemma ThreeBytesLead(v: bv32, b: bv8)
    requires v < 0x1_0000 && b == 0xE0 | (v >> 12) as bv8
    ensures Lead(b) == Some((v >> 12, 2))
  {
    assert b > 0x7F && b & 0xE0 != 0xC0 && b & 0xF0 == 0xE0;
  }

  lemma ThreeBytesSpell(v: bv32)
    requires v < 0x1_0000
    ensures Spells(ThreeByteForm(v), [v >> 12, v >> 6, v])
  {
    hide Lead, Continues, Continuation;
    var t := ThreeByteForm(v);
    ThreeBytesLead(v, t[0]);
    ShiftTwice(v);
    Continued(v >> 6);
    Continued(v);
  }

  lemma FourBytesLead(v: bv32, b: bv8)
    requires v < 0x20_0000 && b == 0xF0 | (v >> 18) as bv8
    ensures Lead(b) == Some((v >> 18, 3))
  {
    assert b > 0x7F && b & 0xE0 != 0xC0 && b & 0xF0 != 0xE0 && b & 0xF8 == 0xF0;
  }

  lemma FourBytesContinue(v: bv32)
    requires v < 0x20_0000
    ensures var t := FourByteForm(v);
            Continues(t[1], v >> 18, v >> 12) && Continues(t[2], v >> 12, v >> 6) && Continues(t[3], v >> 6, v)
  {
    hide Continues, Continuation;
    var t := FourByteForm(v);
    ShiftTwice(v);
    Continued(v >> 12);
    Continued(v >> 6);
    Continued(v);
  }

  lemma FourBytesSpell(v: bv32)
    requires v < 0x20_0000
    ensures Spells(FourByteForm(v), [v >> 18, v >> 12, v >> 6, v])
  {
    hide Lead, Continues, Continuation;
    FourBytesLead(v, FourByteForm(v)[0]);
    FourBytesContinue(v);
    hide FourByteForm;
  }

  /** A supplementary code point is emitted as its surrogate pair. */
  lemma PairBits(v: bv32)
    requires 0x1_0000 <= v < 0x11_0000
    ensures Emit(v) == Utf16(v)
  {
    var w := v - 0x1_0000;
    assert w < 0x10_0000;
    assert (w >> 10) & 0x3FF == w >> 10;
    assert (0xD800 | ((w >> 10) & 0x3FF)) as bv16 == 0xD800 | (w >> 10) as bv16;
    assert (0xDC00 | (w & 0x3FF)) as bv16 == 0xDC00 | (w & 0x3FF) as bv16;
  }

  /** Every scalar value's UTF-8 form is one sequence that is read as the value. */
  lemma ScalarSpells(v: bv32) returns (cs: seq<bv32>)
    requires IsScalar(v)
    ensures Spells(Utf8(v), cs) && cs[|cs| - 1] == v
  {
    hide Spells, Utf8;
    if v < 0x80 {
      cs := [v];
      OneByteSpells(v);
    } else if v < 0x800 {
      cs := [v >> 6, v];
      TwoBytesSpell(v);
    } else if v < 0x1_0000 {
      cs := [v >> 12, v >> 6, v];
      ScalarForm(v);
      ThreeBytesSpell(v);
    } else {
      cs := [v >> 18, v >> 12, v >> 6, v];
      ScalarForm(v);
      FourBytesSpell(v);
    }
    SpellsSize(Utf8(v), cs);
  }

  lemma ScalarForm(v: bv32)
    requires IsScalar(v)
    ensures 0x800 <= v < 0x1_0000 ==> Utf8(v) == ThreeByteForm(v)
    ensures 0x1_0000 <= v ==> Utf8(v) == FourByteForm(v)
  {
  }

  lemma OneByteSpells(v: bv32)
    requires v < 0x80
    ensures Spells(Utf8(v), [v])
  {
  }

  lemma SpellsSize(t: seq<bv8>, cs: seq<bv32>)
    ensures Spells(t, cs) ==> |cs| == |t| > 0 && Lead(t[0]) == Some((cs[0], |t| - 1))
  {
    hide Lead, Continues;
  }

  /** The loop over the continuation bytes collects the last of the values. */
  lemma {:induction false} GatherCollects(s: seq<bv8>, i: nat, t: seq<bv8>, cs: seq<bv32>, k: nat)
    requires Spells(t, cs) && k < |t| && i + |t| <= |s| && s[i..i + |t|] == t
    ensures Gather(s, i, k + 1, |t| - 1, cs[k]) == Some((cs[|t| - 1], i + |t|))
    decreases |t| - k
  {
    if k + 1 < |t| {
      assert s[i..i + |t|][k + 1] == s[i + k + 1];
      assert Continues(t[k + 1], cs[k], cs[k + 1]);
      GatherCollects(s, i, t, cs, k + 1);
    }
    hide Lead;
  }

  /** A sequence is decoded as the value it spells. */
  lemma SpelledDecodes(s: seq<bv8>, i: nat, t: seq<bv8>, cs: seq<bv32>)
    requires Spells(t, cs) && i + |t| <= |s| && s[i..i + |t|] == t
    ensures DecodesTo(s, i, i + |t|, Emit(cs[|t| - 1]))
  {
    hide *;
    SpellsSize(t, cs);
    assert s[i..i + |t|][0] == s[i];
    GatherCollects(s, i, t, cs, 0);
    Gathered(s, i, cs[0], |t| - 1, cs[|t| - 1]);
  }

  /** A first byte and what its continuation bytes gather. */
  lemma Gathered(s: seq<bv8>, i: nat, bits: bv32, n: nat, v: bv32)
    requires i + n + 1 <= |s| && Lead(s[i]) == Some((bits, n)) && Gather(s, i, 1, n, bits) == Some((v, i + n + 1))
    ensures DecodesTo(s, i, i + n + 1, Emit(v))
  {
    hide Lead, Gather, Emit;
  }

  lemma ScalarIsEmitted(v: bv32)
    requires IsScalar(v)
    ensures Emit(v) == Utf16(v)
  {
    if v >= 0x1_0000 {
      PairBits(v);
    }
  }

  /** The UTF-8 form of a scalar value decodes to its UTF-16 form. */
  lemma ScalarDecodes(s: seq<bv8>, i: nat, v: bv32)
    requires IsScalar(v) && i + |Utf8(v)| <= |s| && s[i..i + |Utf8(v)|] == Utf8(v)
    ensures DecodesTo(s, i, i + |Utf8(v)|, Utf16(v))
  {
    hide *;
    var cs := ScalarSpells(v);
    SpellsSize(Utf8(v), cs);
    SpelledDecodes(s, i, Utf8(v), cs);
    ScalarIsEmitted(v);
  }

  lemma UnitBits(u: bv16, v: bv32)
    requires v == u as bv32
    ensures (u < 0x80 <==> v < 0x80) && (u < 0x800 <==> v < 0x800)
    ensures v < 0x1_0000 && (IsSurrogate(u) <==> 0xD800 <= v <= 0xDFFF)
  {
  }

  lemma UnitNarrows(u: bv16, v: bv32)
    requires v == u as bv32
    ensures v < 0x1_0000 && v as bv16 == u
  {
  }

  lemma UnitBytes(u: bv16, v: bv32)
    requires v == u as bv32
    ensures ((u & 0x3F) | 0x80) as bv8 == 0x80 | (v & 0x3F) as bv8
    ensures u < 0x800 ==> ((u >> 6) | 0xC0) as bv8 == 0xC0 | (v >> 6) as bv8
    ensures ((u >> 12) | 0xE0) as bv8 == 0xE0 | (v >> 12) as bv8
    ensures (((u >> 6) & 0x3F) | 0x80) as bv8 == 0x80 | ((v >> 6) & 0x3F) as bv8
    ensures u < 0x80 ==> u as bv8 == v as bv8
  {
  }

  lemma UnitIsScalar(u: bv16, v: bv32)
    requires !IsSurrogate(u) && v == u as bv32
    ensures IsScalar(v) && Utf16(v) == [u]
  {
    UnitBits(u, v);
    UnitNarrows(u, v);
  }

  lemma UnitIsUtf8(u: bv16, v: bv32)
    requires IsScalar(v) && v == u as bv32
    ensures EncodeUnit(u) == Utf8(v)
  {
    hide IsScalar;
    UnitBits(u, v);
    UnitBytes(u, v);
  }

  /** A unit outside the surrogate range is encoded as the standard encodes its code point. */
  lemma UnitEncodes(u: bv16)
    requires !IsSurrogate(u)
    ensures IsScalar(u as bv32) && EncodeUnit(u) == Utf8(u as bv32) && Utf16(u as bv32) == [u]
  {
    hide *;
    UnitIsScalar(u, u as bv32);
    UnitIsUtf8(u, u as bv32);
  }

  lemma SurrogateForm(u: bv16)
    requires IsSurrogate(u)
    ensures u as bv32 < 0x1_0000 && EncodeUnit(u) == ThreeByteForm(u as bv32) && Emit(u as bv32) == []
  {
    UnitBits(u, u as bv32);
    UnitBytes(u, u as bv32);
  }

  /** The three bytes written for a surrogate unit decode to nothing. */
  lemma SurrogateDecodes(s: seq<bv8>, i: nat, u: bv16)
    requires IsSurrogate(u) && i + 3 <= |s| && s[i..i + 3] == EncodeUnit(u)
    ensures DecodesTo(s, i, i + 3, [])
  {
    SurrogateForm(u);
    var v := u as bv32;
    ThreeBytesSpell(v);
    SpelledDecodes(s, i, EncodeUnit(u), [v >> 12, v >> 6, v]);
    hide *;
  }

  // ---------- Ill-formed sequences ----------

  lemma GatherTurn(s: seq<bv8>, i: nat, j: nat, extra: nat, c: bv32) returns (d: bv32)
    requires j <= extra && i + j <= |s|
    ensures Gather(s, i, j, extra, c)
            == if IsContinuation(ByteAt(s, i + j)) then Gather(s, i, j + 1, extra, d)
               else Gather(s, i + j, j + 1, extra, c)
  {
    d := (c << 6) | (ByteAt(s, i + j) & 0x3F) as bv32;
  }

  lemma LastTurn(s: seq<bv8>, i: nat, extra: nat, c: bv32)
    requires extra >= 1
    ensures Gather(s, i, extra, extra, c) == None <==> i + extra > |s|
  {
  }

  lemma LastTurns(s: seq<bv8>, i: nat, extra: nat, c: bv32)
    requires extra >= 2 && i + extra - 1 <= |s|
    ensures Gather(s, i, extra - 1, extra, c) == None
            <==> |s| < if IsContinuation(ByteAt(s, i + extra - 1)) then i + extra else i + 2 * extra - 1
  {
    hide *;
    var d := GatherTurn(s, i, extra - 1, extra, c);
    LastTurn(s, i, extra, d);
    LastTurn(s, i + extra - 1, extra, c);
  }

  lemma InString(s: seq<bv8>, k: nat)
    requires k < |s|
    ensures ByteAt(s, k) == s[k]
  {
  }

  /** A first byte with room for its continuation. */
  predicate IsComplete(s: seq<bv8>, i: nat) {
    i < |s| && Lead(s[i]).Some? && i + Lead(s[i]).value.1 < |s|
  }

  /**
   * A sequence that takes the decoder out of the string: it has four bytes, its continuation is ill
   * formed in one of two ways, and the string ends too soon behind it.
   */
  predicate OverrunsAt(s: seq<bv8>, i: nat) {
    IsComplete(s, i) && Lead(s[i]).value.1 == 3
    && if IsContinuation(s[i + 1]) then !IsContinuation(s[i + 2]) && |s| < i + 5
       else !IsContinuation(s[i + 3]) && |s| < i + 6
  }

  lemma SequenceOverrunsIff(s: seq<bv8>, i: nat)
    requires IsComplete(s, i)
    ensures var (bits, extra) := Lead(s[i]).value; Gather(s, i, 1, extra, bits) == None <==> OverrunsAt(s, i)
  {
    hide Lead, Gather, IsContinuation, ByteAt;
    var (bits, extra) := Lead(s[i]).value;
    if extra == 0 {
      NoTurn(s, i, bits);
    } else if extra == 1 {
      LastTurn(s, i, 1, bits);
    } else if extra == 2 {
      LastTurns(s, i, 2, bits);
    } else {
      var d := GatherTurn(s, i, 1, 3, bits);
      LastTurns(s, i, 3, d);
      LastTurns(s, i + 1, 3, bits);
      InString(s, i + 1);
      InString(s, i + 2);
      InString(s, i + 3);
    }
  }

  lemma NoTurn(s: seq<bv8>, i: nat, bits: bv32)
    ensures Gather(s, i, 1, 0, bits) == Some((bits, i + 1))
  {
  }

  /** Where the decoder goes on behind the sequence at i. */
  function NextStart(s: seq<bv8>, i: nat): (next: nat)
    requires i < |s|
    ensures next > i
  {
    if Lead(s[i]).None? then i + 1
    else if !IsComplete(s, i) then |s|
    else
      var gathered := Gather(s, i, 1, Lead(s[i]).value.1, Lead(s[i]).value.0);
      if gathered.None? then |s| else gathered.value.1
  }

  /** The decoder comes to i when it starts at from. */
  predicate Starts(s: seq<bv8>, from: nat, i: nat)
    decreases |s| - from
  {
    from == i || (from < |s| && Starts(s, NextStart(s, from), i))
  }

  /** Some sequence the decoder comes to takes it out of the string. */
  ghost predicate Overruns(s: seq<bv8>, from: nat) {
    exists i: nat :: Starts(s, from, i) && OverrunsAt(s, i)
  }

  lemma OverrunsStep(s: seq<bv8>, from: nat)
    ensures from < |s| ==> (Overruns(s, from) <==> OverrunsAt(s, from) || Overruns(s, NextStart(s, from)))
    ensures from >= |s| ==> !Overruns(s, from)
  {
    hide Lead, Gather, NextStart;
    if from < |s| && OverrunsAt(s, from) {
      assert Starts(s, from, from);
    }
    if from < |s| && Overruns(s, NextStart(s, from)) {
      var i: nat :| Starts(s, NextStart(s, from), i) && OverrunsAt(s, i);
      assert Starts(s, from, i);
    }
  }

  lemma DecodesOn(s: seq<bv8>, from: nat)
    requires from < |s|
    ensures DecodeFrom(s, from) == None <==> OverrunsAt(s, from) || DecodeFrom(s, NextStart(s, from)) == None
  {
    hide Lead, Gather, Emit, IsContinuation;
    if IsComplete(s, from) {
      SequenceOverrunsIff(s, from);
    }
    hide OverrunsAt;
  }

  /** Which strings take the decoder out: those in which it comes to such a sequence. */
  lemma {:induction false} DecodeOverrunsIff(s: seq<bv8>, from: nat)
    ensures DecodeFrom(s, from) == None <==> Overruns(s, from)
    decreases |s| - from
  {
    hide *;
    OverrunsStep(s, from);
    if from < |s| {
      DecodesOn(s, from);
      DecodeOverrunsIff(s, NextStart(s, from));
    } else {
      DecodeEnds(s, from);
    }
  }

  /** Two bytes tell: a string without a first byte of four at its fourth or fifth last place stays inside. */
  lemma NoLateLeadDecodes(s: seq<bv8>)
    requires forall k: nat | k < |s| <= k + 5 && |s| >= k + 4 :: s[k] & 0xF8 != 0xF0
    ensures Decode(s) != None
  {
    forall i: nat
      ensures !OverrunsAt(s, i)
    {
      if IsComplete(s, i) {
        LeadOfFour(s[i]);
      }
    }
    hide Starts, OverrunsAt, Decode, DecodeFrom;
    DecodeEnds(s, |s|);
    assert !Overruns(s, 0);
    DecodeOverrunsIff(s, 0);
  }

  lemma LeadOfFour(b: bv8)
    ensures Lead(b).Some? && Lead(b).value.1 == 3 ==> b & 0xF8 == 0xF0
  {
  }

  /** A string that does: the first byte of four, and three letters. */
  lemma StrayLettersOverrun()
    ensures var s: seq<bv8> := [0xF0, 0x41, 0x41, 0x41]; Overruns(s, 0) && Decode(s) == None
  {
    var s: seq<bv8> := [0xF0, 0x41, 0x41, 0x41];
    assert Lead(s[0]) == Some((0, 3)) && !IsContinuation(0x41);
    assert OverrunsAt(s, 0);
    hide *;
    OverrunsStep(s, 0);
    DecodeOverrunsIff(s, 0);
    DecodeEnds(s, |s|);
  }

  /** A byte that starts nothing is skipped. */
  lemma StrayByteIsSkipped(s: seq<bv8>, i: nat)
    requires i < |s| && (0x80 <= s[i] <= 0xBF || 0xF8 <= s[i])
    ensures DecodeFrom(s, i) == DecodeFrom(s, i + 1)
  {
    StartsNothing(s[i]);
    hide Lead;
  }

  lemma StartsNothing(b: bv8)
    ensures Lead(b) == None <==> 0x80 <= b <= 0xBF || 0xF8 <= b
  {
  }

  /** What is left of a sequence that the string ends in is dropped. */
  lemma CutSequenceIsDropped(s: seq<bv8>, i: nat)
    requires i < |s|
    requires (0xC0 <= s[i] <= 0xDF && i + 1 >= |s|) || (0xE0 <= s[i] <= 0xEF && i + 2 >= |s|)
             || (0xF0 <= s[i] <= 0xF7 && i + 3 >= |s|)
    ensures DecodeFrom(s, i) == Some([])
  {
    SequenceLength(s[i]);
    hide Lead;
  }

  lemma SequenceLength(b: bv8)
    ensures 0xC0 <= b <= 0xDF ==> Lead(b).Some? && Lead(b).value.1 == 1 && Lead(b).value.0 == (b & 0x1F) as bv32
    ensures 0xE0 <= b <= 0xEF ==> Lead(b).Some? && Lead(b).value.1 == 2
    ensures 0xF0 <= b <= 0xF7 ==> Lead(b).Some? && Lead(b).value.1 == 3
  {
  }

  /** A two-byte sequence without its continuation gives the bits of its first byte, and takes one byte too many. */
  lemma BrokenPairDecodes(s: seq<bv8>, i: nat)
    requires i + 1 < |s| && 0xC0 <= s[i] <= 0xDF && !(0x80 <= s[i + 1] <= 0xBF)
    ensures DecodeFrom(s, i)
            == if DecodeFrom(s, i + 3).None? then None
               else Some([(s[i] & 0x1F) as bv16] + DecodeFrom(s, i + 3).value)
  {
    SequenceLength(s[i]);
    ContinuationRange(s[i + 1]);
    SmallIsEmitted(s[i]);
    InString(s, i + 1);
    hide Lead, IsContinuation, Emit;
    var bits := (s[i] & 0x1F) as bv32;
    assert Gather(s, i + 1, 2, 1, bits) == Some((bits, i + 3));
    assert Gather(s, i, 1, 1, bits) == Some((bits, i + 3));
  }

  lemma ContinuationRange(b: bv8)
    ensures IsContinuation(b) <==> 0x80 <= b <= 0xBF
  {
  }

  lemma SmallIsEmitted(b: bv8)
    ensures Emit((b & 0x1F) as bv32) == [(b & 0x1F) as bv16]
  {
  }

  /** Four bytes for a value that is no code point give nothing, and overlong forms give their value. */
  lemma AnyFormDecodes(s: seq<bv8>, i: nat, v: bv32)
    ensures v < 0x1_0000 && i + 3 <= |s| && s[i..i + 3] == ThreeByteForm(v) ==> DecodesTo(s, i, i + 3, Emit(v))
    ensures v < 0x20_0000 && i + 4 <= |s| && s[i..i + 4] == FourByteForm(v) ==> DecodesTo(s, i, i + 4, Emit(v))
    ensures v < 0xD800 ==> Emit(v) == [v as bv16]
    ensures v >= 0x11_0000 ==> Emit(v) == []
  {
    hide Spells, DecodesTo;
    if v < 0x1_0000 && i + 3 <= |s| && s[i..i + 3] == ThreeByteForm(v) {
      ThreeBytesSpell(v);
      SpelledDecodes(s, i, ThreeByteForm(v), [v >> 12, v >> 6, v]);
    }
    if v < 0x20_0000 && i + 4 <= |s| && s[i..i + 4] == FourByteForm(v) {
      FourBytesSpell(v);
      SpelledDecodes(s, i, FourByteForm(v), [v >> 18, v >> 12, v >> 6, v]);
    }
  }

  // ---------- Examples of the standards ----------

  /** Section 7 of RFC 3629, and section 5 of RFC 2781. */
  lemma StandardExamples()
    ensures Utf8(0x41) == [0x41] && Utf8(0x2262) == [0xE2, 0x89, 0xA2] && Utf8(0x391) == [0xCE, 0x91]
    ensures Utf8(0x2_33B4) == [0xF0, 0xA3, 0x8E, 0xB4]
    ensures Utf16(0x1_2345) == [0xD808, 0xDF45] && Utf16(0x52) == [0x0052]
  {
  }

  // ---------- Whole strings ----------

  lemma DecodeStep(s: seq<bv8>, i: nat, next: nat, units: seq<bv16>)
    requires i <= |s| && DecodesTo(s, i, next, units)
    ensures DecodeFrom(s, i)
            == if DecodeFrom(s, next).None? then None else Some(units + DecodeFrom(s, next).value)
  {
    hide Lead, Gather, Emit;
  }

  lemma ScalarsUnfold(vs: seq<bv32>)
    requires AllScalars(vs)
    ensures vs == [] ==> Utf8Of(vs) == [] && Utf16Of(vs) == []
    ensures vs != [] ==>
              IsScalar(vs[0]) && AllScalars(vs[1..])
              && Utf8Of(vs) == Utf8(vs[0]) + Utf8Of(vs[1..]) && Utf16Of(vs) == Utf16(vs[0]) + Utf16Of(vs[1..])
  {
    hide Utf8, Utf16, IsScalar;
  }

  lemma {:induction false} ScalarsDecode(s: seq<bv8>, i: nat, vs: seq<bv32>)
    requires AllScalars(vs) && i <= |s| && s[i..] == Utf8Of(vs)
    ensures DecodeFrom(s, i) == Some(Utf16Of(vs))
    decreases |vs|
  {
    hide *;
    ScalarsUnfold(vs);
    if vs == [] {
      DecodeEnds(s, i);
    } else {
      var n := |Utf8(vs[0])|;
      HeadAndRest(s, i, Utf8(vs[0]), Utf8Of(vs[1..]));
      ScalarDecodes(s, i, vs[0]);
      DecodeStep(s, i, i + n, Utf16(vs[0]));
      ScalarsDecode(s, i + n, vs[1..]);
    }
  }

  /** Decoding preserves meaning: the UTF-8 form of any scalar values decodes to their UTF-16 form. */
  lemma DecodePreservesMeaning(vs: seq<bv32>)
    requires AllScalars(vs)
    ensures Decode(Utf8Of(vs)) == Some(Utf16Of(vs))
  {
    ScalarsDecode(Utf8Of(vs), 0, vs);
  }

  function WithoutSurrogates(units: seq<bv16>): seq<bv16> {
    if units == [] then []
    else (if IsSurrogate(units[0]) then [] else [units[0]]) + WithoutSurrogates(units[1..])
  }

  lemma UnitDecodes(s: seq<bv8>, i: nat, u: bv16)
    requires i + |EncodeUnit(u)| <= |s| && s[i..i + |EncodeUnit(u)|] == EncodeUnit(u)
    ensures DecodesTo(s, i, i + |EncodeUnit(u)|, if IsSurrogate(u) then [] else [u])
  {
    if IsSurrogate(u) {
      SurrogateDecodes(s, i, u);
    } else {
      UnitEncodes(u);
      ScalarDecodes(s, i, u as bv32);
    }
    hide DecodesTo;
  }

  lemma FirstUnit(units: seq<bv16>)
    ensures units == [] ==> EncodeUnits(units) == [] && WithoutSurrogates(units) == []
    ensures units != [] ==>
              EncodeUnits(units) == EncodeUnit(units[0]) + EncodeUnits(units[1..])
              && WithoutSurrogates(units)
                 == (if IsSurrogate(units[0]) then [] else [units[0]]) + WithoutSurrogates(units[1..])
  {
    hide EncodeUnit, IsSurrogate;
  }

  lemma {:induction false} UnitsDecode(s: seq<bv8>, i: nat, units: seq<bv16>)
    requires i <= |s| && s[i..] == EncodeUnits(units)
    ensures DecodeFrom(s, i) == Some(WithoutSurrogates(units))
    decreases |units|
  {
    hide *;
    FirstUnit(units);
    if units == [] {
      DecodeEnds(s, i);
    } else {
      var n := |EncodeUnit(units[0])|;
      HeadAndRest(s, i, EncodeUnit(units[0]), EncodeUnits(units[1..]));
      UnitDecodes(s, i, units[0]);
      DecodeStep(s, i, i + n, if IsSurrogate(units[0]) then [] else [units[0]]);
      UnitsDecode(s, i + n, units[1..]);
    }
  }

  /** The round trip through UTF-8 gives any units back with exactly the surrogates removed. */
  lemma RoundTripDropsSurrogates(units: seq<bv16>)
    ensures Decode(EncodeUnits(units)) == Some(WithoutSurrogates(units))
  {
    UnitsDecode(EncodeUnits(units), 0, units);
  }

  // ---------- Which texts survive the other round trip ----------

  predicate AllBasic(vs: seq<bv32>) {
    forall i | 0 <= i < |vs| :: vs[i] < 0x1_0000
  }

  lemma {:induction false} EncodeConcat(a: seq<bv16>, b: seq<bv16>)
    ensures EncodeUnits(a + b) == EncodeUnits(a) + EncodeUnits(b)
  {
    if a == [] {
      assert a + b == b;
    } else {
      assert (a + b)[1..] == a[1..] + b;
      EncodeConcat(a[1..], b);
    }
  }

  lemma EncodeScalar(v: bv32)
    requires IsScalar(v)
    ensures v < 0x1_0000 ==> EncodeUnits(Utf16(v)) == Utf8(v)
    ensures v >= 0x1_0000 ==> |EncodeUnits(Utf16(v))| == 6 && |Utf8(v)| == 4
  {
    var units := Utf16(v);
    if v < 0x1_0000 {
      ScalarNarrows(v, v as bv16);
      UnitEncodes(v as bv16);
      EncodeOne(v as bv16);
    } else {
      PairIsHigh(v);
      EncodeConcat([units[0]], [units[1]]);
      EncodeOne(units[0]);
      EncodeOne(units[1]);
      assert units == [units[0]] + [units[1]];
      hide EncodeUnits;
    }
  }

  lemma ScalarNarrows(v: bv32, u: bv16)
    requires v < 0x1_0000 && IsScalar(v) && u == v as bv16
    ensures u as bv32 == v && !IsSurrogate(u)
  {
  }

  lemma PairIsHigh(v: bv32)
    requires 0x1_0000 <= v < 0x11_0000
    ensures Utf16(v)[0] >= 0x800 && Utf16(v)[1] >= 0x800
  {
  }

  lemma {:induction false} EncodeScalars(vs: seq<bv32>)
    requires AllScalars(vs)
    ensures |EncodeUnits(Utf16Of(vs))| >= |Utf8Of(vs)|
    ensures |EncodeUnits(Utf16Of(vs))| == |Utf8Of(vs)| ==> AllBasic(vs)
    ensures AllBasic(vs) ==> EncodeUnits(Utf16Of(vs)) == Utf8Of(vs)
  {
    if vs != [] {
      EncodeScalars(vs[1..]);
      EncodeScalar(vs[0]);
      EncodeConcat(Utf16(vs[0]), Utf16Of(vs[1..]));
      hide Utf8, Utf16, EncodeUnits, IsScalar;
      assert AllBasic(vs) <==> vs[0] < 0x1_0000 && AllBasic(vs[1..]);
    }
  }

  /**
   * Encoding UTF-16 gives standard UTF-8 exactly when every scalar value lies in the basic plane:
   * a surrogate pair is written as two three-byte sequences, never as one of four bytes.
   */
  lemma EncodesStandardUtf8Iff(vs: seq<bv32>)
    requires AllScalars(vs)
    ensures EncodeUnits(Utf16Of(vs)) == Utf8Of(vs) <==> AllBasic(vs)
  {
    EncodeScalars(vs);
  }

  /** A concrete text the encoder gets wrong: one character outside the basic plane. */
  lemma SupplementaryExample()
    ensures IsScalar(0x1_F600) && EncodeUnits(Utf16Of([0x1_F600])) != Utf8Of([0x1_F600])
  {
    assert !AllBasic([0x1_F600]) by {
      assert [0x1_F600 as bv32][0] >= 0x1_0000;
    }
    EncodesStandardUtf8Iff([0x1_F600]);
  }

  // ---------- The loops ----------

  lemma EncodeOne(c: bv16)
    ensures EncodeUnits([c]) == EncodeUnit(c)
  {
    assert [c][1..] == [] && EncodeUnit(c) + [] == EncodeUnit(c);
  }

  method Utf16LeToUtf8(utf16: seq<bv16>) returns (utf8: seq<bv8>)
    ensures utf8 == EncodeUnits(utf16)
  {
    utf8 := [];
    for k := 0 to |utf16|
      invariant utf8 == EncodeUnits(utf16[..k])
    {
      var c := utf16[k];
      EncodeConcat(utf16[..k], [c]);
      assert utf16[..k + 1] == utf16[..k] + [c];
      EncodeOne(c);
      utf8 := AppendUnit(utf8, c);
    }
    assert utf16[..|utf16|] == utf16;
  }

  method AppendUnit(utf8: seq<bv8>, c: bv16) returns (r: seq<bv8>)
    ensures r == utf8 + EncodeUnit(c)
  {
    r := utf8;
    if c < 0x80 {
      r := r + [c as bv8];
    } else if c < 0x800 {
      r := r + [((c >> 6) | 0xC0) as bv8];
      r := r + [((c & 0x3F) | 0x80) as bv8];
    } else {
      r := r + [((c >> 12) | 0xE0) as bv8];
      r := r + [(((c >> 6) & 0x3F) | 0x80) as bv8];
      r := r + [((c & 0x3F) | 0x80) as bv8];
    }
  }

  /** The continuation loop. */
  method GatherLoop(s: seq<bv8>, from: nat, extra: nat, bits: bv32) returns (codepoint: bv32, i: nat)
    requires Gather(s, from, 1, extra, bits).Some?
    ensures Gather(s, from, 1, extra, bits) == Some((codepoint, i + extra + 1))
  {
    codepoint, i := bits, from;
    var j := 1;
    while j <= extra
      invariant 1 <= j <= extra + 1
      invariant Gather(s, from, 1, extra, bits) == Gather(s, i, j, extra, codepoint)
    {
      var cc := ByteAt(s, i + j);
      if cc & 0xC0 != 0x80 {
        // invalid continuation byte: the position moves, and the loop goes on
        i := i + j;
        j := j + 1;
        continue;
      }
      codepoint := (codepoint << 6) | (cc & 0x3F) as bv32;
      j := j + 1;
    }
  }

  /** How decoding passes one sequence. */
  lemma DecodeTurn(s: seq<bv8>, i: nat)
    requires i < |s|
    ensures var lead := Lead(s[i]);
            if lead.None? then DecodeFrom(s, i) == DecodeFrom(s, i + 1)
            else if i + lead.value.1 >= |s| then DecodeFrom(s, i) == Some([])
            else
              var gathered := Gather(s, i, 1, lead.value.1, lead.value.0);
              DecodeFrom(s, i).Some? ==>
                gathered.Some? && DecodeFrom(s, gathered.value.1).Some?
                && DecodeFrom(s, i).value == Emit(gathered.value.0) + DecodeFrom(s, gathered.value.1).value
  {
    hide Lead, Gather, Emit;
  }

  lemma DecodeEnds(s: seq<bv8>, i: nat)
    ensures Decode(s) == DecodeFrom(s, 0) && (i >= |s| ==> DecodeFrom(s, i) == Some([]))
  {
  }

  /** A string in which no sequence takes the decoder out is decoded whole, ill-formed bytes included. */
  method Utf8ToUtf16Le(utf8: seq<bv8>) returns (utf16: seq<bv16>)
    requires !Overruns(utf8, 0)
    ensures Decode(utf8) == Some(utf16)
  {
    hide *;
    DecodeEnds(utf8, |utf8|);
    DecodeOverrunsIff(utf8, 0);
    utf16 := [];
    var i := 0;
    ghost var rest := Decode(utf8).value;
    while i < |utf8|
      invariant 0 <= i && DecodeFrom(utf8, i) == Some(rest)
      invariant Decode(utf8).value == utf16 + rest
      decreases |utf8| - i
    {
      DecodeTurn(utf8, i);
      var valid, codepoint, extra := FirstByte(utf8[i]);
      if !valid {
        // invalid first byte
        i := i + 1;
        continue;
      }
      if i + extra >= |utf8| {
        // incomplete sequence
        assert utf16 + [] == utf16;
        return;
      }
      codepoint, i := GatherLoop(utf8, i, extra, codepoint);
      i := i + extra + 1;
      rest := DecodeFrom(utf8, i).value;
      utf16 := Append(utf16, codepoint);
    }
    DecodeEnds(utf8, i);
    assert utf16 + [] == utf16;
  }

  /** Classifies a first byte. */
  method FirstByte(b: bv8) returns (valid: bool, codepoint: bv32, extra: nat)
    ensures Lead(b) == if valid then Some((codepoint, extra)) else None
    ensures extra <= 3
  {
    valid, codepoint, extra := true, 0, 0;
    if b <= 0x7F {
      codepoint, extra := b as bv32, 0;
    } else if b & 0xE0 == 0xC0 {
      codepoint, extra := (b & 0x1F) as bv32, 1;
    } else if b & 0xF0 == 0xE0 {
      codepoint, extra := (b & 0x0F) as bv32, 2;
    } else if b & 0xF8 == 0xF0 {
      codepoint, extra := (b & 0x07) as bv32, 3;
    } else {
      valid := false;
    }
  }

  /** Appends a decoded code point: surrogates and values out of range are dropped. */
  method Append(utf16: seq<bv16>, decoded: bv32) returns (r: seq<bv16>)
    ensures r == utf16 + Emit(decoded)
  {
    r := utf16;
    var codepoint := decoded;
    if codepoint <= 0xFFFF {
      if codepoint >= 0xD800 && codepoint <= 0xDFFF {
        return;
      }
      r := r + [codepoint as bv16];
    } else if codepoint <= 0x10FFFF {
      codepoint := codepoint - 0x1_0000;
      var highSurrogate := (0xD800 | ((codepoint >> 10) & 0x3FF)) as bv16;
      var lowSurrogate := (0xDC00 | (codepoint & 0x3FF)) as bv16;
      r := r + [highSurrogate];
      r := r + [lowSurrogate];
    }
  }
}
