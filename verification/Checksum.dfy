/** The internet checksum of RFC 1071, as the ping packet uses it. */
module Checksum {
  import opened Words

  /** The two orders a pair of bytes can be read in. */
  datatype Order = HostOrder | NetworkOrder

  /** The k-th 16-bit word; an odd last byte is padded with zero. */
  function WordAt(data: seq<Byte>, order: Order, k: nat): UInt16
    requires 2 * k < |data|
  {
    var first, second := data[2 * k], if 2 * k + 1 < |data| then data[2 * k + 1] else 0;
    if order.HostOrder? then (first as int) + 0x100 * (second as int) else 0x100 * (first as int) + (second as int)
  }

  function WordsOf(data: seq<Byte>, order: Order): (ws: seq<UInt16>)
    ensures |ws| == (|data| + 1) / 2
  {
    seq((|data| + 1) / 2, k requires 0 <= k < (|data| + 1) / 2 => WordAt(data, order, k))
  }

  function Sum(ws: seq<UInt16>): nat {
    if ws == [] then 0 else Sum(ws[..|ws| - 1]) + ws[|ws| - 1]
  }

  /** One's-complement addition: the carry out of the top goes back in at the bottom. */
  function OnesAdd(a: UInt16, b: UInt16): UInt16 {
    if a as int + b >= TWO16 then a as int + b - 0xFFFF else a as int + b
  }

  function OnesSum(ws: seq<UInt16>): UInt16 {
    if ws == [] then 0 else OnesAdd(OnesSum(ws[..|ws| - 1]), ws[|ws| - 1])
  }

  /** The 16-bit one's-complement representative of a sum; only 0 is represented by 0. */
  function Canon(s: nat): UInt16 {
    if s == 0 then 0 else (s - 1) % 0xFFFF + 1
  }

  lemma CanonFold(s: nat)
    requires s >= TWO16
    ensures Canon(s % TWO16 + s / TWO16) == Canon(s)
  {
    var q, r := s / TWO16, s % TWO16;
    assert s - 1 == 0xFFFF * q + (q + r - 1);
  }

  /** Sums that differ by a multiple of 65535 have one representative, unless just one of them is 0. */
  lemma CanonCongruent(a: nat, b: nat, k: int)
    requires a == b + 0xFFFF * k && (a == 0 <==> b == 0)
    ensures Canon(a) == Canon(b)
  {
  }

  lemma CanonIs(s: nat) returns (k: nat)
    ensures s == Canon(s) + 0xFFFF * k && (Canon(s) == 0 <==> s == 0)
  {
    k := if s == 0 then 0 else (s - 1) / 0xFFFF;
  }

  /** Adding with end-around carries gives the representative of the plain sum. */
  lemma {:induction false} OnesSumIsCanon(ws: seq<UInt16>)
    ensures OnesSum(ws) == Canon(Sum(ws))
  {
    if ws != [] {
      OnesSumIsCanon(ws[..|ws| - 1]);
    }
  }

  lemma {:induction false} SumBound(ws: seq<UInt16>)
    ensures Sum(ws) <= |ws| * 0xFFFF
  {
    if ws != [] {
      SumBound(ws[..|ws| - 1]);
    }
  }

  /** The checksum: the complement of the one's-complement sum. */
  function ChecksumOf(data: seq<Byte>): UInt16 {
    0xFFFF - OnesSum(WordsOf(data, HostOrder))
  }

  /** The longest message whose plain sum cannot leave 32 bits. */
  const LONGEST := 0x20002

  /** One more word of a message under the sum. */
  lemma SumStep(data: seq<Byte>, i: nat)
    requires 2 * i < |data|
    ensures var ws := WordsOf(data, HostOrder);
            Sum(ws[..i + 1]) == Sum(ws[..i]) + WordAt(data, HostOrder, i)
  {
    var ws := WordsOf(data, HostOrder);
    assert ws[..i + 1][..i] == ws[..i];
  }

  lemma WrapStep(sum: UInt32, total: nat, w: nat)
    requires sum == total % TWO32
    ensures ToUInt32(sum as int + w) == (total + w) % TWO32
  {
  }

  method CalculateICMPChecksum(data: array<Byte>) returns (r: UInt16)
    ensures r as int == 0xFFFF - Canon(Sum(WordsOf(data[..], HostOrder)) % TWO32)
    ensures data.Length <= LONGEST ==> r == ChecksumOf(data[..])
    ensures data.Length < TWO32 ==> (r == ChecksumOf(data[..]) <==> Sum(WordsOf(data[..], HostOrder)) < TWO32)
  {
    hide Sum, WordsOf, Canon, OnesSum, ToUInt32;
    ghost var ws := WordsOf(data[..], HostOrder);
    assert Sum(ws[..0]) == 0 by { EmptySum(ws); }
    var sum: UInt32, i, length := 0, 0, data.Length;
    while length > 1
      invariant 0 <= 2 * i == data.Length - length <= data.Length
      invariant sum == Sum(ws[..i]) % TWO32
    {
      var w := (data[2 * i] as int) + 0x100 * (data[2 * i + 1] as int);
      SumStep(data[..], i);
      WrapStep(sum, Sum(ws[..i]), w);
      sum := ToUInt32(sum as int + w);
      i := i + 1;
      length := length - 2;
    }
    if length > 0 {
      SumStep(data[..], i);
      WrapStep(sum, Sum(ws[..i]), data[2 * i]);
      sum := ToUInt32(sum as int + data[2 * i]);
      i := i + 1;
    }
    assert ws[..i] == ws;
    sum := FoldSum(sum);
    SumBound(ws);
    OnesSumIsCanon(ws);
    if data.Length < TWO32 {
      WrapsIff(data[..]);
    }
    r := 0xFFFF - sum;
  }

  lemma EmptySum(ws: seq<UInt16>)
    ensures Sum(ws[..0]) == 0
  {
  }

  /** The folding loop ends with the representative of the sum. */
  method FoldSum(start: UInt32) returns (sum: UInt32)
    ensures sum == Canon(start) < TWO16
  {
    sum := start;
    while sum / TWO16 != 0
      invariant Canon(sum) == Canon(start)
      decreases sum
    {
      CanonFold(sum);
      sum := sum % TWO16 + sum / TWO16;
    }
  }

  lemma {:induction false} SumOfFull(ws: seq<UInt16>)
    requires forall k | 0 <= k < |ws| :: ws[k] == 0xFFFF
    ensures Sum(ws) == |ws| * 0xFFFF
  {
    if ws != [] {
      SumOfFull(ws[..|ws| - 1]);
    }
  }

  /** 2^32 and 1 have the same representative, so a carry that is lost is missing from the sum. */
  lemma LostCarries(s: nat)
    requires s / TWO32 < 0xFFFF
    ensures Canon(s % TWO32) == Canon(s) <==> s < TWO32
  {
    var carries, low := s / TWO32, s % TWO32;
    assert TWO32 == 0xFFFF * 0x1_0001 + 1;
    assert s == 0xFFFF * (0x1_0001 * carries) + (carries + low);
    if carries > 0 {
      CanonCongruent(s, carries + low, 0x1_0001 * carries);
      CanonApart(low, carries);
    }
  }

  lemma CanonApart(a: nat, c: nat)
    requires 0 < c < 0xFFFF
    ensures Canon(a + c) != Canon(a)
  {
    var k := CanonIs(a);
    var m := CanonIs(a + c);
    hide Canon;
  }

  /** A message gets its checksum exactly when its plain sum stays within 32 bits. */
  lemma WrapsIff(data: seq<Byte>)
    requires |data| < TWO32
    ensures var ws := WordsOf(data, HostOrder);
            Canon(Sum(ws) % TWO32) == OnesSum(ws) <==> Sum(ws) < TWO32
  {
    var ws := WordsOf(data, HostOrder);
    OnesSumIsCanon(ws);
    SumBound(ws);
    LostCarries(Sum(ws));
  }

  /** LONGEST is the longest length at which every message does: all ones wraps at every greater length. */
  lemma LongestIsSharp(data: seq<Byte>)
    requires forall k | 0 <= k < |data| :: data[k] == 0xFF
    ensures Sum(WordsOf(data, HostOrder)) < TWO32 <==> |data| <= LONGEST
  {
    var ws, n := WordsOf(data, HostOrder), |data| / 2;
    assert forall k | 0 <= k < n :: ws[k] == WordAt(data, HostOrder, k) == 0xFFFF;
    SumOfFull(ws[..n]);
    if |data| % 2 == 1 {
      assert ws[..n] == ws[..|ws| - 1] && ws[n] == WordAt(data, HostOrder, n) == 0xFF;
    } else {
      assert ws[..n] == ws;
    }
    hide WordsOf, WordAt;
  }

  // ---------- Storing the checksum ----------

  lemma {:induction false} SumUpdate(ws: seq<UInt16>, k: nat, c: UInt16)
    requires k < |ws| && ws[k] == 0
    ensures Sum(ws[k := c]) == Sum(ws) + c
  {
    var n, u := |ws| - 1, ws[k := c];
    if k == n {
      assert u[..n] == ws[..n];
    } else {
      SumUpdate(ws[..n], k, c);
      assert u[..n] == ws[..n][k := c];
    }
  }

  /** A message with a word stored at an even offset, low byte first. */
  function Stored(data: seq<Byte>, at: nat, c: UInt16): (r: seq<Byte>)
    requires at + 1 < |data|
    ensures |r| == |data|
  {
    data[at := c % 0x100][at + 1 := c / 0x100]
  }

  /** A message whose zeroed field receives the checksum has checksum 0. */
  lemma StoredChecksumVerifies(data: seq<Byte>, at: nat)
    requires at % 2 == 0 && at + 1 < |data| && data[at] == data[at + 1] == 0
    ensures ChecksumOf(Stored(data, at, ChecksumOf(data))) == 0
  {
    var ws, c := WordsOf(data, HostOrder), ChecksumOf(data);
    var us := WordsOf(Stored(data, at, c), HostOrder);
    assert us == ws[at / 2 := c];
    SumUpdate(ws, at / 2, c);
    OnesSumIsCanon(ws);
    OnesSumIsCanon(us);
    var k := CanonIs(Sum(ws));
    CanonCongruent(Sum(us), 0xFFFF, k);
  }

  // ---------- The byte order does not matter ----------

  function Swap(x: UInt16): UInt16 {
    x % 0x100 * 0x100 + x / 0x100
  }

  lemma {:induction false} SwappedSum(ws: seq<UInt16>, us: seq<UInt16>) returns (k: nat)
    requires |us| == |ws| && forall j | 0 <= j < |ws| :: us[j] == Swap(ws[j])
    ensures 0x100 * Sum(ws) == Sum(us) + 0xFFFF * k && (Sum(ws) == 0 <==> Sum(us) == 0)
  {
    if ws == [] {
      k := 0;
    } else {
      var n := |ws| - 1;
      k := SwappedSum(ws[..n], us[..n]);
      assert us[n] == Swap(ws[n]);
      k := k + ws[n] / 0x100;
    }
  }

  lemma OrdersSwap(data: seq<Byte>, k: nat)
    requires 2 * k < |data|
    ensures WordAt(data, NetworkOrder, k) == Swap(WordAt(data, HostOrder, k))
  {
  }

  lemma SwapComplement(c: UInt16)
    ensures Swap(0xFFFF - c) as int == 0xFFFF - Swap(c)
  {
  }

  lemma SwapsCanon(a: nat, b: nat, k: nat)
    requires 0x100 * a == b + 0xFFFF * k && (a == 0 <==> b == 0)
    ensures Canon(b) == Swap(Canon(a))
  {
    var m := CanonIs(a);
    var c := Canon(a);
    assert 0x100 * c == Swap(c) + 0xFFFF * (c / 0x100);
    CanonCongruent(b, Swap(c), c / 0x100 + 0x100 * m - k);
  }

  /**
   * The two bytes the host-order checksum is stored as are, read in network order, the checksum that
   * RFC 1071 defines on network-order words.
   */
  lemma ByteOrderIndependent(data: seq<Byte>)
    ensures Swap(ChecksumOf(data)) as int == 0xFFFF - OnesSum(WordsOf(data, NetworkOrder))
  {
    var ws, us := WordsOf(data, HostOrder), WordsOf(data, NetworkOrder);
    forall j | 0 <= j < |ws|
      ensures us[j] == Swap(ws[j])
    {
      OrdersSwap(data, j);
    }
    hide WordsOf, Sum, OnesSum, Canon, Swap;
    var k := SwappedSum(ws, us);
    SwapsCanon(Sum(ws), Sum(us), k);
    OnesSumIsCanon(ws);
    OnesSumIsCanon(us);
    SwapComplement(Canon(Sum(ws)));
  }

  /** An odd last byte counts as if a zero followed. */
  lemma OddIsPadded(data: seq<Byte>, order: Order)
    requires |data| % 2 == 1
    ensures WordsOf(data, order) == WordsOf(data + [0], order) && ChecksumOf(data) == ChecksumOf(data + [0])
  {
    hide OnesSum;
    assert WordsOf(data, order) == WordsOf(data + [0], order);
    assert WordsOf(data, HostOrder) == WordsOf(data + [0], HostOrder);
  }

  /** The numbers of the example in section 3 of RFC 1071. */
  lemma Rfc1071Example()
    ensures var data := [0x00, 0x01, 0xF2, 0x03, 0xF4, 0xF5, 0xF6, 0xF7];
            OnesSum(WordsOf(data, NetworkOrder)) == 0xDDF2 && ChecksumOf(data) == 0x0D22
  {
    var data: seq<Byte> := [0x00, 0x01, 0xF2, 0x03, 0xF4, 0xF5, 0xF6, 0xF7];
    assert WordsOf(data, NetworkOrder) == [0x0001, 0xF203, 0xF4F5, 0xF6F7];
    assert WordsOf(data, HostOrder) == [0x0100, 0x03F2, 0xF5F4, 0xF7F6];
    hide WordsOf;
    OnesSumOfFour(0x0001, 0xF203, 0xF4F5, 0xF6F7);
    OnesSumOfFour(0x0100, 0x03F2, 0xF5F4, 0xF7F6);
  }

  lemma OnesSumOfFour(a: UInt16, b: UInt16, c: UInt16, d: UInt16)
    ensures OnesSum([a, b, c, d]) == OnesAdd(OnesAdd(OnesAdd(OnesAdd(0, a), b), c), d)
  {
    assert OnesSum([]) == 0;
    assert [a][..0] == [] && OnesSum([a]) == OnesAdd(0, a);
    assert [a, b][..1] == [a] && OnesSum([a, b]) == OnesAdd(OnesAdd(0, a), b);
    assert [a, b, c][..2] == [a, b] && OnesSum([a, b, c]) == OnesAdd(OnesAdd(OnesAdd(0, a), b), c);
    assert [a, b, c, d][..3] == [a, b, c];
  }

  // ---------- The packet ----------

  /** Type 8, code 0, no checksum yet, the low half of the process id, sequence number 1. */
  function EchoHeader(pid: UInt32): (h: seq<Byte>)
    ensures |h| == 8 && h[2] == h[3] == 0
  {
    [8, 0, 0, 0, pid % TWO16 / 0x100, pid % 0x100, 0, 1]
  }

  /** The bytes 8, 9, ... behind the header. */
  function Pattern(): (p: seq<Byte>)
    ensures |p| == 56
  {
    seq(56, k requires 0 <= k < 56 => k + 8)
  }

  method WriteHeader(packet: array<Byte>, pid: UInt32)
    requires packet.Length == 64
    modifies packet
    ensures packet[..8] == EchoHeader(pid)
  {
    packet[0], packet[1], packet[2], packet[3] := 8, 0, 0, 0;
    packet[4], packet[5] := pid % TWO16 / 0x100, pid % 0x100;
    packet[6], packet[7] := 0, 1;
  }

  lemma PacketParts(pid: UInt32)
    ensures var h := EchoHeader(pid);
            h[0] == 8 && h[1] == 0 && h[6] == 0 && h[7] == 1 && h[4] as int * 0x100 + h[5] == pid % 0x1_0000
    ensures forall k | 0 <= k < 56 :: Pattern()[k] == k + 8
  {
  }

  /** The fields of a packet, whatever is stored as its checksum. */
  lemma PacketFields(pid: UInt32, c: UInt16, packet: seq<Byte>)
    requires packet == Stored(EchoHeader(pid) + Pattern(), 2, c)
    ensures |packet| == 64 && packet[0] == 8 && packet[1] == 0 && packet[6] == 0 && packet[7] == 1
    ensures packet[4] as int * 0x100 + packet[5] == pid % 0x1_0000
    ensures forall k | 8 <= k < 64 :: packet[k] == k
  {
    PacketParts(pid);
    hide EchoHeader, Pattern;
    assert forall k | 8 <= k < 64 :: packet[k] == Pattern()[k - 8];
  }

  /** Builds the echo request that ping sends; it carries a checksum that verifies. */
  method BuildEchoRequest(pid: UInt32) returns (packet: array<Byte>)
    ensures fresh(packet) && packet.Length == 64
    ensures packet[0] == 8 && packet[1] == 0 && packet[6] == 0 && packet[7] == 1
    ensures packet[4] as int * 0x100 + packet[5] == pid % 0x1_0000
    ensures forall k | 8 <= k < 64 :: packet[k] == k
    ensures var p := EchoHeader(pid) + Pattern(); packet[..] == Stored(p, 2, ChecksumOf(p))
    ensures ChecksumOf(packet[..]) == 0
  {
    hide ChecksumOf, EchoHeader, Pattern;
    packet := new Byte[64](_ => 0);
    WriteHeader(packet, pid);
    WritePattern(packet);
    ghost var p := packet[..];
    assert p == EchoHeader(pid) + Pattern();
    var c := CalculateICMPChecksum(packet);
    packet[2], packet[3] := c % 0x100, c / 0x100;
    StoredChecksumVerifies(p, 2);
    assert packet[..] == Stored(p, 2, c);
    hide *;
    PacketFields(pid, c, packet[..]);
  }

  method WritePattern(packet: array<Byte>)
    requires packet.Length == 64
    modifies packet
    ensures packet[..8] == old(packet[..8]) && packet[8..] == Pattern()
  {
    for i := 8 to 64
      invariant packet[..8] == old(packet[..8]) && forall k | 8 <= k < i :: packet[k] == k
    {
      packet[i] := i;
    }
    assert packet[8..] == Pattern();
  }
}
