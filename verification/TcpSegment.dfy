/** TCP segments as bytes: the header, and the Internet checksum over pseudo-header and segment. */
module TcpSegment {
  import opened Bytes
  import opened TwosComplement

  const TCP_PROTOCOL: nat := 6
  const HEADER: nat := 20
  const MSS: nat := 1400
  const WINDOW: nat := 4096

  const FIN: nat := 1
  const SYN: nat := 2
  const RST: nat := 4
  const PSH: nat := 8
  const ACK: nat := 16

  predicate HasFlag(flags: nat, f: nat)
    requires f > 0
  {
    flags / f % 2 == 1
  }

  datatype Segment = Segment(srcPort: nat, dstPort: nat, seqNum: nat, ackNum: nat, flags: nat, data: seq<u8>)

  ghost predicate InRange(g: Segment) {
    g.srcPort < 65536 && g.dstPort < 65536 && g.seqNum < 0x1_0000_0000 && g.ackNum < 0x1_0000_0000 && g.flags < 256
  }

  // ----- the checksum -----

  /** The 16-bit big-endian words; an odd last byte is padded with zero. */
  function WordSum(s: seq<u8>): (n: nat)
    ensures n <= 65535 * ((|s| + 1) / 2)
  {
    if |s| == 0 then 0
    else if |s| == 1 then s[0] as int * 256
    else s[0] as int * 256 + s[1] as int + WordSum(s[2..])
  }

  lemma {:induction false} WordSumAppend(a: seq<u8>, b: seq<u8>)
    requires |a| % 2 == 0
    ensures WordSum(a + b) == WordSum(a) + WordSum(b)
    decreases |a|
  {
    if a == [] {
      assert a + b == b;
    } else {
      assert (a + b)[2..] == a[2..] + b;
      WordSumAppend(a[2..], b);
    }
  }

  /** End-around carries until 16 bits are left. */
  function Fold(n: nat): (r: nat)
    ensures r < 65536
    decreases n
  {
    if n < 65536 then n else Fold(n % 65536 + n / 65536)
  }

  /** Folding keeps the remainder modulo 65535 and is zero only for zero. */
  lemma ModShift(m: nat, q: nat)
    ensures (m + 65535 * q) % 65535 == m % 65535
  {
  }

  lemma {:induction false} FoldIs(n: nat)
    ensures Fold(n) % 65535 == n % 65535 && (Fold(n) == 0 <==> n == 0)
    decreases n
  {
    if n >= 65536 {
      var m := n % 65536 + n / 65536;
      assert n == m + 65535 * (n / 65536);
      ModShift(m, n / 65536);
      FoldIs(m);
    }
  }

  function PseudoSum(srcIp: nat, dstIp: nat, len: nat): nat {
    srcIp / 65536 + srcIp % 65536 + dstIp / 65536 + dstIp % 65536 + TCP_PROTOCOL + len
  }

  function Checksum(srcIp: nat, dstIp: nat, seg: seq<u8>): (c: nat)
    ensures c < 65536
  {
    65535 - Fold(PseudoSum(srcIp, dstIp, |seg|) + WordSum(seg))
  }

  /** Putting the checksum of the rest into a zero word makes the whole verify, from either end. */
  lemma ChecksumVerifies(srcIp: nat, dstIp: nat, a: seq<u8>, b: seq<u8>)
    requires |a| % 2 == 0
    ensures var c := Checksum(srcIp, dstIp, a + [0, 0] + b);
      Checksum(dstIp, srcIp, a + BeBytes(c, 2) + b) == 0
  {
    hide Fold, WordSum, BeBytes;
    var s0 := a + [0, 0] + b;
    var c := Checksum(srcIp, dstIp, s0);
    var s1 := a + BeBytes(c, 2) + b;
    TwoBytes(c);
    WordSumMiddle(a, [0, 0], b);
    WordSumMiddle(a, BeBytes(c, 2), b);
    var n := PseudoSum(srcIp, dstIp, |s0|) + WordSum(s0);
    FoldIs(n);
    FoldIs(n + c);
    assert WordSum(s1) == WordSum(s0) + c;
    assert c == 65535 - Fold(n);
    OnesComplement(n, Fold(n), c, Fold(n + c));
  }

  lemma WordSumMiddle(a: seq<u8>, w: seq<u8>, b: seq<u8>)
    requires |a| % 2 == 0 && |w| == 2
    ensures WordSum(a + w + b) == WordSum(a) + (w[0] as int * 256 + w[1] as int) + WordSum(b)
  {
    WordSumAppend(a + w, b);
    WordSumAppend(a, w);
    assert w[2..] == [];
  }

  lemma OnesComplement(n: nat, f: nat, c: nat, g: nat)
    requires f < 65536 && f % 65535 == n % 65535 && c == 65535 - f
    requires g < 65536 && g % 65535 == (n + c) % 65535 && n > 0 && g != 0
    ensures g == 65535
  {
    assert (n + c) % 65535 == (f + c) % 65535 by {
      assert n - f == 65535 * ((n - f) / 65535);
    }
  }

  /** Adding up a segment's words, two bytes at a time. */
  method SumBytes(start: nat, seg: seq<u8>) returns (sum: nat)
    ensures sum == start + WordSum(seg)
  {
    sum := start;
    var k := 0;
    assert seg[0..] == seg;
    while |seg| - k > 1
      invariant k <= |seg| && sum + WordSum(seg[k..]) == start + WordSum(seg)
    {
      assert seg[k..][2..] == seg[k + 2..];
      sum := sum + seg[k] as int * 256 + seg[k + 1] as int;
      k := k + 2;
    }
    if |seg| - k == 1 {
      sum := sum + seg[k] as int * 256;
    }
  }

  method TcpChecksum(srcIp: nat, dstIp: nat, seg: seq<u8>) returns (c: nat)
    requires srcIp < 0x1_0000_0000 && dstIp < 0x1_0000_0000 && |seg| <= 65535
    ensures c == Checksum(srcIp, dstIp, seg)
  {
    var sum: nat := srcIp / 65536 + srcIp % 65536;
    sum := sum + dstIp / 65536 + dstIp % 65536;
    sum := sum + TCP_PROTOCOL;
    sum := sum + |seg|;
    sum := SumBytes(sum, seg);
    assert sum < 0x1_0000_0000;
    while sum / 65536 != 0
      invariant Fold(sum) == Fold(PseudoSum(srcIp, dstIp, |seg|) + WordSum(seg))
      decreases sum
    {
      sum := sum % 65536 + sum / 65536;
    }
    c := 65535 - sum;
  }

  // ----- the header -----

  /** The header up to the checksum. */
  function Head(g: Segment): (h: seq<u8>)
    requires g.flags < 256
    ensures |h| == 16
  {
    BeBytes(g.srcPort, 2) + BeBytes(g.dstPort, 2) + BeBytes(g.seqNum, 4) + BeBytes(g.ackNum, 4)
    + [0x50, g.flags as u8] + BeBytes(WINDOW, 2)
  }

  function Encode(g: Segment, srcIp: nat, dstIp: nat): seq<u8>
    requires g.flags < 256
  {
    var c := Checksum(srcIp, dstIp, Head(g) + [0, 0] + ([0, 0] + g.data));
    Head(g) + BeBytes(c, 2) + ([0, 0] + g.data)
  }

  datatype Parsed = Seg(g: Segment) | Malformed

  /** What the receiver reads from a segment; options are skipped. */
  function Parse(b: seq<u8>): Parsed {
    if |b| < HEADER then Malformed
    else
      var hdrLen := b[12] as int / 16 * 4;
      if hdrLen < HEADER || hdrLen > |b| then Malformed
      else Seg(Segment(BeVal(b[..2]), BeVal(b[2..4]), BeVal(b[4..8]), BeVal(b[8..12]), b[13] as int, b[hdrLen..]))
  }

  lemma Fields(g: Segment, b: seq<u8>)
    requires InRange(g) && |b| >= HEADER && b[..16] == Head(g)
    ensures b[..2] == BeBytes(g.srcPort, 2) && b[2..4] == BeBytes(g.dstPort, 2)
    ensures b[4..8] == BeBytes(g.seqNum, 4) && b[8..12] == BeBytes(g.ackNum, 4)
    ensures b[12] == 0x50 && b[13] as int == g.flags
  {
    hide BeBytes;
    var h := Head(g);
    assert b[..2] == h[..2] && b[2..4] == h[2..4] && b[4..8] == h[4..8] && b[8..12] == h[8..12];
    assert b[12] == h[12] && b[13] == h[13];
  }

  /** A segment that is sent passes the receiver's check and reads back as what it was. */
  lemma SentIsReceived(g: Segment, srcIp: nat, dstIp: nat)
    requires InRange(g)
    ensures var b := Encode(g, srcIp, dstIp);
      Checksum(dstIp, srcIp, b) == 0 && Parse(b) == Seg(g)
  {
    hide BeBytes, Checksum, BeVal;
    var b := Encode(g, srcIp, dstIp);
    ChecksumVerifies(srcIp, dstIp, Head(g), [0, 0] + g.data);
    assert b[..16] == Head(g) && b[20..] == g.data;
    Fields(g, b);
    Pow2Values();
    Pow2Add(16, 16);
    BeValOfBytes(g.srcPort, 2);
    BeValOfBytes(g.dstPort, 2);
    BeValOfBytes(g.seqNum, 4);
    BeValOfBytes(g.ackNum, 4);
  }

  /** Where each field of a segment is, from the header's layout in RFC 9293: ports at 0 and 2, numbers at 4 and 8,
      a header of 5 words, the flags at 13, the window at 14, the checksum at 16 and no urgent data. */
  lemma WireFormat(g: Segment, srcIp: nat, dstIp: nat)
    requires InRange(g)
    ensures var b := Encode(g, srcIp, dstIp);
      && |b| == 20 + |g.data| && b[20..] == g.data
      && BeVal(b[0..2]) == g.srcPort && BeVal(b[2..4]) == g.dstPort
      && BeVal(b[4..8]) == g.seqNum && BeVal(b[8..12]) == g.ackNum
      && b[12] == 0x50 && b[13] as int == g.flags && BeVal(b[14..16]) == 4096 && b[18] == 0 && b[19] == 0
  {
    hide BeBytes, Checksum, BeVal;
    var b := Encode(g, srcIp, dstIp);
    assert b[..16] == Head(g);
    assert b[0..2] == b[..2] && b[14..16] == Head(g)[14..16] == BeBytes(WINDOW, 2);
    Fields(g, b);
    Pow2Values();
    Pow2Add(16, 16);
    BeValOfBytes(g.srcPort, 2);
    BeValOfBytes(g.dstPort, 2);
    BeValOfBytes(g.seqNum, 4);
    BeValOfBytes(g.ackNum, 4);
    BeValOfBytes(WINDOW, 2);
  }

  /** A segment verifies when the sum over both addresses, the protocol number 6, the length and all its 16-bit
      words is a multiple of 65535 other than zero. */
  lemma VerifiesWhen(srcIp: nat, dstIp: nat, seg: seq<u8>)
    ensures Checksum(srcIp, dstIp, seg) == 0 <==>
      (srcIp / 65536 + srcIp % 65536 + dstIp / 65536 + dstIp % 65536 + 6 + |seg| + WordSum(seg)) % 65535 == 0
  {
    hide Fold, WordSum;
    FoldIs(PseudoSum(srcIp, dstIp, |seg|) + WordSum(seg));
  }

  /** The words are read with the first byte high, and a last odd byte as one with zero behind it. */
  lemma SumOfWord(v: nat, s: seq<u8>, last: u8)
    requires v < 65536
    ensures WordSum(BeBytes(v, 2) + s) == v + WordSum(s) && WordSum([last]) == 256 * last as int && WordSum([]) == 0
  {
    TwoBytes(v);
    assert (BeBytes(v, 2) + s)[2..] == s;
  }
}
