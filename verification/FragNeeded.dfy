/** The ICMP Fragmentation Needed answer (RFC 1191) to a packet that is too large for the path. */
module FragNeeded {
  import opened Bits
  import opened Checksum
  import opened Addresses
  import opened Frames

  const IP := 14

  function TotalLen(s: seq<Byte>): Half
    requires |s| >= 34
  {
    BigEndian(s[IP + 2], s[IP + 3])
  }

  /** The flags and the fragment offset. */
  function FlagsOffset(s: seq<Byte>): Half
    requires |s| >= 34
  {
    BigEndian(s[IP + 6], s[IP + 7])
  }

  function HeaderLen(s: seq<Byte>): nat
    requires |s| >= 34
  {
    s[IP] % 0x10 * 4
  }

  /** The packets that get an answer: IPv4, larger than the path allows, don't-fragment set, not a later
      fragment, not ICMP, with a complete header in the first segment. */
  predicate Answered(s: seq<Byte>, mtu: Half) {
    && |s| >= 34
    && s[12] == 0x08 && s[13] == 0x00
    && s[IP] / 0x10 == 4
    && TotalLen(s) > mtu
    && FlagsOffset(s) / 0x4000 % 2 == 1
    && FlagsOffset(s) % 0x2000 == 0
    && s[IP + 9] != 1
    && HeaderLen(s) >= 20
    && |s| >= IP + HeaderLen(s)
  }

  /** The quoted part of the packet: its header and at most eight bytes behind it. */
  function Quote(s: seq<Byte>): seq<Byte>
    requires |s| >= 34 && |s| >= IP + HeaderLen(s)
  {
    s[IP..IP + HeaderLen(s) + Min(8, |s| - IP - HeaderLen(s))]
  }

  /** The Ethernet header: the addresses exchanged. */
  predicate EthernetPart(r: seq<Byte>, s: seq<Byte>) {
    && |r| >= 14 && |s| >= 14
    && r[0..6] == s[6..12] && r[6..12] == s[0..6] && r[12] == 0x08 && r[13] == 0x00
  }

  /** The IP header: no options, the length of what follows, from the access point `ap` to `dest`, verified. */
  ghost predicate IpPart(r: seq<Byte>, ap: seq<Byte>, dest: seq<Byte>) {
    && |r| >= 34
    && r[IP] == 0x45 && r[IP + 1] == 0 && BigEndian(r[IP + 2], r[IP + 3]) == |r| - 14
    && r[IP + 4] == r[IP + 5] == r[IP + 6] == r[IP + 7] == 0
    && r[IP + 8] == 64 && r[IP + 9] == 1
    && r[IP + 12..IP + 16] == ap && r[IP + 16..IP + 20] == dest
    && Verifies(Sum16(r[IP..IP + 20]))
  }

  /** The ICMP message: type 3, code 4, the next-hop MTU and the quote, verified. */
  ghost predicate IcmpPart(r: seq<Byte>, mtu: Half, quote: seq<Byte>) {
    && |r| == 42 + |quote|
    && r[34] == 3 && r[35] == 4 && r[38] == 0 && r[39] == 0 && BigEndian(r[40], r[41]) == mtu
    && r[42..] == quote
    && Verifies(Sum16(r[34..]))
  }

  /** The answer frame `r` to the frame `s`. */
  ghost predicate IsAnswer(r: seq<Byte>, s: seq<Byte>, mtu: Half, ap: seq<Byte>)
    requires Answered(s, mtu)
  {
    EthernetPart(r, s) && IpPart(r, ap, s[IP + 12..IP + 16]) && IcmpPart(r, mtu, Quote(s))
  }

  lemma PartsFrame(r: seq<Byte>, r': seq<Byte>, s: seq<Byte>, ap: seq<Byte>, dest: seq<Byte>)
    requires |r| == |r'| >= 34 && EthernetPart(r, s) && IpPart(r, ap, dest) && r'[..34] == r[..34]
    ensures EthernetPart(r', s) && IpPart(r', ap, dest)
  {
    assert forall i :: 0 <= i < 34 ==> r'[i] == r'[..34][i] == r[i];
    assert r'[IP..IP + 20] == r[IP..IP + 20];
    assert r'[IP + 12..IP + 16] == r[IP + 12..IP + 16];
    assert r'[IP + 16..IP + 20] == r[IP + 16..IP + 20];
  }

  method CopyInto(src: array<Byte>, from: nat, dst: array<Byte>, to: nat, n: nat)
    requires from + n <= src.Length && to + n <= dst.Length && src != dst
    modifies dst
    ensures dst[..] == old(dst[..to]) + src[from..from + n] + old(dst[to + n..])
  {
    forall i | 0 <= i < n {
      dst[to + i] := src[from + i];
    }
  }

  method PutWord(b: array<Byte>, k: nat, w: Half)
    requires k + 1 < b.Length
    modifies b
    ensures b[..] == WithWord(old(b[..]), k, w)
  {
    b[k] := w % 0x100;
    b[k + 1] := w / 0x100;
  }

  /** A header with its checksum filled in verifies, and only the field changed. */
  lemma FilledHeader(h: seq<Byte>, h': seq<Byte>, k: nat)
    requires k % 2 == 0 && 2 <= k && k + 1 < |h| && h[k] == h[k + 1] == 0 && h[0] > 0
    requires h' == WithWord(h, k, InetChksum(h))
    ensures Verifies(Sum16(h'))
  {
    SumPositive(h, 0);
    FilledInVerifies(0, h, k, InetChksum(h));
  }

  /** Computes the checksum of `b[from..to]` and stores it at `from + k`. */
  method FillChecksum(b: array<Byte>, from: nat, to: nat, k: nat)
    requires from + k + 1 < to <= b.Length && k % 2 == 0 && 2 <= k
    requires b[from] > 0 && b[from + k] == b[from + k + 1] == 0
    modifies b
    ensures Verifies(Sum16(b[from..to]))
    ensures forall i :: 0 <= i < b.Length && i !in {from + k, from + k + 1} ==> b[i] == old(b[i])
  {
    ghost var h := b[from..to];
    PutWord(b, from + k, InetChksum(b[from..to]));
    assert b[from..to] == WithWord(h, k, InetChksum(h));
    FilledHeader(h, b[from..to], k);
  }

  method WriteEthernet(b: array<Byte>, a: array<Byte>)
    requires b.Length >= 14 && a.Length >= 14 && a != b
    modifies b
    ensures EthernetPart(b[..], a[..])
  {
    CopyInto(a, 6, b, 0, 6);
    CopyInto(a, 0, b, 6, 6);
    b[12], b[13] := 0x08, 0x00;
  }

  /** The fields of the IP header in front of the addresses; the checksum field is zero. */
  method WriteIpFields(b: array<Byte>)
    requires 34 <= b.Length < 14 + 0x1_0000
    modifies b
    ensures b[IP] == 0x45 && b[IP + 1] == 0 && BigEndian(b[IP + 2], b[IP + 3]) == b.Length - 14
    ensures b[IP + 4] == b[IP + 5] == b[IP + 6] == b[IP + 7] == 0
    ensures b[IP + 8] == 64 && b[IP + 9] == 1 && b[IP + 10] == b[IP + 11] == 0
    ensures forall i :: 0 <= i < b.Length && !(IP <= i < IP + 12) ==> b[i] == old(b[i])
  {
    var len := b.Length - 14;
    b[IP], b[IP + 1] := 0x45, 0;
    b[IP + 2], b[IP + 3] := len / 0x100, len % 0x100;
    b[IP + 4], b[IP + 5] := 0, 0;
    b[IP + 6], b[IP + 7] := 0, 0;
    b[IP + 8], b[IP + 9] := 64, 1;
    b[IP + 10], b[IP + 11] := 0, 0;
  }

  /** Stores an address. */
  method PutAddress(b: array<Byte>, k: nat, addr: seq<Byte>)
    requires |addr| == 4 && k + 4 <= b.Length
    modifies b
    ensures b[k..k + 4] == addr
    ensures forall i :: 0 <= i < b.Length && !(k <= i < k + 4) ==> b[i] == old(b[i])
  {
    b[k], b[k + 1], b[k + 2], b[k + 3] := addr[0], addr[1], addr[2], addr[3];
  }

  /** Fills in the IP header of the answer. */
  method WriteIpHeader(b: array<Byte>, ap: seq<Byte>, dest: seq<Byte>)
    requires 34 <= b.Length < 14 + 0x1_0000 && |ap| == 4 && |dest| == 4
    modifies b
    ensures IpPart(b[..], ap, dest)
    ensures forall i :: 0 <= i < b.Length && !(IP <= i < IP + 20) ==> b[i] == old(b[i])
  {
    WriteIpFields(b);
    PutAddress(b, IP + 12, ap);
    PutAddress(b, IP + 16, dest);
    assert b[IP + 12..IP + 16] == ap;
    FillChecksum(b, IP, IP + 20, 10);
    assert b[..][IP..IP + 20] == b[IP..IP + 20];
    assert b[..][IP + 12..IP + 16] == b[IP + 12..IP + 16] == ap;
    assert b[..][IP + 16..IP + 20] == b[IP + 16..IP + 20] == dest;
  }

  /** Fills in the ICMP message of the answer: `a[IP..IP + n]` is the quoted part of the packet. */
  method WriteIcmp(b: array<Byte>, a: array<Byte>, n: nat, mtu: Half)
    requires b.Length == 42 + n && IP + n <= a.Length && a != b
    modifies b
    ensures IcmpPart(b[..], mtu, a[IP..IP + n])
    ensures forall i :: 0 <= i < 34 ==> b[i] == old(b[i])
  {
    b[34], b[35] := 3, 4;
    b[36], b[37] := 0, 0;
    b[38], b[39] := 0, 0;
    b[40], b[41] := mtu / 0x100, mtu % 0x100;
    CopyInto(a, IP, b, 42, n);
    ghost var quote := b[42..];
    FillChecksum(b, 34, b.Length, 2);
    assert b[..][42..] == b[42..] == quote;
    assert b[..][34..] == b[34..b.Length];
  }

  /** The tests in front of the answer. */
  method CheckAnswered(a: array<Byte>, mtu: Half) returns (ok: bool)
    ensures ok == Answered(a[..], mtu)
  {
    if a.Length < 14 + 20 {
      return false;
    }
    if a[12] != 0x08 || a[13] != 0x00 || a[IP] / 0x10 != 4 {
      return false;
    }
    if BigEndian(a[IP + 2], a[IP + 3]) <= mtu {
      return false;
    }
    var flagsOffset := BigEndian(a[IP + 6], a[IP + 7]);
    if flagsOffset / 0x4000 % 2 != 1 || flagsOffset % 0x2000 != 0 || a[IP + 9] == 1 {
      return false;
    }
    var ihl: nat := a[IP] % 0x10 * 4;
    ok := !(ihl < 20 || ihl > 60 || a.Length < 14 + ihl);
  }

  /** send_icmp_frag_needed: builds the answer, when there is to be one. Every read lies inside the segment and
      every byte of the answer is written. */
  method BuildAnswer(a: array<Byte>, mtu: Half, ap: seq<Byte>) returns (r: array?<Byte>)
    requires |ap| == 4
    ensures r != null <==> Answered(a[..], mtu)
    ensures r != null ==> fresh(r) && IsAnswer(r[..], a[..], mtu, ap)
  {
    var ok := CheckAnswered(a, mtu);
    if !ok {
      return null;
    }
    var ihl: nat := a[IP] % 0x10 * 4;
    var avail := if a.Length > 14 + ihl then a.Length - 14 - ihl else 0;
    if avail > 8 {
      avail := 8;
    }
    var b := new Byte[14 + 20 + 8 + ihl + avail](_ => 0);
    WriteEthernet(b, a);
    WriteIpHeader(b, ap, a[IP + 12..IP + 16]);
    ghost var r1 := b[..];
    assert EthernetPart(r1, a[..]);
    WriteIcmp(b, a, ihl + avail, mtu);
    assert b[..][..34] == r1[..34];
    PartsFrame(r1, b[..], a[..], ap, a[IP + 12..IP + 16]);
    r := b;
  }

  // ----- which packets -----

  lemma FlagsBits(f: IpFields)
    requires f.offset < 0x2000
    ensures FlagsWord(f) / 0x4000 % 2 == (if f.df then 1 else 0) && FlagsWord(f) % 0x2000 == f.offset
  {
  }

  /** A packet with its whole header in the segment is answered exactly if it is longer than the path allows, must not be
      fragmented, is no later fragment and is not ICMP. */
  lemma BuiltAnswered(h: seq<Byte>, ihl: nat, f: IpFields, options: seq<Byte>, rest: seq<Byte>, s: seq<Byte>, mtu: Half)
    requires Ethernet(h) && IpShape(ihl, f, options) && s == h + (Ipv4(ihl, f, options) + rest)
    ensures Answered(s, mtu) <==> f.len > mtu && f.df && f.offset == 0 && f.proto != 1
  {
    var r := Ipv4(ihl, f, options);
    Behind(h, r, rest, s);
    Ipv4At(s, 14, ihl, f, options, r);
    FlagsBits(f);
  }

  /** And it quotes that header and the first eight octets behind it, or as many as there are. */
  lemma BuiltQuote(h: seq<Byte>, ihl: nat, f: IpFields, options: seq<Byte>, rest: seq<Byte>, s: seq<Byte>)
    requires Ethernet(h) && IpShape(ihl, f, options) && s == h + (Ipv4(ihl, f, options) + rest)
    ensures |s| >= 34 && |s| >= IP + HeaderLen(s)
    ensures Quote(s) == Ipv4(ihl, f, options) + rest[..Bits.Min(8, |rest|)]
  {
    var r := Ipv4(ihl, f, options);
    Behind(h, r, rest, s);
    Ipv4At(s, 14, ihl, f, options, r);
  }

  /** No other frame is answered. */
  lemma OnlyIpv4(s: seq<Byte>, mtu: Half)
    requires Answered(s, mtu)
    ensures |s| >= 34 && Ethernet(s[..14]) && s[14] / 16 == 4 && s[14] % 16 >= 5 && |s| >= 14 + s[14] % 16 * 4
  {
  }
}
