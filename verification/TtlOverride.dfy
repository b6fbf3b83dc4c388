/** The TTL override of the uplink: the hop limit of outgoing packets is rewritten in place and the header
    checksum updated for it. */
module TtlOverride {
  import opened Bits
  import opened Checksum
  import opened Addresses
  import opened Frames

  const TTL := 8
  const CHECKSUM := 10

  /** Where the IP header starts: behind an Ethernet header, or at once on a PPP link. */
  function HeaderAt(eth: bool): nat {
    if eth then 14 else 0
  }

  /** Which packets are rewritten; `s` is the first segment of the packet. */
  predicate Applies(s: seq<Byte>, eth: bool, ttl: Byte) {
    var off := HeaderAt(eth);
    && ttl > 0
    && |s| >= off + 20
    && (eth ==> s[12] == 0x08 && s[13] == 0x00)
    && s[off] / 0x10 == 4
  }

  function Rewritten(s: seq<Byte>, eth: bool, ttl: Byte): seq<Byte>
    requires |s| >= HeaderAt(eth) + 20
  {
    var off := HeaderAt(eth);
    Patched(s, off + TTL, off + CHECKSUM, LittleEndian(ttl, s[off + TTL + 1]))
  }

  /** The rewrite in both output hooks. */
  method OverrideTtl(a: array<Byte>, eth: bool, ttl: Byte)
    modifies a
    ensures a[..] == if Applies(old(a[..]), eth, ttl) then Rewritten(old(a[..]), eth, ttl) else old(a[..])
  {
    var off := HeaderAt(eth);
    if ttl > 0 && a.Length >= off + 20 {
      if !eth || (a[12] == 0x08 && a[13] == 0x00) {
        if a[off] / 0x10 == 4 {
          ghost var s := a[..];
          var oldTtlProto := LittleEndian(a[off + TTL], a[off + TTL + 1]);
          a[off + TTL] := ttl;
          var newTtlProto := LittleEndian(a[off + TTL], a[off + TTL + 1]);
          var hc := LittleEndian(a[off + CHECKSUM], a[off + CHECKSUM + 1]);
          var c := UpdateChecksum(hc, oldTtlProto, newTtlProto);
          a[off + CHECKSUM] := c % 0x100;
          a[off + CHECKSUM + 1] := c / 0x100;
          HalfBytes(ttl, s[off + TTL + 1]);
          assert a[..] == Rewritten(s, eth, ttl);
        }
      }
    }
  }

  lemma HalfBytes(lo: Byte, hi: Byte)
    ensures LittleEndian(lo, hi) % 0x100 == lo && LittleEndian(lo, hi) / 0x100 == hi
  {
  }

  /** Only the TTL and the checksum change, and the TTL is the configured one. */
  lemma RewriteFrame(s: seq<Byte>, eth: bool, ttl: Byte)
    requires Applies(s, eth, ttl)
    ensures var s', off := Rewritten(s, eth, ttl), HeaderAt(eth);
            && |s'| == |s| && s'[off + TTL] == ttl
            && forall i :: 0 <= i < |s| && i !in {off + TTL, off + CHECKSUM, off + CHECKSUM + 1} ==> s'[i] == s[i]
  {
    HalfBytes(ttl, s[HeaderAt(eth) + TTL + 1]);
  }

  /** The header of `n` bytes; options may continue in the next segment. */
  function Header(s: seq<Byte>, rest: seq<Byte>, eth: bool, n: nat): seq<Byte>
    requires HeaderAt(eth) + n <= |s| + |rest|
  {
    (s + rest)[HeaderAt(eth)..HeaderAt(eth) + n]
  }

  lemma HeaderPatched(s: seq<Byte>, rest: seq<Byte>, eth: bool, ttl: Byte, n: nat)
    requires Applies(s, eth, ttl) && n >= 20 && HeaderAt(eth) + n <= |s| + |rest|
    ensures var h := Header(s, rest, eth, n);
            Header(Rewritten(s, eth, ttl), rest, eth, n) == Patched(h, TTL, CHECKSUM, LittleEndian(ttl, h[TTL + 1]))
  {
  }

  /** For every IPv4 header of at least 20 bytes: if its checksum was what a full computation gives, it is so
      after the rewrite; and the receiver accepts the new header exactly if it would have accepted the old one.
      The header length is the one the header states. */
  lemma HeaderStaysCorrect(s: seq<Byte>, rest: seq<Byte>, eth: bool, ttl: Byte, n: nat)
    requires Applies(s, eth, ttl)
    requires n == s[HeaderAt(eth)] % 0x10 * 4 && n >= 20 && HeaderAt(eth) + n <= |s| + |rest|
    ensures var h, h' := Header(s, rest, eth, n), Header(Rewritten(s, eth, ttl), rest, eth, n);
            && (WordAt(h, CHECKSUM) == Recomputed(0, h, CHECKSUM) ==> WordAt(h', CHECKSUM) == Recomputed(0, h', CHECKSUM))
            && (Verifies(Sum16(h')) <==> Verifies(Sum16(h)))
  {
    var h := Header(s, rest, eth, n);
    var h' := Header(Rewritten(s, eth, ttl), rest, eth, n);
    var m' := LittleEndian(ttl, h[TTL + 1]);
    HeaderPatched(s, rest, eth, ttl, n);
    assert h[0] == s[HeaderAt(eth)] > 0;
    PatchVerifies(0, h, TTL, CHECKSUM, 0, m', h');
    if WordAt(h, CHECKSUM) == Recomputed(0, h, CHECKSUM) {
      PatchExact(0, h, TTL, CHECKSUM, 0, m', h');
    }
  }

  // ----- which packets -----

  lemma TtlSet(ihl: nat, f: IpFields, options: seq<Byte>, ttl: Byte, sum: Half)
    requires IpShape(ihl, f, options)
    ensures Ipv4(ihl, f.(ttl := ttl, sum := sum), options)
         == Ipv4(ihl, f, options)[8 := ttl][10 := sum / 0x100][11 := sum % 0x100]
  {
  }

  /** Every IPv4 packet is rewritten when a hop limit is configured, whatever its other fields, options and payload are:
      it is the same packet with that hop limit and another header checksum. */
  lemma BuiltRewritten(eth: bool, h: seq<Byte>, ihl: nat, f: IpFields, options: seq<Byte>, rest: seq<Byte>, s: seq<Byte>,
                       ttl: Byte) returns (sum: Half)
    requires (if eth then Ethernet(h) else h == []) && IpShape(ihl, f, options) && ttl > 0
    requires s == h + (Ipv4(ihl, f, options) + rest)
    ensures Applies(s, eth, ttl)
    ensures Rewritten(s, eth, ttl) == h + (Ipv4(ihl, f.(ttl := ttl, sum := sum), options) + rest)
  {
    var r, o := Ipv4(ihl, f, options), |h|;
    Behind(h, r, rest, s);
    Ipv4At(s, o, ihl, f, options, r);
    var s' := Rewritten(s, eth, ttl);
    var hi, lo := s'[o + 10], s'[o + 11];
    sum := BigEndian(hi, lo);
    assert sum / 0x100 == hi && sum % 0x100 == lo;
    TtlSet(ihl, f, options, ttl, sum);
    RewriteFrame(s, eth, ttl);
    PatchedInside(h, r, rest, s, s', ttl, hi, lo);
  }

  lemma PatchedInside(h: seq<Byte>, r: seq<Byte>, rest: seq<Byte>, s: seq<Byte>, s': seq<Byte>, ttl: Byte, hi: Byte, lo: Byte)
    requires |r| >= 20 && s == h + (r + rest) && |s'| == |s|
    requires s'[|h| + 8] == ttl && s'[|h| + 10] == hi && s'[|h| + 11] == lo
    requires forall i :: 0 <= i < |s| && i !in {|h| + 8, |h| + 10, |h| + 11} ==> s'[i] == s[i]
    ensures s' == h + (r[8 := ttl][10 := hi][11 := lo] + rest)
  {
  }

  /** Nothing else is: no hop limit is configured, or it is not IPv4. */
  lemma OnlyIpv4(s: seq<Byte>, eth: bool, ttl: Byte)
    requires Applies(s, eth, ttl)
    ensures ttl > 0 && |s| >= 20 && (eth ==> |s| >= 34 && Ethernet(s[..14]) && s[14] / 16 == 4) && (!eth ==> s[0] / 16 == 4)
  {
  }
}
