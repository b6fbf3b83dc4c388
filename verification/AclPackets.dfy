/** Which flow the filter finds in a packet, and the packets it does not recognise. */
module AclPackets {
  import opened Bits
  import opened Addresses
  import opened Wrappers
  import opened Acl
  import opened Frames

  // ----- IPv4 packets -----

  /** The ports at the beginning of a TCP or UDP header. */
  function Ports(sPort: Half, dPort: Half): (r: seq<Byte>)
    ensures |r| == 4
  {
    Be16(sPort) + Be16(dPort)
  }

  /** A whole TCP or UDP header is there: `rest` follows the ports. */
  predicate HasPorts(proto: Byte, rest: seq<Byte>) {
    (proto == 6 && |rest| >= 16) || (proto == 17 && |rest| >= 4)
  }

  /** The filter finds in a raw IPv4 packet the addresses and the protocol it was built from, and the ports if a whole
      TCP or UDP header follows the IP header, with or without options. */
  lemma ParseBuilt(ihl: nat, f: IpFields, options: seq<Byte>, sPort: Half, dPort: Half, rest: seq<Byte>, p: seq<Byte>)
    requires IpShape(ihl, f, options) && p == Ipv4(ihl, f, options) + (Ports(sPort, dPort) + rest)
    ensures ParseFlow(p) == Some(if HasPorts(f.proto, rest) then Flow(f.src, f.dest, f.proto, sPort, dPort)
                                 else Flow(f.src, f.dest, f.proto, 0, 0))
  {
    var r := Ipv4(ihl, f, options);
    assert p[0..|r|] == r;
    Ipv4At(p, 0, ihl, f, options, r);
    PortsBehind(r, sPort, dPort, rest, p, 4 * ihl);
  }

  lemma PortsBehind(r: seq<Byte>, sPort: Half, dPort: Half, rest: seq<Byte>, p: seq<Byte>, t: nat)
    requires p == r + (Ports(sPort, dPort) + rest) && t == |r|
    ensures BigEndian(p[t], p[t + 1]) == sPort && BigEndian(p[t + 2], p[t + 3]) == dPort
  {
    Be16Word(sPort);
    Be16Word(dPort);
    var s := Ports(sPort, dPort);
    assert p[t] == s[0] && p[t + 1] == s[1] && p[t + 2] == s[2] && p[t + 3] == s[3];
  }

  /** So a packet is dropped exactly if the first rule that matches what it was built from denies. */
  lemma BuiltDenied(rules: seq<Entry>, ihl: nat, f: IpFields, options: seq<Byte>, g: Flow, rest: seq<Byte>, p: seq<Byte>)
    requires IpShape(ihl, f, options) && p == Ipv4(ihl, f, options) + (Ports(g.sPort, g.dPort) + rest)
    requires g.src == f.src && g.dest == f.dest && g.proto == f.proto
    requires HasPorts(f.proto, rest) || (g.sPort == 0 && g.dPort == 0)
    ensures Denies(Verdict(rules, p)) <==> exists i: nat :: Decides(rules, g, i) && rules[i].allow % 2 == 0
  {
    ParseBuilt(ihl, f, options, g.sPort, g.dPort, rest, p);
    DeniedExactly(rules, g);
  }

  /** The verdict on a flow: the deciding rule's action in the lowest bit, its monitor flag in the next and nothing else;
      without a deciding rule 0xFF. */
  lemma VerdictBits(rules: seq<Entry>, g: Flow)
    ensures forall i: nat :: Decides(rules, g, i) ==>
              && FlowVerdict(rules, g) < 4
              && FlowVerdict(rules, g) % 2 == rules[i].allow % 2
              && FlowVerdict(rules, g) / 2 % 2 == rules[i].allow / 2 % 2
    ensures (forall i: nat :: !Decides(rules, g, i)) ==> FlowVerdict(rules, g) == 0xFF
  {
    forall i: nat | Decides(rules, g, i)
      ensures FlowVerdict(rules, g) < 4
      ensures FlowVerdict(rules, g) % 2 == rules[i].allow % 2 && FlowVerdict(rules, g) / 2 % 2 == rules[i].allow / 2 % 2
    {
      DecidedBits(rules, g, i);
    }
    var k := FirstMatch(rules, g);
    assert k < |rules| ==> Decides(rules, g, k);
  }

  lemma DecidedBits(rules: seq<Entry>, g: Flow, i: nat)
    requires Decides(rules, g, i)
    ensures FlowVerdict(rules, g) < 4
    ensures FlowVerdict(rules, g) % 2 == rules[i].allow % 2 && FlowVerdict(rules, g) / 2 % 2 == rules[i].allow / 2 % 2
  {
    FirstMatchIs(rules, g, i);
    LowBits(rules[i].allow);
  }

  lemma LowBits(a: Byte)
    ensures a % 4 < 4 && a % 4 % 2 == a % 2 && a % 4 / 2 % 2 == a / 2 % 2
  {
  }

  /** The same of a packet: what the hooks read of it is the first matching rule's action and monitor flag. */
  lemma BuiltVerdict(rules: seq<Entry>, ihl: nat, f: IpFields, options: seq<Byte>, g: Flow, rest: seq<Byte>, p: seq<Byte>)
    requires IpShape(ihl, f, options) && p == Ipv4(ihl, f, options) + (Ports(g.sPort, g.dPort) + rest)
    requires g.src == f.src && g.dest == f.dest && g.proto == f.proto
    requires HasPorts(f.proto, rest) || (g.sPort == 0 && g.dPort == 0)
    ensures forall i: nat :: Decides(rules, g, i) ==>
              && Verdict(rules, p) < 4
              && Verdict(rules, p) % 2 == rules[i].allow % 2
              && Verdict(rules, p) / 2 % 2 == rules[i].allow / 2 % 2
    ensures (forall i: nat :: !Decides(rules, g, i)) ==> Verdict(rules, p) == 0xFF
  {
    ParseBuilt(ihl, f, options, g.sPort, g.dPort, rest, p);
    VerdictBits(rules, g);
  }

  /** A packet without a flow has no verdict: nothing is dropped or monitored. */
  lemma UnparsedVerdict(rules: seq<Entry>, p: seq<Byte>)
    ensures ParseFlow(p).None? ==> Verdict(rules, p) == 0xFF && !Denies(Verdict(rules, p))
  {
  }

  /** A matching packet is counted once: at the deciding rule and nowhere else. */
  lemma HitExactly(rules: seq<Entry>, g: Flow, k: nat)
    requires k < |rules|
    ensures Hit(rules, g)[k] == if Decides(rules, g, k)
                                then rules[k].(hits := if rules[k].hits == 0xFFFF_FFFF then 0 else rules[k].hits + 1)
                                else rules[k]
  {
    if Decides(rules, g, k) {
      FirstMatchIs(rules, g, k);
    }
  }

  function Up(n: Word, counts: bool): Word {
    if !counts then n else if n == 0xFFFF_FFFF then 0 else n + 1
  }

  /** Exactly one of the counters goes up: that of packets without a match, of allowed or of denied ones. */
  lemma CountedExactly(st: Stats, verdict: Byte)
    ensures Counted(st, verdict) == Stats(Up(st.allowed, verdict != 0xFF && verdict % 2 == 1),
                                          Up(st.denied, verdict % 2 == 0),
                                          Up(st.nomatch, verdict == 0xFF))
  {
  }

  // ----- Ethernet frames -----

  predicate IsIpv4(q: seq<Byte>) {
    |q| >= 20 && q[0] / 16 == 4 && q[0] % 16 >= 5
  }

  /** The destination address of the frame begins like an IPv4 or an IPv6 header. */
  predicate LooksRaw(h: seq<Byte>)
    requires |h| >= 1
  {
    h[0] / 16 == 6 || (h[0] / 16 == 4 && h[0] % 16 >= 5)
  }

  /** The filter skips the Ethernet header exactly if the first octet of the destination address does not look like the
      beginning of a raw packet. */
  lemma FrameRecognised(h: seq<Byte>, q: seq<Byte>)
    requires Ethernet(h)
    ensures HeaderAt(h + q) == Some(14) <==> !LooksRaw(h)
  {
    var p := h + q;
    assert p[0] == h[0] && p[12] == h[12] && p[13] == h[13];
  }

  /** A frame that is recognised has the flow of the packet it carries, and so its verdict. */
  lemma FramedFlow(rules: seq<Entry>, h: seq<Byte>, q: seq<Byte>)
    requires Ethernet(h) && IsIpv4(q) && !LooksRaw(h)
    ensures ParseFlow(h + q).Some? && ParseFlow(h + q) == ParseFlow(q)
    ensures Verdict(rules, h + q) == Verdict(rules, q)
  {
    FrameRecognised(h, q);
    var p, ihl := h + q, q[0] % 16 * 4;
    assert p[14] == q[0] && p[23] == q[9];
    assert p[26] == q[12] && p[27] == q[13] && p[28] == q[14] && p[29] == q[15];
    assert p[30] == q[16] && p[31] == q[17] && p[32] == q[18] && p[33] == q[19];
    if PortsFit(q, ihl, q[9]) {
      assert p[14 + ihl] == q[ihl] && p[15 + ihl] == q[ihl + 1] && p[16 + ihl] == q[ihl + 2] && p[17 + ihl] == q[ihl + 3];
    }
  }

  /** A frame to an address that begins with 6 passes every list unread; one to 45 to 4F is read as if its Ethernet
      header were an IP header. */
  lemma FrameMisread(rules: seq<Entry>, h: seq<Byte>, q: seq<Byte>)
    requires Ethernet(h) && LooksRaw(h)
    ensures h[0] / 16 == 6 ==> Verdict(rules, h + q) == NO_MATCH
    ensures h[0] / 16 == 4 ==> HeaderAt(h + q) == Some(0)
  {
    assert (h + q)[0] == h[0];
  }

  /** The type of an Ethernet frame. */
  function EtherType(h: seq<Byte>): Half
    requires |h| == 14
  {
    BigEndian(h[12], h[13])
  }

  /** Frames of another type than IPv4 pass every list, unless their destination address begins with 4: ARP, IPv6 and
      802.3 frames pass even then if it is 40 to 44. */
  lemma OtherFramesPass(rules: seq<Entry>, h: seq<Byte>, q: seq<Byte>)
    requires |h| == 14 && EtherType(h) != 0x0800
    ensures h[0] / 16 != 4 ==> Verdict(rules, h + q) == NO_MATCH
    ensures h[0] / 16 == 4 && h[0] % 16 < 5 && (EtherType(h) in {0x0806, 0x86DD} || EtherType(h) < 0x0600) ==>
              Verdict(rules, h + q) == NO_MATCH
  {
    var p := h + q;
    assert p[0] == h[0] && p[12] == h[12] && p[13] == h[13];
  }

  /** So does everything too short for an IP header, behind an Ethernet header or not. */
  lemma ShortPasses(rules: seq<Entry>, h: seq<Byte>, q: seq<Byte>)
    ensures |q| < 20 ==> Verdict(rules, q) == NO_MATCH
    ensures Ethernet(h) && !LooksRaw(h) && (|q| < 20 || q[0] / 16 != 4) ==> Verdict(rules, h + q) == NO_MATCH
  {
    if Ethernet(h) && !LooksRaw(h) {
      FrameRecognised(h, q);
      assert q != [] ==> (h + q)[14] == q[0];
    }
  }

  const DENY_ANY := Entry(0, 0, 0, 0, 0, 0, 0, 0, 0, true)

  lemma DenyAny(q: seq<Byte>)
    requires IsIpv4(q)
    ensures Denies(Verdict([DENY_ANY], q))
  {
    assert ParseFlow(q).Some?;
    assert Matches(DENY_ANY, ParseFlow(q).value);
  }

  /** A rule that denies exactly the flows that agree with `e`'s fields tells two flows apart if it matches one. */
  lemma OneRule(e: Entry, f: Flow, g: Flow)
    requires e.allow == 0 && Matches(e, f) != Matches(e, g)
    ensures FlowVerdict([e], f) != FlowVerdict([e], g)
  {
  }

  lemma AndAll(x: Word)
    ensures And(x, ALL_ONES) == x && And(x, 0) == 0
  {
    Pow2Table();
    AndOnes(x, 32);
  }

  /** Only TCP and UDP have ports. */
  predicate PortsAllowed(f: Flow) {
    f.sPort != 0 || f.dPort != 0 ==> f.proto == TCP || f.proto == UDP
  }

  /** Different flows are told apart by some list of one rule. */
  lemma FlowsTellApart(f: Flow, g: Flow) returns (e: Entry)
    requires f != g && PortsAllowed(f) && PortsAllowed(g)
    ensures FlowVerdict([e], f) != FlowVerdict([e], g)
  {
    e := DENY_ANY;
    AndAll(f.src);
    AndAll(g.src);
    AndAll(f.dest);
    AndAll(g.dest);
    if f.src != g.src {
      e := e.(src := f.src, sMask := ALL_ONES);
    } else if f.dest != g.dest {
      e := e.(dest := f.dest, dMask := ALL_ONES);
    } else if f.proto != g.proto {
      e := e.(proto := if f.proto != 0 then f.proto else g.proto);
    } else if f.sPort != g.sPort {
      e := e.(sPort := if f.sPort != 0 then f.sPort else g.sPort);
    } else {
      e := e.(dPort := if f.dPort != 0 then f.dPort else g.dPort);
    }
    OneRule(e, f, g);
  }

  /** A frame and its packet have the same verdict for every list if and only if the frame's destination address does
      not look like the beginning of a raw packet, or the addresses, protocol and ports that are read at the wrong place
      happen to be those of the packet. */
  lemma FramesAgreeExactly(h: seq<Byte>, q: seq<Byte>)
    requires Ethernet(h) && IsIpv4(q)
    ensures (forall rules :: Verdict(rules, h + q) == Verdict(rules, q))
       <==> !LooksRaw(h) || (h[0] / 16 == 4 && ParseFlow(h + q) == ParseFlow(q))
  {
    if !LooksRaw(h) {
      forall rules
        ensures Verdict(rules, h + q) == Verdict(rules, q)
      {
        FramedFlow(rules, h, q);
      }
    } else if h[0] / 16 == 6 {
      FrameMisread([DENY_ANY], h, q);
      DenyAny(q);
      assert Verdict([DENY_ANY], h + q) != Verdict([DENY_ANY], q);
    } else if ParseFlow(h + q) != ParseFlow(q) {
      FrameMisread([], h, q);
      assert (h + q)[0] == h[0] && ParseFlow(h + q).Some? && ParseFlow(q).Some?;
      var e := FlowsTellApart(ParseFlow(h + q).value, ParseFlow(q).value);
      assert Verdict([e], h + q) != Verdict([e], q);
    }
  }

  /** The failing input: a frame to 68:B6:B3:00:00:01 whose packet the list denies when it is sent raw. */
  lemma DeniedPacketPasses(q: seq<Byte>) returns (h: seq<Byte>)
    requires IsIpv4(q)
    ensures Ethernet(h) && h[..6] == [0x68, 0xB6, 0xB3, 0, 0, 1]
    ensures Denies(Verdict([DENY_ANY], q)) && !Denies(Verdict([DENY_ANY], h + q))
  {
    h := [0x68, 0xB6, 0xB3, 0, 0, 1, 2, 0, 0, 0, 0, 1, 0x08, 0x00];
    FrameMisread([DENY_ANY], h, q);
    DenyAny(q);
  }
}
