/** Which frames the MSS clamp changes. */
module MssFrames {
  import opened Bits
  import opened Wrappers
  import opened Addresses
  import opened Frames
  import opened MssClamp

  /** An Ethernet frame with an IPv4 TCP segment: `options` are those of the TCP header. */
  predicate Segment(s: seq<Byte>, h: seq<Byte>, ihl: nat, f: IpFields, ipOptions: seq<Byte>,
                    before: seq<Byte>, words: nat, low: nat, flags: Byte, behind: seq<Byte>, options: seq<Byte>, rest: seq<Byte>)
  {
    && Ethernet(h) && IpShape(ihl, f, ipOptions) && f.proto == 6
    && |before| == 12 && 5 <= words <= 15 && low < 16 && |behind| == 6 && |options| == 4 * words - 20
    && s == h + (Ipv4(ihl, f, ipOptions) + (Tcp(before, words, low, flags, behind, options) + rest))
  }

  /** The SYN bit decides whether the clamp looks at a segment, alone or with any other flags. */
  lemma SynDecides(s: seq<Byte>, h: seq<Byte>, ihl: nat, f: IpFields, ipOptions: seq<Byte>,
                   before: seq<Byte>, words: nat, low: nat, flags: Byte, behind: seq<Byte>, options: seq<Byte>, rest: seq<Byte>)
    requires Segment(s, h, ihl, f, ipOptions, before, words, low, flags, behind, options, rest)
    ensures SynHeader(s) <==> flags / 2 % 2 == 1
    ensures |s| >= 54 && TcpAt(s) == 14 + 4 * ihl
    ensures var tcp := TcpAt(s); tcp + 4 * words <= |s| && s[tcp + 12] / 0x10 == words && s[tcp + 20..tcp + 4 * words] == options
  {
    var r, q := Ipv4(ihl, f, ipOptions), Tcp(before, words, low, flags, behind, options);
    var tcp := 14 + 4 * ihl;
    Behind(h, r, q + rest, s);
    Ipv4At(s, 14, ihl, f, ipOptions, r);
    Behind(h + r, q, rest, s);
    TcpAtOffset(s, tcp, before, words, low, flags, behind, options, q);
    assert s[12] == h[12] && s[13] == h[13];
  }

  /** A list of other options, then an MSS option with the value `mss`, then anything. */
  predicate MssOptions(options: seq<Byte>, os: seq<TcpOption>, mss: Half, pad: seq<Byte>) {
    && (forall k :: 0 <= k < |os| ==> Passed(os[k]))
    && options == EncodeOptions(os) + ([2, 4] + Be16(mss) + pad)
  }

  lemma MssPlace(s: seq<Byte>, tcp: nat, end: nat, options: seq<Byte>, os: seq<TcpOption>, mss: Half, pad: seq<Byte>, opt: nat)
    requires MssOptions(options, os, mss, pad)
    requires end == tcp + 20 + |options| <= |s| && s[tcp + 20..end] == options && opt == tcp + 20 + |EncodeOptions(os)|
    ensures opt + 4 <= end && FindMss(s, tcp + 20, end) == Some(opt) && Mss(s, opt) == mss
  {
    var w, t := EncodeOptions(os), [2, 4] + Be16(mss) + pad;
    SplitSlice(s, tcp + 20, options, w, t, opt, end);
    MssBytes(s, opt, end, t, mss);
    FindMssEncoded(s, tcp + 20, os, w, opt, end);
  }

  lemma MssBytes(s: seq<Byte>, opt: nat, end: nat, t: seq<Byte>, mss: Half)
    requires |t| >= 4 && t[0] == 2 && t[1] == 4 && t[2] == mss / 0x100 && t[3] == mss % 0x100
    requires end == opt + |t| <= |s| && s[opt..end] == t
    ensures s[opt] == 2 && s[opt + 1] == 4 && Mss(s, opt) == mss
  {
    Be16Word(mss);
    var o := s[opt..end];
    assert s[opt] == o[0] && s[opt + 1] == o[1] && s[opt + 2] == o[2] && s[opt + 3] == o[3];
  }

  /** In a segment with the SYN bit, a SYN-ACK included, the clamp leaves the smaller of the MSS and the limit, wherever the
      option stands behind other options, and changes nothing else but the TCP checksum. */
  lemma SynClamped(s: seq<Byte>, h: seq<Byte>, ihl: nat, f: IpFields, ipOptions: seq<Byte>,
                   before: seq<Byte>, words: nat, low: nat, flags: Byte, behind: seq<Byte>, options: seq<Byte>, rest: seq<Byte>,
                   os: seq<TcpOption>, mss: Half, pad: seq<Byte>, max: Half)
    requires Segment(s, h, ihl, f, ipOptions, before, words, low, flags, behind, options, rest)
    requires MssOptions(options, os, mss, pad) && flags / 2 % 2 == 1 && max > 0
    ensures var tcp := 14 + 4 * ihl; var opt := tcp + 20 + |EncodeOptions(os)|;
            && |Clamped(s, max)| == |s| && opt + 4 <= |s|
            && Mss(s, opt) == mss && Mss(Clamped(s, max), opt) == Min(mss, max)
            && forall i :: 0 <= i < |s| && i !in {opt + 2, opt + 3, tcp + 16, tcp + 17} ==> Clamped(s, max)[i] == s[i]
  {
    var tcp := 14 + 4 * ihl;
    var end, opt := tcp + 4 * words, tcp + 20 + |EncodeOptions(os)|;
    SynDecides(s, h, ihl, f, ipOptions, before, words, low, flags, behind, options, rest);
    MssPlace(s, tcp, end, options, os, mss, pad, opt);
    SiteIs(s, tcp, end, opt);
    ClampFrame(s, max);
  }

  /** Without the SYN bit, or without a limit, nothing changes, whatever the options are. */
  lemma OthersUnchanged(s: seq<Byte>, h: seq<Byte>, ihl: nat, f: IpFields, ipOptions: seq<Byte>,
                        before: seq<Byte>, words: nat, low: nat, flags: Byte, behind: seq<Byte>, options: seq<Byte>,
                        rest: seq<Byte>, max: Half)
    requires Segment(s, h, ihl, f, ipOptions, before, words, low, flags, behind, options, rest)
    requires flags / 2 % 2 == 0 || max == 0
    ensures Clamped(s, max) == s
  {
    SynDecides(s, h, ihl, f, ipOptions, before, words, low, flags, behind, options, rest);
  }

  /** A segment without an MSS option in front of the end mark, of an option that does not fit or of the header's end is
      not changed either. */
  lemma WithoutMss(s: seq<Byte>, h: seq<Byte>, ihl: nat, f: IpFields, ipOptions: seq<Byte>,
                   before: seq<Byte>, words: nat, low: nat, flags: Byte, behind: seq<Byte>, options: seq<Byte>, rest: seq<Byte>,
                   os: seq<TcpOption>, w: seq<Byte>, max: Half)
    requires Segment(s, h, ihl, f, ipOptions, before, words, low, flags, behind, options, rest)
    requires (forall k :: 0 <= k < |os| ==> Passed(os[k])) && w == EncodeOptions(os)
    requires |w| <= |options| && options[..|w|] == w && Stops(options, |w|, |options|)
    ensures Clamped(s, max) == s
  {
    var tcp := 14 + 4 * ihl;
    if flags / 2 % 2 == 0 {
      OthersUnchanged(s, h, ihl, f, ipOptions, before, words, low, flags, behind, options, rest, max);
    } else {
      SynDecides(s, h, ihl, f, ipOptions, before, words, low, flags, behind, options, rest);
      NoSite(s, tcp, tcp + 4 * words, options, os, w, max);
    }
  }

  lemma NoSite(s: seq<Byte>, tcp: nat, end: nat, options: seq<Byte>, os: seq<TcpOption>, w: seq<Byte>, max: Half)
    requires SynHeader(s) && tcp == TcpAt(s) && end == tcp + s[tcp + 12] / 0x10 * 4
    requires tcp + 20 + |options| == end <= |s| && s[tcp + 20..end] == options
    requires (forall k :: 0 <= k < |os| ==> Passed(os[k])) && w == EncodeOptions(os)
    requires |w| <= |options| && options[..|w|] == w && Stops(options, |w|, |options|)
    ensures Clamped(s, max) == s
  {
    NoMss(s, tcp + 20, end, options, os, w);
    Unclamped(s, tcp, end, max);
  }

  lemma Unclamped(s: seq<Byte>, tcp: nat, end: nat, max: Half)
    requires SynHeader(s) && tcp == TcpAt(s) && end == tcp + s[tcp + 12] / 0x10 * 4 && FindMss(s, tcp + 20, end) == None
    ensures Clamped(s, max) == s
  {
  }

  lemma NoMss(s: seq<Byte>, i: nat, end: nat, options: seq<Byte>, os: seq<TcpOption>, w: seq<Byte>)
    requires i + |options| == end <= |s| && s[i..end] == options
    requires (forall k :: 0 <= k < |os| ==> Passed(os[k])) && w == EncodeOptions(os)
    requires |w| <= |options| && options[..|w|] == w && Stops(options, |w|, |options|)
    ensures FindMss(s, i, end) == None
  {
    var t, stop := options[|w|..], i + |w|;
    assert options == w + t;
    SplitSlice(s, i, options, w, t, stop, end);
    if t != [] {
      assert options[|w|] == t[0] == s[stop..end][0] == s[stop];
    }
    if |t| > 1 {
      assert options[|w| + 1] == t[1] == s[stop..end][1] == s[stop + 1];
    }
    FindMssStops(s, i, os, w, stop, end);
  }

  /** Only TCP segments in IPv4 frames are ever changed. */
  lemma OnlyTcp(s: seq<Byte>, max: Half)
    requires Clamped(s, max) != s
    ensures |s| >= 54 && Ethernet(s[..14]) && s[14] / 16 == 4 && s[23] == 6 && max > 0
    ensures var tcp := 14 + s[14] % 16 * 4; tcp + 20 <= |s| && s[tcp + 13] / 2 % 2 == 1 && s[tcp + 12] / 16 >= 5
  {
    assert MssSite(s).Some?;
  }
}
