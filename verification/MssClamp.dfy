/** The MSS clamp on the access point: the maximum segment size option of TCP SYN packets is lowered in place
    and the TCP checksum updated for it. */
module MssClamp {
  import opened Bits
  import opened Wrappers
  import opened Checksum

  const IP := 14
  const TCP_CHECKSUM := 16

  /** Indices into the frame: the TCP header and the MSS option. */
  datatype Site = Site(tcp: nat, opt: nat)

  /** The first MSS option in `s[i..end]`, as the option walk finds it. */
  function FindMss(s: seq<Byte>, i: nat, end: nat): (r: Option<nat>)
    requires end <= |s|
    ensures r.Some? ==> i <= r.value && r.value + 4 <= end && s[r.value] == 2 && s[r.value + 1] == 4
    decreases end - i
  {
    if i >= end || s[i] == 0 then None
    else if s[i] == 1 then FindMss(s, i + 1, end)
    else if i + 1 >= end || s[i + 1] < 2 || i + s[i + 1] > end then None
    else if s[i] == 2 && s[i + 1] == 4 then Some(i)
    else FindMss(s, i + s[i + 1], end)
  }

  function TcpAt(s: seq<Byte>): nat
    requires |s| >= 54
  {
    IP + s[IP] % 0x10 * 4
  }

  /** The frame is an IPv4 TCP SYN whose TCP header lies in the first segment. */
  predicate SynHeader(s: seq<Byte>) {
    && |s| >= 54
    && s[12] == 0x08 && s[13] == 0x00
    && s[IP] / 0x10 == 4 && s[IP + 9] == 6
    && |s| >= TcpAt(s) + 20
    && s[TcpAt(s) + 13] / 2 % 2 == 1
    && s[TcpAt(s) + 12] / 0x10 * 4 >= 20
    && |s| >= TcpAt(s) + s[TcpAt(s) + 12] / 0x10 * 4
  }

  function MssSite(s: seq<Byte>): (r: Option<Site>)
    ensures r.Some? ==> SynHeader(s) && r.value.tcp == TcpAt(s) && r.value.tcp + 20 <= r.value.opt && r.value.opt + 4 <= |s|
  {
    if !SynHeader(s) then None
    else
      var tcp := TcpAt(s);
      match FindMss(s, tcp + 20, tcp + s[tcp + 12] / 0x10 * 4)
      case None => None
      case Some(i) => Some(Site(tcp, i))
  }

  /** The value of the option, in network order. */
  function Mss(s: seq<Byte>, opt: nat): Half
    requires opt + 4 <= |s|
  {
    BigEndian(s[opt + 2], s[opt + 3])
  }

  /** The option set to the bytes `x0`, `x1`, and the checksum updated for the word they make. */
  function WithMss(s: seq<Byte>, tcp: nat, opt: nat, x0: Byte, x1: Byte): seq<Byte>
    requires tcp + 20 <= opt && opt + 4 <= |s|
  {
    WithWord(s[opt + 2 := x0][opt + 3 := x1], tcp + TCP_CHECKSUM,
             Updated(WordAt(s, tcp + TCP_CHECKSUM), WordAt(s, opt + 2), LittleEndian(x0, x1)))
  }

  /** The option lowered to the limit, if it is above it. */
  function Lowered(s: seq<Byte>, tcp: nat, opt: nat, max: Half): seq<Byte>
    requires tcp + 20 <= opt && opt + 4 <= |s|
  {
    if Mss(s, opt) > max then WithMss(s, tcp, opt, max / 0x100, max % 0x100) else s
  }

  function Clamped(s: seq<Byte>, max: Half): seq<Byte> {
    if max > 0 && MssSite(s).Some? then Lowered(s, MssSite(s).value.tcp, MssSite(s).value.opt, max) else s
  }

  predicate Clamps(s: seq<Byte>, max: Half) {
    max > 0 && MssSite(s).Some? && Mss(s, MssSite(s).value.opt) > max
  }

  /** clamp_tcp_mss. Every index lies inside the segment, and the walk over the options ends for every packet. */
  method ClampTcpMss(a: array<Byte>, max: Half)
    modifies a
    ensures a[..] == Clamped(old(a[..]), max)
  {
    if max == 0 {
      return;
    }
    var ok, tcp, optEnd := CheckSyn(a);
    ghost var s := a[..];
    if ok {
      WalkOptions(a, tcp, optEnd, max);
      assert MssSite(s) == match FindMss(s, tcp + 20, optEnd) case None => None case Some(i) => Some(Site(tcp, i));
    }
  }

  /** The checks of clamp_tcp_mss in front of the option walk. */
  method CheckSyn(a: array<Byte>) returns (ok: bool, tcp: nat, optEnd: nat)
    ensures ok == SynHeader(a[..])
    ensures ok ==> tcp == TcpAt(a[..]) && optEnd == tcp + a[tcp + 12] / 0x10 * 4 && tcp + 20 <= optEnd <= a.Length
  {
    ok, tcp, optEnd := false, 0, 0;
    if a.Length < 14 + 20 + 20 {
      return;
    }
    if a[12] != 0x08 || a[13] != 0x00 || a[IP] / 0x10 != 4 || a[IP + 9] != 6 {
      return;
    }
    tcp := IP + a[IP] % 0x10 * 4;
    if a.Length < tcp + 20 || a[tcp + 13] / 2 % 2 != 1 {
      return;
    }
    optEnd := tcp + a[tcp + 12] / 0x10 * 4;
    ok := !(optEnd - tcp < 20 || a.Length < optEnd);
  }

  /** The option walk of clamp_tcp_mss. */
  method WalkOptions(a: array<Byte>, tcp: nat, optEnd: nat, max: Half)
    requires tcp + 20 <= optEnd <= a.Length
    modifies a
    ensures a[..] == match FindMss(old(a[..]), tcp + 20, optEnd)
                     case None => old(a[..])
                     case Some(opt) => Lowered(old(a[..]), tcp, opt, max)
  {
    var opt := tcp + 20;
    ghost var s := a[..];
    while opt < optEnd
      invariant a[..] == s && tcp + 20 <= opt
      invariant FindMss(s, opt, optEnd) == FindMss(s, tcp + 20, optEnd)
      decreases optEnd - opt
    {
      var kind := a[opt];
      if kind == 0 {
        break;
      }
      if kind == 1 {
        opt := opt + 1;
        continue;
      }
      if opt + 1 >= optEnd {
        break;
      }
      var optLen := a[opt + 1];
      if optLen < 2 || opt + optLen > optEnd {
        break;
      }
      if kind == 2 && optLen == 4 {
        RewriteMss(a, tcp, opt, max);
        return;
      }
      opt := opt + optLen;
    }
  }

  /** The rewrite of one MSS option, which is stored in network order. */
  method RewriteMss(a: array<Byte>, tcp: nat, opt: nat, max: Half)
    requires tcp + 20 <= opt && opt + 4 <= a.Length
    modifies a
    ensures a[..] == Lowered(old(a[..]), tcp, opt, max)
  {
    if BigEndian(a[opt + 2], a[opt + 3]) > max {
      var oldMss := LittleEndian(a[opt + 2], a[opt + 3]);
      a[opt + 2] := max / 0x100;
      a[opt + 3] := max % 0x100;
      var newMss := LittleEndian(a[opt + 2], a[opt + 3]);
      var k := tcp + TCP_CHECKSUM;
      var c := UpdateChecksum(LittleEndian(a[k], a[k + 1]), oldMss, newMss);
      a[k] := c % 0x100;
      a[k + 1] := c / 0x100;
    }
  }

  // ----- what is changed -----

  lemma SplitHalf(x: Half)
    ensures BigEndian(x / 0x100, x % 0x100) == x
  {
  }

  /** Only the two bytes of the first MSS value and the two of the TCP checksum change, and the value becomes
      the smaller of the old one and the clamp. */
  lemma ClampFrame(s: seq<Byte>, max: Half)
    requires MssSite(s).Some?
    ensures var s', site := Clamped(s, max), MssSite(s).value;
            && |s'| == |s|
            && Mss(s', site.opt) == (if max > 0 && max < Mss(s, site.opt) then max else Mss(s, site.opt))
            && forall i :: 0 <= i < |s| && i !in {site.opt + 2, site.opt + 3, site.tcp + 16, site.tcp + 17}
                           ==> s'[i] == s[i]
  {
    SplitHalf(max);
  }

  lemma {:induction false} FindMssFrame(s: seq<Byte>, s': seq<Byte>, i: nat, end: nat, opt: nat)
    requires end <= |s| == |s'| && FindMss(s, i, end) == Some(opt)
    requires forall k :: i <= k <= opt + 1 ==> s'[k] == s[k]
    ensures FindMss(s', i, end) == Some(opt)
    decreases end - i
  {
    if i != opt {
      FindMssFrame(s, s', if s[i] == 1 then i + 1 else i + s[i + 1], end, opt);
    }
  }

  lemma SameSynHeader(s: seq<Byte>, s': seq<Byte>)
    requires |s'| == |s| && SynHeader(s) && forall k :: 0 <= k < TcpAt(s) + 16 ==> s'[k] == s[k]
    ensures SynHeader(s') && TcpAt(s') == TcpAt(s)
  {
  }

  lemma SiteIs(s: seq<Byte>, tcp: nat, end: nat, opt: nat)
    requires SynHeader(s) && tcp == TcpAt(s) && end == tcp + s[tcp + 12] / 0x10 * 4
    ensures FindMss(s, tcp + 20, end) == Some(opt) <==> MssSite(s) == Some(Site(tcp, opt))
  {
  }

  /** A change that only touches the checksum and bytes from the option's value on leaves the site alone. */
  lemma SiteFrame(s: seq<Byte>, s': seq<Byte>, site: Site)
    requires MssSite(s) == Some(site) && |s'| == |s|
    requires forall k :: 0 <= k < site.opt + 2 && k !in {site.tcp + 16, site.tcp + 17} ==> s'[k] == s[k]
    ensures MssSite(s') == Some(site)
  {
    var tcp := site.tcp;
    var end := tcp + s[tcp + 12] / 0x10 * 4;
    SameSynHeader(s, s');
    assert s'[tcp + 12] == s[tcp + 12];
    SiteIs(s, tcp, end, site.opt);
    FindMssFrame(s, s', tcp + 20, end, site.opt);
    SiteIs(s', tcp, end, site.opt);
  }

  /** After a clamp the walk finds the same option. */
  lemma SameSite(s: seq<Byte>, max: Half)
    requires MssSite(s).Some?
    ensures MssSite(Clamped(s, max)) == MssSite(s)
  {
    ClampFrame(s, max);
    SiteFrame(s, Clamped(s, max), MssSite(s).value);
  }

  /** Clamping twice with the same limit is clamping once, so a packet that passes both hooks of the access
      point is the same as one that passes a single one. */
  lemma ClampIdempotent(s: seq<Byte>, max: Half)
    ensures Clamped(Clamped(s, max), max) == Clamped(s, max)
  {
    if Clamps(s, max) {
      ClampFrame(s, max);
      SameSite(s, max);
    }
  }

  /** Clamping with two limits leaves the smallest of the three values, in either order. */
  lemma ClampTwice(s: seq<Byte>, max1: Half, max2: Half)
    requires MssSite(s).Some? && max1 > 0 && max2 > 0
    ensures var opt := MssSite(s).value.opt;
            var both := Mss(Clamped(Clamped(s, max1), max2), opt);
            && both <= max1 && both <= max2 && both <= Mss(s, opt)
            && both in {max1, max2, Mss(s, opt)}
  {
    ClampFrame(s, max1);
    SameSite(s, max1);
    ClampFrame(Clamped(s, max1), max2);
  }

  // ----- the wire form of an option list -----

  datatype TcpOption = Nop | Sized(kind: Byte, data: seq<Byte>)

  /** A padding byte, or an option that is neither the end mark nor an MSS option. */
  predicate Passed(o: TcpOption) {
    o.Sized? ==> o.kind >= 2 && |o.data| <= 253 && !(o.kind == 2 && |o.data| == 2)
  }

  function EncodeOption(o: TcpOption): seq<Byte>
    requires Passed(o)
  {
    if o.Nop? then [1] else [o.kind, |o.data| + 2] + o.data
  }

  function EncodeOptions(os: seq<TcpOption>): seq<Byte>
    requires forall k :: 0 <= k < |os| ==> Passed(os[k])
  {
    if os == [] then [] else EncodeOption(os[0]) + EncodeOptions(os[1..])
  }

  lemma FindMssHere(b: seq<Byte>, i: nat, end: nat)
    requires i + 4 <= end <= |b| && b[i] == 2 && b[i + 1] == 4
    ensures FindMss(b, i, end) == Some(i)
  {
  }

  lemma FindMssStep(b: seq<Byte>, i: nat, o: TcpOption, e: seq<Byte>, next: nat, end: nat)
    requires Passed(o) && e == EncodeOption(o) && next == i + |e| <= end <= |b| && b[i..next] == e
    ensures FindMss(b, i, end) == FindMss(b, next, end)
  {
    assert b[i] == b[i..next][0];
    if o.Sized? {
      assert b[i + 1] == b[i..next][1];
    }
  }

  /** The walk passes over any list of other options to the option that follows them: when that is an MSS option,
      it is the one found. */
  lemma {:induction false} FindMssEncoded(b: seq<Byte>, i: nat, os: seq<TcpOption>, w: seq<Byte>, mss: nat, end: nat)
    requires (forall k :: 0 <= k < |os| ==> Passed(os[k])) && w == EncodeOptions(os)
    requires mss == i + |w| && mss + 4 <= end <= |b| && b[i..mss] == w && b[mss] == 2 && b[mss + 1] == 4
    ensures FindMss(b, i, end) == Some(mss)
    decreases |os|
  {
    if os == [] {
      FindMssHere(b, i, end);
    } else {
      var e, t := EncodeOption(os[0]), EncodeOptions(os[1..]);
      var next := i + |e|;
      SplitSlice(b, i, w, e, t, next, mss);
      FindMssStep(b, i, os[0], e, next, end);
      FindMssEncoded(b, next, os[1..], t, mss, end);
    }
  }

  /** The walk finds nothing behind `i`: nothing is left, the end mark stands there, or an option that does not fit. */
  predicate Stops(b: seq<Byte>, i: nat, end: nat)
    requires end <= |b|
  {
    i >= end || b[i] == 0 || (b[i] != 1 && (i + 1 >= end || b[i + 1] < 2 || i + b[i + 1] > end))
  }

  /** When the walk stops behind a list of other options, it has found none. */
  lemma {:induction false} FindMssStops(b: seq<Byte>, i: nat, os: seq<TcpOption>, w: seq<Byte>, stop: nat, end: nat)
    requires (forall k :: 0 <= k < |os| ==> Passed(os[k])) && w == EncodeOptions(os)
    requires stop == i + |w| <= end <= |b| && b[i..stop] == w && Stops(b, stop, end)
    ensures FindMss(b, i, end) == None
    decreases |os|
  {
    if os != [] {
      var e, t := EncodeOption(os[0]), EncodeOptions(os[1..]);
      var next := i + |e|;
      SplitSlice(b, i, w, e, t, next, stop);
      FindMssStep(b, i, os[0], e, next, end);
      FindMssStops(b, next, os[1..], t, stop, end);
    }
  }

  // ----- the checksum -----

  /** The bytes the TCP checksum covers: `n` bytes from the TCP header on; data may continue in other segments. */
  function Covered(s: seq<Byte>, rest: seq<Byte>, tcp: nat, n: nat): seq<Byte>
    requires tcp + n <= |s| + |rest|
  {
    (s + rest)[tcp..tcp + n]
  }

  /** How the sum changes when the bytes change by `d0` and `d1`: as the checksum assumes for an even place, with
      the bytes exchanged for an odd one. */
  function Delta(j: nat, d0: int, d1: int): int {
    if j % 2 == 0 then d0 + 0x100 * d1 else 0x100 * d0 + d1
  }

  lemma DeltaAgrees(j: nat, d0: int, d1: int)
    requires -255 <= d0 <= 255 && -255 <= d1 <= 255
    ensures (Delta(j, d0, d1) - (d0 + 0x100 * d1)) % 0xFFFF == 0 <==> j % 2 == 0 || (d0 - d1) % 257 == 0
  {
    if j % 2 != 0 {
      assert Delta(j, d0, d1) - (d0 + 0x100 * d1) == 255 * (d0 - d1);
      Multiples(d0 - d1);
    }
  }

  lemma Multiples(d: int)
    requires -510 <= d <= 510
    ensures 255 * d % 0xFFFF == 0 <==> d % 257 == 0
  {
    assert d % 257 == 0 <==> d in {-257, 0, 257};
    assert 255 * d % 0xFFFF == 0 <==> 255 * d in {-0xFFFF, 0, 0xFFFF};
  }

  /** Two bytes at `j` replaced. */
  lemma SumTwoBytes(b: seq<Byte>, j: nat, x0: Byte, x1: Byte, b1: seq<Byte>, b2: seq<Byte>)
    requires j + 1 < |b| && b1 == b[j := x0] && b2 == b1[j + 1 := x1]
    ensures Sum16(b2) == Sum16(b) + Delta(j, x0 - b[j], x1 - b[j + 1])
  {
    SumUpdate(b, j, x0);
    SumUpdate(b1, j + 1, x1);
    assert b1[j + 1] == b[j + 1];
    DeltaPlaces(j, x0, b[j], x1, b[j + 1]);
  }

  lemma DeltaPlaces(j: nat, x0: Byte, y0: Byte, x1: Byte, y1: Byte)
    ensures Place(j, x0) - Place(j, y0) + Place(j + 1, x1) - Place(j + 1, y1) == Delta(j, x0 - y0, x1 - y1)
  {
  }

  lemma SumHoldsWord(b: seq<Byte>, k: nat)
    requires k % 2 == 0 && k + 1 < |b|
    ensures Sum16(b) >= WordAt(b, k)
  {
    SumWithWord(b, k, 0);
  }

  lemma WordDifference(x0: Byte, y0: Byte, x1: Byte, y1: Byte)
    ensures LittleEndian(x0, x1) as int - LittleEndian(y0, y1) as int == (x0 as int - y0 as int) + 0x100 * (x1 as int - y1 as int)
  {
  }

  /** The verdict on a segment with the sum `s` after its MSS bytes changed from `y0, y1` to `x0, x1` and its
      checksum was updated. */
  lemma VerdictArithmetic(base: nat, s: nat, s': nat, j: nat, x0: Byte, y0: Byte, x1: Byte, y1: Byte, hc: Half)
    requires base > 0 && s >= hc && s + Delta(j, x0 - y0, x1 - y1) >= hc && Verifies(base + s)
    requires s' == s + Delta(j, x0 - y0, x1 - y1) - hc + Updated(hc, LittleEndian(y0, y1), LittleEndian(x0, x1))
    ensures Verifies(base + s') <==> j % 2 == 0 || (x0 - y0 - (x1 - y1)) % 257 == 0
  {
    WordDifference(x0, y0, x1, y1);
    DeltaAgrees(j, x0 - y0, x1 - y1);
    VerdictFromSums(base + s - hc, Delta(j, x0 - y0, x1 - y1), LittleEndian(y0, y1), LittleEndian(x0, x1), hc,
                    base + s, base + s');
  }

  lemma VerdictFromSums(others: nat, delta: int, m: Half, m': Half, hc: Half, before: nat, after: nat)
    requires others > 0 && others + delta > 0 && before == others + hc && after == others + delta + Updated(hc, m, m')
    requires Verifies(before)
    ensures Verifies(after) <==> (delta - (m' - m)) % 0xFFFF == 0
  {
    UpdateVerifies(others, delta, m, m', hc);
  }

  /** The sum of a segment after the rewrite. */
  lemma RewrittenSum(b: seq<Byte>, j: nat, x0: Byte, x1: Byte, c: Half, b': seq<Byte>)
    requires j >= 18 && j + 1 < |b| && b' == WithWord(b[j := x0][j + 1 := x1], TCP_CHECKSUM, c)
    ensures var hc, delta := WordAt(b, TCP_CHECKSUM), Delta(j, x0 - b[j], x1 - b[j + 1]);
            Sum16(b') == Sum16(b) + delta - hc + c && Sum16(b) >= hc && Sum16(b) + delta >= hc
  {
    var b1 := b[j := x0];
    var b2 := b1[j + 1 := x1];
    SumTwoBytes(b, j, x0, x1, b1, b2);
    assert WordAt(b2, TCP_CHECKSUM) == WordAt(b, TCP_CHECKSUM);
    SumHoldsWord(b, TCP_CHECKSUM);
    SumHoldsWord(b2, TCP_CHECKSUM);
    SumWithWord(b2, TCP_CHECKSUM, c);
  }

  /** The verdict in terms of the covered bytes. */
  lemma RewrittenVerdict(base: nat, b: seq<Byte>, j: nat, x0: Byte, x1: Byte, c: Half, b': seq<Byte>)
    requires base > 0 && j >= 18 && j + 1 < |b| && Verifies(base + Sum16(b))
    requires c == Updated(WordAt(b, TCP_CHECKSUM), WordAt(b, j), LittleEndian(x0, x1))
    requires b' == WithWord(b[j := x0][j + 1 := x1], TCP_CHECKSUM, c)
    ensures Verifies(base + Sum16(b')) <==> j % 2 == 0 || (x0 - b[j] - (x1 - b[j + 1])) % 257 == 0
  {
    RewrittenSum(b, j, x0, x1, c, b');
    var s, s', hc, y0, y1 := Sum16(b), Sum16(b'), WordAt(b, TCP_CHECKSUM), b[j], b[j + 1];
    assert c == Updated(hc, LittleEndian(y0, y1), LittleEndian(x0, x1));
    VerdictArithmetic(base, s, s', j, x0, y0, x1, y1, hc);
  }

  lemma CoveredRewritten(s: seq<Byte>, rest: seq<Byte>, site: Site, n: nat, x0: Byte, x1: Byte)
    requires site.tcp + 20 <= site.opt && site.opt + 4 <= |s| && site.opt + 4 <= site.tcp + n <= |s| + |rest|
    ensures var b, j := Covered(s, rest, site.tcp, n), site.opt + 2 - site.tcp;
            && b[j] == s[site.opt + 2] && b[j + 1] == s[site.opt + 3]
            && Covered(WithMss(s, site.tcp, site.opt, x0, x1), rest, site.tcp, n)
               == WithWord(b[j := x0][j + 1 := x1], TCP_CHECKSUM,
                           Updated(WordAt(b, TCP_CHECKSUM), WordAt(b, j), LittleEndian(x0, x1)))
  {
    var tcp, j := site.tcp, site.opt + 2 - site.tcp;
    var c := Updated(WordAt(s, tcp + TCP_CHECKSUM), WordAt(s, tcp + j), LittleEndian(x0, x1));
    CoveredUpdates(s, rest, tcp, n, j, x0, x1, c);
    assert WithMss(s, tcp, site.opt, x0, x1) == WithWord(s[tcp + j := x0][tcp + j + 1 := x1], tcp + TCP_CHECKSUM, c);
  }

  lemma CoveredUpdates(s: seq<Byte>, rest: seq<Byte>, tcp: nat, n: nat, j: nat, x0: Byte, x1: Byte, c: Half)
    requires tcp + n <= |s| + |rest| && 18 <= j && j + 2 <= n && tcp + j + 2 <= |s|
    ensures Covered(WithWord(s[tcp + j := x0][tcp + j + 1 := x1], tcp + TCP_CHECKSUM, c), rest, tcp, n)
         == WithWord(Covered(s, rest, tcp, n)[j := x0][j + 1 := x1], TCP_CHECKSUM, c)
    ensures WordAt(Covered(s, rest, tcp, n), TCP_CHECKSUM) == WordAt(s, tcp + TCP_CHECKSUM)
    ensures WordAt(Covered(s, rest, tcp, n), j) == WordAt(s, tcp + j)
  {
  }

  lemma CoveredVerdict(base: nat, b: seq<Byte>, j: nat, x0: Byte, y0: Byte, x1: Byte, y1: Byte, b': seq<Byte>)
    requires base > 0 && j >= 18 && j + 1 < |b| && b[j] == y0 && b[j + 1] == y1 && Verifies(base + Sum16(b))
    requires b' == WithWord(b[j := x0][j + 1 := x1], TCP_CHECKSUM,
                            Updated(WordAt(b, TCP_CHECKSUM), WordAt(b, j), LittleEndian(x0, x1)))
    ensures Verifies(base + Sum16(b')) <==> j % 2 == 0 || (x0 - y0 - (x1 - y1)) % 257 == 0
  {
    RewrittenVerdict(base, b, j, x0, x1, Updated(WordAt(b, TCP_CHECKSUM), WordAt(b, j), LittleEndian(x0, x1)), b');
  }

  /** Rewriting the option at `site`: the verdict. */
  lemma RewriteVerifiesExactly(s: seq<Byte>, rest: seq<Byte>, n: nat, base: nat, site: Site, x0: Byte, x1: Byte,
                               j: nat, b: seq<Byte>, b': seq<Byte>)
    requires site.tcp + 20 <= site.opt && site.opt + 4 <= |s| && site.opt + 4 <= site.tcp + n <= |s| + |rest|
    requires j == site.opt + 2 - site.tcp && b == Covered(s, rest, site.tcp, n)
    requires b' == Covered(WithMss(s, site.tcp, site.opt, x0, x1), rest, site.tcp, n)
    requires base > 0 && Verifies(base + Sum16(b))
    ensures Verifies(base + Sum16(b')) <==>
              j % 2 == 0 || (x0 - s[site.opt + 2] - (x1 - s[site.opt + 3])) % 257 == 0
  {
    CoveredRewritten(s, rest, site, n, x0, x1);
    CoveredVerdict(base, b, j, x0, s[site.opt + 2], x1, s[site.opt + 3], b');
  }

  lemma RewrittenIsPatched(b: seq<Byte>, j: nat, x0: Byte, x1: Byte)
    requires 18 <= j && j + 1 < |b|
    ensures WithWord(b[j := x0][j + 1 := x1], TCP_CHECKSUM,
                     Updated(WordAt(b, TCP_CHECKSUM), WordAt(b, j), LittleEndian(x0, x1)))
         == Patched(b, j, TCP_CHECKSUM, LittleEndian(x0, x1))
  {
    var m' := LittleEndian(x0, x1);
    assert m' % 0x100 == x0 && m' / 0x100 == x1;
  }

  /** Rewriting the option at an even offset: the checksum stays exact. Byte 13 of the header holds the flags. */
  lemma RewriteExactWhenEven(s: seq<Byte>, rest: seq<Byte>, n: nat, base: nat, site: Site, x0: Byte, x1: Byte,
                             b: seq<Byte>, b': seq<Byte>)
    requires site.tcp + 20 <= site.opt && site.opt + 4 <= |s| && site.opt + 4 <= site.tcp + n <= |s| + |rest|
    requires (site.opt - site.tcp) % 2 == 0 && s[site.tcp + 13] > 0
    requires b == Covered(s, rest, site.tcp, n) && WordAt(b, TCP_CHECKSUM) == Recomputed(base, b, TCP_CHECKSUM)
    requires b' == Covered(WithMss(s, site.tcp, site.opt, x0, x1), rest, site.tcp, n)
    ensures WordAt(b', TCP_CHECKSUM) == Recomputed(base, b', TCP_CHECKSUM)
  {
    var j := site.opt + 2 - site.tcp;
    CoveredRewritten(s, rest, site, n, x0, x1);
    RewrittenIsPatched(b, j, x0, x1);
    assert b[13] == s[site.tcp + 13];
    PatchExact(base, b, j, TCP_CHECKSUM, 13, LittleEndian(x0, x1), b');
  }

  /** A segment the receiver would have accepted is accepted after the clamp exactly if the MSS value stands at an
      even offset of the TCP header, or if the changes of the two MSS bytes happen to agree modulo 257. `base` is
      the sum of the pseudo header, which contains the protocol number. */
  lemma ClampVerifiesExactly(s: seq<Byte>, rest: seq<Byte>, n: nat, base: nat, max: Half, site: Site)
    requires Clamps(s, max) && MssSite(s) == Some(site) && base > 0
    requires site.opt + 4 <= site.tcp + n <= |s| + |rest|
    requires Verifies(base + Sum16(Covered(s, rest, site.tcp, n)))
    ensures Verifies(base + Sum16(Covered(Clamped(s, max), rest, site.tcp, n))) <==>
              || (site.opt + 2 - site.tcp) % 2 == 0
              || (max / 0x100 - s[site.opt + 2] - (max % 0x100 - s[site.opt + 3])) % 257 == 0
  {
    RewriteVerifiesExactly(s, rest, n, base, site, max / 0x100, max % 0x100, site.opt + 2 - site.tcp,
                           Covered(s, rest, site.tcp, n), Covered(Clamped(s, max), rest, site.tcp, n));
  }

  /** At an even offset the clamp also keeps the checksum equal to a full recomputation. */
  lemma ClampExactWhenEven(s: seq<Byte>, rest: seq<Byte>, n: nat, base: nat, max: Half, site: Site,
                           b: seq<Byte>, b': seq<Byte>)
    requires Clamps(s, max) && MssSite(s) == Some(site) && (site.opt - site.tcp) % 2 == 0
    requires site.opt + 4 <= site.tcp + n <= |s| + |rest|
    requires b == Covered(s, rest, site.tcp, n) && b' == Covered(Clamped(s, max), rest, site.tcp, n)
    requires WordAt(b, TCP_CHECKSUM) == Recomputed(base, b, TCP_CHECKSUM)
    ensures WordAt(b', TCP_CHECKSUM) == Recomputed(base, b', TCP_CHECKSUM)
  {
    RewriteExactWhenEven(s, rest, n, base, site, max / 0x100, max % 0x100, b, b');
  }

  // ----- whole frames -----

  /** The TCP pseudo header of a frame whose segment has `n` bytes: the two addresses, the protocol and the length. */
  function PseudoHeader(s: seq<Byte>, n: Half): seq<Byte>
    requires |s| >= 34
  {
    s[26..34] + [0, 6, n / 0x100, n % 0x100]
  }

  /** A receiver accepts the segment of `n` bytes that begins in frame `s` and may continue in `rest`. */
  ghost predicate Accepts(s: seq<Byte>, rest: seq<Byte>, tcp: nat, n: Half)
    requires |s| >= 34 && tcp + n <= |s| + |rest|
  {
    Verifies(Sum16(PseudoHeader(s, n)) + Sum16(Covered(s, rest, tcp, n)))
  }

  lemma PseudoPositive(s: seq<Byte>, n: Half)
    requires |s| >= 34
    ensures Sum16(PseudoHeader(s, n)) > 0
  {
    SumPositive(PseudoHeader(s, n), 9);
  }

  /** The clamp leaves the pseudo header alone, so a frame with a complete IP header that the receiver would have accepted
      is accepted after the clamp exactly if the value is at an even offset or the byte changes agree modulo 257. */
  lemma ClampAcceptedExactly(s: seq<Byte>, rest: seq<Byte>, n: Half, max: Half, site: Site)
    requires Clamps(s, max) && MssSite(s) == Some(site) && s[IP] % 0x10 >= 5
    requires site.opt + 4 <= site.tcp + n <= |s| + |rest| && Accepts(s, rest, site.tcp, n)
    ensures |Clamped(s, max)| == |s|
    ensures Accepts(Clamped(s, max), rest, site.tcp, n) <==>
              || (site.opt + 2 - site.tcp) % 2 == 0
              || (max / 0x100 - s[site.opt + 2] - (max % 0x100 - s[site.opt + 3])) % 257 == 0
  {
    ClampFrame(s, max);
    var s' := Clamped(s, max);
    assert s'[26..34] == s[26..34];
    PseudoPositive(s, n);
    ClampVerifiesExactly(s, rest, n, Sum16(PseudoHeader(s, n)), max, site);
  }

  /** A SYN of 192.168.4.2 whose options are a padding byte, an MSS of 1460 and the end mark, without a checksum. */
  lemma BareSyn() returns (s: seq<Byte>)
    ensures |s| == 62 && s[IP] % 0x10 == 5 && s[26..30] == [192, 168, 4, 2] && s[30..34] == [93, 184, 216, 34]
    ensures MssSite(s) == Some(Site(34, 55)) && s[57] == 0x05 && s[58] == 0xB4 && s[50] == s[51] == 0
  {
    s := seq(62, k requires 0 <= k < 62 =>
      match k
      case 12 => 0x08
      case 14 => 0x45
      case 17 => 48
      case 22 => 64
      case 23 => 6
      case 26 => 192
      case 27 => 168
      case 28 => 4
      case 29 => 2
      case 30 => 93
      case 31 => 184
      case 32 => 216
      case 33 => 34
      case 37 => 80
      case 46 => 0x70
      case 47 => 0x02
      case 54 => 1
      case 55 => 2
      case 56 => 4
      case 57 => 0x05
      case 58 => 0xB4
      case _ => 0);
    assert SynHeader(s) && TcpAt(s) == 34;
    assert FindMss(s, 55, 62) == Some(55);
    assert FindMss(s, 54, 62) == Some(55);
  }

  /** The frame with the checksum its sender computes. */
  lemma Checksummed(s: seq<Byte>, c: Half, s': seq<Byte>)
    requires |s| == 62 && s[50] == s[51] == 0
    requires c == 0xFFFF - Folded(Sum16(PseudoHeader(s, 28)) + Sum16(Covered(s, [], 34, 28)))
    requires s' == WithWord(s, 50, c)
    ensures |s'| == 62 && Accepts(s', [], 34, 28)
    ensures forall k :: 0 <= k < 62 && k !in {50, 51} ==> s'[k] == s[k]
  {
    var b, base := Covered(s, [], 34, 28), Sum16(PseudoHeader(s, 28));
    PseudoPositive(s, 28);
    assert b[16] == s[50] && b[17] == s[51];
    FilledInVerifies(base, b, TCP_CHECKSUM, c);
    assert Covered(s', [], 34, 28) == WithWord(b, TCP_CHECKSUM, c);
    assert s'[26..34] == s[26..34];
  }

  /** At an odd offset the clamp does break the checksum: the receiver accepts that SYN with its checksum, and does not
      accept it after a clamp to 1400. */
  lemma OddOffsetBreaksChecksum() returns (s: seq<Byte>)
    ensures |s| == 62 && s[26..30] == [192, 168, 4, 2] && s[30..34] == [93, 184, 216, 34]
    ensures MssSite(s) == Some(Site(34, 55)) && Mss(s, 55) == 1460
    ensures Accepts(s, [], 34, 28)
    ensures |Clamped(s, 1400)| == 62 && !Accepts(Clamped(s, 1400), [], 34, 28)
  {
    var bare := BareSyn();
    var c: Half := 0xFFFF - Folded(Sum16(PseudoHeader(bare, 28)) + Sum16(Covered(bare, [], 34, 28)));
    s := WithWord(bare, 50, c);
    Checksummed(bare, c, s);
    SiteFrame(bare, s, Site(34, 55));
    assert s[26..30] == bare[26..30] && s[30..34] == bare[30..34];
    ClampAcceptedExactly(s, [], 28, 1400, Site(34, 55));
  }
}
