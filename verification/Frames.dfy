/** Packets as they are built: Ethernet, IPv4 and TCP headers from their fields. */
module Frames {
  import opened Bits
  import opened Addresses

  /** The header of an Ethernet frame that carries IPv4. */
  predicate Ethernet(h: seq<Byte>) {
    |h| == 14 && h[12] == 0x08 && h[13] == 0x00
  }

  /** The fields of an IPv4 header; `offset` counts the fragment's place in units of eight octets. */
  datatype IpFields = IpFields(
    tos: Byte, len: Half, id: Half, reserved: bool, df: bool, mf: bool, offset: nat,
    ttl: Byte, proto: Byte, sum: Half, src: Word, dest: Word)

  function FlagsWord(f: IpFields): Half
    requires f.offset < 0x2000
  {
    (if f.reserved then 0x8000 else 0) + (if f.df then 0x4000 else 0) + (if f.mf then 0x2000 else 0) + f.offset
  }

  /** A 16-bit word in network order. */
  function Be16(h: Half): (r: seq<Byte>)
    ensures |r| == 2
  {
    [h / 0x100, h % 0x100]
  }

  lemma Be16Word(h: Half)
    ensures BigEndian(h / 0x100, h % 0x100) == h
  {
  }

  predicate IpShape(ihl: nat, f: IpFields, options: seq<Byte>) {
    5 <= ihl <= 15 && f.offset < 0x2000 && |options| == 4 * (ihl - 5)
  }

  /** An IPv4 header of `ihl` words. */
  function Ipv4(ihl: nat, f: IpFields, options: seq<Byte>): (r: seq<Byte>)
    requires IpShape(ihl, f, options)
    ensures |r| == 4 * ihl
  {
    [0x40 + ihl, f.tos] + Be16(f.len) + Be16(f.id) + Be16(FlagsWord(f)) + [f.ttl, f.proto] + Be16(f.sum)
    + Le32(f.src) + Le32(f.dest) + options
  }

  lemma Ipv4Parts(ihl: nat, f: IpFields, options: seq<Byte>, r: seq<Byte>)
    requires IpShape(ihl, f, options) && r == Ipv4(ihl, f, options)
    ensures r[0] == 0x40 + ihl && r[1] == f.tos && r[8] == f.ttl && r[9] == f.proto
    ensures r[2..4] == Be16(f.len) && r[4..6] == Be16(f.id) && r[6..8] == Be16(FlagsWord(f)) && r[10..12] == Be16(f.sum)
    ensures r[12..16] == Le32(f.src) && r[16..20] == Le32(f.dest) && r[20..] == options
  {
  }

  lemma HalfOf(b: seq<Byte>, k: nat, h: Half)
    requires k + 2 <= |b| && b[k..k + 2] == Be16(h)
    ensures BigEndian(b[k], b[k + 1]) == h
  {
    Be16Word(h);
    var s := b[k..k + 2];
    assert b[k] == s[0] && b[k + 1] == s[1];
  }

  lemma WordOf(b: seq<Byte>, k: nat, w: Word)
    requires k + 4 <= |b| && b[k..k + 4] == Le32(w)
    ensures Join(b[k], b[k + 1], b[k + 2], b[k + 3]) == w
  {
    Le32Join(w);
    var s := b[k..k + 4];
    assert b[k] == s[0] && b[k + 1] == s[1] && b[k + 2] == s[2] && b[k + 3] == s[3];
  }

  /** What stands where in a packet whose IPv4 header begins at `o`. */
  lemma Ipv4At(p: seq<Byte>, o: nat, ihl: nat, f: IpFields, options: seq<Byte>, r: seq<Byte>)
    requires IpShape(ihl, f, options) && r == Ipv4(ihl, f, options) && o + |r| <= |p| && p[o..o + |r|] == r
    ensures p[o] == 0x40 + ihl && p[o] / 16 == 4 && p[o] % 16 == ihl && p[o + 8] == f.ttl && p[o + 9] == f.proto
    ensures BigEndian(p[o + 2], p[o + 3]) == f.len && BigEndian(p[o + 6], p[o + 7]) == FlagsWord(f)
    ensures Join(p[o + 12], p[o + 13], p[o + 14], p[o + 15]) == f.src
    ensures Join(p[o + 16], p[o + 17], p[o + 18], p[o + 19]) == f.dest
  {
    Ipv4Parts(ihl, f, options, r);
    HalfOf(r, 2, f.len);
    HalfOf(r, 6, FlagsWord(f));
    WordOf(r, 12, f.src);
    WordOf(r, 16, f.dest);
    assert forall i :: o <= i < o + 20 ==> p[i] == p[o..o + |r|][i - o];
  }

  lemma Behind(pre: seq<Byte>, r: seq<Byte>, rest: seq<Byte>, p: seq<Byte>)
    requires p == pre + (r + rest)
    ensures p[|pre|..|pre| + |r|] == r && p[|pre| + |r|..] == rest
  {
  }

  /** A TCP header of `words` words: ports, sequence and acknowledgement numbers in `before`, window, checksum and urgent
      pointer in `behind`. */
  function Tcp(before: seq<Byte>, words: nat, low: nat, flags: Byte, behind: seq<Byte>, options: seq<Byte>): (r: seq<Byte>)
    requires |before| == 12 && 5 <= words <= 15 && low < 16 && |behind| == 6 && |options| == 4 * words - 20
    ensures |r| == 4 * words
  {
    before + [0x10 * words + low, flags] + behind + options
  }

  lemma TcpAtOffset(p: seq<Byte>, o: nat, before: seq<Byte>, words: nat, low: nat, flags: Byte, behind: seq<Byte>,
                    options: seq<Byte>, r: seq<Byte>)
    requires |before| == 12 && 5 <= words <= 15 && low < 16 && |behind| == 6 && |options| == 4 * words - 20
    requires r == Tcp(before, words, low, flags, behind, options) && o + |r| <= |p| && p[o..o + |r|] == r
    ensures p[o + 12] / 0x10 == words && p[o + 13] == flags && p[o + 20..o + 4 * words] == options
  {
    assert r[12] == 0x10 * words + low && r[13] == flags && r[20..] == options;
    assert p[o + 12] == p[o..o + |r|][12] && p[o + 13] == p[o..o + |r|][13];
    assert p[o + 20..o + 4 * words] == p[o..o + |r|][20..];
  }
}
