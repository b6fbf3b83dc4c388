/** IPv4 addresses as the firmware holds them: network-order octets read by a little-endian CPU as one
    32-bit word, so the last octet is the most significant byte of the word. */
module Addresses {
  import opened Bits

  /** The word with the given bytes, least significant first. */
  function Join(a: Byte, b: Byte, c: Byte, d: Byte): Word {
    a + 0x100 * (b + 0x100 * (c + 0x100 * d))
  }

  /** A 32-bit word, least significant byte first. */
  function Le32(w: Word): (r: seq<Byte>)
    ensures |r| == 4
  {
    var q1: nat := w / 0x100;
    var q2: nat := q1 / 0x100;
    [w % 0x100, q1 % 0x100, q2 % 0x100, q2 / 0x100]
  }

  lemma Le32Join(w: Word)
    ensures Join(Le32(w)[0], Le32(w)[1], Le32(w)[2], Le32(w)[3]) == w
  {
    var q1: nat := w / 0x100;
    var q2: nat := q1 / 0x100;
    assert w == Join(w % 0x100, q1 % 0x100, q2 % 0x100, q2 / 0x100);
  }

  ghost function Split(w: Word): (r: (Byte, Byte, Byte, Byte))
    ensures w == Join(r.0, r.1, r.2, r.3)
  {
    SplitExists(w);
    var r: (Byte, Byte, Byte, Byte) :| w == Join(r.0, r.1, r.2, r.3);
    r
  }

  lemma SplitExists(w: Word)
    ensures exists r: (Byte, Byte, Byte, Byte) :: w == Join(r.0, r.1, r.2, r.3)
  {
    var q1 := w / 0x100;
    var q2 := q1 / 0x100;
    var r: (Byte, Byte, Byte, Byte) := (w % 0x100, q1 % 0x100, q2 % 0x100, q2 / 0x100);
    assert w == Join(r.0, r.1, r.2, r.3);
  }

  lemma LowByteDistinct(a: Byte, x: int, a': Byte, x': int)
    requires a + 0x100 * x == a' + 0x100 * x'
    ensures a == a' && x == x'
  {
  }

  lemma JoinDistinct(a: Byte, b: Byte, c: Byte, d: Byte, a': Byte, b': Byte, c': Byte, d': Byte)
    requires Join(a, b, c, d) == Join(a', b', c', d')
    ensures a == a' && b == b' && c == c' && d == d'
  {
    var x: int, y: int := c + 0x100 * d, c' + 0x100 * d';
    LowByteDistinct(a, b + 0x100 * x, a', b' + 0x100 * y);
    LowByteDistinct(b, x, b', y);
    LowByteDistinct(c, d, c', d');
  }

  /** The word whose bytes are those of `w` in reverse order. */
  ghost function Swap(w: Word): Word {
    var (a, b, c, d) := Split(w);
    Join(d, c, b, a)
  }

  lemma SwapJoin(a: Byte, b: Byte, c: Byte, d: Byte)
    ensures Swap(Join(a, b, c, d)) == Join(d, c, b, a)
  {
    var (a', b', c', d') := Split(Join(a, b, c, d));
    JoinDistinct(a, b, c, d, a', b', c', d');
  }

  /** htonl and ntohl. */
  method Htonl(w: Word) returns (r: Word)
    ensures r == Swap(w)
  {
    var q1 := w / 0x100;
    var q2 := q1 / 0x100;
    var a, b, c, d := w % 0x100, q1 % 0x100, q2 % 0x100, q2 / 0x100;
    assert w == Join(a, b, c, d);
    SwapJoin(a, b, c, d);
    r := Join(d, c, b, a);
  }

  function Plus1(w: Word): Word {
    if w == 0xFFFF_FFFF then 0 else w + 1
  }

  /** The word of the address after `w`, wrapping at 32 bits. */
  ghost function Next(w: Word): Word {
    Swap(Plus1(Swap(w)))
  }

  /** Converts to host order, adds one and converts back. */
  method Increment(w: Word) returns (r: Word)
    ensures r == Next(w)
  {
    var h := Htonl(w);
    r := Htonl(Plus1(h));
  }

  /** The first three octets agree. */
  predicate SameBlock(v: Word, w: Word) {
    v % 0x100_0000 == w % 0x100_0000
  }

  /** Every word is a join of four bytes, and Swap reverses them. */
  lemma Bytes(w: Word) returns (a: Byte, b: Byte, c: Byte, d: Byte)
    ensures w == Join(a, b, c, d) && Swap(w) == Join(d, c, b, a)
  {
    var (a', b', c', d') := Split(w);
    a, b, c, d := a', b', c', d';
  }

  lemma SwapTwice(w: Word)
    ensures Swap(Swap(w)) == w
  {
    var a, b, c, d := Bytes(w);
    SwapJoin(d, c, b, a);
  }

  lemma NextJoin(a: Byte, b: Byte, c: Byte, d: Byte)
    requires d < 255
    ensures Next(Join(a, b, c, d)) == Join(a, b, c, d + 1)
  {
    var w, h := Join(a, b, c, d), Join(d, c, b, a);
    assert Swap(w) == h by { SwapJoin(a, b, c, d); }
    assert Plus1(h) == Join(d + 1, c, b, a);
    SwapJoin(d + 1, c, b, a);
  }

  /** Unless the last octet is 255, the next address is one step away and in the same block. */
  lemma NextInBlock(w: Word)
    requires w < 0xFF00_0000
    ensures Next(w) == w + 0x100_0000
  {
    var a, b, c, d := Bytes(w);
    NextJoin(a, b, c, d);
  }

  lemma BlockJoin(a: Byte, b: Byte, c: Byte, d: Byte)
    ensures Join(a, b, c, d) % 0x100_0000 == Join(a, b, c, 0)
    ensures Join(d, c, b, a) / 0x100 == Join(c, b, a, 0)
  {
  }

  /** In one /24 block, comparing words and comparing host-order addresses is the same. */
  lemma OrderInBlock(v: Word, w: Word)
    requires SameBlock(v, w)
    ensures v <= w <==> Swap(v) <= Swap(w)
    ensures v < w <==> Swap(v) < Swap(w)
  {
    var a, b, c, d := Bytes(v);
    var a', b', c', d' := Bytes(w);
    BlockJoin(a, b, c, d);
    BlockJoin(a', b', c', d');
    JoinDistinct(a, b, c, 0, a', b', c', 0);
  }

  /** Outside one block it is not: 10.0.1.1 is above 10.0.0.2, its word is below. */
  lemma OrderAcrossBlocks()
    ensures exists v: Word, w: Word :: v < w && Swap(w) < Swap(v)
  {
    SwapJoin(10, 0, 1, 1);
    SwapJoin(10, 0, 0, 2);
    assert Join(10, 0, 1, 1) < Join(10, 0, 0, 2) && Swap(Join(10, 0, 0, 2)) < Swap(Join(10, 0, 1, 1));
  }

  /** Two addresses are in one block when their host-order forms agree above the last octet. */
  lemma SameBlockHost(v: Word, w: Word)
    ensures SameBlock(v, w) <==> Swap(v) / 0x100 == Swap(w) / 0x100
  {
    var a, b, c, d := Bytes(v);
    var a', b', c', d' := Bytes(w);
    BlockJoin(a, b, c, d);
    BlockJoin(a', b', c', d');
    if SameBlock(v, w) {
      JoinDistinct(a, b, c, 0, a', b', c', 0);
    }
    if Swap(v) / 0x100 == Swap(w) / 0x100 {
      JoinDistinct(c, b, a, 0, c', b', a', 0);
    }
  }

  /** The bitwise operators do not depend on the byte order. */
  lemma AndSwap(v: Word, w: Word)
    ensures And(v, w) < 0x1_0000_0000
    ensures Swap(And(v, w)) == And(Swap(v), Swap(w))
  {
    var a, b, c, d := Bytes(v);
    var a', b', c', d' := Bytes(w);
    AndBytes(a, b, c, d, a', b', c', d');
    AndBytes(d, c, b, a, d', c', b', a');
    SwapJoin(And(a, a'), And(b, b'), And(c, c'), And(d, d'));
  }

  lemma AndBytes(a: Byte, b: Byte, c: Byte, d: Byte, a': Byte, b': Byte, c': Byte, d': Byte)
    ensures And(Join(a, b, c, d), Join(a', b', c', d')) == Join(And(a, a'), And(b, b'), And(c, c'), And(d, d'))
  {
    var x2, y2 := Join(c, d, 0, 0), Join(c', d', 0, 0);
    assert And(x2, y2) == Join(And(c, c'), And(d, d'), 0, 0) by { AndSplit8(x2, c, d, y2, c', d'); }
    var x1, y1 := Join(b, c, d, 0), Join(b', c', d', 0);
    assert And(x1, y1) == And(b, b') + 0x100 * And(x2, y2) by { AndSplit8(x1, b, x2, y1, b', y2); }
    AndSplit8(Join(a, b, c, d), a, x1, Join(a', b', c', d'), a', y1);
  }

  lemma AndSplit8(v: nat, b: Byte, x: nat, w: nat, b': Byte, y: nat)
    requires v == b + 0x100 * x && w == b' + 0x100 * y
    ensures And(v, w) == And(b, b') + 0x100 * And(x, y)
  {
    calc {
      And(v, w);
      And(b + 0x100 * x, b' + 0x100 * y);
      { AndSplit8Sum(x, b, y, b'); }
      And(b, b') + 0x100 * And(x, y);
    }
  }

  lemma AndSplit8Sum(x: nat, b: Byte, y: nat, b': Byte)
    ensures And(b + 0x100 * x, b' + 0x100 * y) == And(b, b') + 0x100 * And(x, y)
  {
    Pow2Table();
    Shl8(x);
    Shl8(y);
    Shl8(And(x, y));
    AndSplit(x, b, y, b', 8);
  }

  lemma Shl8(x: nat)
    ensures Shl(x, 8) == 0x100 * x
  {
    assert Shl(x, 8) == 4 * Shl(x, 6);
    assert Shl(x, 6) == 4 * Shl(x, 4);
    assert Shl(x, 4) == 4 * Shl(x, 2);
    assert Shl(x, 2) == 2 * Shl(x, 1);
    assert Shl(x, 1) == 2 * x;
  }
}
