/** The address pool of the DHCP server: the start-up checks, the automatic pool and the check of a
    configured pool. */
module DhcpPool {
  import opened Bits
  import opened Addresses

  const MAX_LEASE := 100

  /** The stored pool, in network order. */
  datatype Pool = Pool(enable: bool, startIp: Word, endIp: Word)

  function Sub(x: Word, y: Word): Word {
    if x >= y then x - y else x - y + 0x1_0000_0000
  }

  function Plus(x: Word, y: Word): Word {
    if x + y < 0x1_0000_0000 then x + y else x + y - 0x1_0000_0000
  }

  /** The checks made before the server starts, in host order: the mask is contiguous, and the address is
      neither the network nor the broadcast address. */
  predicate StartChecks(mask: Word, ip: Word) {
    && OrWord(Sub(mask, 1), mask) == ALL_ONES
    && ip != And(ip, mask)
    && ip != OrWord(And(ip, mask), Not(mask))
  }

  /** The automatic pool, in host order: the larger side of the subnet around the server, cut at the limit. */
  function DefaultRange(ip: Word, mask: Word): (Word, Word) {
    var base: Word := And(ip, mask);
    var top := OrWord(base, Not(mask));
    var below := Sub(ip, base) > Sub(top, ip);
    var first := if below then Plus(base, 1) else Plus(ip, 1);
    var last := if below then Sub(ip, 1) else Sub(top, 1);
    if Plus(Sub(last, first), 1) > MAX_LEASE then (first, Sub(Plus(first, MAX_LEASE), 1)) else (first, last)
  }

  function Max(x: int, y: int): int {
    if x > y then x else y
  }

  /** What the subnet of a checked address looks like: a block of at least four addresses. */
  lemma Subnet(ip: Word, mask: Word) returns (k: nat)
    requires StartChecks(mask, ip)
    ensures 2 <= k <= 32 && mask == Mask(k)
    ensures And(ip, mask) == Floor(ip, k) && OrWord(And(ip, mask), Not(mask)) == Floor(ip, k) + Pow2(k) - 1
    ensures Floor(ip, k) < ip < Floor(ip, k) + Pow2(k) - 1
  {
    ContiguousMask(mask);
    k :| 0 <= k <= 32 && mask == Mask(k);
    BlockOf(ip, mask, k);
    assert Pow2(0) == 1 && Pow2(1) == 2;
  }

  /** The first and the last address of the block, as the start-up code computes them. */
  lemma BlockOf(ip: Word, mask: Word, k: nat)
    requires k <= 32 && mask == Mask(k)
    ensures And(ip, mask) == Floor(ip, k) && OrWord(And(ip, mask), Not(mask)) == Floor(ip, k) + Pow2(k) - 1
  {
    AndMask(ip, k);
    OrLowBits(ip, k);
  }

  /** For every mask and server address that pass the checks, the automatic pool is not empty, lies strictly
      inside the subnet on the larger side of the server, leaves the server out, and has as many addresses
      as that side, at most the limit. */
  lemma DefaultRangeProperty(ip: Word, mask: Word)
    requires StartChecks(mask, ip)
    ensures var (first, last) := DefaultRange(ip, mask);
            var base, top := And(ip, mask), OrWord(And(ip, mask), Not(mask));
            && base < first <= last < top
            && !(first <= ip <= last)
            && (if ip - base > top - ip then first == base + 1 && last < ip else first == ip + 1)
            && last - first + 1 == Min(MAX_LEASE, Max(ip - base - 1, top - ip - 1))
            && forall a: Word :: first <= a <= last ==> And(a, mask) == And(ip, mask)
  {
    var k := Subnet(ip, mask);
    var (first, last) := DefaultRange(ip, mask);
    Pow2Mono(2, k);
    assert Pow2(2) == 4;
    SameSubnet(ip, mask, k);
  }

  lemma SameSubnet(ip: Word, mask: Word, k: nat)
    requires k <= 32 && mask == Mask(k)
    ensures forall a: Word :: Floor(ip, k) <= a < Floor(ip, k) + Pow2(k) ==> And(a, mask) == And(ip, mask)
  {
    AndMask(ip, k);
    forall a: Word | Floor(ip, k) <= a < Floor(ip, k) + Pow2(k)
      ensures And(a, mask) == And(ip, mask)
    {
      FloorOfBlock(a, ip, k);
      AndMask(a, k);
    }
  }

  /** A configured pool is kept when it leaves the server out, lies in the server's subnet and is small enough. */
  ghost predicate Accepted(p: Pool, server: Word, mask: Word) {
    var ip, first, last := Swap(server), Swap(p.startIp), Swap(p.endIp);
    && p.enable
    && !(first <= ip <= last)
    && And(p.startIp, mask) == And(server, mask)
    && And(p.endIp, mask) == And(server, mask)
    && Plus(Sub(last, first), 1) <= MAX_LEASE
  }

  /** The pool after the server was started on `server`; all arguments in network order. */
  ghost function PollSet(p: Pool, server: Word, mask: Word): Pool {
    if Accepted(p, server, mask) then p
    else
      var (first, last) := DefaultRange(Swap(server), Swap(mask));
      Pool(true, Swap(first), Swap(last))
  }

  /** A pool the lease engine can count through: not empty, in one /24 block, and not up to the last octet 255. */
  predicate Usable(p: Pool) {
    0 < p.startIp <= p.endIp < 0xFF00_0000 && SameBlock(p.startIp, p.endIp)
  }

  /** 255.255.255.0 in network order, as the server sets it. */
  const MASK24: Word := 0x00FF_FFFF

  lemma Mask24()
    ensures Swap(MASK24) == 0xFFFF_FF00 == Mask(8)
  {
    SwapJoin(255, 255, 255, 0);
    Pow2Table();
  }

  /** The addresses of a /24 subnet are the words of one block. */
  lemma InSubnet24(v: Word, w: Word)
    ensures And(v, MASK24) == And(w, MASK24) <==> SameBlock(v, w)
  {
    Masked24(v);
    Masked24(w);
    SameBlockHost(v, w);
    if And(v, MASK24) == And(w, MASK24) {
      assert Swap(v) / 0x100 == Swap(w) / 0x100;
    }
    if SameBlock(v, w) {
      SwapTwice(And(v, MASK24));
      SwapTwice(And(w, MASK24));
    }
  }

  lemma Masked24(v: Word)
    ensures And(v, MASK24) < 0x1_0000_0000
    ensures Swap(And(v, MASK24)) == Swap(v) / 0x100 * 0x100
  {
    AndSwap(v, MASK24);
    Mask24();
    AndMask(Swap(v), 8);
    Floor8(Swap(v));
  }

  lemma Floor8(x: nat)
    ensures Floor(x, 8) == x / 0x100 * 0x100
  {
    Pow2Table();
    FloorStep4(x);
    FloorStep4(x / 16);
    assert x / 16 / 16 == x / 0x100;
  }

  lemma FloorStep4(x: nat)
    ensures forall k :: k >= 4 ==> Floor(x, k) == 16 * Floor(x / 16, k - 4)
  {
    forall k | k >= 4
      ensures Floor(x, k) == 16 * Floor(x / 16, k - 4)
    {
      var x1 := x / 2;
      var x2 := x1 / 2;
      var x3 := x2 / 2;
      var x4 := x3 / 2;
      assert Floor(x, k) == 2 * Floor(x1, k - 1);
      assert Floor(x1, k - 1) == 2 * Floor(x2, k - 2);
      assert Floor(x2, k - 2) == 2 * Floor(x3, k - 3);
      assert Floor(x3, k - 3) == 2 * Floor(x4, k - 4);
      assert x4 == x / 16;
    }
  }

  /** The automatic pool of a /24 subnet is usable and leaves the server out. */
  lemma DefaultUsable(server: Word)
    requires StartChecks(Swap(MASK24), Swap(server))
    ensures var (first, last) := DefaultRange(Swap(server), Swap(MASK24));
            var p := Pool(true, Swap(first), Swap(last));
            && Usable(p)
            && SameBlock(p.startIp, server)
            && !(p.startIp <= server <= p.endIp)
  {
    var (first, last) := DefaultRange(Swap(server), Swap(MASK24));
    DefaultInBlock(Swap(server), first, last);
    SwapTwice(first);
    SwapTwice(last);
    SameBlockHost(Swap(first), server);
    SameBlockHost(Swap(last), server);
    OrderInBlock(Swap(first), Swap(last));
    OrderInBlock(Swap(first), server);
    OrderInBlock(server, Swap(last));
    LastOctet(last);
    LastOctet(first);
  }

  /** On a /24 the automatic pool has the first three octets of the server, and neither 0 nor 255 as its last. */
  lemma DefaultInBlock(ip: Word, first: Word, last: Word)
    requires StartChecks(Swap(MASK24), ip) && (first, last) == DefaultRange(ip, Swap(MASK24))
    ensures first <= last && !(first <= ip <= last)
    ensures first / 0x100 == last / 0x100 == ip / 0x100 && first % 0x100 > 0 && last % 0x100 < 255
  {
    var mask: Word := Swap(MASK24);
    assert And(ip, mask) == ip / 0x100 * 0x100 && OrWord(And(ip, mask), Not(mask)) == ip / 0x100 * 0x100 + 255 by {
      Mask24();
      Pow2Table();
      BlockOf(ip, mask, 8);
      Floor8(ip);
    }
    DefaultRangeProperty(ip, mask);
    InsideBlock(first, ip / 0x100);
    InsideBlock(last, ip / 0x100);
  }

  lemma InsideBlock(a: nat, q: nat)
    requires 0x100 * q < a < 0x100 * q + 255
    ensures a / 0x100 == q && 0 < a % 0x100 < 255
  {
  }

  lemma LastOctet(h: Word)
    ensures Swap(h) / 0x100_0000 == h % 0x100
  {
    var a, b, c, d := Bytes(h);
    assert h % 0x100 == a;
    var low, top: nat := Join(d, c, b, 0), a;
    assert Swap(h) == 0x100_0000 * top + low && low < 0x100_0000;
  }

  /** A configured pool that was accepted is usable exactly when it is not the empty range just after its own
      end, does not reach the last octet 255 and does not start at 0.0.0.0. */
  lemma ConfiguredUsable(p: Pool, server: Word)
    requires Accepted(p, server, MASK24)
    ensures Usable(p) <==>
              && Swap(p.startIp) != Plus(Swap(p.endIp), 1)
              && Swap(p.endIp) % 0x100 != 255
              && p.startIp != 0
  {
    InSubnet24(p.startIp, server);
    InSubnet24(p.endIp, server);
    SameBlockHost(p.startIp, p.endIp);
    OrderInBlock(p.startIp, p.endIp);
    SwapTwice(p.endIp);
    LastOctet(Swap(p.endIp));
  }

  /** So the pool after a start on a /24 network is usable unless a degenerate configured pool was accepted. */
  lemma PollSetUsable(p: Pool, server: Word)
    requires StartChecks(Swap(MASK24), Swap(server))
    requires Accepted(p, server, MASK24) ==> Usable(p)
    ensures Usable(PollSet(p, server, MASK24)) && PollSet(p, server, MASK24).enable
  {
    if !Accepted(p, server, MASK24) {
      DefaultUsable(server);
    }
  }

  /** The address is neither the first nor the last of its block of 2^k addresses. */
  predicate HostOf(ip: Word, k: nat) {
    Floor(ip, k) < ip < Floor(ip, k) + Pow2(k) - 1
  }

  lemma ChecksOn(mask: Word, ip: Word, k: nat)
    requires k <= 32 && mask == Mask(k)
    ensures StartChecks(mask, ip) <==> HostOf(ip, k)
  {
    assert Contiguous(mask);
    ContiguousMask(mask);
    assert Sub(mask, 1) == (mask + ALL_ONES) % 0x1_0000_0000;
    BlockOf(ip, mask, k);
  }

  /** The start-up checks let exactly those addresses through that are host addresses of a subnet with a contiguous
      mask. */
  lemma StartChecksExactly(mask: Word, ip: Word)
    ensures StartChecks(mask, ip) <==> exists k: nat :: k <= 32 && mask == Mask(k) && HostOf(ip, k)
  {
    if StartChecks(mask, ip) {
      var k := Subnet(ip, mask);
      assert HostOf(ip, k);
    }
    if k: nat :| k <= 32 && mask == Mask(k) && HostOf(ip, k) {
      ChecksOn(mask, ip, k);
    }
  }

  /** On a /24: whose last octet is neither 0 nor 255. */
  lemma StartChecks24(ip: Word)
    ensures StartChecks(Swap(MASK24), ip) <==> 0 < ip % 0x100 < 255
  {
    Mask24();
    ChecksOn(Swap(MASK24), ip, 8);
    Floor8(ip);
    assert Pow2(8) == 0x100 by { Pow2Table(); }
  }

  /** The last octet of an address. */
  function Host(a: Word): Byte {
    a / 0x100_0000
  }

  /** Which configured pools a start keeps on a /24: those switched on, of the server's subnet, without the server, with at
      most 100 addresses; the empty range just in front of its own start is let through. */
  lemma AcceptedExactly(p: Pool, server: Word)
    ensures Accepted(p, server, MASK24) <==>
              && p.enable
              && SameBlock(p.startIp, server) && SameBlock(p.endIp, server)
              && !(Host(p.startIp) <= Host(server) <= Host(p.endIp))
              && 0 <= Host(p.endIp) - Host(p.startIp) + 1 <= 100
  {
    InSubnet24(p.startIp, server);
    InSubnet24(p.endIp, server);
    if SameBlock(p.startIp, server) && SameBlock(p.endIp, server) {
      HostOctets(p.startIp, server);
      HostOctets(p.endIp, server);
    }
  }

  lemma HostOctets(a: Word, server: Word)
    requires SameBlock(a, server)
    ensures Swap(a) - Swap(server) == Host(a) - Host(server)
  {
    SameBlockHost(a, server);
    LastOctet(Swap(a));
    LastOctet(Swap(server));
    SwapTwice(a);
    SwapTwice(server);
  }

  /** The pool the management code reports for a server address, in network order: computed on a /24 mask. */
  method GetDhcpPoolRange(server: Word) returns (startIp: Word, endIp: Word)
    ensures var (first, last) := DefaultRange(Swap(server), Swap(MASK24));
            startIp == Swap(first) && endIp == Swap(last)
  {
    Mask24();
    var netmask: Word := 0xFFFF_FF00;
    var ip := Htonl(server);
    var first: Word := And(ip, netmask);
    var last := OrWord(first, Not(netmask));
    if Sub(ip, first) > Sub(last, ip) {
      first := Plus(first, 1);
      last := Sub(ip, 1);
    } else {
      first := Plus(ip, 1);
      last := Sub(last, 1);
    }
    if Plus(Sub(last, first), 1) > MAX_LEASE {
      last := Sub(Plus(first, MAX_LEASE), 1);
    }
    startIp := Htonl(first);
    endIp := Htonl(last);
  }
}
