/** The DHCP server as it runs: a linked list of leases, a moving cursor, and methods that change them in
    place. Every method is proved against the functions of `DhcpLeases`. */
module DhcpServer {
  import opened Bits
  import opened Addresses
  import opened DhcpOptions
  import opened DhcpPool
  import opened DhcpLeases
  import R = DhcpReservations

  /** A list node together with the lease it points to. */
  class Node {
    var ip: Word
    var mac: Mac
    var timer: Word
    var hostname: seq<Byte>
    var next: Node?

    constructor (ip: Word, mac: Mac, timer: Word)
      ensures Value() == Lease(ip, mac, timer, []) && next == null
    {
      this.ip, this.mac, this.timer, this.hostname, this.next := ip, mac, timer, [], null;
    }

    function Value(): Lease
      reads this
    {
      Lease(ip, mac, timer, hostname)
    }
  }

  /** The increment of an octet counter. */
  function IncByte(b: Byte): Byte {
    if b == 255 then 0 else b + 1
  }

  lemma IncByteMod(k: nat)
    ensures IncByte(k % 0x100) == (k + 1) % 0x100
  {
  }

  ghost predicate SomeOf(s': seq<Node>, s: seq<Node>) {
    forall i :: 0 <= i < |s'| ==> s'[i] in s
  }

  lemma SomeOfTrans(a: seq<Node>, b: seq<Node>, c: seq<Node>)
    requires SomeOf(a, b) && SomeOf(b, c)
    ensures SomeOf(a, c)
  {
    forall i | 0 <= i < |a|
      ensures a[i] in c
    {
      var j :| 0 <= j < |b| && b[j] == a[i];
    }
  }

  /** The linked list of leases. */
  lemma IndexIs(ls: seq<Lease>, mac: R.Mac, k: nat)
    requires k <= |ls| && (k < |ls| ==> ls[k].mac == mac) && forall j :: 0 <= j < k ==> ls[j].mac != mac
    ensures IndexOf(ls, mac) == k
  {
  }

  class LeaseList {
    var head: Node?
    ghost var spine: seq<Node>
    ghost var leases: seq<Lease>

    /** The nodes of the list are those of `spine`, linked in that order, and `leases` is what they hold. */
    ghost predicate Valid()
      reads this, spine
    {
      && (forall i, j :: 0 <= i < j < |spine| ==> spine[i] != spine[j])
      && (if spine == [] then head == null else head == spine[0] && spine[|spine| - 1].next == null)
      && (forall i {:trigger spine[i].next} :: 0 <= i < |spine| - 1 ==> spine[i].next == spine[i + 1])
      && |leases| == |spine|
      && forall i :: 0 <= i < |spine| ==> leases[i] == spine[i].Value()
    }

    constructor ()
      ensures Valid() && leases == [] && spine == []
    {
      head, spine, leases := null, [], [];
    }

    /** The node in a place of the list, null behind its end. */
    ghost predicate IsAt(node: Node?, k: nat)
      reads this
    {
      k <= |spine| && node == (if k < |spine| then spine[k] else null)
    }

    /** The node behind which an address is inserted (null for the head): the head is compared first, then the
        list is walked up to the first larger address. */
    method FindPlace(ip: Word) returns (p: Node?, ghost pos: nat)
      requires Valid()
      ensures pos == InsertPos(leases, ip)
      ensures if pos == 0 then p == null else p == spine[pos - 1]
    {
      if head == null || ip < head.ip {
        assert head != null ==> leases[0].ip == head.ip;
        return null, 0;
      }
      var q: Node := head;
      pos := 1;
      while q.next != null && q.next.ip <= ip
        invariant 0 < pos <= |spine| && q == spine[pos - 1]
        invariant forall j :: 0 <= j < pos ==> spine[j].ip <= ip
        decreases |spine| - pos
      {
        q := q.next;
        pos := pos + 1;
      }
      p := q;
    }

    /** Links a node in at the head. */
    method LinkHead(x: Node)
      requires Valid() && x !in spine
      modifies this`head, this`spine, this`leases, x`next
      ensures Valid() && spine == InsertAt(old(spine), 0, x)
      ensures leases == InsertAt(old(leases), 0, old(x.Value()))
    {
      x.next := head;
      head := x;
      leases := InsertAt(leases, 0, x.Value());
      spine := InsertAt(spine, 0, x);
    }

    /** Links a node in behind `p`, or at the head when `p` is null. */
    method LinkAfter(p: Node?, x: Node, ghost pos: nat)
      requires Valid() && x !in spine && pos <= |spine|
      requires if pos == 0 then p == null else p == spine[pos - 1]
      modifies this`head, this`spine, this`leases, spine, x`next
      ensures Valid() && spine == InsertAt(old(spine), pos, x)
      ensures leases == InsertAt(old(leases), pos, old(x.Value()))
    {
      if p == null {
        LinkHead(x);
        return;
      }
      ghost var s := spine;
      x.next := p.next;
      p.next := x;
      spine := InsertAt(s, pos, x);
      leases := InsertAt(leases, pos, x.Value());
      InsertAtShape(s, pos, x);
      InsertAtShape(old(leases), pos, x.Value());
    }

    /** node_insert_to_list. */
    method InsertNode(x: Node)
      requires Valid() && x !in spine
      modifies this`head, this`spine, this`leases, spine, x`next
      ensures Valid()
      ensures spine == InsertAt(old(spine), InsertPos(old(leases), x.ip), x)
      ensures leases == Insert(old(leases), old(x.Value()))
      ensures forall n :: n in spine ==> n in old(spine) || n == x
    {
      var p, pos := FindPlace(x.ip);
      LinkAfter(p, x, pos);
    }

    /** node_remove_from_list: the head, or the node in front of the removed one, is linked past it. The
        scan goes on to the end of the list. */
    method RemoveNode(x: Node, ghost i: nat)
      requires Valid() && i < |spine| && x == spine[i]
      modifies this`head, this`spine, this`leases, spine
      ensures Valid() && spine == RemoveAt(old(spine), i) && SomeOf(spine, old(spine))
      ensures leases == RemoveAt(old(leases), i)
    {
      if head == x {
        UnlinkHead();
      } else {
        ghost var s, ls := spine, leases;
        var p: Node? := head;
        ghost var k: nat := 0;
        while p != null
          invariant Valid()
          invariant k < i ==> spine == s && leases == ls && p == s[k]
          invariant k >= i ==> spine == RemoveAt(s, i) && leases == RemoveAt(ls, i) && x !in spine
          invariant k >= i ==> k <= |spine| && p == (if k < |spine| then spine[k] else null)
          decreases |s| - k
        {
          assert p == spine[k];
          if p.next == x {
            UnlinkAfter(p, x, i);
          }
          p := p.next;
          k := k + 1;
        }
      }
    }

    /** Links the list past the node behind `p`. */
    method UnlinkAfter(p: Node, x: Node, ghost i: nat)
      requires Valid() && 0 < i < |spine| && p == spine[i - 1] && x == spine[i]
      modifies this`spine, this`leases, spine
      ensures Valid() && spine == RemoveAt(old(spine), i) && p.next == (if i < |spine| then spine[i] else null)
      ensures leases == RemoveAt(old(leases), i) && x !in spine && SomeOf(spine, old(spine))
    {
      ghost var s := spine;
      p.next := x.next;
      x.next := null;
      spine, leases := RemoveAt(s, i), RemoveAt(leases, i);
      RemoveAtShape(s, i);
      RemoveAtShape(old(leases), i);
    }

    /** Ages one lease and removes it when its time is up. */
    method AgeNode(node: Node, ghost k: nat) returns (next: Node?, kept: bool)
      requires Valid() && k < |spine| && node == spine[k]
      modifies this, spine
      ensures Valid() && SomeOf(spine, old(spine))
      ensures kept == (Older(old(leases[k])).timer != 0)
      ensures leases == if kept then old(leases)[k := Older(old(leases[k]))] else RemoveAt(old(leases), k)
      ensures IsAt(next, if kept then k + 1 else k)
    {
      var timer: Word := if node.timer == 0 then ALL_ONES else node.timer - 1;
      next := node.next;
      kept := timer != 0;
      SetTimer(node, timer, k);
      if timer == 0 {
        RemoveNode(node, k);
      }
    }

    /** Takes one off every timer and removes the expired leases on the way; counts the others in one octet. */
    method AgeAll() returns (count: Byte)
      requires Valid()
      modifies this, spine
      ensures Valid() && SomeOf(spine, old(spine))
      ensures leases == Aged(old(leases)) && count == |leases| % 0x100
    {
      ghost var all := leases;
      ghost var front: seq<Lease>, rest := [], leases;
      var node := head;
      count := 0;
      while node != null
        invariant Valid() && IsAt(node, |front|) && SomeOf(spine, old(spine))
        invariant leases == front + rest && Aged(all) == front + Aged(rest)
        invariant count == |front| % 0x100
        decreases |rest|
      {
        AgedStep(front, rest);
        IncByteMod(|front|);
        assert leases[|front|] == rest[0];
        ghost var before := spine;
        var kept;
        node, kept := AgeNode(node, |front|);
        SomeOfTrans(spine, before, old(spine));
        if kept {
          count := IncByte(count);
          front := front + [Older(rest[0])];
        }
        rest := rest[1..];
      }
      assert rest == [];
    }

    /** The node with the least time, the first of them, and the one in front of it. */
    method FindOldest() returns (minpre: Node, minp: Node, ghost mi: nat)
      requires Valid() && |spine| >= 2
      ensures mi == Oldest(leases) && minp == spine[mi] && (mi > 0 ==> minpre == spine[mi - 1])
    {
      var pre: Node := head;
      var p := pre.next;
      minpre, minp, mi := pre, pre, 0;
      ghost var k: nat := 1;
      while p != null
        invariant 0 < k <= |spine| && IsAt(p, k) && pre == spine[k - 1]
        invariant mi == Oldest(leases[..k]) && minp == spine[mi] && (mi > 0 ==> minpre == spine[mi - 1])
        decreases |spine| - k
      {
        assert leases[..k + 1][..k] == leases[..k];
        if p.timer < minp.timer {
          minp := p;
          minpre := pre;
          mi := k;
        }
        pre := p;
        p := p.next;
        k := k + 1;
      }
      assert leases[..k] == leases;
    }

    /** kill_oldest_dhcps_pool: removes the first lease with the least remaining time. */
    method KillOldest()
      requires Valid() && |spine| >= 2
      modifies this, spine
      ensures Valid() && SomeOf(spine, old(spine))
      ensures leases == RemoveAt(old(leases), Oldest(old(leases)))
    {
      var minpre, minp, mi := FindOldest();
      if minp == head {
        UnlinkHead();
      } else {
        UnlinkAfter(minpre, minp, mi);
      }
    }

    /** Ages the leases and, when more stations than allowed are left, evicts the one with the least time. */
    method AgeAndEvict(maxStations: Byte)
      requires Valid() && maxStations >= 1
      modifies this, spine
      ensures Valid() && SomeOf(spine, old(spine))
      ensures leases == Ticked(old(leases), maxStations)
    {
      var count := AgeAll();
      if count > maxStations {
        ghost var before := spine;
        KillOldest();
        SomeOfTrans(spine, before, old(spine));
      }
    }

    /** Links the list past its first node. */
    method UnlinkHead()
      requires Valid() && spine != []
      modifies this`head, this`spine, this`leases, spine
      ensures Valid() && spine == RemoveAt(old(spine), 0) && leases == RemoveAt(old(leases), 0)
      ensures SomeOf(spine, old(spine))
    {
      var x: Node := head;
      head := x.next;
      x.next := null;
      spine, leases := RemoveAt(spine, 0), RemoveAt(leases, 0);
    }

    /** Restarts the timer of a lease. */
    method SetTimer(node: Node, time: Word, ghost k: nat)
      requires Valid() && k < |spine| && node == spine[k]
      modifies this`leases, spine
      ensures Valid()
      ensures leases == old(leases)[k := old(leases[k]).(timer := time)]
    {
      node.timer := time;
      leases := leases[k := node.Value()];
    }

    method SetHostname(node: Node, hostname: seq<Byte>, ghost k: nat)
      requires Valid() && k < |spine| && node == spine[k]
      modifies this`leases, spine
      ensures Valid()
      ensures leases == old(leases)[k := old(leases[k]).(hostname := hostname)]
    {
      node.hostname := hostname;
      leases := leases[k := node.Value()];
    }
  }

  class DhcpServer {
    const reservations: R.ReservationTable
    const leaseTime: Word
    const maxStations: Byte
    const list: LeaseList
    var clientAddress: Word
    var clientAddressPlus: Word
    var declined: bool
    var renew: bool
    var pool: Pool
    var started: bool

    ghost predicate Valid()
      reads list, list.spine
    {
      list.Valid()
    }

    ghost function View(): Server
      reads this, list
    {
      Server(list.leases, clientAddressPlus, clientAddress, declined, renew, pool)
    }

    constructor (reservations: R.ReservationTable, leaseTime: Word, maxStations: Byte)
      ensures Valid() && list.leases == [] && fresh(list) && list.spine == [] && !started && pool == Pool(false, 0, 0)
      ensures this.reservations == reservations && this.leaseTime == leaseTime && this.maxStations == maxStations
    {
      this.reservations, this.leaseTime, this.maxStations := reservations, leaseTime, maxStations;
      list := new LeaseList();
      clientAddress, clientAddressPlus, declined, renew := 0, 0, false, false;
      pool, started := Pool(false, 0, 0), false;
    }

    /** The nodes of the second sequence are old ones or newly allocated. */
    twostate predicate NewNodesFresh(s: seq<Node>, new s': seq<Node>) {
      forall i :: 0 <= i < |s'| ==> s'[i] in s || fresh(s'[i])
    }

    /** One lease of another client passes by: the cursor and the first-gap search. */
    method PassLease(ip: Word, first: Word, flag: bool) returns (first': Word, flag': bool)
      requires clientAddress == clientAddressPlus
      modifies this`clientAddress, this`clientAddressPlus
      ensures clientAddress == clientAddressPlus
      ensures clientAddressPlus == if ip == old(clientAddressPlus) then Next(ip) else old(clientAddressPlus)
      ensures Gap(first', flag') == if flag then Gap(first, true) else if first < ip then Gap(first, true)
                                    else Gap(Next(first), false)
    {
      first', flag' := first, flag;
      if ip == clientAddressPlus {
        clientAddressPlus := Increment(clientAddressPlus);
        clientAddress := clientAddressPlus;
      }
      if !flag {
        if first < ip {
          flag' := true;
        } else {
          first' := Increment(first);
        }
      }
    }

    /** The loop of parse_msg over the list: it looks for the client's lease, moves the cursor on whenever it
        meets its address, and searches the first unused address. */
    method WalkLeases(mac: Mac) returns (node: Node?, first: Word, ghost k: nat)
      requires Valid() && list.head != null
      modifies this`clientAddress, this`clientAddressPlus
      ensures k == IndexOf(list.leases, mac) && list.IsAt(node, k)
      ensures clientAddressPlus == CursorAfter(list.leases, k, old(clientAddressPlus))
      ensures first == GapAfter(list.leases, k, pool.startIp).addr
      ensures node == null ==> clientAddress == clientAddressPlus
    {
      ghost var ls := list.leases;
      first := pool.startIp;
      clientAddress := clientAddressPlus;
      var flag := false;
      node, k := list.head, 0;
      while node != null && node.mac != mac
        invariant list.IsAt(node, k)
        invariant clientAddressPlus == clientAddress == CursorAfter(ls, k, old(clientAddressPlus))
        invariant Gap(first, flag) == GapAfter(ls, k, pool.startIp)
        invariant forall j :: 0 <= j < k ==> ls[j].mac != mac
        decreases |ls| - k
      {
        assert ls[k] == node.Value() && ls[k].mac != mac;
        first, flag := PassLease(node.ip, first, flag);
        node := node.next;
        k := k + 1;
      }
      assert node != null ==> ls[k] == node.Value();
      IndexIs(ls, mac, k);
    }

    /** Steps the client address over addresses reserved for other clients. */
    method SkipReservations(mac: Mac)
      requires pool.endIp < 0xFF00_0000
      modifies this`clientAddress
      ensures clientAddress == SkipReserved(reservations.slots[..], mac, old(clientAddress), pool.endIp)
    {
      ghost var t := reservations.slots[..];
      while clientAddress <= pool.endIp
        invariant SkipReserved(t, mac, clientAddress, pool.endIp) == SkipReserved(t, mac, old(clientAddress), pool.endIp)
        decreases if clientAddress <= pool.endIp then pool.endIp + 1 - clientAddress else 0
      {
        var taken := reservations.IsIpReservedForOther(clientAddress, mac);
        if !taken {
          break;
        }
        NextInBlock(clientAddress);
        clientAddress := Increment(clientAddress);
      }
    }

    /** The address for a client without a lease: the cursor or the first gap, past foreign reservations, or
        the client's own reservation. */
    method ChooseAddress(mac: Mac, first: Word)
      requires pool.endIp < 0xFF00_0000
      modifies this`clientAddress
      ensures clientAddress ==
              var c := if clientAddressPlus > pool.endIp then first else old(clientAddress);
              var r := R.Lookup(reservations.slots[..], mac);
              if r != 0 then r else SkipReserved(reservations.slots[..], mac, c, pool.endIp)
    {
      if clientAddressPlus > pool.endIp {
        clientAddress := first;
      }
      SkipReservations(mac);
      var reserved := reservations.LookupReservation(mac);
      if reserved != 0 {
        clientAddress := reserved;
      }
    }

    /** Allocates a lease on the chosen address and puts it into the list. */
    method AddLease(mac: Mac) returns (x: Node, ghost slot: nat)
      requires Valid()
      modifies list, list.spine
      ensures Valid() && NewNodesFresh(old(list.spine), list.spine)
      ensures list.IsAt(x, slot) && slot == InsertPos(old(list.leases), clientAddress)
      ensures list.leases == Insert(old(list.leases), Lease(clientAddress, mac, leaseTime, []))
    {
      x := new Node(clientAddress, mac, leaseTime);
      slot := InsertPos(list.leases, clientAddress);
      list.InsertNode(x);
    }

    /** Puts the cursor behind the chosen address, or back to the start after the last one. */
    method MoveCursor()
      modifies this`clientAddressPlus
      ensures clientAddressPlus == if clientAddress == pool.endIp then pool.startIp else Next(clientAddress)
    {
      if clientAddress == pool.endIp {
        clientAddressPlus := pool.startIp;
      } else {
        clientAddressPlus := Increment(clientAddress);
      }
    }

    /** Leases the chosen address unless it lies beyond the pool, and moves the cursor. */
    method Grant(mac: Mac) returns (node: Node?, ghost slot: nat)
      requires Valid() && pool.endIp < 0xFF00_0000
      modifies this`clientAddressPlus, list, list.spine
      ensures Valid() && NewNodesFresh(old(list.spine), list.spine)
      ensures list.IsAt(node, slot)
      ensures if clientAddress > pool.endIp then
                slot == |list.leases| && list.leases == old(list.leases) && clientAddressPlus == pool.startIp
              else
                && slot == InsertPos(old(list.leases), clientAddress)
                && list.leases == Insert(old(list.leases), Lease(clientAddress, mac, leaseTime, []))
                && clientAddressPlus == if clientAddress == pool.endIp then pool.startIp else Next(clientAddress)
    {
      if clientAddress > pool.endIp {
        clientAddressPlus := pool.startIp;
        node, slot := null, |list.leases|;
      } else {
        MoveCursor();
        node, slot := AddLease(mac);
      }
    }

    /** The search for an address for a client without a lease, on the walked list. */
    method Allocate(m: Message, first: Word, ghost s: Server) returns (node: Node?, ghost slot: nat)
      requires Valid() && pool.endIp < 0xFF00_0000 && IndexOf(s.leases, m.mac) == |s.leases|
      requires var walked := CursorAfter(s.leases, |s.leases|, s.cursor);
               && first == GapAfter(s.leases, |s.leases|, s.pool.startIp).addr
               && View() == s.(cursor := walked, declined := false, renew := false,
                               client := if s.leases == [] && !s.declined then s.pool.startIp else walked)
      modifies this, list, list.spine
      ensures Valid() && NewNodesFresh(old(list.spine), list.spine)
      ensures list.IsAt(node, slot) && (View(), slot) == Prepared(s, reservations.slots[..], m, leaseTime)
    {
      ChooseAddress(m.mac, first);
      assert clientAddress == Choice(s, reservations.slots[..], m.mac);
      node, slot := Grant(m.mac);
    }

    /** A client that has a lease: the timer restarts, and the request may be a renewal. */
    method Restart(node: Node, m: Message, ghost slot: nat, ghost s: Server)
      requires Valid() && slot < |list.spine| && node == list.spine[slot] && !renew && !declined
      requires list.leases == s.leases && pool == s.pool && clientAddressPlus == CursorAfter(s.leases, slot, s.cursor)
      requires pool.endIp < 0xFF00_0000 && IndexOf(s.leases, m.mac) == slot
      modifies this`clientAddress, this`renew, list`leases, list.spine
      ensures Valid() && (View(), slot) == Prepared(s, reservations.slots[..], m, leaseTime)
    {
      if node.ip == m.ciaddr {
        renew := true;
      }
      clientAddress := node.ip;
      list.SetTimer(node, leaseTime, slot);
    }

    /** What the search leaves: the walked cursor, the first gap, the client's lease if it has one, and otherwise the
        client address that the cursor gives. */
    ghost predicate Searched(s: Server, mac: Mac, node: Node?, first: Word, k: nat)
      reads this, list
    {
      && k == IndexOf(s.leases, mac) && list.IsAt(node, k)
      && first == GapAfter(s.leases, k, s.pool.startIp).addr
      && var walked := CursorAfter(s.leases, k, s.cursor);
         && View() == s.(cursor := walked, declined := false, renew := false, client := clientAddress)
         && (node == null ==> clientAddress == if s.leases == [] && !s.declined then s.pool.startIp else walked)
    }

    /** Looks at the list, or at its absence. */
    method Search(mac: Mac, ghost s: Server) returns (node: Node?, first: Word, ghost k: nat)
      requires Valid() && s == View()
      modifies this`clientAddress, this`clientAddressPlus, this`declined, this`renew
      ensures Searched(s, mac, node, first, k)
    {
      renew := false;
      if list.head != null {
        node, first, k := SearchList(mac, s);
      } else {
        assert list.leases == [];
        TakeCursor();
        node, first, k := null, pool.startIp, 0;
      }
    }

    method SearchList(mac: Mac, ghost s: Server) returns (node: Node?, first: Word, ghost k: nat)
      requires Valid() && list.head != null && !renew && s == View().(renew := s.renew)
      modifies this`clientAddress, this`clientAddressPlus, this`declined
      ensures Searched(s, mac, node, first, k)
    {
      assert list.leases != [];
      declined := false;
      node, first, k := WalkLeases(mac);
    }

    /** Without any lease the client gets the cursor's address after a decline, and the first one otherwise. */
    method TakeCursor()
      modifies this`clientAddress, this`declined
      ensures !declined && clientAddress == if old(declined) then clientAddressPlus else pool.startIp
    {
      clientAddress := clientAddressPlus;
      if declined {
        declined := false;
      } else {
        clientAddress := pool.startIp;
      }
    }

    /** The first half of parse_msg: find the client's lease or give it one. */
    method Prepare(m: Message) returns (node: Node?, ghost slot: nat)
      requires Valid() && pool.endIp < 0xFF00_0000
      modifies this, list, list.spine
      ensures Valid() && NewNodesFresh(old(list.spine), list.spine)
      ensures list.IsAt(node, slot)
      ensures (View(), slot) == old(Prepared(View(), reservations.slots[..], m, leaseTime))
    {
      ghost var s := View();
      var first;
      node, first, slot := Search(m.mac, s);
      if node != null {
        Restart(node, m, slot, s);
        return;
      }
      node, slot := Allocate(m, first, s);
    }

    /** Takes the client's lease away. */
    method DropLease(code: Reply, node: Node?, ghost slot: nat)
      requires Valid() && list.IsAt(node, slot)
      modifies this`declined, this`clientAddress, list, list.spine
      ensures Valid() && SomeOf(list.spine, old(list.spine))
      ensures list.leases == WithoutSlot(old(list.leases), slot) && clientAddress == 0
      ensures declined == (old(declined) || code == Decline)
    {
      if code == Decline {
        declined := true;
      }
      clientAddress := 0;
      if node != null {
        list.RemoveNode(node, slot);
      }
    }

    /** What the reply does to the client's lease. */
    method ApplyReply(code: Reply, hostname: seq<Byte>, node: Node?, ghost slot: nat)
      requires Valid() && 0 < clientAddress <= pool.endIp && list.IsAt(node, slot)
      modifies this`declined, this`clientAddress, list, list.spine
      ensures Valid() && SomeOf(list.spine, old(list.spine))
      ensures Outcome(View(), code) == old(Settled(View(), slot, code, hostname))
    {
      if code == Release || code == Nak || code == Decline {
        DropLease(code, node, slot);
      } else if node != null {
        list.SetHostname(node, hostname, slot);
      }
    }

    /** The end of parse_msg: the address check, the options, and the reply. */
    method Finish(m: Message, node: Node?, ghost slot: nat) returns (reply: Reply)
      requires Valid() && list.IsAt(node, slot)
      modifies this`declined, this`clientAddress, list, list.spine
      ensures Valid() && SomeOf(list.spine, old(list.spine))
      ensures Outcome(View(), reply) == old(Settle(View(), slot, m))
    {
      if clientAddress > pool.endIp || clientAddress == 0 {
        if node != null {
          list.RemoveNode(node, slot);
        }
        return Nak;
      }
      var hostname;
      reply, hostname := ParseOptions(m.opts, m.len, clientAddress, renew);
      ApplyReply(reply, hostname, node, slot);
    }

    /** parse_msg. */
    method ParseMsg(m: Message) returns (reply: Reply)
      requires Valid() && pool.endIp < 0xFF00_0000
      modifies this, list, list.spine
      ensures Valid() && NewNodesFresh(old(list.spine), list.spine)
      ensures Outcome(View(), reply) == old(Serve(View(), reservations.slots[..], m, leaseTime))
    {
      if !m.cookie {
        return NotDhcp;
      }
      var node, slot := Prepare(m);
      reply := Finish(m, node, slot);
    }

    /** dhcps_tmr: works on a started server only. */
    method Timer()
      requires Valid() && maxStations >= 1
      modifies list, list.spine
      ensures Valid() && SomeOf(list.spine, old(list.spine))
      ensures View() == if started then old(Tick(View(), maxStations)) else old(View())
    {
      if !started {
        return;
      }
      list.AgeAndEvict(maxStations);
    }

    /** dhcps_poll_set: keeps an acceptable configured pool, otherwise computes the automatic one. */
    method SetPool(server: Word)
      modifies this`pool
      ensures pool == PollSet(old(pool), server, MASK24)
    {
      var ip := Htonl(server);
      if pool.enable {
        var first := Htonl(pool.startIp);
        var last := Htonl(pool.endIp);
        if ip >= first && ip <= last {
          pool := pool.(enable := false);
        } else if And(pool.startIp, MASK24) != And(server, MASK24)
               || And(pool.endIp, MASK24) != And(server, MASK24)
               || Plus(Sub(last, first), 1) > MAX_LEASE {
          pool := pool.(enable := false);
        }
      }
      if !pool.enable {
        var first, last := GetDhcpPoolRange(server);
        pool := Pool(true, first, last);
      }
    }

    /** The checks in front of a start. */
    method CheckStart(ip: Word) returns (ok: bool)
      ensures ok == (ip != 0 && StartChecks(Swap(MASK24), Swap(ip)))
    {
      if ip == 0 {
        return false;
      }
      var mask := Htonl(MASK24);
      var host := Htonl(ip);
      if OrWord(Sub(mask, 1), mask) != ALL_ONES {
        return false;
      }
      var first: Word := And(host, mask);
      var last := OrWord(first, Not(mask));
      ok := !(host == last || host == first);
    }

    /** dhcps_start: refuses an address that is not a host address of its subnet; otherwise sets the pool and
        puts the cursor at its beginning. */
    method StartServer(ip: Word) returns (ok: bool)
      requires Valid()
      modifies this`pool, this`clientAddressPlus, this`started
      ensures Valid() && ok == (ip != 0 && StartChecks(Swap(MASK24), Swap(ip)))
      ensures View() == if ok then old(Start(View(), ip)) else old(View())
      ensures started == (ok || old(started))
    {
      ok := CheckStart(ip);
      if ok {
        SetPool(ip);
        clientAddressPlus := pool.startIp;
        started := true;
      }
    }

    /** dhcps_stop: removes the leases one by one. */
    method StopServer()
      requires Valid()
      modifies this`started, list, list.spine
      ensures Valid() && list.spine == [] && !started
      ensures View() == old(Stop(View()))
    {
      while list.head != null
        invariant Valid() && SomeOf(list.spine, old(list.spine))
        decreases |list.spine|
      {
        list.RemoveNode(list.head, 0);
      }
      started := false;
    }
  }
}
