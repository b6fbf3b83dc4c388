/** What the replies of the DHCP server promise, when it refuses a client, and what reservations change. */
module DhcpReplies {
  import opened Bits
  import opened Wrappers
  import opened Addresses
  import opened DhcpOptions
  import opened DhcpPool
  import opened DhcpLeases
  import opened DhcpInvariants
  import R = DhcpReservations

  // ----- replies -----

  /** Leases of other clients are the same in both lists. */
  ghost predicate SameForOthers(ls': seq<Lease>, ls: seq<Lease>, mac: Mac) {
    forall l: Lease :: l.mac != mac ==> (l in ls' <==> l in ls)
  }

  lemma RemoveForOthers(ls: seq<Lease>, i: nat, mac: Mac)
    requires i < |ls| && ls[i].mac == mac
    ensures SameForOthers(RemoveAt(ls, i), ls, mac)
  {
    forall l: Lease | l.mac != mac
      ensures l in RemoveAt(ls, i) <==> l in ls
    {
      assert ls == ls[..i] + [ls[i]] + ls[i + 1..];
    }
  }

  lemma UpdateForOthers(ls: seq<Lease>, i: nat, x: Lease)
    requires i < |ls| && ls[i].mac == x.mac
    ensures SameForOthers(ls[i := x], ls, x.mac)
  {
    forall l: Lease | l.mac != x.mac
      ensures l in ls[i := x] <==> l in ls
    {
      assert ls == ls[..i] + [ls[i]] + ls[i + 1..];
      assert ls[i := x] == ls[..i] + [x] + ls[i + 1..];
    }
  }

  lemma InsertForOthers(ls: seq<Lease>, x: Lease)
    ensures SameForOthers(Insert(ls, x), ls, x.mac)
  {
    forall l: Lease | l.mac != x.mac
      ensures l in Insert(ls, x) <==> l in ls
    {
      var p := InsertPos(ls, x.ip);
      assert ls == ls[..p] + ls[p..];
    }
  }

  /** What settling does for a client whose lease is in `slot`. */
  lemma SettledReply(s: Server, slot: nat, reply: Reply, hostname: seq<Byte>, mac: Mac)
    requires OnePerMac(s.leases) && slot < |s.leases| && s.leases[slot].mac == mac && s.leases[slot].ip == s.client
    ensures var o := Settled(s, slot, reply, hostname);
            && SameForOthers(o.server.leases, s.leases, mac)
            && o.reply == (if s.client == 0 || s.client > s.pool.endIp then Nak else reply)
            && (o.reply in {Offer, Ack, Idle, NotDhcp} ==>
                 && o.server.client == s.client
                 && s.leases[slot].(hostname := hostname) in o.server.leases
                 && 0 < s.client <= s.pool.endIp)
            && (o.reply in {Nak, Release, Decline} ==> !HasLease(o.server.leases, mac))
  {
    RemoveKeeps(s.leases, slot);
    RemoveForOthers(s.leases, slot, mac);
    var x := s.leases[slot].(hostname := hostname);
    UpdateForOthers(s.leases, slot, x);
    assert s.leases[slot := x][slot] == x;
  }

  lemma OthersTrans(a: seq<Lease>, b: seq<Lease>, c: seq<Lease>, mac: Mac)
    requires SameForOthers(a, b, mac) && SameForOthers(b, c, mac)
    ensures SameForOthers(a, c, mac)
  {
  }

  /** What a reply means. After an offer or an acknowledgement (or when nothing is sent for an unknown message
      type) the client has a lease with a full timer, and its address is the one sent; after a refusal, a
      release or a decline it has none. No other client's lease changes. Together with `OnePerMac`, which every
      reachable state has, the lease is the only one of the client. */
  lemma ReplyMeaning(s: Server, t: Table, m: Message, time: Word)
    requires Consistent(s) && m.cookie
    ensures var o := Serve(s, t, m, time);
            && SameForOthers(o.server.leases, s.leases, m.mac)
            && (o.reply in {Offer, Ack, Idle, NotDhcp} ==>
                 && 0 < o.server.client <= s.pool.endIp
                 && Lease(o.server.client, m.mac, time, Hostname(Options(m))) in o.server.leases)
            && (o.reply in {Nak, Release, Decline} ==> !HasLease(o.server.leases, m.mac))
  {
    var reply, hostname := ReplyFor(Options(m), Prepared(s, t, m, time).0.client, Prepared(s, t, m, time).0.renew),
                           Hostname(Options(m));
    PreparedFacts(s, t, m, time);
    var (s1, slot) := Prepared(s, t, m, time);
    if slot < |s1.leases| {
      SettledReply(s1, slot, reply, hostname, m.mac);
      OthersTrans(Settled(s1, slot, reply, hostname).server.leases, s1.leases, s.leases, m.mac);
    }
  }

  lemma PreparedFacts(s: Server, t: Table, m: Message, time: Word)
    requires Consistent(s) && m.cookie
    ensures var (s1, slot) := Prepared(s, t, m, time);
            && Serve(s, t, m, time) == Settle(s1, slot, m)
            && s1.pool == s.pool
            && SameForOthers(s1.leases, s.leases, m.mac)
            && OnePerMac(s1.leases)
            && (slot < |s1.leases| ==>
                 && s1.leases[slot].mac == m.mac && s1.leases[slot].ip == s1.client && s1.leases[slot].timer == time)
            && (slot >= |s1.leases| ==> s1.client > s.pool.endIp && s1.leases == s.leases && !HasLease(s.leases, m.mac))
  {
    NoIndexNoLease(s.leases, m.mac);
    var i := IndexOf(s.leases, m.mac);
    if i < |s.leases| {
      UpdateForOthers(s.leases, i, s.leases[i].(timer := time));
    } else {
      var c := Choice(s, t, m.mac);
      var l := Lease(c, m.mac, time, []);
      InsertForOthers(s.leases, l);
      InsertShape(s.leases, l);
      InsertKeeps(s.leases, l);
    }
  }

  /** An acknowledgement is sent only for the address asked for last, or, when the request names none, to a
      client that already held a lease on the address in its ciaddr field; and the message must not be a
      discover, decline or release. */
  lemma AckMeaning(s: Server, t: Table, m: Message, time: Word)
    requires Consistent(s) && m.cookie && Serve(s, t, m, time).reply == Ack
    ensures MessageType(Options(m)) !in {1, 4, 7}
    ensures var client := Serve(s, t, m, time).server.client;
            || Requested(Options(m)) == Some(client)
            || (&& Requested(Options(m)) == None && MessageType(Options(m)) == 3
                && m.ciaddr == client
                && exists i :: 0 <= i < |s.leases| && s.leases[i].mac == m.mac && s.leases[i].ip == m.ciaddr)
  {
    PreparedFacts(s, t, m, time);
    var (s1, slot) := Prepared(s, t, m, time);
    AckNeeds(Options(m), s1.client, s1.renew);
  }

  // ----- refusal -----

  function PoolSize(p: Pool): nat
    requires Usable(p)
  {
    (p.endIp - p.startIp) / STEP + 1
  }

  /** Distinct addresses of the pool: there are at most as many as the pool has. */
  lemma {:induction false} Pigeonhole(ls: seq<Lease>, p: Pool, i: nat)
    requires Usable(p) && StrictlyAscending(ls) && i < |ls|
    requires forall k :: 0 <= k < |ls| ==> InPool(p, ls[k].ip)
    ensures p.startIp + i * STEP <= ls[i].ip
  {
    if i > 0 {
      Pigeonhole(ls, p, i - 1);
      BlockGap(ls[i - 1].ip, ls[i].ip);
    }
  }

  lemma AtMostPoolSize(ls: seq<Lease>, p: Pool)
    requires Usable(p) && StrictlyAscending(ls)
    requires forall k :: 0 <= k < |ls| ==> InPool(p, ls[k].ip)
    ensures |ls| <= PoolSize(p)
  {
    if |ls| > 0 {
      Pigeonhole(ls, p, |ls| - 1);
    }
  }

  lemma RoomLeft(s: Server)
    requires Exclusive(s) && Candidate(s) <= s.pool.endIp
    ensures |s.leases| < PoolSize(s.pool)
  {
    CandidateProperty(s);
    var l := Lease(Candidate(s), 0, 0, []);
    InsertShape(s.leases, l);
    InsertStrictlyOrdered(s.leases, l);
    AtMostPoolSize(Insert(s.leases, l), s.pool);
  }

  /** The pool is used up when and only when it holds as many leases as it has addresses. */
  lemma FullCount(s: Server)
    requires Exclusive(s)
    ensures Candidate(s) > s.pool.endIp <==> |s.leases| == PoolSize(s.pool)
  {
    AtMostPoolSize(s.leases, s.pool);
    if Candidate(s) > s.pool.endIp {
      FullHasPoolSize(s);
    } else {
      RoomLeft(s);
    }
  }

  lemma RefusedReply(s: Server, t: Table, m: Message, time: Word)
    requires Consistent(s) && m.cookie && !HasLease(s.leases, m.mac) && Choice(s, t, m.mac) > s.pool.endIp
    ensures Serve(s, t, m, time).reply == Nak && Serve(s, t, m, time).server.leases == s.leases
  {
    PreparedFacts(s, t, m, time);
    NoIndexNoLease(s.leases, m.mac);
  }

  /** Without reservations a new client is refused, with a NAK and no change to the list, exactly when every pool
      address is leased, and that is when there are as many leases as pool addresses. Otherwise the address
      chosen for it is a pool address that nobody holds. */
  lemma RefusedWhenFull(s: Server, t: Table, m: Message, time: Word)
    requires Exclusive(s) && NoReservedAddress(t) && m.cookie && !HasLease(s.leases, m.mac)
    ensures var c := Choice(s, t, m.mac);
            && (c > s.pool.endIp <==> forall a: Word :: InPool(s.pool, a) ==> Leased(s.leases, a))
            && (c > s.pool.endIp <==> |s.leases| == PoolSize(s.pool))
            && (if c > s.pool.endIp
                then Serve(s, t, m, time).reply == Nak && Serve(s, t, m, time).server.leases == s.leases
                else InPool(s.pool, c) && !Leased(s.leases, c))
  {
    NoReservation(t, m.mac, Candidate(s), s.pool.endIp);
    CandidateProperty(s);
    FullCount(s);
    if Choice(s, t, m.mac) > s.pool.endIp {
      RefusedReply(s, t, m, time);
    }
  }

  lemma FullHasPoolSize(s: Server)
    requires Exclusive(s) && Candidate(s) > s.pool.endIp
    ensures |s.leases| >= PoolSize(s.pool)
  {
    CursorBound(s, |s.leases|);
    GapCounts(s, |s.leases|);
  }

  // ----- reservations -----

  /** A new client with a reserved address up to the pool end gets exactly that address; beyond the pool end it
      is refused. A new client without one is never put on an address reserved for another. */
  lemma ReservationHonoured(s: Server, t: Table, m: Message, time: Word)
    requires Consistent(s) && m.cookie && !HasLease(s.leases, m.mac)
    ensures var r := R.Lookup(t, m.mac);
            var o := Serve(s, t, m, time);
            && (r > s.pool.endIp ==> o.reply == Nak)
            && (o.reply in {Offer, Ack, Idle} ==>
                 if r != 0 then o.server.client == r else !R.ReservedForOther(t, o.server.client, m.mac))
  {
    PreparedFacts(s, t, m, time);
    NoIndexNoLease(s.leases, m.mac);
    SkipBound(t, m.mac, Candidate(s), s.pool.endIp);
  }

  lemma {:induction false} SkipKeepsBlock(t: Table, mac: Mac, a: Word, end: Word)
    requires end < 0xFF00_0000
    ensures SameBlock(SkipReserved(t, mac, a, end), a)
    decreases if a <= end then end + 1 - a else 0
  {
    if a <= end && R.ReservedForOther(t, a, mac) {
      NextUpTo(a, end);
      SkipKeepsBlock(t, mac, Next(a), end);
    }
  }

  // ----- time -----

  /** A tick takes one off every timer (a timer of zero wraps to the largest value) and drops exactly the
      leases that reach zero. */
  lemma {:induction false} AgedExactly(ls: seq<Lease>, l: Lease)
    ensures l in Aged(ls) <==> l.timer != 0 && exists i :: 0 <= i < |ls| && l == Older(ls[i])
  {
    if ls != [] {
      AgedExactly(ls[1..], l);
      if i :| 0 <= i < |ls| && l == Older(ls[i]) {
        assert i > 0 ==> l == Older(ls[1..][i - 1]);
      }
      if i :| 0 <= i < |ls[1..]| && l == Older(ls[1..][i]) {
        assert l == Older(ls[i + 1]);
      }
    }
  }
}
