/** Which address a client is given when no reservation names one, and what the messages of a client do to the cursor. */
module DhcpChoice {
  import opened Bits
  import opened Wrappers
  import opened Addresses
  import opened DhcpOptions
  import opened DhcpPool
  import opened DhcpLeases
  import opened DhcpInvariants
  import opened DhcpReplies
  import opened DhcpReserved
  import opened DhcpMessages
  import R = DhcpReservations

  predicate Free(s: Server, a: Word) {
    InPool(s.pool, a) && !Leased(s.leases, a)
  }

  /** `a` is the lowest free address of the pool that is not below `from`. */
  ghost predicate LowestFree(s: Server, from: Word, a: Word) {
    Free(s, a) && a >= from && forall b: Word :: Free(s, b) && b >= from ==> a <= b
  }

  /** The address that is next: with an empty list and no decline just before, the first of the pool; otherwise the lowest
      free one from the cursor on, or else the lowest free one at all, or else one beyond the pool. */
  ghost predicate NextFit(s: Server, a: Word) {
    if s.leases == [] && !s.declined then a == s.pool.startIp
    else if exists b: Word :: Free(s, b) && b >= s.cursor then LowestFree(s, s.cursor, a)
    else if exists b: Word :: Free(s, b) then LowestFree(s, 0, a)
    else a > s.pool.endIp
  }

  /** What the cursor walk passes is leased. */
  lemma {:induction false} CursorPasses(s: Server, i: nat, a: Word)
    requires Consistent(s) && i <= |s.leases| && SameBlock(a, s.cursor)
    requires s.cursor <= a < CursorAfter(s.leases, i, s.cursor)
    ensures exists j :: 0 <= j < i && s.leases[j].ip == a
  {
    var p := CursorAfter(s.leases, i - 1, s.cursor);
    CursorBound(s, i - 1);
    if a < p {
      CursorPasses(s, i - 1, a);
    } else {
      NextUpTo(p, s.pool.endIp);
      if a != p {
        BlockGap(p, a);
      }
      assert s.leases[i - 1].ip == a;
    }
  }

  /** What the first-gap search passes is leased. */
  lemma {:induction false} GapPasses(s: Server, i: nat, a: Word)
    requires Exclusive(s) && i <= |s.leases| && InPool(s.pool, a)
    requires a < GapAfter(s.leases, i, s.pool.startIp).addr
    ensures Leased(s.leases, a)
  {
    if i > 0 {
      if a < GapAfter(s.leases, i - 1, s.pool.startIp).addr {
        GapPasses(s, i - 1, a);
      } else {
        GapPassesLast(s, i, a);
      }
    }
  }

  /** The search goes on only when it meets its own address, which is the only one up to the next. */
  lemma GapPassesLast(s: Server, i: nat, a: Word)
    requires Exclusive(s) && 0 < i <= |s.leases| && SameBlock(a, s.pool.startIp)
    requires GapAfter(s.leases, i - 1, s.pool.startIp).addr <= a < GapAfter(s.leases, i, s.pool.startIp).addr
    ensures s.leases[i - 1].ip == a
  {
    var g, g' := GapAfter(s.leases, i - 1, s.pool.startIp), GapAfter(s.leases, i, s.pool.startIp);
    assert !g'.found;
    GapCounts(s, i - 1);
    GapCounts(s, i);
    assert s.leases[i - 1].ip == g.addr && g'.addr == g.addr + STEP;
    OnlyOne(g.addr, a);
  }

  lemma OnlyOne(g: Word, a: Word)
    requires SameBlock(a, g) && g <= a < g + STEP
    ensures a == g
  {
  }

  /** The candidate of the code is the next fit. */
  lemma CandidateIsNextFit(s: Server)
    requires Exclusive(s)
    ensures NextFit(s, Candidate(s))
  {
    var n := |s.leases|;
    CandidateProperty(s);
    if s.leases != [] || s.declined {
      WalkedIsLowest(s);
    }
  }

  lemma WalkedIsLowest(s: Server)
    requires Exclusive(s) && (s.leases != [] || s.declined)
    ensures NextFit(s, Candidate(s))
  {
    var n, c := |s.leases|, Candidate(s);
    var walked := CursorAfter(s.leases, n, s.cursor);
    CandidateProperty(s);
    CursorBound(s, n);
    forall b: Word | Free(s, b) && b >= s.cursor
      ensures walked <= b
    {
      if b < walked {
        CursorPasses(s, n, b);
      }
    }
    if walked > s.pool.endIp {
      forall b: Word | Free(s, b)
        ensures c <= b
      {
        if b < c {
          GapPasses(s, n, b);
        }
      }
    }
    if c <= s.pool.endIp {
      assert Free(s, c);
    }
  }

  /** Without reservations, what a discover message of a new client gets: the next fit, and then the cursor stands behind
      it, or at the start of the pool after its last address; or nothing, when there is none. */
  lemma NewClientOffered(s: Server, t: Table, m: Message, time: Word)
    requires Exclusive(s) && NoReservedAddress(t) && m.cookie && !HasLease(s.leases, m.mac) && MessageType(Options(m)) == 1
    ensures var o := Serve(s, t, m, time);
            if exists b: Word :: Free(s, b) then
              && o.reply == Offer && NextFit(s, o.server.client)
              && o.server.cursor == if o.server.client == s.pool.endIp then s.pool.startIp else o.server.client + 0x100_0000
            else o.reply == Nak && o.server.leases == s.leases && o.server.cursor == s.pool.startIp
  {
    var c := Candidate(s);
    NoReservation(t, m.mac, c, s.pool.endIp);
    CandidateProperty(s);
    CandidateIsNextFit(s);
    ReplyTable(s, t, m, time, c);
    RefusedExactly(s, t, m, time);
    if c <= s.pool.endIp {
      assert Free(s, c);
      ChosenServe(s, t, m, time);
      ReplyMeaning(s, t, m, time);
      NextUpTo(c, s.pool.endIp);
      OfferedClient(s, t, m, time);
    } else {
      RefusedCursor(s, t, m, time);
    }
  }

  lemma OfferedClient(s: Server, t: Table, m: Message, time: Word)
    requires Consistent(s) && m.cookie && !HasLease(s.leases, m.mac) && MessageType(Options(m)) == 1
    requires 0 < Choice(s, t, m.mac) <= s.pool.endIp
    ensures Serve(s, t, m, time).server.client == Choice(s, t, m.mac)
  {
    NoIndexNoLease(s.leases, m.mac);
  }

  lemma RefusedCursor(s: Server, t: Table, m: Message, time: Word)
    requires Consistent(s) && m.cookie && !HasLease(s.leases, m.mac) && Choice(s, t, m.mac) > s.pool.endIp
    ensures Serve(s, t, m, time).server.cursor == s.pool.startIp
  {
    NoIndexNoLease(s.leases, m.mac);
  }

  /** The cursor after a walk over leases: it passed a run of leased addresses that begins at the old cursor, and does not
      stand on any of the leases walked over. */
  ghost predicate Moved(ls: seq<Lease>, i: nat, c: Word, c': Word)
    requires i <= |ls|
  {
    && SameBlock(c', c) && c <= c'
    && (forall a: Word :: SameBlock(a, c) && c <= a < c' ==> exists j :: 0 <= j < i && ls[j].ip == a)
    && forall j :: 0 <= j < i ==> ls[j].ip != c'
  }

  /** A message of a client that has a lease restarts its time and moves the cursor past the leases in front of it, as long
      as they are leased one after the other. */
  lemma KnownClient(s: Server, t: Table, m: Message, time: Word, i: nat)
    requires Consistent(s) && StrictlyAscending(s.leases) && m.cookie && i < |s.leases| && s.leases[i].mac == m.mac
    ensures Moved(s.leases, i, s.cursor, Serve(s, t, m, time).server.cursor)
  {
    NoIndexNoLease(s.leases, m.mac);
    assert IndexOf(s.leases, m.mac) == i;
    CursorBound(s, i);
    CursorFresh(s, i);
    forall a: Word | SameBlock(a, s.cursor) && s.cursor <= a < CursorAfter(s.leases, i, s.cursor)
      ensures exists j :: 0 <= j < i && s.leases[j].ip == a
    {
      CursorPasses(s, i, a);
    }
    RenewedCursor(s, t, m, time, i);
  }

  lemma RenewedCursor(s: Server, t: Table, m: Message, time: Word, i: nat)
    requires Consistent(s) && m.cookie && i == IndexOf(s.leases, m.mac) < |s.leases|
    ensures Serve(s, t, m, time).server.cursor == CursorAfter(s.leases, i, s.cursor)
  {
  }

  // ----- declines -----

  /** A client that declines its address and asks again is offered the next fit of the list without it, the empty list
      included. */
  lemma DeclinedThenOffered(s: Server, t: Table, m1: Message, m2: Message, time: Word)
    requires Exclusive(s) && NoReservedAddress(t) && HasLease(s.leases, m1.mac)
    requires m1.cookie && m2.cookie && m1.mac == m2.mac
    requires MessageType(Options(m1)) == 4 && MessageType(Options(m2)) == 1
    ensures var o1 := Serve(s, t, m1, time);
            var o2 := Serve(o1.server, t, m2, time);
            && o1.reply == Decline && !HasLease(o1.server.leases, m1.mac)
            && (exists b: Word :: Free(o1.server, b) && b >= o1.server.cursor) ==>
                 o2.reply == Offer && LowestFree(o1.server, o1.server.cursor, o2.server.client)
  {
    var i :| 0 <= i < |s.leases| && s.leases[i].mac == m1.mac;
    ReplyTable(s, t, m1, time, s.leases[i].ip);
    DeclineRemembered(s, t, m1, time);
    ServeKeeps(s, t, m1, time);
    ReplyMeaning(s, t, m1, time);
    NewClientOffered(Serve(s, t, m1, time).server, t, m2, time);
  }

  /** The only client of a server declines its address and asks again: it is offered the address of the cursor, not the
      one it declined. */
  lemma DeclinedNotOffered(s: Server, t: Table, m1: Message, m2: Message, l: Lease, time: Word)
    requires Exclusive(s) && NoReservedAddress(t) && s.leases == [l] && l.ip != s.cursor <= s.pool.endIp
    requires m1.cookie && m2.cookie && m1.mac == m2.mac == l.mac
    requires MessageType(Options(m1)) == 4 && MessageType(Options(m2)) == 1
    ensures var o2 := Serve(Serve(s, t, m1, time).server, t, m2, time);
            o2.reply == Offer && o2.server.client == s.cursor != l.ip
  {
    var s1 := Serve(s, t, m1, time).server;
    assert s.leases[0] == l;
    DeclinedThenOffered(s, t, m1, m2, time);
    KnownClient(s, t, m1, time, 0);
    DeclineEmpties(s, t, m1, l, time);
    assert Free(s1, s.cursor);
  }

  lemma DeclineEmpties(s: Server, t: Table, m: Message, l: Lease, time: Word)
    requires Consistent(s) && s.leases == [l] && m.cookie && m.mac == l.mac && MessageType(Options(m)) == 4
    ensures var s' := Serve(s, t, m, time).server; s'.leases == [] && s'.pool == s.pool && s'.cursor == s.cursor
  {
    assert s.leases[0] == l;
    assert IndexOf(s.leases, m.mac) == 0;
    RenewedCursor(s, t, m, time, 0);
    assert CursorAfter(s.leases, 0, s.cursor) == s.cursor;
  }

  lemma StartedEmpty(s: Server, e: Event, s': Server)
    requires Consistent(s) && s.leases == [] && e.Started? && Allowed(s, e)
    requires s' == Start(s.(pool := e.configured), e.server)
    ensures Exclusive(s') && s'.leases == [] && s'.cursor == s'.pool.startIp
    ensures s'.pool == PollSet(e.configured, e.server, MASK24)
  {
    StartKeeps(s, e);
  }

  /** After a start with an empty list, as a stop leaves it, the first client is offered the first address of the pool. */
  lemma FirstClient(s: Server, e: Event, s': Server, t: Table, m: Message, time: Word)
    requires Consistent(s) && s.leases == [] && e.Started? && Allowed(s, e)
    requires s' == Start(s.(pool := e.configured), e.server)
    requires NoReservedAddress(t) && m.cookie && MessageType(Options(m)) == 1
    ensures Exclusive(s') && s'.pool == PollSet(e.configured, e.server, MASK24)
    ensures Serve(s', t, m, time).reply == Offer && Serve(s', t, m, time).server.client == s'.pool.startIp
  {
    StartedEmpty(s, e, s');
    FirstOnEmpty(s', t, m, time);
  }

  lemma FirstOnEmpty(s: Server, t: Table, m: Message, time: Word)
    requires Exclusive(s) && s.leases == [] && s.cursor == s.pool.startIp
    requires NoReservedAddress(t) && m.cookie && MessageType(Options(m)) == 1
    ensures Serve(s, t, m, time).reply == Offer && Serve(s, t, m, time).server.client == s.pool.startIp
  {
    assert Free(s, s.pool.startIp);
    NewClientOffered(s, t, m, time);
  }
}
