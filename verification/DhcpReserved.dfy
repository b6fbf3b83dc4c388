/** What reservations change: when a new client is refused, and when addresses stay unique and inside the pool. */
module DhcpReserved {
  import opened Bits
  import opened Addresses
  import opened DhcpOptions
  import opened DhcpPool
  import opened DhcpLeases
  import opened DhcpInvariants
  import opened DhcpReplies
  import R = DhcpReservations

  // ----- refusal -----

  /** The addresses that the allocator can still come to: from the candidate up to the end of the pool. */
  predicate Ahead(s: Server, candidate: Word, a: Word) {
    SameBlock(a, candidate) && candidate <= a <= s.pool.endIp
  }

  /** The client's reserved address lies above the pool, or, when it has none, every address ahead is reserved for
      another client. */
  ghost predicate Refused(s: Server, t: Table, mac: Mac) {
    if R.Lookup(t, mac) != 0 then R.Lookup(t, mac) > s.pool.endIp
    else forall a: Word :: Ahead(s, Candidate(s), a) ==> R.ReservedForOther(t, a, mac)
  }

  /** Every address that the skip passes is reserved for another client. */
  lemma {:induction false} SkipPasses(t: Table, mac: Mac, a: Word, end: Word, b: Word)
    requires end < 0xFF00_0000 && SameBlock(b, a) && a <= b < SkipReserved(t, mac, a, end)
    ensures R.ReservedForOther(t, b, mac)
    decreases if a <= end then end + 1 - a else 0
  {
    if b != a {
      NextUpTo(a, end);
      BlockGap(a, b);
      SkipPasses(t, mac, Next(a), end, b);
    }
  }

  /** Where the skip stops inside the pool: ahead of the candidate, on the first address not reserved for another. */
  lemma SkipStops(s: Server, t: Table, mac: Mac)
    requires s.pool.endIp < 0xFF00_0000
    ensures var c, k := Candidate(s), SkipReserved(t, mac, Candidate(s), s.pool.endIp);
            && (k <= s.pool.endIp ==> Ahead(s, c, k) && !R.ReservedForOther(t, k, mac))
            && forall b: Word :: SameBlock(b, c) && c <= b < k ==> R.ReservedForOther(t, b, mac)
  {
    var c, k := Candidate(s), SkipReserved(t, mac, Candidate(s), s.pool.endIp);
    SkipBound(t, mac, c, s.pool.endIp);
    SkipKeepsBlock(t, mac, c, s.pool.endIp);
    forall b: Word | SameBlock(b, c) && c <= b < k
      ensures R.ReservedForOther(t, b, mac)
    {
      SkipPasses(t, mac, c, s.pool.endIp, b);
    }
  }

  /** When a new client is refused for want of an address: exactly if its reserved address lies above the pool, or it
      has none and all addresses from the candidate to the pool's end are reserved for others. Nothing is leased
      then. As long as the leases lie in the pool, these are pool addresses. */
  lemma RefusedExactly(s: Server, t: Table, m: Message, time: Word)
    requires Consistent(s) && m.cookie && !HasLease(s.leases, m.mac)
    ensures Choice(s, t, m.mac) > s.pool.endIp <==> Refused(s, t, m.mac)
    ensures Refused(s, t, m.mac) ==> Serve(s, t, m, time).reply == Nak && Serve(s, t, m, time).server.leases == s.leases
    ensures Exclusive(s) && R.Lookup(t, m.mac) == 0 ==>
              (Refused(s, t, m.mac) <==>
               forall a: Word :: InPool(s.pool, a) && a >= Candidate(s) ==> R.ReservedForOther(t, a, m.mac))
  {
    SkipStops(s, t, m.mac);
    if Choice(s, t, m.mac) > s.pool.endIp {
      RefusedReply(s, t, m, time);
    }
    if Exclusive(s) {
      CandidateProperty(s);
      assert forall a: Word :: Ahead(s, Candidate(s), a) <==> InPool(s.pool, a) && a >= Candidate(s);
    }
  }

  // ----- unique addresses -----

  /** The address for the client is free: its reserved address is, or, when it has none, in front of every leased
      address ahead there is one that is not reserved for another client. */
  ghost predicate GrantsFree(s: Server, t: Table, mac: Mac) {
    if R.Lookup(t, mac) != 0 then !Leased(s.leases, R.Lookup(t, mac))
    else forall b: Word :: Ahead(s, Candidate(s), b) && Leased(s.leases, b) && !R.ReservedForOther(t, b, mac) ==>
           exists a: Word :: Ahead(s, Candidate(s), a) && a < b && !R.ReservedForOther(t, a, mac)
  }

  lemma ChoiceFree(s: Server, t: Table, mac: Mac)
    requires s.pool.endIp < 0xFF00_0000 && Choice(s, t, mac) <= s.pool.endIp
    ensures !Leased(s.leases, Choice(s, t, mac)) <==> GrantsFree(s, t, mac)
  {
    SkipStops(s, t, mac);
  }

  lemma InsertedTwice(ls: seq<Lease>, l: Lease)
    requires Leased(ls, l.ip)
    ensures !StrictlyAscending(Insert(ls, l))
  {
    InsertShape(ls, l);
    var p := InsertPos(ls, l.ip);
    var i :| 0 <= i < |ls| && ls[i].ip == l.ip;
    var q := if i < p then i else i + 1;
    assert Insert(ls, l)[q].ip == Insert(ls, l)[p].ip;
  }

  /** A new lease keeps addresses unique exactly if the address for the client is free. */
  lemma UniqueExactly(s: Server, t: Table, m: Message, time: Word)
    requires Consistent(s) && StrictlyAscending(s.leases) && Choice(s, t, m.mac) <= s.pool.endIp
    ensures StrictlyAscending(Allocated(s, t, m, time).leases) <==> GrantsFree(s, t, m.mac)
  {
    var l := Lease(Choice(s, t, m.mac), m.mac, time, []);
    ChoiceFree(s, t, m.mac);
    if Leased(s.leases, l.ip) {
      InsertedTwice(s.leases, l);
    } else {
      InsertStrictlyOrdered(s.leases, l);
    }
  }

  /** The options make the server take a new lease back at once. */
  ghost predicate Withdrawn(s: Server, t: Table, m: Message)
    requires s.pool.endIp < 0xFF00_0000
  {
    Choice(s, t, m.mac) == 0 || ReplyFor(Options(m), Choice(s, t, m.mac), false) in {Nak, Release, Decline}
  }

  /** The message makes the server choose an address for a new client. */
  ghost predicate Chooses(s: Server, t: Table, m: Message) {
    m.cookie && !HasLease(s.leases, m.mac) && !Refused(s, t, m.mac)
  }

  lemma InsertNamed(ls: seq<Lease>, l: Lease, h: seq<Byte>)
    ensures var p := InsertPos(ls, l.ip); Insert(ls, l)[p := l.(hostname := h)] == Insert(ls, l.(hostname := h))
  {
  }

  /** What a message from a new client leaves when an address was chosen for it. */
  lemma ChosenServe(s: Server, t: Table, m: Message, time: Word)
    requires Consistent(s) && Chooses(s, t, m)
    ensures var c, s' := Choice(s, t, m.mac), Serve(s, t, m, time).server;
            && c <= s.pool.endIp && s'.pool == s.pool
            && s'.cursor == (if c == s.pool.endIp then s.pool.startIp else Next(c))
            && s'.leases == if Withdrawn(s, t, m) then s.leases
                            else Insert(s.leases, Lease(c, m.mac, time, Hostname(Options(m))))
  {
    RefusedExactly(s, t, m, time);
    NoIndexNoLease(s.leases, m.mac);
    var l := Lease(Choice(s, t, m.mac), m.mac, time, []);
    SettledNew(Allocated(s, t, m, time), s.leases, l, InsertPos(s.leases, l.ip), m);
  }

  /** Settling a lease that was just inserted: it is taken out again, or gets its name. */
  lemma SettledNew(s: Server, ls: seq<Lease>, l: Lease, slot: nat, m: Message)
    requires s.leases == Insert(ls, l) && slot == InsertPos(ls, l.ip) && s.client == l.ip <= s.pool.endIp && !s.renew
    ensures var s' := Settle(s, slot, m).server;
            && s'.cursor == s.cursor && s'.pool == s.pool
            && s'.leases == if l.ip == 0 || ReplyFor(Options(m), l.ip, false) in {Nak, Release, Decline} then ls
                            else Insert(ls, l.(hostname := Hostname(Options(m))))
  {
    InsertRemove(ls, l);
    InsertShape(ls, l);
    InsertNamed(ls, l, Hostname(Options(m)));
  }

  /** Messages that choose no address keep the addresses that are leased, and the pool and the cursor in bounds. */
  lemma OtherServe(s: Server, t: Table, m: Message, time: Word)
    requires Consistent(s) && !Chooses(s, t, m)
    ensures StrictlyAscending(s.leases) ==> StrictlyAscending(Serve(s, t, m, time).server.leases)
    ensures Exclusive(s) ==> Exclusive(Serve(s, t, m, time).server)
  {
    if m.cookie {
      NoIndexNoLease(s.leases, m.mac);
      var i := IndexOf(s.leases, m.mac);
      if i < |s.leases| {
        RenewedKeeps(s, i, m, time);
        SettleKeeps(Renewed(s, i, m, time), i, m);
        if StrictlyAscending(s.leases) {
          SettledStrict(Renewed(s, i, m, time), i, m);
        }
      } else {
        RefusedExactly(s, t, m, time);
        SettleKeeps(Allocated(s, t, m, time), |s.leases|, m);
      }
    }
  }

  lemma SettledStrict(s: Server, slot: nat, m: Message)
    requires slot < |s.leases| && StrictlyAscending(s.leases)
    ensures StrictlyAscending(Settle(s, slot, m).server.leases)
  {
    RemoveKeeps(s.leases, slot);
  }

  /** A message keeps addresses unique exactly if the address it leases, if it leases one, is free. */
  lemma ServeUnique(s: Server, t: Table, m: Message, time: Word)
    requires Consistent(s) && StrictlyAscending(s.leases)
    ensures StrictlyAscending(Serve(s, t, m, time).server.leases)
       <==> (Chooses(s, t, m) && !Withdrawn(s, t, m) ==> GrantsFree(s, t, m.mac))
  {
    if Chooses(s, t, m) {
      ChosenServe(s, t, m, time);
      ChoiceFree(s, t, m.mac);
      var l := Lease(Choice(s, t, m.mac), m.mac, time, Hostname(Options(m)));
      if Leased(s.leases, l.ip) {
        InsertedTwice(s.leases, l);
      } else {
        InsertStrictlyOrdered(s.leases, l);
      }
    } else {
      OtherServe(s, t, m, time);
    }
  }

  lemma TickStrict(ls: seq<Lease>, maxStations: Byte)
    requires StrictlyAscending(ls)
    ensures StrictlyAscending(Ticked(ls, maxStations))
  {
    AgedKeeps(ls);
    var aged := Aged(ls);
    if |aged| % 0x100 > maxStations {
      RemoveKeeps(aged, Oldest(aged));
    }
  }

  ghost predicate KeepsUnique(s: Server, e: Event)
    requires s.pool.endIp < 0xFF00_0000
  {
    e.Msg? && Chooses(s, e.t, e.m) && !Withdrawn(s, e.t, e.m) ==> GrantsFree(s, e.t, e.m.mac)
  }

  lemma StepUnique(s: Server, e: Event, c: Config)
    requires Consistent(s) && Allowed(s, e) && StrictlyAscending(s.leases)
    ensures StrictlyAscending(Step(s, e, c).leases) <==> KeepsUnique(s, e)
  {
    match e
    case Msg(t, m) => ServeUnique(s, t, m, c.time);
    case TimerTick => TickStrict(s.leases, c.maxStations);
    case Stopped =>
    case Started(_, _) =>
  }

  lemma {:induction false} UniqueUpTo(run: seq<Server>, es: seq<Event>, c: Config, i: nat)
    requires IsRun(run, es, c) && Consistent(run[0]) && StrictlyAscending(run[0].leases) && i < |run|
    requires forall k :: 0 <= k < i ==> KeepsUnique(run[k], es[k])
    ensures StrictlyAscending(run[i].leases)
  {
    if i > 0 {
      UniqueUpTo(run, es, c, i - 1);
      EveryRunConsistent(run, es, c, i - 1);
      StepUnique(run[i - 1], es[i - 1], c);
    }
  }

  /** In a run no address is ever leased twice if and only if each address that is leased to a new client is free. */
  lemma UniqueRunExactly(run: seq<Server>, es: seq<Event>, c: Config)
    requires IsRun(run, es, c) && Consistent(run[0]) && StrictlyAscending(run[0].leases)
    ensures (forall i :: 0 <= i < |run| ==> StrictlyAscending(run[i].leases))
       <==> (forall k :: 0 <= k < |es| ==> KeepsUnique(run[k], es[k]))
  {
    if forall k :: 0 <= k < |es| ==> KeepsUnique(run[k], es[k]) {
      forall i | 0 <= i < |run|
        ensures StrictlyAscending(run[i].leases)
      {
        UniqueUpTo(run, es, c, i);
      }
    }
    if forall i :: 0 <= i < |run| ==> StrictlyAscending(run[i].leases) {
      forall k | 0 <= k < |es|
        ensures KeepsUnique(run[k], es[k])
      {
        EveryRunConsistent(run, es, c, k);
        assert StrictlyAscending(run[k + 1].leases);
        StepUnique(run[k], es[k], c);
      }
    }
  }

  // ----- addresses inside the pool -----

  /** The client has no reserved address, or one in the pool; for a lease that is taken back at once, which moves only
      the cursor, it may also be the address just below the pool. */
  ghost predicate StaysInside(s: Server, t: Table, m: Message)
    requires s.pool.endIp < 0xFF00_0000
  {
    var r := R.Lookup(t, m.mac);
    r != 0 ==>
      && SameBlock(r, s.pool.startIp)
      && s.pool.startIp <= if Withdrawn(s, t, m) then r + STEP else r
  }

  lemma ChoiceInside(s: Server, t: Table, m: Message)
    requires Exclusive(s) && Choice(s, t, m.mac) <= s.pool.endIp
    ensures R.Lookup(t, m.mac) == 0 ==> InPool(s.pool, Choice(s, t, m.mac))
  {
    CandidateProperty(s);
    SkipStops(s, t, m.mac);
  }

  lemma InsertedInPool(ls: seq<Lease>, l: Lease, p: Pool)
    requires Holds(p, ls)
    ensures Holds(p, Insert(ls, l)) <==> InPool(p, l.ip)
  {
    InsertShape(ls, l);
    assert Insert(ls, l)[InsertPos(ls, l.ip)] == l;
  }

  /** The strong invariant after a choice: the cursor moved behind the chosen address, which was leased or not. */
  lemma ChosenExclusive(s: Server, s': Server, l: Lease, taken: bool)
    requires Exclusive(s) && Consistent(s') && s'.pool == s.pool && 0 < l.ip <= s.pool.endIp
    requires s'.cursor == if l.ip == s.pool.endIp then s.pool.startIp else Next(l.ip)
    requires s'.leases == if taken then Insert(s.leases, l) else s.leases
    ensures Exclusive(s') <==>
              && SameBlock(l.ip, s.pool.startIp)
              && s.pool.startIp <= (if taken then l.ip else l.ip + STEP)
              && (taken ==> StrictlyAscending(s'.leases))
  {
    InsertedInPool(s.leases, l, s.pool);
    NextUpTo(l.ip, s.pool.endIp);
  }

  /** A message keeps the strong invariant exactly if the address it leases is free and inside the pool. */
  lemma ServeExclusive(s: Server, t: Table, m: Message, time: Word)
    requires Exclusive(s)
    ensures Exclusive(Serve(s, t, m, time).server)
       <==> (Chooses(s, t, m) ==> StaysInside(s, t, m) && (Withdrawn(s, t, m) || GrantsFree(s, t, m.mac)))
  {
    if Chooses(s, t, m) {
      ChosenServeExclusive(s, t, m, time);
    } else {
      OtherServe(s, t, m, time);
    }
  }

  lemma ChosenServeExclusive(s: Server, t: Table, m: Message, time: Word)
    requires Exclusive(s) && Chooses(s, t, m)
    ensures Exclusive(Serve(s, t, m, time).server)
       <==> StaysInside(s, t, m) && (Withdrawn(s, t, m) || GrantsFree(s, t, m.mac))
  {
    var l, s' := Lease(Choice(s, t, m.mac), m.mac, time, Hostname(Options(m))), Serve(s, t, m, time).server;
    ServeKeeps(s, t, m, time);
    ServeUnique(s, t, m, time);
    ChosenServe(s, t, m, time);
    ChoiceInside(s, t, m);
    ChosenExclusive(s, s', l, !Withdrawn(s, t, m));
  }

  ghost predicate KeepsExclusive(s: Server, e: Event, c: Config)
    requires s.pool.endIp < 0xFF00_0000
  {
    match e
    case Msg(t, m) => Chooses(s, t, m) ==> StaysInside(s, t, m) && (Withdrawn(s, t, m) || GrantsFree(s, t, m.mac))
    case Started(_, _) => Holds(Step(s, e, c).pool, s.leases)
    case _ => true
  }

  lemma StepExclusive(s: Server, e: Event, c: Config)
    requires Exclusive(s) && Allowed(s, e)
    ensures Exclusive(Step(s, e, c)) <==> KeepsExclusive(s, e, c)
  {
    match e
    case Msg(t, m) => ServeExclusive(s, t, m, c.time);
    case TimerTick => TickKeeps(s, c.maxStations);
    case Stopped =>
    case Started(_, _) => StartKeeps(s, e);
  }

  lemma {:induction false} ExclusiveUpTo(run: seq<Server>, es: seq<Event>, c: Config, i: nat)
    requires IsRun(run, es, c) && Exclusive(run[0]) && i < |run|
    requires forall k :: 0 <= k < i ==> KeepsExclusive(run[k], es[k], c)
    ensures Exclusive(run[i])
  {
    if i > 0 {
      ExclusiveUpTo(run, es, c, i - 1);
      StepExclusive(run[i - 1], es[i - 1], c);
    }
  }

  /** A run keeps its leases strictly ascending and inside the pool, and the cursor in the pool or just behind it, if
      and only if each address that is leased is free and inside the pool and no start moves the pool off a lease. */
  lemma ExclusiveRunExactly(run: seq<Server>, es: seq<Event>, c: Config)
    requires IsRun(run, es, c) && Exclusive(run[0])
    ensures (forall i :: 0 <= i < |run| ==> Exclusive(run[i]))
       <==> (forall k :: 0 <= k < |es| ==> KeepsExclusive(run[k], es[k], c))
  {
    if forall k :: 0 <= k < |es| ==> KeepsExclusive(run[k], es[k], c) {
      forall i | 0 <= i < |run|
        ensures Exclusive(run[i])
      {
        ExclusiveUpTo(run, es, c, i);
      }
    }
    if forall i :: 0 <= i < |run| ==> Exclusive(run[i]) {
      forall k | 0 <= k < |es|
        ensures KeepsExclusive(run[k], es[k], c)
      {
        assert Exclusive(run[k]) && Exclusive(run[k + 1]);
        StepExclusive(run[k], es[k], c);
      }
    }
  }

  // ----- inputs for which they fail -----

  /** A discover message without any other option. */
  function Discover(mac: Mac): Message {
    Message(true, mac, 0, [MSG_TYPE, 1, 1, END], 4)
  }

  lemma DiscoverOffers(mac: Mac, client: Word)
    ensures ReplyFor(Options(Discover(mac)), client, false) == Offer
  {
    var o := Opt(MSG_TYPE, [1]);
    var b: seq<Byte> := [MSG_TYPE, 1, 1, END];
    assert b[2..3] == [1];
    assert Walk(b, 3) == [];
    assert Walk(b, 0) == [o] + Walk(b, 3) == [o];
    assert OptionBytes(b, 4) == b;
  }

  /** The i-th address of 192.168.4.0. */
  function Home(i: Byte): (a: Word)
    ensures a == Home(0) + i * STEP && SameBlock(a, Home(0))
  {
    Join(192, 168, 4, i)
  }

  /** A client is refused although a pool address is neither leased nor reserved: the pool is .2 to .4, .3 is leased, the
      cursor stands on .4, which is reserved for another client, and .2 is free. */
  lemma RefusedWithRoom(time: Word) returns (s: Server, t: Table)
    ensures Exclusive(s) && s.pool == Pool(true, Home(2), Home(4)) && !HasLease(s.leases, 3)
    ensures Serve(s, t, Discover(3), time).reply == Nak
    ensures InPool(s.pool, Home(2)) && !Leased(s.leases, Home(2)) && forall mac: Mac :: !R.ReservedForOther(t, Home(2), mac)
  {
    s := Server([Lease(Home(3), 1, time, [])], Home(4), 0, false, false, Pool(true, Home(2), Home(4)));
    t := [R.Entry(2, Home(4), [], true)];
    OneLeaseCandidate(s);
    assert R.Lookup(t, 3) == 0;
    forall a: Word | Ahead(s, Home(4), a)
      ensures R.ReservedForOther(t, a, 3)
    {
      assert t[0].valid && t[0].ip == a && t[0].mac != 3;
    }
    RefusedExactly(s, t, Discover(3), time);
  }

  lemma OneLeaseCandidate(s: Server)
    requires |s.leases| == 1 && s.leases[0].ip != s.cursor <= s.pool.endIp
    ensures Candidate(s) == s.cursor
  {
    assert CursorAfter(s.leases, 0, s.cursor) == s.cursor;
  }

  /** Two clients hold one address: a client whose reserved address is already leased to another is offered it. */
  lemma ReservedAddressOfferedTwice(time: Word) returns (s: Server, t: Table)
    ensures Exclusive(s) && |s.leases| == 1 && s.leases[0].mac == 1
    ensures var o := Serve(s, t, Discover(2), time);
            && o.reply == Offer
            && o.server.client == s.leases[0].ip
            && HasLease(o.server.leases, 1) && HasLease(o.server.leases, 2)
            && forall l :: l in o.server.leases ==> l.ip == s.leases[0].ip
  {
    var first, m := Home(2), Discover(2);
    s := Server([Lease(first, 1, time, [])], first, 0, false, false, Pool(true, first, first));
    t := [R.Entry(2, first, [], true)];
    DiscoverOffers(2, first);
    assert R.Find(t, 2) == 0;
    var l := Lease(first, 2, time, Hostname(Options(m)));
    NewClientOffer(s, t, 2, time, l);
    assert InsertPos(s.leases, first) == 1;
    var ls := Insert(s.leases, l);
    assert ls == [s.leases[0], l];
    assert ls[0].mac == 1 && ls[1].mac == 2;
  }

  /** What a discover message from a new client leaves. */
  lemma NewClientOffer(s: Server, t: Table, mac: Mac, time: Word, l: Lease)
    requires Consistent(s) && !HasLease(s.leases, mac) && 0 < Choice(s, t, mac) <= s.pool.endIp
    requires l == Lease(Choice(s, t, mac), mac, time, Hostname(Options(Discover(mac))))
    ensures var o := Serve(s, t, Discover(mac), time);
            && o.reply == Offer && o.server.client == l.ip && o.server.pool == s.pool
            && o.server.leases == Insert(s.leases, l)
            && o.server.cursor == if l.ip == s.pool.endIp then s.pool.startIp else Next(l.ip)
  {
    var m := Discover(mac);
    DiscoverOffers(mac, l.ip);
    RefusedExactly(s, t, m, time);
    ChosenServe(s, t, m, time);
    NoIndexNoLease(s.leases, mac);
  }

  /** A reservation below the pool not only puts its own client there: it drags the cursor along, so the next client
      without any reservation is offered an address outside the pool, too. The pool is .10 to .20, and .5 is reserved. */
  lemma CursorDraggedBelowPool(time: Word) returns (s: Server, t: Table)
    ensures Exclusive(s) && s.leases == [] && s.pool == Pool(true, Home(10), Home(20))
    ensures R.Lookup(t, 1) == Home(5) && R.Lookup(t, 2) == 0
    ensures var first := Serve(s, t, Discover(1), time);
            var second := Serve(first.server, t, Discover(2), time);
            && first.reply == Offer && first.server.client == Home(5)
            && second.reply == Offer && second.server.client == Home(6)
            && !InPool(s.pool, Home(5)) && !InPool(s.pool, Home(6))
  {
    s := Server([], Home(10), 0, false, false, Pool(true, Home(10), Home(20)));
    t := [R.Entry(1, Home(5), [], true)];
    FirstBelowPool(s, t, time);
    SecondBelowPool(Serve(s, t, Discover(1), time).server, t, time);
  }

  lemma FirstBelowPool(s: Server, t: Table, time: Word)
    requires Exclusive(s) && s.leases == [] && s.pool.endIp == Home(20) && t == [R.Entry(1, Home(5), [], true)]
    ensures R.Lookup(t, 1) == Home(5)
    ensures var o := Serve(s, t, Discover(1), time);
            && o.reply == Offer && o.server.client == Home(5)
            && Consistent(o.server) && o.server.pool == s.pool && o.server.cursor == Home(6)
            && |o.server.leases| == 1 && o.server.leases[0].ip == Home(5) && o.server.leases[0].mac == 1
  {
    assert R.Find(t, 1) == 0;
    NewClientOffer(s, t, 1, time, Lease(Home(5), 1, time, Hostname(Options(Discover(1)))));
    ServeKeeps(s, t, Discover(1), time);
    NextUpTo(Home(5), Home(20));
  }

  lemma SecondBelowPool(s: Server, t: Table, time: Word)
    requires Consistent(s) && s.pool.endIp == Home(20) && s.cursor == Home(6)
    requires |s.leases| == 1 && s.leases[0].ip == Home(5) && s.leases[0].mac == 1
    requires t == [R.Entry(1, Home(5), [], true)]
    ensures Serve(s, t, Discover(2), time).reply == Offer && Serve(s, t, Discover(2), time).server.client == Home(6)
  {
    OneLeaseCandidate(s);
    assert R.Lookup(t, 2) == 0;
    assert !R.ReservedForOther(t, Home(6), 2);
    NewClientOffer(s, t, 2, time, Lease(Home(6), 2, time, Hostname(Options(Discover(2)))));
  }
}
