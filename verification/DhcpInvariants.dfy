/** What every run of the DHCP server keeps, and what its replies mean. */
module DhcpInvariants {
  import opened Bits
  import opened Addresses
  import opened DhcpOptions
  import opened DhcpPool
  import opened DhcpLeases
  import R = DhcpReservations

  // ----- invariants -----

  ghost predicate OnePerMac(ls: seq<Lease>) {
    forall i, j :: 0 <= i < j < |ls| ==> ls[i].mac != ls[j].mac
  }

  ghost predicate Ascending(ls: seq<Lease>) {
    forall i, j :: 0 <= i < j < |ls| ==> ls[i].ip <= ls[j].ip
  }

  ghost predicate StrictlyAscending(ls: seq<Lease>) {
    forall i, j :: 0 <= i < j < |ls| ==> ls[i].ip < ls[j].ip
  }

  predicate InPool(p: Pool, a: Word) {
    p.startIp <= a <= p.endIp && SameBlock(a, p.startIp)
  }

  /** Holds in every reachable state, whatever the reservations are. */
  ghost predicate Consistent(s: Server) {
    && Usable(s.pool)
    && OnePerMac(s.leases)
    && Ascending(s.leases)
    && (forall i :: 0 <= i < |s.leases| ==> 0 < s.leases[i].ip <= s.pool.endIp)
    && 0 < s.cursor <= s.pool.endIp + STEP
  }

  /** Holds as well as long as no reservation names an address. */
  ghost predicate Exclusive(s: Server) {
    && Consistent(s)
    && StrictlyAscending(s.leases)
    && (forall i :: 0 <= i < |s.leases| ==> InPool(s.pool, s.leases[i].ip))
    && s.pool.startIp <= s.cursor
    && SameBlock(s.cursor, s.pool.startIp)
  }

  /** Reservations may block clients, but none gives out an address. */
  predicate NoReservedAddress(t: Table) {
    forall i :: 0 <= i < |t| && t[i].valid ==> t[i].ip == 0
  }

  // ----- list operations -----

  lemma NextUpTo(a: Word, end: Word)
    requires a <= end < 0xFF00_0000
    ensures Next(a) == a + STEP && SameBlock(Next(a), a)
  {
    NextInBlock(a);
    StepKeepsBlock(a);
  }

  lemma StepKeepsBlock(a: Word)
    requires a < 0xFF00_0000
    ensures SameBlock(a + STEP, a)
  {
  }

  lemma BlockGap(a: Word, b: Word)
    requires SameBlock(a, b) && a < b
    ensures a + STEP <= b
  {
  }

  lemma InsertShape(ls: seq<Lease>, l: Lease)
    ensures var p, r := InsertPos(ls, l.ip), Insert(ls, l);
            && |r| == |ls| + 1 && r[p] == l
            && (forall k :: 0 <= k < p ==> r[k] == ls[k])
            && (forall k :: p < k < |r| ==> r[k] == ls[k - 1])
  {
  }

  lemma InsertRemove(ls: seq<Lease>, l: Lease)
    ensures RemoveAt(Insert(ls, l), InsertPos(ls, l.ip)) == ls
  {
    InsertShape(ls, l);
  }

  lemma InsertOrdered(ls: seq<Lease>, l: Lease)
    requires Ascending(ls)
    ensures Ascending(Insert(ls, l))
  {
    InsertShape(ls, l);
    assert forall k :: InsertPos(ls, l.ip) <= k < |ls| ==> l.ip < ls[k].ip;
  }

  lemma InsertStrictlyOrdered(ls: seq<Lease>, l: Lease)
    requires StrictlyAscending(ls) && !Leased(ls, l.ip)
    ensures StrictlyAscending(Insert(ls, l))
  {
    InsertShape(ls, l);
    assert forall k :: 0 <= k < |ls| ==> ls[k].ip != l.ip;
    assert forall k :: InsertPos(ls, l.ip) <= k < |ls| ==> l.ip < ls[k].ip;
  }

  lemma InsertOnePerMac(ls: seq<Lease>, l: Lease)
    requires OnePerMac(ls) && !HasLease(ls, l.mac)
    ensures OnePerMac(Insert(ls, l))
  {
    InsertShape(ls, l);
  }

  /** A new lease keeps the list in order and with one entry per client. */
  lemma InsertKeeps(ls: seq<Lease>, l: Lease)
    requires Ascending(ls)
    ensures Ascending(Insert(ls, l))
    ensures OnePerMac(ls) && !HasLease(ls, l.mac) ==> OnePerMac(Insert(ls, l))
    ensures StrictlyAscending(ls) && !Leased(ls, l.ip) ==> StrictlyAscending(Insert(ls, l))
    ensures forall k :: 0 <= k < |Insert(ls, l)| ==> Insert(ls, l)[k] == l || Insert(ls, l)[k] in ls
  {
    InsertShape(ls, l);
    InsertOrdered(ls, l);
    if StrictlyAscending(ls) && !Leased(ls, l.ip) {
      InsertStrictlyOrdered(ls, l);
    }
    if OnePerMac(ls) && !HasLease(ls, l.mac) {
      InsertOnePerMac(ls, l);
    }
  }

  lemma RemoveKeeps(ls: seq<Lease>, i: nat)
    requires i < |ls|
    ensures Ascending(ls) ==> Ascending(RemoveAt(ls, i))
    ensures OnePerMac(ls) ==> OnePerMac(RemoveAt(ls, i)) && !HasLease(RemoveAt(ls, i), ls[i].mac)
    ensures StrictlyAscending(ls) ==> StrictlyAscending(RemoveAt(ls, i))
    ensures forall k :: 0 <= k < |RemoveAt(ls, i)| ==> RemoveAt(ls, i)[k] in ls
  {
    var r := RemoveAt(ls, i);
    assert forall k :: 0 <= k < i ==> r[k] == ls[k];
    assert forall k :: i <= k < |r| ==> r[k] == ls[k + 1];
  }

  /** What is left after ageing comes from the old list. */
  lemma {:induction false} AgedFrom(ls: seq<Lease>, k: nat) returns (j: nat)
    requires k < |Aged(ls)|
    ensures j < |ls| && Aged(ls)[k] == Older(ls[j])
  {
    var kept, rest := if Older(ls[0]).timer == 0 then 0 else 1, ls[1..];
    if k < kept {
      j := 0;
    } else {
      j := AgedFrom(rest, k - kept);
      j := j + 1;
    }
  }

  /** And it comes in the old order. */
  lemma {:induction false} AgedOrder(ls: seq<Lease>, k: nat, k': nat) returns (j: nat, j': nat)
    requires k < k' < |Aged(ls)|
    ensures j < j' < |ls| && Aged(ls)[k] == Older(ls[j]) && Aged(ls)[k'] == Older(ls[j'])
  {
    var kept, rest := if Older(ls[0]).timer == 0 then 0 else 1, ls[1..];
    if k < kept {
      j := 0;
      j' := AgedFrom(rest, k' - kept);
    } else {
      j, j' := AgedOrder(rest, k - kept, k' - kept);
      j := j + 1;
    }
    j' := j' + 1;
  }

  lemma AgedKeeps(ls: seq<Lease>)
    ensures Ascending(ls) ==> Ascending(Aged(ls))
    ensures OnePerMac(ls) ==> OnePerMac(Aged(ls))
    ensures StrictlyAscending(ls) ==> StrictlyAscending(Aged(ls))
    ensures forall k :: 0 <= k < |Aged(ls)| ==> Leased(ls, Aged(ls)[k].ip)
  {
    forall k, k' | 0 <= k < k' < |Aged(ls)|
      ensures Ascending(ls) ==> Aged(ls)[k].ip <= Aged(ls)[k'].ip
      ensures OnePerMac(ls) ==> Aged(ls)[k].mac != Aged(ls)[k'].mac
      ensures StrictlyAscending(ls) ==> Aged(ls)[k].ip < Aged(ls)[k'].ip
    {
      var j, j' := AgedOrder(ls, k, k');
    }
    forall k | 0 <= k < |Aged(ls)|
      ensures Leased(ls, Aged(ls)[k].ip)
    {
      var j := AgedFrom(ls, k);
    }
  }

  // ----- choosing an address -----

  lemma {:induction false} CursorBound(s: Server, i: nat)
    requires Consistent(s) && i <= |s.leases|
    ensures s.cursor <= CursorAfter(s.leases, i, s.cursor) <= s.pool.endIp + STEP
    ensures SameBlock(CursorAfter(s.leases, i, s.cursor), s.cursor)
  {
    if i > 0 {
      CursorBound(s, i - 1);
      if s.leases[i - 1].ip == CursorAfter(s.leases, i - 1, s.cursor) {
        NextUpTo(s.leases[i - 1].ip, s.pool.endIp);
      }
    }
  }

  /** Walking the cursor along a strictly ascending list ends on an address that is not leased. */
  lemma {:induction false} CursorFresh(s: Server, i: nat)
    requires Consistent(s) && StrictlyAscending(s.leases) && i <= |s.leases|
    ensures forall j :: 0 <= j < i ==> s.leases[j].ip != CursorAfter(s.leases, i, s.cursor)
  {
    if i > 0 {
      CursorFresh(s, i - 1);
      if s.leases[i - 1].ip == CursorAfter(s.leases, i - 1, s.cursor) {
        NextUpTo(s.leases[i - 1].ip, s.pool.endIp);
      }
    }
  }

  /** The first-gap search counts through the leases as long as they have no gap. */
  lemma {:induction false} GapCounts(s: Server, i: nat)
    requires Exclusive(s) && i <= |s.leases|
    ensures var g := GapAfter(s.leases, i, s.pool.startIp);
            if g.found then
              && InPool(s.pool, g.addr)
              && (forall j :: 0 <= j < |s.leases| ==> s.leases[j].ip != g.addr)
            else
              && g.addr == s.pool.startIp + i * STEP
              && g.addr <= s.pool.endIp + STEP
              && SameBlock(g.addr, s.pool.startIp)
              && forall j :: 0 <= j < i ==> s.leases[j].ip == s.pool.startIp + j * STEP
  {
    if i > 0 {
      GapCounts(s, i - 1);
      var g, l := GapAfter(s.leases, i - 1, s.pool.startIp), s.leases[i - 1];
      if !g.found {
        if l.ip < g.addr {
          BlockGap(l.ip, g.addr);
          assert false;
        } else if l.ip == g.addr {
          NextUpTo(g.addr, s.pool.endIp);
        } else {
          GapFound(s, i, g.addr);
        }
      }
    }
  }

  /** An address between two neighbours of the list is not leased. */
  lemma GapFound(s: Server, i: nat, a: Word)
    requires Exclusive(s) && 0 < i <= |s.leases| && a < s.leases[i - 1].ip
    requires forall j :: 0 <= j < i - 1 ==> s.leases[j].ip < a
    ensures forall j :: 0 <= j < |s.leases| ==> s.leases[j].ip != a
  {
  }

  /** Without reservations the candidate is never leased, and it lies in the pool unless the pool is used up:
      every pool address is leased exactly when the candidate lies beyond the end. */
  lemma CandidateProperty(s: Server)
    requires Exclusive(s)
    ensures !Leased(s.leases, Candidate(s))
    ensures 0 < Candidate(s) && SameBlock(Candidate(s), s.pool.startIp)
    ensures s.pool.startIp <= Candidate(s) <= s.pool.endIp + STEP
    ensures Candidate(s) > s.pool.endIp <==> forall a: Word :: InPool(s.pool, a) ==> Leased(s.leases, a)
  {
    var n := |s.leases|;
    CursorBound(s, n);
    CursorFresh(s, n);
    GapCounts(s, n);
    var g := GapAfter(s.leases, n, s.pool.startIp);
    if Candidate(s) > s.pool.endIp {
      assert !g.found && Candidate(s) == g.addr;
      forall a: Word | InPool(s.pool, a)
        ensures Leased(s.leases, a)
      {
        var k := (a - s.pool.startIp) / STEP;
        BlockIndex(s.pool.startIp, a, k);
        assert s.leases[k].ip == a;
      }
    } else {
      assert InPool(s.pool, Candidate(s));
    }
  }

  lemma BlockIndex(start: Word, a: Word, k: int)
    requires SameBlock(a, start) && start <= a && k == (a - start) / STEP
    ensures a == start + k * STEP && k >= 0
  {
  }

  lemma NoReservation(t: Table, mac: Mac, a: Word, end: Word)
    requires NoReservedAddress(t) && end < 0xFF00_0000
    ensures R.Lookup(t, mac) == 0 && SkipReserved(t, mac, a, end) == a
  {
  }

  /** The skip ends on an address that is not reserved for another client, or beyond the pool. */
  lemma {:induction false} SkipBound(t: Table, mac: Mac, a: Word, end: Word)
    requires end < 0xFF00_0000
    ensures a <= SkipReserved(t, mac, a, end)
    ensures a <= end + STEP ==> SkipReserved(t, mac, a, end) <= end + STEP
    ensures SkipReserved(t, mac, a, end) <= end ==> !R.ReservedForOther(t, SkipReserved(t, mac, a, end), mac)
    decreases if a <= end then end + 1 - a else 0
  {
    if a <= end && R.ReservedForOther(t, a, mac) {
      NextUpTo(a, end);
      SkipBound(t, mac, Next(a), end);
    }
  }

  // ----- every step keeps the invariants -----

  /** Every address of the first list is one of the second. */
  ghost predicate AddressesFrom(ls': seq<Lease>, ls: seq<Lease>) {
    forall k :: 0 <= k < |ls'| ==> Leased(ls, ls'[k].ip)
  }

  lemma FewerLeases(s: Server, s': Server)
    requires Consistent(s) && s'.pool == s.pool && s'.cursor == s.cursor
    requires OnePerMac(s'.leases) && Ascending(s'.leases) && AddressesFrom(s'.leases, s.leases)
    ensures Consistent(s')
    ensures Exclusive(s) && StrictlyAscending(s'.leases) ==> Exclusive(s')
  {
  }

  lemma RemovedKeeps(s: Server, s': Server, slot: nat)
    requires Consistent(s) && s'.pool == s.pool && s'.cursor == s.cursor
    requires slot < |s.leases| && s'.leases == RemoveAt(s.leases, slot)
    ensures Consistent(s') && (Exclusive(s) ==> Exclusive(s'))
  {
    RemoveKeeps(s.leases, slot);
    assert AddressesFrom(s'.leases, s.leases);
    FewerLeases(s, s');
  }

  lemma RenamedKeeps(s: Server, s': Server, slot: nat, hostname: seq<Byte>)
    requires Consistent(s) && s'.pool == s.pool && s'.cursor == s.cursor
    requires slot < |s.leases| && s'.leases == s.leases[slot := s.leases[slot].(hostname := hostname)]
    ensures Consistent(s') && (Exclusive(s) ==> Exclusive(s'))
  {
    assert forall k :: 0 <= k < |s.leases| ==>
      s'.leases[k].ip == s.leases[k].ip && s'.leases[k].mac == s.leases[k].mac;
  }

  lemma SettledKeeps(s: Server, slot: nat, reply: Reply, hostname: seq<Byte>)
    requires Consistent(s)
    ensures Consistent(Settled(s, slot, reply, hostname).server)
    ensures Exclusive(s) ==> Exclusive(Settled(s, slot, reply, hostname).server)
  {
    if slot < |s.leases| {
      var s' := Settled(s, slot, reply, hostname).server;
      if s.client > s.pool.endIp || s.client == 0 || reply == Release || reply == Nak || reply == Decline {
        RemovedKeeps(s, s', slot);
      } else {
        RenamedKeeps(s, s', slot, hostname);
      }
    }
  }

  lemma SettleKeeps(s: Server, slot: nat, m: Message)
    requires Consistent(s)
    ensures Consistent(Settle(s, slot, m).server)
    ensures Exclusive(s) ==> Exclusive(Settle(s, slot, m).server)
  {
    SettledKeeps(s, slot, ReplyFor(Options(m), s.client, s.renew), Hostname(Options(m)));
  }

  lemma RenewedKeeps(s: Server, i: nat, m: Message, time: Word)
    requires Consistent(s) && i < |s.leases|
    ensures Consistent(Renewed(s, i, m, time))
    ensures Exclusive(s) ==> Exclusive(Renewed(s, i, m, time))
  {
    CursorBound(s, i);
  }

  /** Inserting the chosen address keeps the invariants, or the address is 0.0.0.0 and is taken back. */
  lemma AllocatedKeeps(s: Server, t: Table, m: Message, time: Word)
    requires Consistent(s) && !HasLease(s.leases, m.mac)
    ensures Choice(s, t, m.mac) != 0 ==> Consistent(Allocated(s, t, m, time))
    ensures Exclusive(s) && NoReservedAddress(t) ==> Exclusive(Allocated(s, t, m, time))
  {
    var c := Choice(s, t, m.mac);
    var l := Lease(c, m.mac, time, []);
    if c <= s.pool.endIp {
      InsertKeeps(s.leases, l);
      NextUpTo(c, s.pool.endIp);
    }
    if Exclusive(s) && NoReservedAddress(t) {
      NoReservation(t, m.mac, Candidate(s), s.pool.endIp);
      CandidateProperty(s);
    }
  }

  lemma RefusedZero(s: Server, t: Table, m: Message, time: Word)
    requires Consistent(s) && !HasLease(s.leases, m.mac) && Choice(s, t, m.mac) == 0
    ensures Consistent(Settle(Allocated(s, t, m, time), InsertPos(s.leases, 0), m).server)
  {
    InsertRemove(s.leases, Lease(0, m.mac, time, []));
    InsertShape(s.leases, Lease(0, m.mac, time, []));
    NextUpTo(0, s.pool.endIp);
  }

  lemma NoIndexNoLease(ls: seq<Lease>, mac: Mac)
    ensures HasLease(ls, mac) <==> IndexOf(ls, mac) < |ls|
  {
  }

  /** A message keeps the invariants. */
  lemma ServeKeeps(s: Server, t: Table, m: Message, time: Word)
    requires Consistent(s)
    ensures Consistent(Serve(s, t, m, time).server)
    ensures Exclusive(s) && NoReservedAddress(t) ==> Exclusive(Serve(s, t, m, time).server)
  {
    var i := IndexOf(s.leases, m.mac);
    NoIndexNoLease(s.leases, m.mac);
    if m.cookie {
      if i < |s.leases| {
        RenewedKeeps(s, i, m, time);
        SettleKeeps(Renewed(s, i, m, time), i, m);
      } else {
        var c := Choice(s, t, m.mac);
        var slot := if c > s.pool.endIp then |s.leases| else InsertPos(s.leases, c);
        AllocatedKeeps(s, t, m, time);
        if c == 0 {
          RefusedZero(s, t, m, time);
          if Exclusive(s) && NoReservedAddress(t) {
            SettleKeeps(Allocated(s, t, m, time), slot, m);
          }
        } else {
          SettleKeeps(Allocated(s, t, m, time), slot, m);
        }
      }
    }
  }

  lemma TickKeeps(s: Server, maxStations: Byte)
    requires Consistent(s)
    ensures Consistent(Tick(s, maxStations))
    ensures Exclusive(s) ==> Exclusive(Tick(s, maxStations))
  {
    var ls := Aged(s.leases);
    AgedKeeps(s.leases);
    assert AddressesFrom(ls, s.leases);
    FewerLeases(s, s.(leases := ls));
    if |ls| % 0x100 > maxStations {
      RemoveKeeps(ls, Oldest(ls));
      assert AddressesFrom(RemoveAt(ls, Oldest(ls)), ls);
      FewerLeases(s.(leases := ls), Tick(s, maxStations));
    }
  }

  // ----- runs -----

  /** One event: a message handled under the reservations of that moment, a tick, a stop, or a start on a server
      address with the pool that is configured by then. */
  datatype Event = Msg(t: Table, m: Message) | TimerTick | Stopped | Started(server: Word, configured: Pool)

  datatype Config = Config(time: Word, maxStations: Byte)

  /** A server is started on an address that passes the checks, without a degenerate configured pool, and not
      below the leases it already has. */
  ghost predicate Allowed(s: Server, e: Event) {
    e.Started? ==>
      && StartChecks(Swap(MASK24), Swap(e.server))
      && (Accepted(e.configured, e.server, MASK24) ==> Usable(e.configured))
      && forall k :: 0 <= k < |s.leases| ==> s.leases[k].ip <= PollSet(e.configured, e.server, MASK24).endIp
  }

  /** All leases lie in the pool. */
  ghost predicate Holds(p: Pool, ls: seq<Lease>) {
    forall k :: 0 <= k < |ls| ==> InPool(p, ls[k].ip)
  }

  ghost function Step(s: Server, e: Event, c: Config): Server
    requires s.pool.endIp < 0xFF00_0000
  {
    match e
    case Msg(t, m) => Serve(s, t, m, c.time).server
    case TimerTick => Tick(s, c.maxStations)
    case Stopped => Stop(s)
    case Started(server, configured) => Start(s.(pool := configured), server)
  }

  /** The states of a run: each event is allowed where it happens. */
  ghost predicate IsRun(run: seq<Server>, es: seq<Event>, c: Config) {
    && |run| == |es| + 1
    && forall i :: 0 <= i < |es| ==>
         && run[i].pool.endIp < 0xFF00_0000
         && Allowed(run[i], es[i])
         && run[i + 1] == Step(run[i], es[i], c)
  }

  lemma StartKeeps(s: Server, e: Event)
    requires Consistent(s) && e.Started? && Allowed(s, e)
    ensures var s' := Start(s.(pool := e.configured), e.server);
            Consistent(s') && (StrictlyAscending(s.leases) ==> (Exclusive(s') <==> Holds(s'.pool, s.leases)))
  {
    PollSetUsable(e.configured, e.server);
  }

  lemma StepKeeps(s: Server, e: Event, c: Config)
    requires Consistent(s) && Allowed(s, e)
    ensures Consistent(Step(s, e, c))
    ensures Exclusive(s) && (e.Msg? ==> NoReservedAddress(e.t)) && (e.Started? ==> Holds(Step(s, e, c).pool, s.leases))
            ==> Exclusive(Step(s, e, c))
  {
    match e
    case Msg(t, m) => ServeKeeps(s, t, m, c.time);
    case TimerTick => TickKeeps(s, c.maxStations);
    case Stopped =>
    case Started(_, _) => StartKeeps(s, e);
  }

  /** In every state of every run the list is ascending, with one entry per client and nothing above the pool. */
  lemma {:induction false} EveryRunConsistent(run: seq<Server>, es: seq<Event>, c: Config, i: nat)
    requires IsRun(run, es, c) && Consistent(run[0]) && i < |run|
    ensures Consistent(run[i])
  {
    if i > 0 {
      EveryRunConsistent(run, es, c, i - 1);
      StepKeeps(run[i - 1], es[i - 1], c);
    }
  }

  /** As long as no reservation names an address and no start moves the pool away from a lease, the list is strictly
      ascending as well, so no address is leased twice, every lease lies in the pool, and the cursor is in the pool
      or just behind it. */
  lemma {:induction false} EveryRunExclusive(run: seq<Server>, es: seq<Event>, c: Config, i: nat)
    requires IsRun(run, es, c) && Exclusive(run[0]) && i < |run|
    requires forall k :: 0 <= k < |es| && es[k].Msg? ==> NoReservedAddress(es[k].t)
    requires forall k :: 0 <= k < |es| && es[k].Started? ==> Holds(run[k + 1].pool, run[k].leases)
    ensures Exclusive(run[i])
  {
    if i > 0 {
      EveryRunExclusive(run, es, c, i - 1);
      StepKeeps(run[i - 1], es[i - 1], c);
    }
  }
}
