/** What time does to the leases: the countdown, the expiry and the eviction. */
module DhcpAging {
  import opened Bits
  import opened DhcpPool
  import opened DhcpLeases
  import opened DhcpInvariants
  import opened DhcpReplies

  /** What is left of a lease's time after one tick; a time of zero wraps. */
  function Remaining(l: Lease): Word {
    if l.timer == 0 then 0xFFFF_FFFF else l.timer - 1
  }

  /** The same lease one tick later. */
  predicate OneTickOlder(l: Lease, before: Lease) {
    l.ip == before.ip && l.mac == before.mac && l.hostname == before.hostname && l.timer == Remaining(before)
  }

  /** How many leases do not expire at the next tick. */
  function Survivors(ls: seq<Lease>): nat {
    if ls == [] then 0 else (if ls[0].timer == 1 then 0 else 1) + Survivors(ls[1..])
  }

  lemma {:induction false} AgedLength(ls: seq<Lease>)
    ensures |Aged(ls)| == Survivors(ls)
  {
    if ls != [] {
      AgedLength(ls[1..]);
    }
  }

  /** Every lease that is left is one of the old ones, one tick older. */
  lemma AgedIs(ls: seq<Lease>, k: nat) returns (i: nat)
    requires k < |Aged(ls)|
    ensures i < |ls| && OneTickOlder(Aged(ls)[k], ls[i]) && ls[i].timer != 1
  {
    i := AgedFrom(ls, k);
    AgedExactly(ls, Aged(ls)[k]);
  }

  /** And every old one that does not expire is left. */
  lemma AgedHas(ls: seq<Lease>, i: nat) returns (k: nat)
    requires i < |ls| && ls[i].timer != 1
    ensures k < |Aged(ls)| && OneTickOlder(Aged(ls)[k], ls[i])
  {
    AgedExactly(ls, Older(ls[i]));
    k :| 0 <= k < |Aged(ls)| && Aged(ls)[k] == Older(ls[i]);
  }

  ghost predicate Left(ls: seq<Lease>, before: Lease) {
    exists k :: 0 <= k < |ls| && OneTickOlder(ls[k], before)
  }

  /** The lease is one of the old ones that did not expire, one tick older. */
  ghost predicate Outlasts(before: seq<Lease>, l: Lease) {
    exists i :: 0 <= i < |before| && OneTickOlder(l, before[i]) && before[i].timer != 1
  }

  /** The lease was evicted: of those that do not expire it has the least time, it is gone, and all others are left. */
  ghost predicate Evicted(before: seq<Lease>, ls: seq<Lease>, e: nat) {
    && e < |before| && before[e].timer != 1 && !HasLease(ls, before[e].mac)
    && forall i :: 0 <= i < |before| && i != e && before[i].timer != 1 ==>
         Left(ls, before[i]) && Remaining(before[e]) <= Remaining(before[i])
  }

  /** What a tick does: it takes one off every timer, drops exactly the leases whose timer was 1, and, exactly when more
      of them are left than stations are allowed, counted in one octet, evicts one with the least time. */
  lemma TickExactly(s: Server, maxStations: Byte)
    requires OnePerMac(s.leases)
    ensures var s', n := Tick(s, maxStations), Survivors(s.leases);
            && s' == s.(leases := s'.leases)
            && (forall l :: l in s'.leases ==> Outlasts(s.leases, l))
            && |s'.leases| == n - (if n % 0x100 > maxStations then 1 else 0)
            && (if n % 0x100 > maxStations then exists e: nat :: Evicted(s.leases, s'.leases, e)
                else forall i :: 0 <= i < |s.leases| && s.leases[i].timer != 1 ==> Left(s'.leases, s.leases[i]))
  {
    var ls, aged := s.leases, Aged(s.leases);
    var ls' := Tick(s, maxStations).leases;
    AgedLength(ls);
    TickFrom(ls, aged, maxStations);
    if |aged| % 0x100 > maxStations {
      EvictsOldest(ls, aged, Oldest(aged));
    } else {
      forall i | 0 <= i < |ls| && ls[i].timer != 1
        ensures Left(ls', ls[i])
      {
        var k := AgedHas(ls, i);
      }
    }
  }

  lemma TickFrom(ls: seq<Lease>, aged: seq<Lease>, maxStations: Byte)
    requires aged == Aged(ls)
    ensures forall l :: l in Ticked(ls, maxStations) ==> Outlasts(ls, l)
  {
    forall l | l in Ticked(ls, maxStations)
      ensures Outlasts(ls, l)
    {
      StillAged(aged, maxStations, l);
      IsOlder(ls, aged, l);
    }
  }

  lemma StillAged(aged: seq<Lease>, maxStations: Byte, l: Lease)
    requires l in if |aged| % 0x100 > maxStations then RemoveAt(aged, Oldest(aged)) else aged
    ensures l in aged
  {
  }

  lemma IsOlder(ls: seq<Lease>, aged: seq<Lease>, l: Lease)
    requires aged == Aged(ls) && l in aged
    ensures Outlasts(ls, l)
  {
    var k :| 0 <= k < |aged| && aged[k] == l;
    var i := AgedIs(ls, k);
  }

  lemma EvictsOldest(ls: seq<Lease>, aged: seq<Lease>, o: nat)
    requires OnePerMac(ls) && aged == Aged(ls) && aged != [] && o == Oldest(aged)
    ensures exists e: nat :: Evicted(ls, RemoveAt(aged, o), e)
  {
    var e := AgedIs(ls, o);
    AgedKeeps(ls);
    RemoveKeeps(aged, o);
    forall i | 0 <= i < |ls| && i != e && ls[i].timer != 1
      ensures Left(RemoveAt(aged, o), ls[i]) && Remaining(ls[e]) <= Remaining(ls[i])
    {
      OtherLeft(ls, aged, o, e, i);
    }
    assert Evicted(ls, RemoveAt(aged, o), e);
  }

  lemma OtherLeft(ls: seq<Lease>, aged: seq<Lease>, o: nat, e: nat, i: nat)
    requires OnePerMac(ls) && aged == Aged(ls) && aged != [] && o == Oldest(aged)
    requires e < |ls| && OneTickOlder(aged[o], ls[e]) && i < |ls| && i != e && ls[i].timer != 1
    ensures Left(RemoveAt(aged, o), ls[i]) && Remaining(ls[e]) <= Remaining(ls[i])
  {
    var k := AgedHas(ls, i);
    assert ls[i].mac != ls[e].mac;
    StaysIn(aged, o, k, ls[i]);
  }

  lemma StaysIn(aged: seq<Lease>, o: nat, k: nat, before: Lease)
    requires o < |aged| && k < |aged| && k != o && OneTickOlder(aged[k], before)
    ensures Left(RemoveAt(aged, o), before)
  {
    RemoveAtShape(aged, o);
    assert RemoveAt(aged, o)[if k < o then k else k - 1] == aged[k];
  }

  // ----- runs -----

  /** How many of the first `k` events are ticks. */
  function Ticks(es: seq<Event>, k: nat): nat
    requires k <= |es|
  {
    if k == 0 then 0 else Ticks(es, k - 1) + if es[k - 1] == TimerTick then 1 else 0
  }

  /** The client has no lease, or one with this much time. */
  ghost predicate Has(ls: seq<Lease>, mac: Mac, timer: int) {
    forall l :: l in ls && l.mac == mac ==> l.timer == timer
  }

  lemma TickHas(s: Server, maxStations: Byte, mac: Mac, n: nat)
    requires OnePerMac(s.leases) && Has(s.leases, mac, n) && 0 < n < 0x1_0000_0000
    ensures Has(Tick(s, maxStations).leases, mac, n - 1)
    ensures n == 1 ==> !HasLease(Tick(s, maxStations).leases, mac)
  {
    TickExactly(s, maxStations);
    var ls' := Tick(s, maxStations).leases;
    forall l | l in ls' && l.mac == mac
      ensures l.timer == n - 1 && n != 1
    {
      assert Outlasts(s.leases, l);
      var i :| 0 <= i < |s.leases| && OneTickOlder(l, s.leases[i]) && s.leases[i].timer != 1;
      assert s.leases[i] in s.leases;
    }
  }

  /** While no message comes, a client's lease counts down by one with every tick, and when its time is over it is gone
      and stays so, whatever is started and stopped in between. */
  lemma {:induction false} Expires(run: seq<Server>, es: seq<Event>, c: Config, mac: Mac, n: nat, k: nat)
    requires IsRun(run, es, c) && Consistent(run[0]) && (forall i :: 0 <= i < |es| ==> !es[i].Msg?)
    requires 0 < n < 0x1_0000_0000 && Has(run[0].leases, mac, n) && k < |run|
    ensures if Ticks(es, k) < n then Has(run[k].leases, mac, n - Ticks(es, k)) else !HasLease(run[k].leases, mac)
  {
    if k > 0 {
      var s := run[k - 1];
      Expires(run, es, c, mac, n, k - 1);
      EveryRunConsistent(run, es, c, k - 1);
      if es[k - 1] == TimerTick {
        if Ticks(es, k - 1) < n {
          TickHas(s, c.maxStations, mac, n - Ticks(es, k - 1));
        } else {
          TickStaysGone(s, c.maxStations, mac);
        }
      }
    }
  }

  lemma TickStaysGone(s: Server, maxStations: Byte, mac: Mac)
    requires OnePerMac(s.leases) && !HasLease(s.leases, mac)
    ensures !HasLease(Tick(s, maxStations).leases, mac)
  {
    TickExactly(s, maxStations);
    var ls' := Tick(s, maxStations).leases;
    forall k | 0 <= k < |ls'|
      ensures ls'[k].mac != mac
    {
      assert ls'[k] in ls' && Outlasts(s.leases, ls'[k]);
      var i :| 0 <= i < |s.leases| && OneTickOlder(ls'[k], s.leases[i]) && s.leases[i].timer != 1;
    }
  }

  /** Without more leases than stations nothing is evicted. */
  lemma NoneEvicted(s: Server, maxStations: Byte)
    requires OnePerMac(s.leases) && |s.leases| <= maxStations
    ensures |Tick(s, maxStations).leases| <= |s.leases|
    ensures forall i :: 0 <= i < |s.leases| && s.leases[i].timer != 1 ==> Left(Tick(s, maxStations).leases, s.leases[i])
  {
    var ls := s.leases;
    AgedLength(ls);
    SurvivorsBound(ls);
    forall i | 0 <= i < |ls| && ls[i].timer != 1
      ensures Left(Aged(ls), ls[i])
    {
      var k := AgedHas(ls, i);
    }
  }

  lemma TickLasts(s: Server, maxStations: Byte, mac: Mac, n: nat)
    requires OnePerMac(s.leases) && |s.leases| <= maxStations && HasLease(s.leases, mac) && Has(s.leases, mac, n) && n != 1
    ensures HasLease(Tick(s, maxStations).leases, mac) && |Tick(s, maxStations).leases| <= maxStations
  {
    NoneEvicted(s, maxStations);
    var i :| 0 <= i < |s.leases| && s.leases[i].mac == mac;
    assert s.leases[i] in s.leases;
    assert Left(Tick(s, maxStations).leases, s.leases[i]);
  }

  lemma {:induction false} SurvivorsBound(ls: seq<Lease>)
    ensures Survivors(ls) <= |ls|
  {
    if ls != [] {
      SurvivorsBound(ls[1..]);
    }
  }

  lemma {:induction false} LastsUpTo(run: seq<Server>, es: seq<Event>, c: Config, mac: Mac, n: nat, k: nat)
    requires IsRun(run, es, c) && Consistent(run[0]) && (forall i :: 0 <= i < |es| ==> es[i] == TimerTick)
    requires 0 < n < 0x1_0000_0000 && Has(run[0].leases, mac, n) && HasLease(run[0].leases, mac)
    requires |run[0].leases| <= c.maxStations && k < |run| && k < n
    ensures HasLease(run[k].leases, mac) && |run[k].leases| <= c.maxStations
  {
    if k > 0 {
      LastsUpTo(run, es, c, mac, n, k - 1);
      EveryRunConsistent(run, es, c, k - 1);
      Expires(run, es, c, mac, n, k - 1);
      TickCount(es, k - 1);
      TickLasts(run[k - 1], c.maxStations, mac, n - (k - 1));
    }
  }

  lemma {:induction false} TickCount(es: seq<Event>, k: nat)
    requires k <= |es| && forall i :: 0 <= i < |es| ==> es[i] == TimerTick
    ensures Ticks(es, k) == k
  {
    if k > 0 {
      TickCount(es, k - 1);
    }
  }

  /** With no more leases than stations are allowed, a lease with time n lasts through exactly the first n - 1 ticks. */
  lemma LastsExactly(run: seq<Server>, es: seq<Event>, c: Config, mac: Mac, n: nat, k: nat)
    requires IsRun(run, es, c) && Consistent(run[0]) && (forall i :: 0 <= i < |es| ==> es[i] == TimerTick)
    requires 0 < n < 0x1_0000_0000 && Has(run[0].leases, mac, n) && HasLease(run[0].leases, mac)
    requires |run[0].leases| <= c.maxStations && k < |run|
    ensures HasLease(run[k].leases, mac) <==> k < n
  {
    TickCount(es, k);
    Expires(run, es, c, mac, n, k);
    if k < n {
      LastsUpTo(run, es, c, mac, n, k);
    }
  }
}
