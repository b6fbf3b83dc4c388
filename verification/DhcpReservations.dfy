/** The table of fixed address assignments. Its slots are reused, so a client is looked up by scanning. */
module DhcpReservations {
  import opened Bits
  import opened Wrappers

  /** The six octets of a hardware address as one number; only ever compared for equality. */
  type Mac = x: int | 0 <= x < 0x1_0000_0000_0000

  const NAME_LEN := 32

  /** An address of zero marks a blocked client. Names are C strings without their terminator. */
  datatype Entry = Entry(mac: Mac, ip: Word, name: seq<Byte>, valid: bool)

  datatype Assignment = Assignment(ip: Word, name: seq<Byte>)

  predicate Holds(e: Entry, mac: Mac) {
    e.valid && e.mac == mac
  }

  /** The slot of a client, or the length of the table. */
  function Find(t: seq<Entry>, mac: Mac): (i: nat)
    ensures i <= |t| && (i < |t| ==> Holds(t[i], mac))
    ensures forall j :: 0 <= j < i ==> !Holds(t[j], mac)
  {
    if t == [] then 0 else if Holds(t[0], mac) then 0 else 1 + Find(t[1..], mac)
  }

  function FirstFree(t: seq<Entry>): (i: nat)
    ensures i <= |t| && (i < |t| ==> !t[i].valid)
    ensures forall j :: 0 <= j < i ==> t[j].valid
  {
    if t == [] then 0 else if !t[0].valid then 0 else 1 + FirstFree(t[1..])
  }

  /** The table as a partial map from clients to assignments. */
  function Get(t: seq<Entry>, mac: Mac): Option<Assignment> {
    var i := Find(t, mac);
    if i < |t| then Some(Assignment(t[i].ip, t[i].name)) else None
  }

  /** The domain of that map. */
  ghost function Clients(t: seq<Entry>): set<Mac> {
    set e | e in t && e.valid :: e.mac
  }

  /** The reserved address of a client, 0 when there is none. */
  function Lookup(t: seq<Entry>, mac: Mac): Word {
    match Get(t, mac)
    case None => 0
    case Some(a) => a.ip
  }

  predicate ReservedForOther(t: seq<Entry>, ip: Word, mac: Mac) {
    ip != 0 && exists i :: 0 <= i < |t| && t[i].valid && t[i].ip == ip && t[i].mac != mac
  }

  ghost predicate OneEntryPerMac(t: seq<Entry>) {
    forall i, j :: 0 <= i < j < |t| && t[i].valid && t[j].valid ==> t[i].mac != t[j].mac
  }

  lemma FindUnique(t: seq<Entry>, mac: Mac, i: nat)
    requires OneEntryPerMac(t) && i < |t| && Holds(t[i], mac)
    ensures Find(t, mac) == i
  {
  }

  lemma ClientsAreDomain(t: seq<Entry>, mac: Mac)
    ensures mac in Clients(t) <==> Get(t, mac).Some?
  {
    if mac in Clients(t) {
      var e :| e in t && e.valid && e.mac == mac;
      var i :| 0 <= i < |t| && t[i] == e;
      assert Holds(t[i], mac);
    }
    if Find(t, mac) < |t| {
      assert t[Find(t, mac)] in t;
    }
  }

  /** An address counts as reserved for another client when the map gives it to one. */
  lemma ReservedMeansMapped(t: seq<Entry>, ip: Word, mac: Mac)
    requires OneEntryPerMac(t)
    ensures ReservedForOther(t, ip, mac) <==>
            ip != 0 && exists m: Mac :: m != mac && Get(t, m).Some? && Get(t, m).value.ip == ip
  {
    if ReservedForOther(t, ip, mac) {
      var i :| 0 <= i < |t| && t[i].valid && t[i].ip == ip && t[i].mac != mac;
      FindUnique(t, t[i].mac, i);
      assert Get(t, t[i].mac) == Some(Assignment(ip, t[i].name));
    }
    if m: Mac :| ip != 0 && m != mac && Get(t, m).Some? && Get(t, m).value.ip == ip {
      assert t[Find(t, m)].valid && t[Find(t, m)].mac == m;
    }
  }

  function CutName(name: seq<Byte>): seq<Byte> {
    if |name| < NAME_LEN then name else name[..NAME_LEN - 1]
  }

  /** A name is kept up to its 31st octet. */
  lemma CutNameIs(name: seq<Byte>)
    ensures CutName(name) <= name && |CutName(name)| == Min(31, |name|)
  {
  }

  /** The slot an addition goes to. */
  function Slot(t: seq<Entry>, mac: Mac): nat {
    if Find(t, mac) < |t| then Find(t, mac) else FirstFree(t)
  }

  function Added(t: seq<Entry>, mac: Mac, ip: Word, name: seq<Byte>): seq<Entry> {
    if Slot(t, mac) < |t| then t[Slot(t, mac) := Entry(mac, ip, CutName(name), true)] else t
  }

  function Deleted(t: seq<Entry>, mac: Mac): seq<Entry> {
    var i := Find(t, mac);
    if i < |t| then t[i := t[i].(valid := false)] else t
  }

  /** Rewriting a slot that is free or belongs to `mac` does not change what other clients see. */
  lemma OtherClient(t: seq<Entry>, i: nat, e: Entry, mac: Mac, m: Mac)
    requires i < |t| && (t[i].valid ==> t[i].mac == mac) && e.mac == mac && m != mac
    requires OneEntryPerMac(t) && OneEntryPerMac(t[i := e])
    ensures Get(t[i := e], m) == Get(t, m)
  {
    var t' := t[i := e];
    var j, j' := Find(t, m), Find(t', m);
    if j < |t| {
      FindUnique(t', m, j);
    } else {
      assert j' == |t'|;
    }
  }

  lemma OneEntryKept(t: seq<Entry>, mac: Mac, ip: Word, name: seq<Byte>)
    requires OneEntryPerMac(t)
    ensures OneEntryPerMac(Added(t, mac, ip, name)) && OneEntryPerMac(Deleted(t, mac))
  {
    var i := Find(t, mac);
    if i < |t| {
      assert forall j :: 0 <= j < |t| && j != i && t[j].valid ==> t[j].mac != mac;
    } else {
      assert forall j :: 0 <= j < |t| && t[j].valid ==> t[j].mac != mac by {
        assert forall j :: 0 <= j < |t| ==> !Holds(t[j], mac);
      }
    }
  }

  /** Adding is a map update. It fails exactly when the client is new and the table holds as many clients as
      it has slots, and then changes nothing. */
  lemma AddRefinesMap(t: seq<Entry>, mac: Mac, ip: Word, name: seq<Byte>, m: Mac)
    requires OneEntryPerMac(t)
    ensures OneEntryPerMac(Added(t, mac, ip, name))
    ensures Slot(t, mac) < |t| <==> mac in Clients(t) || |Clients(t)| < |t|
    ensures Get(Added(t, mac, ip, name), m) ==
            if m == mac && Slot(t, mac) < |t| then Some(Assignment(ip, CutName(name))) else Get(t, m)
  {
    ClientsAreDomain(t, mac);
    CountClients(t);
    OneEntryKept(t, mac, ip, name);
    var i, e := Slot(t, mac), Entry(mac, ip, CutName(name), true);
    if i < |t| {
      if m == mac {
        FindUnique(t[i := e], mac, i);
      } else {
        OtherClient(t, i, e, mac, m);
      }
    }
  }

  /** Deleting removes the client from the map and nothing else. */
  lemma DeleteRefinesMap(t: seq<Entry>, mac: Mac, m: Mac)
    requires OneEntryPerMac(t)
    ensures OneEntryPerMac(Deleted(t, mac))
    ensures Get(Deleted(t, mac), m) == if m == mac then None else Get(t, m)
  {
    OneEntryKept(t, mac, 0, []);
    var i := Find(t, mac);
    if i < |t| {
      if m != mac {
        OtherClient(t, i, t[i].(valid := false), mac, m);
      } else if Find(Deleted(t, mac), mac) < |t| {
        FindUnique(t, mac, Find(Deleted(t, mac), mac));
      }
    }
  }

  lemma {:induction false} CountClients(t: seq<Entry>)
    requires OneEntryPerMac(t)
    ensures |Clients(t)| <= |t|
    ensures |Clients(t)| == |t| <==> FirstFree(t) == |t|
  {
    CountValid(t);
    if FirstFree(t) == |t| {
      assert AllValid(t);
    } else {
      assert !t[FirstFree(t)].valid;
    }
  }

  lemma ClientsOfLast(t: seq<Entry>, init: seq<Entry>, e: Entry)
    requires t == init + [e] && OneEntryPerMac(t)
    ensures OneEntryPerMac(init) && (e.valid ==> e.mac !in Clients(init))
    ensures Clients(t) == Clients(init) + if e.valid then {e.mac} else {}
  {
    var n := |init|;
    assert t[n] == e && forall i :: 0 <= i < n ==> t[i] == init[i];
    forall mac: Mac
      ensures mac in Clients(t) <==> mac in Clients(init) || (e.valid && mac == e.mac)
    {
      if mac in Clients(t) {
        var i :| 0 <= i < |t| && t[i].valid && t[i].mac == mac;
        assert i < n ==> init[i].mac == mac;
      }
    }
  }

  predicate AllValid(t: seq<Entry>) {
    forall i :: 0 <= i < |t| ==> t[i].valid
  }

  lemma AllValidLast(t: seq<Entry>, init: seq<Entry>, e: Entry)
    requires t == init + [e]
    ensures AllValid(t) <==> AllValid(init) && e.valid
  {
    assert t[|init|] == e && forall i :: 0 <= i < |init| ==> t[i] == init[i];
  }

  lemma {:induction false} CountValid(t: seq<Entry>)
    requires OneEntryPerMac(t)
    ensures |Clients(t)| <= |t|
    ensures |Clients(t)| == |t| <==> AllValid(t)
  {
    if t != [] {
      var init, e := t[..|t| - 1], t[|t| - 1];
      ClientsOfLast(t, init, e);
      CountValid(init);
      AllValidLast(t, init, e);
      assert |Clients(t)| == |Clients(init)| + if e.valid then 1 else 0;
    }
  }

  /** The global array of reservations. */
  class ReservationTable {
    const slots: array<Entry>

    ghost predicate Valid()
      reads this, slots
    {
      OneEntryPerMac(slots[..])
    }

    constructor (capacity: nat)
      ensures Valid() && slots.Length == capacity && fresh(slots)
      ensures forall m: Mac :: Get(slots[..], m) == None
    {
      slots := new Entry[capacity](_ => Entry(0, 0, [], false));
    }

    /** Updates the entry of the client, or fills the first free slot; fails when there is none. Then the table is
        saved: if that fails the caller is told so, but the entry stays. */
    method AddReservation(mac: Mac, ip: Word, name: seq<Byte>, saved: bool) returns (ok: bool)
      requires Valid()
      modifies slots
      ensures Valid()
      ensures var room := old(Get(slots[..], mac)).Some? || |old(Clients(slots[..]))| < slots.Length;
              && ok == (room && saved)
              && forall m: Mac :: Get(slots[..], m) ==
                   if m == mac && room then Some(Assignment(ip, CutName(name))) else old(Get(slots[..], m))
    {
      ghost var t := slots[..];
      forall m: Mac {
        AddRefinesMap(t, mac, ip, name, m);
      }
      ClientsAreDomain(t, mac);
      var room := Fill(mac, ip, name);
      ok := room && saved;
    }

    method Fill(mac: Mac, ip: Word, name: seq<Byte>) returns (ok: bool)
      modifies slots
      ensures slots[..] == Added(old(slots[..]), mac, ip, name) && ok == (Slot(old(slots[..]), mac) < slots.Length)
    {
      var i := FindSlot(mac);
      if i < slots.Length {
        slots[i] := slots[i].(ip := ip, name := CutName(name));
        return true;
      }
      i := FreeSlot();
      if i < slots.Length {
        slots[i] := Entry(mac, ip, CutName(name), true);
        return true;
      }
      return false;
    }

    /** Frees the slot of the client and saves the table, if there is one. */
    method DelReservation(mac: Mac, saved: bool) returns (ok: bool)
      requires Valid()
      modifies slots
      ensures Valid() && ok == (old(Get(slots[..], mac)).None? || saved)
      ensures forall m: Mac :: Get(slots[..], m) == if m == mac then None else old(Get(slots[..], m))
    {
      ghost var t := slots[..];
      forall m: Mac {
        DeleteRefinesMap(t, mac, m);
      }
      var i := FindSlot(mac);
      ok := true;
      if i < slots.Length {
        slots[i] := slots[i].(valid := false);
        ok := saved;
      }
      assert slots[..] == Deleted(t, mac);
    }

    method ClearAll(saved: bool) returns (ok: bool)
      modifies slots
      ensures Valid() && ok == saved && forall m: Mac :: Get(slots[..], m) == None
    {
      for i := 0 to slots.Length
        invariant forall j :: 0 <= j < i ==> !slots[j].valid
      {
        slots[i] := slots[i].(valid := false);
      }
      ok := saved;
    }

    /** The scan for a client that all lookups share. */
    method FindSlot(mac: Mac) returns (i: nat)
      ensures i == Find(slots[..], mac)
    {
      i := 0;
      while i < slots.Length && !(slots[i].valid && slots[i].mac == mac)
        invariant i <= slots.Length
        invariant forall j :: 0 <= j < i ==> !Holds(slots[..][j], mac)
      {
        i := i + 1;
      }
    }

    method FreeSlot() returns (i: nat)
      ensures i == FirstFree(slots[..])
    {
      i := 0;
      while i < slots.Length && slots[i].valid
        invariant i <= slots.Length
        invariant forall j :: 0 <= j < i ==> slots[..][j].valid
      {
        i := i + 1;
      }
    }

    method LookupReservation(mac: Mac) returns (ip: Word)
      ensures ip == Lookup(slots[..], mac)
    {
      var i := FindSlot(mac);
      ip := if i < slots.Length then slots[i].ip else 0;
    }

    method IsIpReservedForOther(ip: Word, mac: Mac) returns (r: bool)
      ensures r == ReservedForOther(slots[..], ip, mac)
    {
      if ip == 0 {
        return false;
      }
      for i := 0 to slots.Length
        invariant forall j :: 0 <= j < i ==> !(slots[j].valid && slots[j].ip == ip && slots[j].mac != mac)
      {
        if slots[i].valid && slots[i].ip == ip && slots[i].mac != mac {
          assert slots[..][i] == slots[i];
          return true;
        }
      }
      return false;
    }
  }
}
