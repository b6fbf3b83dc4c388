/** From the octets of a message to the reply, whatever the state of the list. */
module DhcpMessages {
  import opened Bits
  import opened Wrappers
  import opened Addresses
  import opened DhcpOptions
  import opened DhcpPool
  import opened DhcpLeases
  import opened DhcpInvariants
  import opened DhcpReplies
  import opened DhcpReserved
  import R = DhcpReservations

  // ----- options -----

  /** No option of the kind carries at least `min` octets. */
  predicate Absent(os: seq<Opt>, kind: Byte, min: nat) {
    forall k :: 0 <= k < |os| ==> !(os[k].kind == kind && |os[k].data| >= min)
  }

  /** The last option of a kind that is long enough counts. */
  lemma {:induction false} LastIs(os: seq<Opt>, k: nat, kind: Byte, min: nat)
    requires k < |os| && os[k].kind == kind && |os[k].data| >= min && Absent(os[k + 1..], kind, min)
    ensures LastOf(os, kind, min) == Some(os[k])
  {
    var n := |os| - 1;
    if k < n {
      assert os[n] == os[k + 1..][n - k - 1];
      assert Absent(os[..n][k + 1..], kind, min) by { assert os[..n][k + 1..] == os[k + 1..][..n - k - 1]; }
      LastIs(os[..n], k, kind, min);
    }
  }

  /** The message type is the first octet of the last option 53 that has one, and 0 without any. */
  lemma MessageTypeIs(os: seq<Opt>)
    ensures Absent(os, 53, 1) ==> MessageType(os) == 0
    ensures forall k :: 0 <= k < |os| && os[k].kind == 53 && |os[k].data| >= 1 && Absent(os[k + 1..], 53, 1) ==>
              MessageType(os) == os[k].data[0]
  {
    forall k | 0 <= k < |os| && os[k].kind == 53 && |os[k].data| >= 1 && Absent(os[k + 1..], 53, 1)
      ensures MessageType(os) == os[k].data[0]
    {
      LastIs(os, k, 53, 1);
    }
  }

  /** The requested address is in the first four octets of the last option 50 that has as many. */
  lemma RequestedIs(os: seq<Opt>)
    ensures Absent(os, 50, 4) ==> Requested(os) == None
    ensures forall k :: 0 <= k < |os| && os[k].kind == 50 && |os[k].data| >= 4 && Absent(os[k + 1..], 50, 4) ==>
              Requested(os) == Some(Join(os[k].data[0], os[k].data[1], os[k].data[2], os[k].data[3]))
  {
    forall k | 0 <= k < |os| && os[k].kind == 50 && |os[k].data| >= 4 && Absent(os[k + 1..], 50, 4)
      ensures Requested(os) == Some(Join(os[k].data[0], os[k].data[1], os[k].data[2], os[k].data[3]))
    {
      LastIs(os, k, 50, 4);
    }
  }

  /** Letters, digits, hyphen, dot and underscore. */
  predicate Kept(c: Byte) {
    97 <= c <= 122 || 65 <= c <= 90 || 48 <= c <= 57 || c == 45 || c == 46 || c == 95
  }

  /** The host name is the last option 12 that is not empty, cut at 31 octets, with an underscore for every octet that is
      not allowed. */
  lemma HostnameIs(os: seq<Opt>)
    ensures Absent(os, 12, 1) ==> Hostname(os) == []
    ensures forall k :: 0 <= k < |os| && os[k].kind == 12 && |os[k].data| >= 1 && Absent(os[k + 1..], 12, 1) ==>
              && |Hostname(os)| == Min(31, |os[k].data|)
              && forall i :: 0 <= i < |Hostname(os)| ==> Hostname(os)[i] == if Kept(os[k].data[i]) then os[k].data[i] else 95
  {
    forall k | 0 <= k < |os| && os[k].kind == 12 && |os[k].data| >= 1 && Absent(os[k + 1..], 12, 1)
      ensures |Hostname(os)| == Min(31, |os[k].data|)
      ensures forall i :: 0 <= i < |Hostname(os)| ==> Hostname(os)[i] == if Kept(os[k].data[i]) then os[k].data[i] else 95
    {
      LastIs(os, k, 12, 1);
    }
  }

  /** The options of a message are the list it was encoded from, up to the end mark, the end of the message or an option
      that is cut off by it; a truncated message has none. */
  lemma OptionsEncoded(m: Message, os: seq<Opt>, w: seq<Byte>)
    requires (forall k :: 0 <= k < |os| ==> Storable(os[k])) && w == Encode(os)
    ensures m.len <= 0 ==> Options(m) == []
    ensures |w| <= m.len && m.opts[..|w|] == w && Stops(m.opts[..m.len], |w|) ==> Options(m) == os
  {
    if |w| <= m.len && m.opts[..|w|] == w && Stops(m.opts[..m.len], |w|) {
      var b := OptionBytes(m.opts, m.len);
      assert b == m.opts[..m.len];
      assert b[0..|w|] == w;
      WalkEncoded(b, 0, os, w, |w|);
    }
  }

  // ----- replies -----

  /** The address that is looked at for a client: that of its lease, or the one chosen for it. */
  ghost predicate AddressFor(s: Server, t: Table, mac: Mac, a: Word)
    requires s.pool.endIp < 0xFF00_0000
  {
    if HasLease(s.leases, mac) then exists i :: 0 <= i < |s.leases| && s.leases[i].mac == mac && s.leases[i].ip == a
    else a == Choice(s, t, mac)
  }

  /** What the type and the requested address of a message make of the address looked at. */
  function TableEntry(kind: Byte, asked: Option<Word>, a: Word, renew: bool): Reply {
    match kind
    case 1 => Offer
    case 4 => Decline
    case 7 => Release
    case 3 => if asked == Some(a) || (asked == None && renew) then Ack else Nak
    case _ => if asked == None then Idle else if asked == Some(a) then Ack else Nak
  }

  lemma SettledEntry(s: Server, slot: nat, m: Message)
    ensures Settle(s, slot, m).reply ==
              if s.client == 0 || s.client > s.pool.endIp then Nak
              else TableEntry(MessageType(Options(m)), Requested(Options(m)), s.client, s.renew)
  {
  }

  lemma KnownReply(s: Server, t: Table, m: Message, time: Word, i: nat)
    requires Consistent(s) && m.cookie && i < |s.leases| && s.leases[i].mac == m.mac
    ensures var a := s.leases[i].ip;
            && 0 < a <= s.pool.endIp
            && Serve(s, t, m, time).reply ==
                 TableEntry(MessageType(Options(m)), Requested(Options(m)), a, m.ciaddr == a)
  {
    assert IndexOf(s.leases, m.mac) == i;
    SettledEntry(Renewed(s, i, m, time), i, m);
  }

  lemma NewReply(s: Server, t: Table, m: Message, time: Word, a: Word)
    requires Consistent(s) && m.cookie && !HasLease(s.leases, m.mac) && a == Choice(s, t, m.mac)
    ensures Serve(s, t, m, time).reply == if a == 0 || a > s.pool.endIp then Nak
                                          else TableEntry(MessageType(Options(m)), Requested(Options(m)), a, false)
  {
    var (s1, slot) := Prepared(s, t, m, time);
    NoIndexNoLease(s.leases, m.mac);
    assert s1.client == a && !s1.renew && s1.pool == s.pool;
    SettledEntry(s1, slot, m);
  }

  /** The whole table of replies. A message without the cookie is ignored; a client without a usable address is refused;
      otherwise the type decides, and for a request, or a message of another type, the requested address. */
  lemma ReplyTable(s: Server, t: Table, m: Message, time: Word, a: Word)
    requires Consistent(s) && AddressFor(s, t, m.mac, a)
    ensures !m.cookie ==> Serve(s, t, m, time) == Outcome(s, NotDhcp)
    ensures m.cookie && (a == 0 || a > s.pool.endIp) ==> Serve(s, t, m, time).reply == Nak
    ensures m.cookie && 0 < a <= s.pool.endIp ==>
              Serve(s, t, m, time).reply == TableEntry(MessageType(Options(m)), Requested(Options(m)), a,
                                                       HasLease(s.leases, m.mac) && m.ciaddr == a)
  {
    if m.cookie {
      if HasLease(s.leases, m.mac) {
        var i :| 0 <= i < |s.leases| && s.leases[i].mac == m.mac && s.leases[i].ip == a;
        KnownReply(s, t, m, time, i);
      } else {
        NewReply(s, t, m, time, a);
      }
    }
  }

  /** The server remembers a decline, and only that, for the next message. */
  lemma DeclineRemembered(s: Server, t: Table, m: Message, time: Word)
    requires s.pool.endIp < 0xFF00_0000 && m.cookie
    ensures Serve(s, t, m, time).server.declined <==> Serve(s, t, m, time).reply == Decline
  {
  }
}
