/** What one message, timer tick, start or stop does to the lease list and the cursor of the DHCP server. */
module DhcpLeases {
  import opened Bits
  import opened Addresses
  import opened DhcpOptions
  import opened DhcpPool
  import R = DhcpReservations

  type Mac = R.Mac
  type Table = seq<R.Entry>

  const STEP := 0x100_0000

  datatype Lease = Lease(ip: Word, mac: Mac, timer: Word, hostname: seq<Byte>)

  /** `cursor` is client_address_plus, `client` the address of the message being handled. */
  datatype Server = Server(leases: seq<Lease>, cursor: Word, client: Word, declined: bool, renew: bool, pool: Pool)

  /** A message as copied into the buffer: `len` octets of options, negative when the message was truncated. */
  datatype RawMessage = Message(cookie: bool, mac: Mac, ciaddr: Word, opts: seq<Byte>, len: int)

  type Message = m: RawMessage | m.len <= |m.opts| witness Message(false, 0, 0, [], 0)

  datatype Outcome = Outcome(server: Server, reply: Reply)

  function Options(m: Message): seq<Opt> {
    Walk(OptionBytes(m.opts, m.len), 0)
  }

  // ----- the list -----

  function IndexOf(ls: seq<Lease>, mac: Mac): (i: nat)
    ensures i <= |ls| && (i < |ls| ==> ls[i].mac == mac)
    ensures forall j :: 0 <= j < i ==> ls[j].mac != mac
  {
    if ls == [] then 0 else if ls[0].mac == mac then 0 else 1 + IndexOf(ls[1..], mac)
  }

  /** The place before the first larger address. */
  function InsertPos(ls: seq<Lease>, ip: Word): (i: nat)
    ensures i <= |ls| && (i < |ls| ==> ip < ls[i].ip)
    ensures forall j :: 0 <= j < i ==> ls[j].ip <= ip
  {
    if ls == [] then 0 else if ip < ls[0].ip then 0 else 1 + InsertPos(ls[1..], ip)
  }

  function InsertAt<T>(s: seq<T>, i: nat, x: T): seq<T>
    requires i <= |s|
  {
    s[..i] + [x] + s[i..]
  }

  function RemoveAt<T>(s: seq<T>, i: nat): seq<T>
    requires i < |s|
  {
    s[..i] + s[i + 1..]
  }

  lemma InsertAtShape<T>(s: seq<T>, i: nat, x: T)
    requires i <= |s|
    ensures var r := InsertAt(s, i, x);
            && |r| == |s| + 1 && r[i] == x
            && (forall k :: 0 <= k < i ==> r[k] == s[k])
            && (forall k :: i < k < |r| ==> r[k] == s[k - 1])
  {
  }

  lemma RemoveAtShape<T>(s: seq<T>, i: nat)
    requires i < |s|
    ensures var r := RemoveAt(s, i);
            && |r| == |s| - 1
            && (forall k :: 0 <= k < i ==> r[k] == s[k])
            && (forall k :: i <= k < |r| ==> r[k] == s[k + 1])
  {
  }

  function Insert(ls: seq<Lease>, l: Lease): seq<Lease> {
    InsertAt(ls, InsertPos(ls, l.ip), l)
  }

  predicate Leased(ls: seq<Lease>, a: Word) {
    exists i :: 0 <= i < |ls| && ls[i].ip == a
  }

  predicate HasLease(ls: seq<Lease>, mac: Mac) {
    exists i :: 0 <= i < |ls| && ls[i].mac == mac
  }

  // ----- choosing an address -----

  /** The cursor after the walk over the first `i` leases: it moves on whenever it meets its own address. */
  ghost function CursorAfter(ls: seq<Lease>, i: nat, c: Word): Word
    requires i <= |ls|
  {
    if i == 0 then c
    else
      var p := CursorAfter(ls, i - 1, c);
      if ls[i - 1].ip == p then Next(p) else p
  }

  datatype Gap = Gap(addr: Word, found: bool)

  /** The search for the first unused address after the first `i` leases. */
  ghost function GapAfter(ls: seq<Lease>, i: nat, start: Word): Gap
    requires i <= |ls|
  {
    if i == 0 then Gap(start, false)
    else
      var g := GapAfter(ls, i - 1, start);
      if g.found then g
      else if g.addr < ls[i - 1].ip then Gap(g.addr, true)
      else Gap(Next(g.addr), false)
  }

  /** The address for a client without a lease, before reservations are looked at. */
  ghost function Candidate(s: Server): Word {
    var walked := CursorAfter(s.leases, |s.leases|, s.cursor);
    if walked > s.pool.endIp then GapAfter(s.leases, |s.leases|, s.pool.startIp).addr
    else if s.leases == [] && !s.declined then s.pool.startIp
    else walked
  }

  /** Steps over addresses reserved for other clients, up to the end of the pool. */
  ghost function SkipReserved(t: Table, mac: Mac, a: Word, end: Word): (r: Word)
    requires end < 0xFF00_0000
    decreases if a <= end then end + 1 - a else 0
  {
    if a <= end && R.ReservedForOther(t, a, mac) then
      NextInBlock(a);
      SkipReserved(t, mac, Next(a), end)
    else a
  }

  ghost function Choice(s: Server, t: Table, mac: Mac): Word
    requires s.pool.endIp < 0xFF00_0000
  {
    var r := R.Lookup(t, mac);
    if r != 0 then r else SkipReserved(t, mac, Candidate(s), s.pool.endIp)
  }

  // ----- one message -----

  function WithoutSlot(ls: seq<Lease>, slot: nat): seq<Lease> {
    if slot < |ls| then RemoveAt(ls, slot) else ls
  }

  /** The tail of parse_msg, once the options were walked: the address check and what the reply does to the
      lease in `slot`. A slot outside the list stands for the missing lease of a refused client. */
  function Settled(s: Server, slot: nat, reply: Reply, hostname: seq<Byte>): Outcome {
    if s.client > s.pool.endIp || s.client == 0 then
      Outcome(s.(leases := WithoutSlot(s.leases, slot)), Nak)
    else if reply == Release || reply == Nak || reply == Decline then
      Outcome(s.(leases := WithoutSlot(s.leases, slot), client := 0,
                 declined := s.declined || reply == Decline), reply)
    else
      Outcome(s.(leases := if slot < |s.leases| then s.leases[slot := s.leases[slot].(hostname := hostname)]
                           else s.leases), reply)
  }

  function Settle(s: Server, slot: nat, m: Message): Outcome {
    Settled(s, slot, ReplyFor(Options(m), s.client, s.renew), Hostname(Options(m)))
  }

  /** A client that has a lease: its timer restarts. The walk up to it has already moved the cursor. */
  ghost function Renewed(s: Server, i: nat, m: Message, time: Word): Server
    requires i < |s.leases|
  {
    s.(leases := s.leases[i := s.leases[i].(timer := time)],
       cursor := CursorAfter(s.leases, i, s.cursor),
       client := s.leases[i].ip,
       declined := false,
       renew := s.leases[i].ip == m.ciaddr)
  }

  /** A client without one: it gets the chosen address unless that lies beyond the pool. */
  ghost function Allocated(s: Server, t: Table, m: Message, time: Word): Server
    requires s.pool.endIp < 0xFF00_0000
  {
    var c := Choice(s, t, m.mac);
    if c > s.pool.endIp then
      s.(cursor := s.pool.startIp, client := c, declined := false, renew := false)
    else
      s.(leases := Insert(s.leases, Lease(c, m.mac, time, [])),
         cursor := if c == s.pool.endIp then s.pool.startIp else Next(c),
         client := c, declined := false, renew := false)
  }

  /** The first half of parse_msg: the server after the client's lease was found or made, and its slot. */
  ghost function Prepared(s: Server, t: Table, m: Message, time: Word): (Server, nat)
    requires s.pool.endIp < 0xFF00_0000
  {
    var i := IndexOf(s.leases, m.mac);
    if i < |s.leases| then (Renewed(s, i, m, time), i)
    else
      var c := Choice(s, t, m.mac);
      (Allocated(s, t, m, time), if c > s.pool.endIp then |s.leases| else InsertPos(s.leases, c))
  }

  ghost function Serve(s: Server, t: Table, m: Message, time: Word): Outcome
    requires s.pool.endIp < 0xFF00_0000
  {
    if !m.cookie then Outcome(s, NotDhcp)
    else
      var (s1, slot) := Prepared(s, t, m, time);
      Settle(s1, slot, m)
  }

  // ----- the other steps -----

  function Older(l: Lease): Lease {
    l.(timer := if l.timer == 0 then ALL_ONES else l.timer - 1)
  }

  /** The list after every timer went down by one and the expired leases were dropped. */
  function Aged(ls: seq<Lease>): seq<Lease> {
    if ls == [] then []
    else (if Older(ls[0]).timer == 0 then [] else [Older(ls[0])]) + Aged(ls[1..])
  }

  lemma SpliceOut<T>(front: seq<T>, x: T, tail: seq<T>)
    ensures RemoveAt(front + ([x] + tail), |front|) == front + tail
  {
  }

  lemma SpliceIn<T>(front: seq<T>, x: T, y: T, tail: seq<T>)
    ensures (front + ([x] + tail))[|front| := y] == front + [y] + tail
  {
  }

  /** Ageing the lease between an aged front and the rest. */
  lemma AgedStep(front: seq<Lease>, rest: seq<Lease>)
    requires rest != []
    ensures var l, k := Older(rest[0]), |front|;
            if l.timer == 0 then
              && RemoveAt(front + rest, k) == front + rest[1..]
              && front + Aged(rest) == front + Aged(rest[1..])
            else
              && (front + rest)[k := l] == front + [l] + rest[1..]
              && front + Aged(rest) == front + [l] + Aged(rest[1..])
  {
    var l, tail := Older(rest[0]), rest[1..];
    assert rest == [rest[0]] + tail;
    if l.timer == 0 {
      SpliceOut(front, rest[0], tail);
      assert Aged(rest) == Aged(tail);
    } else {
      SpliceIn(front, rest[0], l, tail);
      assert Aged(rest) == [l] + Aged(tail);
      Associative(front, [l], Aged(tail));
    }
  }

  lemma Associative<T>(a: seq<T>, b: seq<T>, c: seq<T>)
    ensures a + (b + c) == a + b + c
  {
  }

  /** The first lease with the least remaining time. */
  function Oldest(ls: seq<Lease>): (i: nat)
    requires ls != []
    ensures i < |ls|
    ensures forall j :: 0 <= j < |ls| ==> ls[i].timer <= ls[j].timer
    ensures forall j :: 0 <= j < i ==> ls[i].timer < ls[j].timer
  {
    var n := |ls| - 1;
    if n == 0 then 0
    else
      var i := Oldest(ls[..n]);
      if ls[n].timer < ls[i].timer then n else i
  }

  /** One timer tick: the leases age, and when more are left than stations are allowed, the one with the least
      time is evicted. The count is kept in one octet. */
  function Ticked(ls: seq<Lease>, maxStations: Byte): seq<Lease> {
    var left := Aged(ls);
    if |left| % 0x100 > maxStations then RemoveAt(left, Oldest(left)) else left
  }

  function Tick(s: Server, maxStations: Byte): Server {
    s.(leases := Ticked(s.leases, maxStations))
  }

  /** A start sets the pool and puts the cursor at its beginning; it does not touch the list. */
  ghost function Start(s: Server, server: Word): Server {
    var pool := PollSet(s.pool, server, MASK24);
    s.(pool := pool, cursor := pool.startIp)
  }

  function Stop(s: Server): Server {
    s.(leases := [])
  }
}
