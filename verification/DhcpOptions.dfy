/** The option field of a DHCP message and the reply code it leads to. */
module DhcpOptions {
  import opened Bits
  import opened Wrappers
  import opened Addresses

  const PAD: Byte := 0
  const HOSTNAME: Byte := 12
  const REQ_IPADDR: Byte := 50
  const MSG_TYPE: Byte := 53
  const END: Byte := 255

  const HOSTNAME_MAX := 31

  /** The codes parse_options and parse_msg return; NotDhcp is the zero for a message without the cookie. */
  datatype Reply = NotDhcp | Offer | Decline | Ack | Nak | Idle | Release

  datatype Opt = Opt(kind: Byte, data: seq<Byte>)

  /** The well-formed options from offset `i` on: padding is skipped, the walk stops at the end mark and at the
      first option that does not fit. */
  function Walk(b: seq<Byte>, i: nat): seq<Opt>
    decreases |b| - i
  {
    if i >= |b| || b[i] == END then []
    else if b[i] == PAD then Walk(b, i + 1)
    else if i + 1 >= |b| || i + 2 + b[i + 1] > |b| then []
    else [Opt(b[i], b[i + 2..i + 2 + b[i + 1]])] + Walk(b, i + 2 + b[i + 1])
  }

  /** The last option of a kind that carries at least `min` octets. */
  function LastOf(os: seq<Opt>, kind: Byte, min: nat): (r: Option<Opt>)
    ensures r.Some? ==> r.value in os && r.value.kind == kind && |r.value.data| >= min
    ensures r.None? ==> forall o :: o in os ==> !(o.kind == kind && |o.data| >= min)
  {
    if os == [] then None
    else
      var o := os[|os| - 1];
      if o.kind == kind && |o.data| >= min then Some(o) else LastOf(os[..|os| - 1], kind, min)
  }

  /** The message type, 0 when there is none. */
  function MessageType(os: seq<Opt>): Byte {
    var o := LastOf(os, MSG_TYPE, 1);
    if o.Some? then o.value.data[0] else 0
  }

  /** The address the client asks for in option 50. */
  function Requested(os: seq<Opt>): Option<Word> {
    var o := LastOf(os, REQ_IPADDR, 4);
    if o.Some? then Some(Join(o.value.data[0], o.value.data[1], o.value.data[2], o.value.data[3])) else None
  }

  predicate HostnameChar(c: Byte) {
    'a' as int <= c <= 'z' as int || 'A' as int <= c <= 'Z' as int || '0' as int <= c <= '9' as int
    || c == '-' as int || c == '.' as int || c == '_' as int
  }

  function Clean(c: Byte): Byte {
    if HostnameChar(c) then c else '_' as int
  }

  function CleanPrefix(data: seq<Byte>): (h: seq<Byte>)
    ensures |h| <= HOSTNAME_MAX && forall c :: c in h ==> HostnameChar(c)
  {
    seq(if |data| > HOSTNAME_MAX then HOSTNAME_MAX else |data|, k requires 0 <= k < |data| => Clean(data[k]))
  }

  /** The host name the client sends, cut to the buffer and restricted to the host name alphabet. */
  function Hostname(os: seq<Opt>): (h: seq<Byte>)
    ensures |h| <= HOSTNAME_MAX && forall c :: c in h ==> HostnameChar(c)
  {
    var o := LastOf(os, HOSTNAME, 1);
    if o.None? then []
    else CleanPrefix(o.value.data)
  }

  /** The reply code the option walk itself leaves, before the message type is looked at. */
  function AskedReply(asked: Option<Word>, client: Word): Reply {
    match asked
    case None => Idle
    case Some(a) => if a == client then Ack else Nak
  }

  /** The reply code for a client whose address is `client`; `renew` says its ciaddr is its lease. */
  function ReplyFor(os: seq<Opt>, client: Word, renew: bool): Reply {
    var asked := AskedReply(Requested(os), client);
    match MessageType(os)
    case 1 => Offer
    case 3 => if asked != Idle then asked else if renew then Ack else Nak
    case 4 => Decline
    case 7 => Release
    case _ => asked
  }

  /** An acknowledgement goes out only for the address the client asked for last, or, when it asked for none,
      as a renewal of the address it claims to hold. */
  lemma AckNeeds(os: seq<Opt>, client: Word, renew: bool)
    ensures ReplyFor(os, client, renew) == Ack <==>
              && MessageType(os) !in {1, 4, 7}
              && (Requested(os) == Some(client) || (Requested(os) == None && MessageType(os) == 3 && renew))
  {
  }

  function OptionBytes(opts: seq<Byte>, len: int): seq<Byte>
    requires len <= |opts|
  {
    if len <= 0 then [] else opts[..len]
  }

  /** What one more option changes. */
  lemma Snoc(seen: seq<Opt>, o: Opt)
    ensures MessageType(seen + [o]) == if o.kind == MSG_TYPE && |o.data| >= 1 then o.data[0] else MessageType(seen)
    ensures Requested(seen + [o]) == if o.kind == REQ_IPADDR && |o.data| >= 4
                                     then Some(Join(o.data[0], o.data[1], o.data[2], o.data[3])) else Requested(seen)
    ensures o.kind != HOSTNAME || |o.data| == 0 ==> Hostname(seen + [o]) == Hostname(seen)
    ensures o.kind == HOSTNAME && |o.data| > 0 ==> Hostname(seen + [o]) == CleanPrefix(o.data)
  {
    assert (seen + [o])[..|seen|] == seen;
  }

  /** Walks the option field with a moving pointer. The length may be negative for a truncated message. */
  method ParseOptions(opts: seq<Byte>, len: int, client: Word, renew: bool)
      returns (reply: Reply, hostname: seq<Byte>)
    requires len <= |opts|
    ensures var os := Walk(OptionBytes(opts, len), 0);
            reply == ReplyFor(os, client, renew) && hostname == Hostname(os)
  {
    var kind;
    ghost var os := Walk(OptionBytes(opts, len), 0);
    kind, reply, hostname := ScanOptions(OptionBytes(opts, len), client);
    match kind {
      case 1 => reply := Offer;
      case 3 =>
        if !(reply == Ack || reply == Nak) {
          reply := if renew then Ack else Nak;
        }
      case 4 => reply := Decline;
      case 7 => reply := Release;
      case _ =>
    }
  }

  ghost predicate Summary(os: seq<Opt>, client: Word, kind: Byte, reply: Reply, hostname: seq<Byte>) {
    kind == MessageType(os) && reply == AskedReply(Requested(os), client) && hostname == Hostname(os)
  }

  /** The switch on one option. */
  method TakeOption(k: Byte, data: seq<Byte>, client: Word, kind: Byte, reply: Reply, hostname: seq<Byte>,
                    ghost seen: seq<Opt>)
      returns (kind': Byte, reply': Reply, hostname': seq<Byte>)
    requires Summary(seen, client, kind, reply, hostname)
    ensures Summary(seen + [Opt(k, data)], client, kind', reply', hostname')
  {
    kind', reply', hostname' := kind, reply, hostname;
    Snoc(seen, Opt(k, data));
    match k {
      case 53 =>
        if |data| >= 1 {
          kind' := data[0];
        }
      case 12 =>
        if |data| > 0 {
          hostname' := CopyHostname(data);
        }
      case 50 =>
        if |data| >= 4 {
          reply' := if client == Join(data[0], data[1], data[2], data[3]) then Ack else Nak;
        }
      case _ =>
    }
  }

  /** The loop of ParseOptions. */
  method ScanOptions(b: seq<Byte>, client: Word) returns (kind: Byte, reply: Reply, hostname: seq<Byte>)
    ensures Summary(Walk(b, 0), client, kind, reply, hostname)
  {
    var i: nat := 0;
    kind, reply, hostname := 0, Idle, [];
    ghost var seen: seq<Opt> := [];
    while i < |b|
      invariant i <= |b|
      invariant seen + Walk(b, i) == Walk(b, 0)
      invariant Summary(seen, client, kind, reply, hostname)
      decreases |b| - i
    {
      if b[i] == PAD {
        i := i + 1;
        continue;
      }
      if b[i] == END {
        break;
      }
      if i + 1 >= |b| {
        break;
      }
      var next: nat := i + 2 + b[i + 1];
      if next > |b| {
        break;
      }
      var data := b[i + 2..next];
      kind, reply, hostname := TakeOption(b[i], data, client, kind, reply, hostname, seen);
      Snoc2(seen, Opt(b[i], data), Walk(b, next), Walk(b, i));
      seen := seen + [Opt(b[i], data)];
      i := next;
    }
    assert seen == Walk(b, 0) by {
      assert Walk(b, i) == [];
      assert seen + [] == seen;
    }
  }

  lemma Snoc2<T>(s: seq<T>, x: T, t: seq<T>, xt: seq<T>)
    requires xt == [x] + t
    ensures s + [x] + t == s + xt
  {
  }

  /** Copies a host name octet by octet, replacing everything outside the alphabet. */
  method CopyHostname(data: seq<Byte>) returns (h: seq<Byte>)
    ensures h == CleanPrefix(data)
  {
    var n := |data|;
    if n >= HOSTNAME_MAX + 1 {
      n := HOSTNAME_MAX;
    }
    h := [];
    for k := 0 to n
      invariant |h| == k && forall j :: 0 <= j < k ==> h[j] == Clean(data[j])
    {
      h := h + [Clean(data[k])];
    }
  }

  // ----- the wire form of an option list -----

  predicate Storable(o: Opt) {
    |o.data| <= 255 && o.kind != PAD && o.kind != END
  }

  function EncodeOne(o: Opt): seq<Byte>
    requires Storable(o)
  {
    [o.kind, |o.data|] + o.data
  }

  function Encode(os: seq<Opt>): seq<Byte>
    requires forall k :: 0 <= k < |os| ==> Storable(os[k])
  {
    if os == [] then [] else EncodeOne(os[0]) + Encode(os[1..])
  }

  /** The walk goes no further than `i`: nothing is left, the end mark stands there, or an option that does not fit. */
  predicate Stops(b: seq<Byte>, i: nat) {
    i >= |b| || b[i] == 255 || (b[i] != 0 && (i + 1 >= |b| || i + 2 + b[i + 1] > |b|))
  }

  /** Walking the encoding `w` of an option list, which stands at `i`, gives the list back, whatever precedes it; it ends
      with the end mark, with the message, or with an option that is cut off. */
  lemma {:induction false} WalkEncoded(b: seq<Byte>, i: nat, os: seq<Opt>, w: seq<Byte>, end: nat)
    requires (forall k :: 0 <= k < |os| ==> Storable(os[k])) && w == Encode(os)
    requires end == i + |w| <= |b| && b[i..end] == w && Stops(b, end)
    ensures Walk(b, i) == os
    decreases |os|
  {
    if os != [] {
      var e, t := EncodeOne(os[0]), Encode(os[1..]);
      var next := i + |e|;
      SplitSlice(b, i, w, e, t, next, end);
      WalkEncoded(b, next, os[1..], t, end);
      WalkOne(b, i, os[0], e, next);
      assert os == [os[0]] + os[1..];
    }
  }

  /** Padding is skipped. */
  lemma WalkPadding(b: seq<Byte>, i: nat)
    requires i < |b| && b[i] == 0
    ensures Walk(b, i) == Walk(b, i + 1)
  {
  }

  lemma WalkOne(b: seq<Byte>, i: nat, o: Opt, e: seq<Byte>, next: nat)
    requires Storable(o) && e == EncodeOne(o) && next == i + |e| <= |b| && b[i..next] == e
    ensures Walk(b, i) == [o] + Walk(b, next)
  {
    assert b[i] == b[i..next][0] && b[i + 1] == b[i..next][1];
    assert b[i + 2..next] == b[i..next][2..];
  }
}
