/** The capture stream: a 24-byte header and records of a 16-byte header and the captured bytes, little-endian. */
module PcapFormat {
  import opened Bits
  import opened Addresses

  function Le16(h: Half): (r: seq<Byte>)
    ensures |r| == 2
  {
    [h % 0x100, h / 0x100]
  }

  /** The word stored at `offset`. */
  function WordAt(data: seq<Byte>, offset: nat): Word
    requires offset + 4 <= |data|
  {
    Join(data[offset], data[offset + 1], data[offset + 2], data[offset + 3])
  }

  function GlobalHeader(snaplen: Word, network: Word): (r: seq<Byte>)
    ensures |r| == 24
  {
    Le32(0xa1b2_c3d4) + Le16(2) + Le16(4) + Le32(0) + Le32(0) + Le32(snaplen) + Le32(network)
  }

  /** The fields of the header: the magic number, version 2.4, no time zone, the captured length and the link type. */
  lemma GlobalHeaderFields(snaplen: Word, network: Word)
    ensures var r := GlobalHeader(snaplen, network);
            && WordAt(r, 0) == 0xa1b2_c3d4 && r[4..8] == [2, 0, 4, 0] && WordAt(r, 8) == 0 && WordAt(r, 12) == 0
            && WordAt(r, 16) == snaplen && WordAt(r, 20) == network
  {
    Le32Join(0xa1b2_c3d4);
    Le32Join(0);
    Le32Join(snaplen);
    Le32Join(network);
  }

  function RecordHeader(sec: Word, usec: Word, inclLen: Word, origLen: Word): (r: seq<Byte>)
    ensures |r| == 16
  {
    Le32(sec) + Le32(usec) + Le32(inclLen) + Le32(origLen)
  }

  lemma RecordHeaderFields(sec: Word, usec: Word, inclLen: Word, origLen: Word)
    ensures var r := RecordHeader(sec, usec, inclLen, origLen);
            WordAt(r, 0) == sec && WordAt(r, 4) == usec && WordAt(r, 8) == inclLen && WordAt(r, 12) == origLen
  {
    Le32Join(sec);
    Le32Join(usec);
    Le32Join(inclLen);
    Le32Join(origLen);
  }

  /** All bytes of a list of pieces. */
  function Concat(pieces: seq<seq<Byte>>): seq<Byte> {
    if pieces == [] then [] else pieces[0] + Concat(pieces[1..])
  }

  lemma {:induction false} ConcatAppend(a: seq<seq<Byte>>, b: seq<seq<Byte>>)
    ensures Concat(a + b) == Concat(a) + Concat(b)
  {
    if a == [] {
      assert a + b == b;
    } else {
      var t := a[1..];
      ConcatAppend(t, b);
      ConcatFirst(a + b, a[0], t + b);
      Associative(a[0], Concat(t), Concat(b));
    }
  }

  lemma Associative(x: seq<Byte>, y: seq<Byte>, z: seq<Byte>)
    ensures x + (y + z) == (x + y) + z
  {
  }

  lemma ConcatFirst(pieces: seq<seq<Byte>>, first: seq<Byte>, rest: seq<seq<Byte>>)
    requires |pieces| == |rest| + 1 && pieces[0] == first && pieces[1..] == rest
    ensures Concat(pieces) == first + Concat(rest)
  {
  }

  lemma ConcatNext(pieces: seq<seq<Byte>>, k: nat)
    requires k < |pieces|
    ensures Concat(pieces[..k + 1]) == Concat(pieces[..k]) + pieces[k]
  {
    var done, next := pieces[..k], [pieces[k]];
    ConcatAppend(done, next);
    ConcatFirst(next, pieces[k], []);
    assert pieces[..k + 1] == done + next;
  }

  lemma ConcatParts(pieces: seq<seq<Byte>>, k: nat)
    requires k <= |pieces|
    ensures Concat(pieces) == Concat(pieces[..k]) + Concat(pieces[k..])
  {
    var done, rest := pieces[..k], pieces[k..];
    ConcatAppend(done, rest);
    assert pieces == done + rest;
  }

  /** What is captured of a packet: its first `snaplen` bytes at most. */
  function Captured(packet: seq<Byte>, snaplen: nat): seq<Byte> {
    if |packet| > snaplen then packet[..snaplen] else packet
  }

  function Record(sec: Word, usec: Word, packet: seq<Byte>, snaplen: Half): (r: seq<Byte>)
    requires |packet| < 0x1_0000
  {
    var body := Captured(packet, snaplen);
    RecordHeader(sec, usec, |body|, |packet|) + body
  }

  /** A record states the time, the captured and the original length, and holds the first bytes of the packet. */
  lemma RecordIs(sec: Word, usec: Word, packet: seq<Byte>, snaplen: Half)
    requires |packet| < 0x1_0000
    ensures var r, n := Record(sec, usec, packet, snaplen), Min(|packet|, snaplen);
            && |r| == 16 + n && WordAt(r, 0) == sec && WordAt(r, 4) == usec && WordAt(r, 8) == n && WordAt(r, 12) == |packet|
            && r[16..] == packet[..n]
  {
    var body := Captured(packet, snaplen);
    RecordHeaderFields(sec, usec, |body|, |packet|);
  }

  /** The record's own length field says how long it is. */
  predicate WellFormed(record: seq<Byte>) {
    |record| >= 16 && WordAt(record, 8) == |record| - 16
  }

  lemma RecordWellFormed(sec: Word, usec: Word, packet: seq<Byte>, snaplen: Half)
    requires |packet| < 0x1_0000
    ensures WellFormed(Record(sec, usec, packet, snaplen))
  {
    var body := Captured(packet, snaplen);
    RecordHeaderFields(sec, usec, |body|, |packet|);
  }

  predicate AllWellFormed(records: seq<seq<Byte>>) {
    forall k :: 0 <= k < |records| ==> WellFormed(records[k])
  }

  /** Counts the records of a capture file the way the bridge does: by hopping from header to header. */
  function Walk(data: seq<Byte>, offset: nat): (count: nat)
    decreases |data| - offset
  {
    if offset + 16 <= |data| then 1 + Walk(data, offset + 16 + WordAt(data, offset + 8)) else 0
  }

  method CountPackets(data: seq<Byte>) returns (count: nat)
    ensures count == Walk(data, 24)
  {
    count := 0;
    var offset := 24;
    while offset + 16 <= |data|
      invariant count + Walk(data, offset) == Walk(data, 24)
      decreases |data| - offset
    {
      var inclLen := WordAt(data, offset + 8);
      count := count + 1;
      offset := offset + 16 + inclLen;
    }
  }

  /** Where record `k` starts in the stream. */
  function Start(records: seq<seq<Byte>>, k: nat): nat
    requires k <= |records|
  {
    24 + |Concat(records[..k])|
  }

  /** How many of the records from the k-th on have their whole header in the first `n` bytes of the stream. */
  function HeadersWithin(records: seq<seq<Byte>>, k: nat, n: nat): nat
    requires k <= |records|
    decreases |records| - k
  {
    if k == |records| then 0
    else (if Start(records, k) + 16 <= n then 1 else 0) + HeadersWithin(records, k + 1, n)
  }

  lemma {:induction false} NoMoreHeaders(records: seq<seq<Byte>>, k: nat, n: nat)
    requires k <= |records| && Start(records, k) + 16 > n
    ensures HeadersWithin(records, k, n) == 0
    decreases |records| - k
  {
    if k < |records| {
      ConcatNext(records, k);
      NoMoreHeaders(records, k + 1, n);
    }
  }

  lemma RecordInStream(header: seq<Byte>, records: seq<seq<Byte>>, s: seq<Byte>, k: nat, o: nat)
    requires |header| == 24 && s == header + Concat(records)
    requires k < |records| && |records[k]| >= 16 && o == Start(records, k)
    ensures o + 16 <= |s| && WordAt(s, o + 8) == WordAt(records[k], 8) && o + |records[k]| == Start(records, k + 1)
  {
    ConcatNext(records, k);
    ConcatParts(records, k);
    ConcatFirst(records[k..], records[k], records[k + 1..]);
    var before, r, behind := header + Concat(records[..k]), records[k], Concat(records[k + 1..]);
    assert s == before + (r + behind);
    assert s[o + 8] == r[8] && s[o + 9] == r[9] && s[o + 10] == r[10] && s[o + 11] == r[11];
  }

  lemma StartBound(records: seq<seq<Byte>>)
    ensures Start(records, 0) == 24 && Start(records, |records|) == 24 + |Concat(records)|
  {
    assert records[..0] == [] && records[..|records|] == records;
  }

  lemma {:induction false} WalkFrom(header: seq<Byte>, records: seq<seq<Byte>>, s: seq<Byte>, data: seq<Byte>,
                                    k: nat, o: nat)
    requires |header| == 24 && s == header + Concat(records) && data <= s
    requires AllWellFormed(records) && k <= |records| && o == Start(records, k)
    ensures Walk(data, o) == HeadersWithin(records, k, |data|)
    decreases |records| - k
  {
    StartBound(records);
    if o + 16 > |data| {
      NoMoreHeaders(records, k, |data|);
    } else {
      RecordInStream(header, records, s, k, o);
      WalkFrom(header, records, s, data, k + 1, o + |records[k]|);
      assert WordAt(data, o + 8) == WordAt(s, o + 8);
    }
  }

  /** Over any prefix of a stream of whole records, the walk counts exactly the records whose header is complete. */
  lemma WalkCounts(header: seq<Byte>, records: seq<seq<Byte>>, s: seq<Byte>, prefix: seq<Byte>)
    requires |header| == 24 && s == header + Concat(records) && prefix <= s
    requires AllWellFormed(records)
    ensures Walk(prefix, 24) == HeadersWithin(records, 0, |prefix|)
  {
    StartBound(records);
    WalkFrom(header, records, s, prefix, 0, 24);
  }

  /** Over the whole stream it counts all of them. */
  lemma WalkCountsAll(header: seq<Byte>, records: seq<seq<Byte>>, s: seq<Byte>)
    requires |header| == 24 && s == header + Concat(records)
    requires AllWellFormed(records)
    ensures Walk(s, 24) == |records|
  {
    WalkCounts(header, records, s, s);
    AllHeaders(header, records, s, 0);
  }

  lemma {:induction false} AllHeaders(header: seq<Byte>, records: seq<seq<Byte>>, s: seq<Byte>, k: nat)
    requires |header| == 24 && s == header + Concat(records) && k <= |records|
    requires AllWellFormed(records)
    ensures HeadersWithin(records, k, |s|) == |records| - k
    decreases |records| - k
  {
    if k < |records| {
      RecordInStream(header, records, s, k, Start(records, k));
      AllHeaders(header, records, s, k + 1);
    }
  }

  // ----- record boundaries -----

  /** The bytes are whole records, one behind the other. */
  ghost predicate Whole(b: seq<Byte>) {
    exists rs: seq<seq<Byte>> :: AllWellFormed(rs) && b == Concat(rs)
  }

  /** The first `n` bytes of the records end where a record ends. */
  ghost predicate AtBoundary(records: seq<seq<Byte>>, n: nat) {
    exists k :: 0 <= k <= |records| && n == |Concat(records[..k])|
  }

  /** A record is as long as its header says, so two byte strings that begin alike begin with the same record. */
  lemma SameFirst(r: seq<Byte>, x: seq<Byte>, q: seq<Byte>, y: seq<Byte>)
    requires WellFormed(r) && WellFormed(q) && r + x <= q + y
    ensures r == q && x <= y
  {
    var a, b := r + x, q + y;
    forall i | 0 <= i < 16
      ensures r[i] == q[i]
    {
      assert a[i] == r[i] && b[i] == q[i];
    }
    assert |r| == |q|;
    assert a[..|r|] == r && b[..|r|] == q;
    assert a[|r|..] == x && b[|r|..] == y;
  }

  /** Whole records that the bytes of other whole records begin with are the first of those. */
  lemma {:induction false} WholePrefix(rs: seq<seq<Byte>>, records: seq<seq<Byte>>)
    requires AllWellFormed(rs) && AllWellFormed(records) && Concat(rs) <= Concat(records)
    ensures rs <= records
  {
    if rs != [] {
      assert |Concat(rs)| >= 16;
      assert records != [];
      SameFirst(rs[0], Concat(rs[1..]), records[0], Concat(records[1..]));
      WholePrefix(rs[1..], records[1..]);
      assert rs == [rs[0]] + rs[1..] && records == [records[0]] + records[1..];
    }
  }

  /** A part of a stream of records consists of whole records exactly if it ends at a record boundary. */
  lemma BoundaryExactly(records: seq<seq<Byte>>, b: seq<Byte>)
    requires AllWellFormed(records) && b <= Concat(records)
    ensures Whole(b) <==> AtBoundary(records, |b|)
  {
    if Whole(b) {
      var rs: seq<seq<Byte>> :| AllWellFormed(rs) && b == Concat(rs);
      WholePrefix(rs, records);
      assert records[..|rs|] == rs;
    }
    if AtBoundary(records, |b|) {
      var k :| 0 <= k <= |records| && |b| == |Concat(records[..k])|;
      BoundaryPrefix(records, k);
      assert b == Concat(records[..k]);
    }
  }

  lemma BoundaryPrefix(records: seq<seq<Byte>>, k: nat)
    requires k <= |records|
    ensures Concat(records[..k]) <= Concat(records)
  {
    ConcatParts(records, k);
  }

  lemma WholeBehind(done: seq<seq<Byte>>, b: seq<Byte>)
    requires AllWellFormed(done) && Whole(b)
    ensures Whole(Concat(done) + b)
  {
    var rs: seq<seq<Byte>> :| AllWellFormed(rs) && b == Concat(rs);
    ConcatAppend(done, rs);
    assert AllWellFormed(done + rs);
  }

  lemma WholeRest(done: seq<seq<Byte>>, b: seq<Byte>, all: seq<Byte>)
    requires AllWellFormed(done) && all == Concat(done) + b && Whole(all)
    ensures Whole(b)
  {
    var rs: seq<seq<Byte>> :| AllWellFormed(rs) && all == Concat(rs);
    assert Concat(done) <= all;
    WholePrefix(done, rs);
    ConcatParts(rs, |done|);
    var tail := rs[|done|..];
    assert rs[..|done|] == done && AllWellFormed(tail);
    assert b == all[|Concat(done)|..] == Concat(tail);
  }

  /** Behind whole records the rest decides. */
  lemma WholeTail(done: seq<seq<Byte>>, b: seq<Byte>)
    requires AllWellFormed(done)
    ensures Whole(Concat(done) + b) <==> Whole(b)
  {
    if Whole(b) {
      WholeBehind(done, b);
    }
    if Whole(Concat(done) + b) {
      WholeRest(done, b, Concat(done) + b);
    }
  }
}
