/** Packets captured by the hooks, stored in the ring buffer and streamed to one TCP client at a time. */
module PcapCapture {
  import opened Bits
  import opened PcapFormat
  import opened RingBuffer

  datatype Mode = Off | AclMonitor | Promiscuous

  /** A packet buffer chain: the pieces of one packet. */
  type Chain = seq<seq<Byte>>

  method CopyHeader(buf: array<Byte>, hdr: seq<Byte>)
    requires |hdr| == 16 <= buf.Length
    modifies buf
    ensures buf[..16] == hdr
  {
    forall i | 0 <= i < 16 {
      buf[i] := hdr[i];
    }
  }

  method CopyPiece(buf: array<Byte>, at: nat, piece: seq<Byte>, n: nat)
    requires n <= |piece| && at + n <= buf.Length
    modifies buf
    ensures buf[..at] == old(buf[..at]) && buf[..at + n] == buf[..at] + piece[..n]
  {
    forall i | 0 <= i < n {
      buf[at + i] := piece[i];
    }
  }

  lemma PrefixGrows(chain: Chain, k: nat, incl: nat)
    requires k < |chain| && |Concat(chain[..k])| < incl <= |Concat(chain)|
    ensures var done, n := |Concat(chain[..k])|, |chain[k]|; var take := if done + n > incl then incl - done else n;
            && take <= n && done + take == Min(|Concat(chain[..k + 1])|, incl)
            && Concat(chain)[..done + take] == Concat(chain)[..done] + chain[k][..take]
  {
    ConcatNext(chain, k);
    ConcatParts(chain, k + 1);
  }

  /** Copies the first `inclLen` bytes of a packet behind the header, piece by piece. */
  method CopyChain(buf: array<Byte>, chain: Chain, inclLen: nat)
    requires inclLen <= |Concat(chain)| && 16 + inclLen <= buf.Length
    modifies buf
    ensures buf[..16 + inclLen] == old(buf[..16]) + Concat(chain)[..inclLen]
  {
    ghost var packet, hdr := Concat(chain), buf[..16];
    var copied, k := 0, 0;
    assert chain[..0] == [];
    while k < |chain| && copied < inclLen
      invariant k <= |chain| && copied == Min(|Concat(chain[..k])|, inclLen)
      invariant buf[..16 + copied] == hdr + packet[..copied]
    {
      PrefixGrows(chain, k, inclLen);
      var toCopy := |chain[k]|;
      if copied + toCopy > inclLen {
        toCopy := inclLen - copied;
      }
      CopyPiece(buf, 16 + copied, chain[k], toCopy);
      copied := copied + toCopy;
      k := k + 1;
    }
    assert chain[..|chain|] == chain;
  }

  /** Builds the record of one packet in a buffer. */
  method BuildRecord(chain: Chain, totLen: Half, snaplen: Half, sec: Word, usec: Word) returns (buf: array<Byte>, total: nat)
    requires totLen == |Concat(chain)| && snaplen <= 1600
    ensures fresh(buf) && total <= buf.Length && buf[..total] == Record(sec, usec, Concat(chain), snaplen)
  {
    var inclLen: Half := if totLen > snaplen then snaplen else totLen;
    buf := new Byte[1616];
    CopyHeader(buf, RecordHeader(sec, usec, inclLen, totLen));
    CopyChain(buf, chain, inclLen);
    assert Concat(chain)[..inclLen] == Captured(Concat(chain), snaplen);
    total := 16 + inclLen;
  }

  lemma StoredOne(done: seq<seq<Byte>>, records: seq<seq<Byte>>, record: seq<Byte>)
    ensures Concat([record]) == record && Concat(records + [record]) == Concat(records) + record
    ensures Concat(done + (records + [record])) == Concat(done + records) + record
  {
    ConcatFirst([record], record, []);
    ConcatAppend(records, [record]);
    ConcatAppend(done + records, [record]);
    assert done + (records + [record]) == (done + records) + [record];
  }

  lemma SentPrefix(header: seq<Byte>, c: seq<Byte>, taken: seq<Byte>, chunk: seq<Byte>, rest: seq<Byte>, m: nat)
    requires m <= |chunk|
    ensures (header + (c + taken)) + chunk[..m] <= header + (c + ((taken + chunk) + rest))
    ensures (header + (c + taken)) + chunk == header + (c + (taken + chunk))
  {
    assert (header + (c + taken)) + chunk == header + (c + (taken + chunk));
    assert header + (c + ((taken + chunk) + rest)) == (header + (c + (taken + chunk))) + rest;
    assert (header + (c + taken)) + chunk[..m] <= (header + (c + taken)) + chunk;
  }

  class Capture {
    const ring: RingBuf
    const sendBuf: array<Byte>
    /** The size of the ring buffer, 16 or 32 KB by the chip. */
    const capacity: nat
    var mode: Mode
    var connected: bool
    var snaplen: Half
    var linkType: Word
    /** The header has been sent and the server streams. */
    var streaming: bool

    /** The session's header once it is under way, and what has been sent in the session. */
    ghost var header: seq<Byte>
    ghost var sent: seq<Byte>
    /** The records sent whole before the last reset, and those stored since. */
    ghost var done: seq<seq<Byte>>
    ghost var records: seq<seq<Byte>>
    /** A reset has cut the stream inside a record. */
    ghost var torn: bool

    ghost predicate Valid()
      reads this, ring, ring.data
    {
      && ring.Valid() && ring.data != sendBuf && sendBuf.Length == 1024 && capacity > 0
      && 64 <= snaplen <= 1600
      && |header| == 24
      && AllWellFormed(done) && AllWellFormed(records)
      && (streaming ==> ring.data != null)
      && (ring.data != null ==> connected)
      && (!torn ==> sent <= header + Concat(done + records))
      && (!torn && ring.data != null ==>
            && ring.accepted == Concat(records)
            && (if streaming then sent == header + (Concat(done) + ring.taken)
                else sent == [] && done == [] && ring.taken == []))
    }

    constructor (capacity: nat, snaplen: Half)
      requires capacity > 0 && 64 <= snaplen <= 1600
      ensures Valid() && !connected && mode == Off && fresh(ring) && fresh(sendBuf)
      ensures this.capacity == capacity && this.snaplen == snaplen && linkType == 1
    {
      this.capacity := capacity;
      ring := new RingBuf();
      sendBuf := new Byte[1024];
      mode, connected, linkType, streaming := Off, false, 1, false;
      this.snaplen := snaplen;
      header, sent, done, records, torn := GlobalHeader(snaplen, 1), [], [], [], false;
    }

    /** While a session streams, what was sent and what is held make up the header and whole records. */
    lemma StreamConserved()
      requires Valid() && streaming && !torn
      ensures sent + ring.contents == header + Concat(done + records)
    {
      ConcatAppend(done, records);
    }

    /** Counting packets in whatever the client has received by now counts the records it has the header of. */
    lemma ClientCounts(received: seq<Byte>)
      requires Valid() && !torn && received <= sent
      ensures Walk(received, 24) == HeadersWithin(done + records, 0, |received|)
    {
      WalkCounts(header, done + records, header + Concat(done + records), received);
    }

    /** A client connects; the buffer is allocated unless memory is short. */
    method Accept(memory: bool)
      requires Valid() && !connected
      modifies this, ring
      ensures Valid() && connected == memory
      ensures memory ==> ring.data != null && fresh(ring.data) && ring.size == capacity && ring.contents == [] && !streaming
      ensures memory ==> sent == [] && done == [] && records == [] && !torn
      ensures mode == old(mode) && snaplen == old(snaplen)
    {
      connected, streaming := true, false;
      sent, done, records, torn := [], [], [], false;
      var ok := ring.Alloc(capacity, memory);
      if !ok {
        Disconnect();
      }
    }

    /** The socket takes `accepted` bytes of `bytes`, all of them unless the connection fails. */
    method SendToClient(bytes: seq<Byte>, accepted: nat) returns (ok: bool)
      modifies this`sent
      ensures ok == (accepted >= |bytes|)
      ensures sent == old(sent) + bytes[..Min(accepted, |bytes|)]
    {
      sent := sent + bytes[..Min(accepted, |bytes|)];
      ok := accepted >= |bytes|;
    }

    /** Sends the header; a failure ends the session. */
    method SendHeader(accepted: nat)
      requires Valid() && ring.data != null && !streaming
      modifies this, ring
      ensures Valid() && done == old(done) && records == old(records) && torn == old(torn)
      ensures connected == streaming == (accepted >= 24)
      ensures streaming ==> header == GlobalHeader(old(snaplen), old(linkType)) && ring.data == old(ring.data)
      ensures streaming && !torn ==> sent == header && ring.contents == Concat(records)
    {
      var hdr := GlobalHeader(snaplen, linkType);
      header := hdr;
      var ok := SendToClient(hdr, accepted);
      if ok {
        streaming := true;
      } else {
        Disconnect();
      }
    }

    /** One turn of the streaming loop: read, send, and look for a closed socket when there was nothing to read. */
    method Pump(alive: bool, accepted: nat)
      requires Valid() && streaming
      modifies this, ring, sendBuf
      ensures Valid() && done == old(done) && records == old(records) && header == old(header) && torn == old(torn)
      ensures streaming ==> ring.data == old(ring.data) && sent + ring.contents == old(sent) + old(ring.contents)
      ensures streaming && old(ring.dataReady) ==> |sent| - |old(sent)| == Min(1024, |old(ring.contents)|)
      ensures connected == streaming
    {
      var n := ring.Read(sendBuf);
      if n == 0 {
        if !alive {
          Disconnect();
        }
        return;
      }
      SendRead(n, accepted);
    }

    /** Sends the `n` bytes just read; a failure ends the session. */
    method SendRead(n: nat, accepted: nat)
      requires n <= 1024 && streaming && ring.Valid() && ring.data != null && ring.data != sendBuf
      requires sendBuf.Length == 1024 && capacity > 0 && 64 <= snaplen <= 1600 && connected
      requires |header| == 24 && AllWellFormed(done) && AllWellFormed(records)
      requires n <= |ring.taken| && sendBuf[..n] == ring.taken[|ring.taken| - n..]
      requires !torn ==> ring.accepted == Concat(records)
                         && sent == header + (Concat(done) + ring.taken[..|ring.taken| - n])
      modifies this`sent, this`connected, this`streaming, ring
      ensures Valid() && connected == streaming
      ensures streaming ==> ring.data == old(ring.data) && ring.contents == old(ring.contents)
      ensures streaming ==> sent == old(sent) + sendBuf[..n]
    {
      ghost var chunk, taken, rest := sendBuf[..n], ring.taken[..|ring.taken| - n], ring.contents;
      assert taken + chunk == ring.taken;
      var m := Min(accepted, n);
      SentPrefix(header, Concat(done), taken, chunk, rest, m);
      ConcatAppend(done, records);
      var ok := SendToClient(sendBuf[..n], accepted);
      if !ok {
        Disconnect();
      }
    }

    method Disconnect()
      requires ring.Valid() && ring.data != sendBuf && sendBuf.Length == 1024 && capacity > 0 && 64 <= snaplen <= 1600 && |header| == 24
      requires AllWellFormed(done) && AllWellFormed(records)
      requires !torn ==> sent <= header + Concat(done + records)
      modifies this`connected, this`streaming, ring
      ensures Valid() && !connected && !streaming && ring.data == null
    {
      connected, streaming := false, false;
      ring.Free();
    }

    /** The hook's capture of one packet. `busy` says that the server holds the buffer's mutex. */
    method CapturePacket(chain: Chain, totLen: Half, sec: Word, usec: Word, busy: bool)
      requires Valid() && totLen == |Concat(chain)|
      modifies this`records, ring, ring.data
      ensures Valid() && ring.data == old(ring.data)
      ensures var stored := old(ring.data) != null && !busy && |old(ring.contents)| + 16 + Min(totLen, snaplen) <= ring.size;
              var added := if stored then [Record(sec, usec, Concat(chain), snaplen)] else [];
              records == old(records) + added && ring.contents == old(ring.contents) + Concat(added)
    {
      if !connected {
        return;
      }
      var buf, total := BuildRecord(chain, totLen, snaplen, sec, usec);
      RecordWellFormed(sec, usec, Concat(chain), snaplen);
      StoreRecord(buf[..total], busy);
    }

    method StoreRecord(record: seq<Byte>, busy: bool)
      requires Valid() && WellFormed(record)
      modifies this`records, ring, ring.data
      ensures Valid() && ring.data == old(ring.data)
      ensures var stored := old(ring.data) != null && !busy && |old(ring.contents)| + |record| <= ring.size;
              && records == old(records) + (if stored then [record] else [])
              && ring.contents == old(ring.contents) + Concat(if stored then [record] else [])
    {
      var ok := ring.Write(record, busy);
      if ok {
        StoredOne(done, records, record);
        records := records + [record];
      }
    }

    /** Sets the capture mode, unless the server has to be started first and cannot be; switching capturing on forgets
        what the buffer holds. The stream stays a header and whole records exactly if what was sent by then ends at a
        record boundary. */
    method SetMode(m: Mode, canStart: bool)
      requires Valid()
      modifies this`mode, this`done, this`records, this`torn, ring
      ensures Valid() && ring.data == old(ring.data)
      ensures mode == if m != Off && !canStart then old(mode) else m
      ensures var resets := old(mode) == Off && mode != Off;
              && ring.contents == (if resets then [] else old(ring.contents))
              && (!resets ==> torn == old(torn) && done == old(done) && records == old(records))
              && (resets && streaming && !old(torn) ==> (torn <==> !Whole(sent[24..])))
    {
      if m != Off && !canStart {
        return;
      }
      var oldMode := mode;
      mode := m;
      if oldMode == Off && mode != Off {
        ForgetHeld();
        ring.Reset();
        assert done + [] == done;
      }
    }

    /** The bookkeeping of a reset. */
    ghost method ForgetHeld()
      requires Valid()
      modifies this`done, this`records, this`torn
      ensures AllWellFormed(done) && AllWellFormed(records)
      ensures ring.data == null ==> done == old(done) && records == old(records) && torn == old(torn)
      ensures ring.data != null ==> records == []
      ensures ring.data != null && !torn ==> sent == if streaming then header + Concat(done) else []
      ensures ring.data != null && !streaming ==> torn == old(torn) && (!torn ==> done == [])
      ensures streaming && !old(torn) ==> (torn <==> !Whole(sent[24..]))
      ensures old(torn) ==> torn
    {
      if ring.data == null {
        return;
      }
      if streaming && !torn {
        WholeTail(done, ring.taken);
        BoundaryExactly(records, ring.taken);
        assert sent[24..] == Concat(done) + ring.taken;
        if AtBoundary(records, |ring.taken|) {
          var k :| 0 <= k <= |records| && |ring.taken| == |Concat(records[..k])|;
          BoundaryPrefix(records, k);
          assert ring.taken == Concat(records[..k]);
          ConcatAppend(done, records[..k]);
          done := done + records[..k];
        } else {
          torn := true;
        }
      }
      records := [];
    }

    method SetSnaplen(n: Half) returns (ok: bool)
      requires Valid()
      modifies this`snaplen
      ensures Valid() && ok == (64 <= n <= 1600) && snaplen == if ok then n else old(snaplen)
    {
      if n < 64 || n > 1600 {
        return false;
      }
      snaplen := n;
      ok := true;
    }
  }
}
