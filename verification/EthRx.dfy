/** The receive buffer of the Ethernet chip: frames behind each other, each after a two-byte length that counts itself,
    in a memory of 16 KB addressed by a 16-bit read pointer that wraps. */
module EthRx {
  import opened Bits
  import opened Wrappers

  const MIN_LEN := 60

  function HeaderOf(frame: seq<Byte>): (r: seq<Byte>)
    requires |frame| + 2 < 0x1_0000
    ensures |r| == 2
  {
    var n: nat := |frame| + 2;
    [n / 0x100, n % 0x100]
  }

  /** What the chip stores for a list of frames. */
  function Wire(frames: seq<seq<Byte>>): seq<Byte>
    requires forall k :: 0 <= k < |frames| ==> |frames[k]| + 2 < 0x1_0000
  {
    if frames == [] then [] else HeaderOf(frames[0]) + frames[0] + Wire(frames[1..])
  }

  function Kept(frame: seq<Byte>, mem: bool, limit: nat): seq<seq<Byte>> {
    if mem && |frame| <= limit then [frame] else []
  }

  /** The frames handed to the stack: those within the limit for which there was memory. */
  function Delivered(frames: seq<seq<Byte>>, memory: seq<bool>, limit: nat): seq<seq<Byte>>
    requires |memory| == |frames|
  {
    if frames == [] then [] else Kept(frames[0], memory[0], limit) + Delivered(frames[1..], memory[1..], limit)
  }

  /** A further frame is delivered, behind the others, exactly if there is memory for it and it is not too long. */
  lemma {:induction false} DeliveredAppend(a: seq<seq<Byte>>, f: seq<Byte>, ma: seq<bool>, m: bool, limit: nat)
    requires |ma| == |a|
    ensures Delivered(a + [f], ma + [m], limit) == Delivered(a, ma, limit) + if m && |f| <= limit then [f] else []
  {
    var b, mb := a + [f], ma + [m];
    if a == [] {
      assert b == [f] && mb == [m];
      assert Delivered(b[1..], mb[1..], limit) == [];
    } else {
      DeliveredAppend(a[1..], f, ma[1..], m, limit);
      assert b[1..] == a[1..] + [f] && mb[1..] == ma[1..] + [m];
    }
  }

  /** With memory for all of them and none too long, every frame is delivered. */
  lemma {:induction false} DeliveredAll(frames: seq<seq<Byte>>, memory: seq<bool>, limit: nat)
    requires |memory| == |frames|
    ensures Delivered(frames, memory, limit) == frames
       <==> forall k :: 0 <= k < |frames| ==> memory[k] && |frames[k]| <= limit
    ensures |Delivered(frames, memory, limit)| <= |frames|
  {
    if frames != [] {
      DeliveredAll(frames[1..], memory[1..], limit);
      var d := Delivered(frames[1..], memory[1..], limit);
      if Kept(frames[0], memory[0], limit) == [frames[0]] {
        assert ([frames[0]] + d)[1..] == d;
      }
    }
  }

  /** The place in the chip's memory `i` bytes behind the pointer `p`. */
  function Cell(p: Half, i: nat): nat {
    (p + i) % 0x4000
  }

  function Advance(p: Half, n: nat): Half {
    (p + n) % 0x1_0000
  }

  /** How far the pointer `q` is ahead of `p`. */
  function Distance(p: Half, q: Half): Half {
    (q - p) % 0x1_0000
  }

  lemma AdvanceDistance(p: Half, n: Half)
    ensures Distance(p, Advance(p, n)) == n
  {
  }

  lemma AdvanceTwice(p: Half, m: nat, n: nat)
    ensures Advance(Advance(p, m), n) == Advance(p, m + n)
  {
    var q: nat := (p + m) / 0x1_0000;
    assert p + m == 0x1_0000 * q + Advance(p, m);
  }

  lemma {:induction false} WireAppend(a: seq<seq<Byte>>, b: seq<seq<Byte>>)
    requires forall k :: 0 <= k < |a| ==> |a[k]| + 2 < 0x1_0000
    requires forall k :: 0 <= k < |b| ==> |b[k]| + 2 < 0x1_0000
    ensures Wire(a + b) == Wire(a) + Wire(b)
  {
    if a == [] {
      assert a + b == b;
    } else {
      var ab, h, x, y := a + b, HeaderOf(a[0]) + a[0], Wire(a[1..]), Wire(b);
      assert ab[0] == a[0];
      assert Wire(ab[1..]) == x + y by {
        assert ab[1..] == a[1..] + b;
        WireAppend(a[1..], b);
      }
      assert h + (x + y) == (h + x) + y;
    }
  }

  lemma AdvanceCell(p: Half, n: nat, i: nat)
    ensures Cell(Advance(p, n), i) == Cell(p, n + i)
  {
    var q: nat := (p + n) / 0x1_0000;
    assert p + n == 0x1_0000 * q + Advance(p, n);
    assert p + n + i == 0x4000 * (4 * q) + (Advance(p, n) + i);
  }

  datatype Status = Ok | NoMem | InvalidSize

  /** What the driver remembers between looking at a frame and reading it, at the start of the new buffer. */
  datatype Info = Info(offset: Half, copyLen: nat, rxLen: nat, remain: nat)

  lemma CellDistinct(p: Half, i: nat, j: nat)
    requires i < j < i + 0x4000
    ensures Cell(p, i) != Cell(p, j)
  {
  }

  lemma WireEmpty(frames: seq<seq<Byte>>)
    requires forall k :: 0 <= k < |frames| ==> |frames[k]| + 2 < 0x1_0000
    ensures |Wire(frames)| == 0 <==> frames == []
  {
  }

  /** What one more frame adds. */
  lemma OneMore(all: seq<seq<Byte>>, mem: seq<bool>, limit: nat, k: nat, p: Half)
    requires k < |all| == |mem| && forall j :: 0 <= j < |all| ==> |all[j]| + 2 < 0x1_0000
    ensures Delivered(all[..k + 1], mem[..k + 1], limit) == Delivered(all[..k], mem[..k], limit) + Kept(all[k], mem[k], limit)
    ensures Advance(Advance(p, |Wire(all[..k])|), |all[k]| + 2) == Advance(p, |Wire(all[..k + 1])|)
  {
    var done, last := all[..k], [all[k]];
    assert all[..k + 1] == done + last && mem[..k + 1] == mem[..k] + [mem[k]];
    DeliveredAppend(done, all[k], mem[..k], mem[k], limit);
    WireAppend(done, last);
    assert Wire(last[1..]) == [];
    AdvanceTwice(p, |Wire(done)|, |all[k]| + 2);
  }

  // ----- the loop -----

  /** What the receive loop decides by: the frames that wait, and whether to go on. */
  datatype Loop = Loop(frames: seq<seq<Byte>>, again: bool)

  predicate Stuck(frames: seq<seq<Byte>>) {
    frames == [] || |frames[0]| < MIN_LEN
  }

  /** One turn: a frame is taken and the rest decides, but nothing changes when there is none or it is too short. */
  function Turn(l: Loop): Loop {
    if Stuck(l.frames) then l else Loop(l.frames[1..], |l.frames| > 1)
  }

  /** After `k` turns, from a state in which the last drain had ended. */
  function After(frames: seq<seq<Byte>>, k: nat): Loop {
    if k == 0 then Loop(frames, false) else Turn(After(frames, k - 1))
  }

  lemma {:induction false} AfterPrefix(frames: seq<seq<Byte>>, k: nat)
    requires k <= |frames| && forall j :: 0 <= j < k ==> |frames[j]| >= MIN_LEN
    ensures After(frames, k) == Loop(frames[k..], 0 < k < |frames|)
  {
    if k > 0 {
      AfterPrefix(frames, k - 1);
    }
  }

  lemma {:induction false} AfterStuck(frames: seq<seq<Byte>>, j: nat, k: nat)
    requires j <= k && Stuck(After(frames, j).frames)
    ensures After(frames, k) == After(frames, j)
  {
    if j < k {
      AfterStuck(frames, j, k - 1);
    }
  }

  /** After some turn there is nothing to go on with. */
  ghost predicate Ends(frames: seq<seq<Byte>>) {
    exists k :: k >= 1 && !After(frames, k).again
  }

  /** And then the buffer is empty. */
  ghost predicate Empties(frames: seq<seq<Byte>>) {
    exists k :: k >= 1 && After(frames, k) == Loop([], false)
  }

  lemma WithoutShort(frames: seq<seq<Byte>>)
    requires forall j :: 0 <= j < |frames| ==> |frames[j]| >= MIN_LEN
    ensures Ends(frames) && Empties(frames)
  {
    var k := if frames == [] then 1 else |frames|;
    if frames == [] {
      assert After(frames, 1) == Turn(After(frames, 0)) == Loop([], false);
    } else {
      AfterPrefix(frames, |frames|);
    }
    assert k >= 1 && After(frames, k) == Loop([], false) && !After(frames, k).again;
  }

  lemma WithShort(frames: seq<seq<Byte>>, j: nat)
    requires j < |frames| && |frames[j]| < MIN_LEN && forall i :: 0 <= i < j ==> |frames[i]| >= MIN_LEN
    ensures !Empties(frames) && (Ends(frames) <==> j == 0)
  {
    AfterPrefix(frames, j);
    forall k | k >= 1
      ensures After(frames, k).frames != [] && (After(frames, k).again <==> j > 0)
    {
      if k <= j {
        AfterPrefix(frames, k);
      } else {
        AfterStuck(frames, j, k);
      }
    }
    if j == 0 {
      assert !After(frames, 1).again;
    }
  }

  /** The loop stops after the first turn that leaves nothing to go on with. It empties the buffer if and only if no frame
      is too short. With a short frame in front it stops at once and leaves it there; with one behind other frames it
      never stops. */
  lemma DrainEndsExactly(frames: seq<seq<Byte>>)
    ensures Empties(frames) <==> forall j :: 0 <= j < |frames| ==> |frames[j]| >= 60
    ensures Ends(frames) <==> FirstShort(frames) == 0 || FirstShort(frames) == |frames|
  {
    var j := FirstShort(frames);
    if j == |frames| {
      WithoutShort(frames);
    } else {
      WithShort(frames, j);
    }
  }

  function FirstShort(frames: seq<seq<Byte>>): (j: nat)
    ensures j <= |frames| && (j < |frames| ==> |frames[j]| < MIN_LEN)
    ensures forall i :: 0 <= i < j ==> |frames[i]| >= MIN_LEN
  {
    if frames == [] || |frames[0]| < MIN_LEN then 0 else 1 + FirstShort(frames[1..])
  }

  class Receiver {
    const memory: array<Byte>
    /** The chip's read pointer and received size. */
    var rd: Half
    var received: nat
    var packetsRemain: bool
    /** The frames handed to the stack. */
    var stack: seq<seq<Byte>>
    /** The frames in the chip's memory. */
    ghost var frames: seq<seq<Byte>>

    ghost predicate Stored()
      reads this, memory
    {
      && memory.Length == 0x4000
      && (forall k :: 0 <= k < |frames| ==> |frames[k]| + 2 < 0x1_0000)
      && received == |Wire(frames)| <= 0x4000
      && forall i :: 0 <= i < received ==> memory[Cell(rd, i)] == Wire(frames)[i]
    }

    ghost predicate Valid()
      reads this, memory
    {
      Stored() && !packetsRemain
    }

    constructor ()
      ensures Valid() && frames == [] && stack == []
    {
      memory := new Byte[0x4000];
      rd, received, packetsRemain, stack, frames := 0, 0, false, [], [];
    }

    /** The chip receives a frame; it is lost if it does not fit. */
    method Arrive(frame: seq<Byte>)
      requires Valid() && |frame| + 2 < 0x1_0000
      modifies this`received, this`frames, memory
      ensures Valid() && rd == old(rd)
      ensures frames == old(frames) + if |Wire(old(frames))| + |frame| + 2 <= 0x4000 then [frame] else []
    {
      var bytes := HeaderOf(frame) + frame;
      if received + |bytes| > 0x4000 {
        return;
      }
      StoreBytes(bytes, Wire(frames));
      WireAppend(frames, [frame]);
      assert Wire([frame]) == bytes by { assert Wire([frame]) == bytes + Wire([]); }
      frames := frames + [frame];
      received := received + |bytes|;
    }

    /** Puts bytes behind those that are stored. */
    method StoreBytes(bytes: seq<Byte>, ghost w: seq<Byte>)
      requires memory.Length == 0x4000 && received == |w| && received + |bytes| <= 0x4000
      requires forall j :: 0 <= j < received ==> memory[Cell(rd, j)] == w[j]
      modifies memory
      ensures forall j :: 0 <= j < received + |bytes| ==> memory[Cell(rd, j)] == (w + bytes)[j]
    {
      var i := 0;
      while i < |bytes|
        invariant 0 <= i <= |bytes|
        invariant forall j :: 0 <= j < received + i ==> memory[Cell(rd, j)] == (w + bytes)[j]
      {
        forall j | 0 <= j < received + i
          ensures Cell(rd, j) != Cell(rd, received + i)
        {
          CellDistinct(rd, j, received + i);
        }
        memory[Cell(rd, received + i)] := bytes[i];
        i := i + 1;
      }
    }

    method ReadBuffer(offset: Half, len: nat) returns (bytes: seq<Byte>)
      requires memory.Length == 0x4000
      ensures |bytes| == len && forall i :: 0 <= i < len ==> bytes[i] == memory[Cell(offset, i)]
    {
      bytes := [];
      var i := 0;
      while i < len
        invariant 0 <= i == |bytes| <= len
        invariant forall j :: 0 <= j < i ==> bytes[j] == memory[Cell(offset, j)]
      {
        bytes := bytes + [memory[Cell(offset, i)]];
        i := i + 1;
      }
    }

    /** The length word of the frame at the read pointer. */
    method ReadLength(offset: Half) returns (n: Half)
      requires Stored() && frames != [] && offset == rd
      ensures n == |frames[0]| + 2 && received == n + |Wire(frames[1..])|
    {
      var hdr := ReadBuffer(offset, 2);
      var w := Wire(frames);
      assert hdr[0] == w[0] && hdr[1] == w[1];
      n := BigEndian(hdr[0], hdr[1]);
    }

    /** Writes the read pointer and issues the command that frees the bytes before it. */
    method FreeUpTo(offset: Half)
      requires Stored() && frames != [] && offset == Advance(rd, |frames[0]| + 2)
      modifies this`rd, this`received, this`frames
      ensures Stored() && frames == old(frames)[1..] && rd == offset && received == |Wire(frames)|
    {
      ghost var n, w, rest := |frames[0]| + 2, Wire(frames), Wire(frames[1..]);
      forall i | 0 <= i < |rest|
        ensures memory[Cell(offset, i)] == rest[i]
      {
        AdvanceCell(rd, n, i);
        assert w[n + i] == rest[i];
      }
      AdvanceDistance(rd, n);
      received := received - Distance(rd, offset);
      rd := offset;
      frames := frames[1..];
    }

    /** Looks at the next frame and allocates a buffer for it if `mem` says that there is memory. */
    method AllocRecvBuf(limit: nat, mem: bool) returns (status: Status, buffer: Option<Info>, length: nat)
      requires Stored() && limit >= MIN_LEN
      ensures frames == [] ==> status == Ok && buffer == None && length == 0
      ensures frames != [] ==> length == |frames[0]|
      ensures frames != [] ==> status == if |frames[0]| < MIN_LEN then InvalidSize else if mem then Ok else NoMem
      ensures frames != [] ==> buffer == if mem && |frames[0]| >= MIN_LEN
                then Some(Info(rd, if |frames[0]| > limit then limit else |frames[0]|, |frames[0]|, received)) else None
    {
      status, buffer, length := Ok, None, 0;
      var remain := received;
      if remain > 0 {
        var offset := rd;
        var n := ReadLength(offset);
        length := n - 2;
        var copyLen := if length > limit then limit else length;
        if copyLen < MIN_LEN {
          return InvalidSize, None, length;
        }
        if mem {
          buffer := Some(Info(offset, copyLen, length, remain));
        } else {
          status := NoMem;
        }
      }
    }

    /** Reads the frame that `info` describes and frees its place in the chip's memory. */
    method Receive(info: Info) returns (data: seq<Byte>)
      requires Stored() && frames != []
      requires info.offset == rd && info.rxLen == |frames[0]| && info.remain == received && info.copyLen <= info.rxLen
      modifies this`rd, this`received, this`frames, this`packetsRemain
      ensures Stored() && frames == old(frames)[1..] && rd == Advance(old(rd), |old(frames)[0]| + 2)
      ensures data == old(frames)[0][..info.copyLen]
      ensures packetsRemain == (frames != [])
    {
      packetsRemain := false;
      var offset := Advance(info.offset, 2);
      data := ReadBuffer(offset, info.copyLen);
      ghost var w, f := Wire(frames), frames[0];
      forall i | 0 <= i < info.copyLen
        ensures data[i] == f[i]
      {
        AdvanceCell(rd, 2, i);
        assert w[2 + i] == f[i];
      }
      AdvanceTwice(rd, 2, info.rxLen);
      offset := Advance(offset, info.rxLen);
      FreeUpTo(offset);
      WireEmpty(frames);
      var remain := info.remain - (info.rxLen + 2);
      packetsRemain := remain > 0;
    }

    /** Drops the frame at the read pointer. */
    method FlushFrame()
      requires Stored()
      modifies this`rd, this`received, this`frames, this`packetsRemain
      ensures Stored() && frames == (if old(frames) == [] then [] else old(frames)[1..])
      ensures old(frames) != [] ==> rd == Advance(old(rd), |old(frames)[0]| + 2)
      ensures old(frames) == [] ==> rd == old(rd)
      ensures packetsRemain == (frames != [])
    {
      packetsRemain := false;
      var remain := received;
      WireEmpty(frames);
      if remain > 0 {
        var offset := rd;
        var n := ReadLength(offset);
        offset := Advance(offset, n);
        FreeUpTo(offset);
        WireEmpty(frames);
        remain := remain - n;
        packetsRemain := remain > 0;
      }
    }

    /** Reads the next frame into a buffer of `limit` bytes, if there is one. */
    method ReceiveInto(limit: nat) returns (data: seq<Byte>)
      requires Stored()
      modifies this`rd, this`received, this`frames, this`packetsRemain
      ensures Stored()
      ensures old(frames) == [] ==> data == [] && frames == [] && rd == old(rd) && !packetsRemain
      ensures old(frames) != [] ==>
                && frames == old(frames)[1..] && rd == Advance(old(rd), |old(frames)[0]| + 2)
                && data == old(frames)[0][..Min(limit, |old(frames)[0]|)] && packetsRemain == (frames != [])
    {
      packetsRemain := false;
      WireEmpty(frames);
      if received == 0 {
        return [];
      }
      var n := ReadLength(rd);
      var rxLen := n - 2;
      data := Receive(Info(rd, if rxLen > limit then limit else rxLen, rxLen, received));
    }

    /** One turn of the receive loop. A frame that is too short is reported and stays where it is. */
    method DrainOne(limit: nat, mem: bool)
      requires Stored() && limit >= MIN_LEN
      modifies this`rd, this`received, this`frames, this`packetsRemain, this`stack
      ensures Stored() && Loop(frames, packetsRemain) == Turn(old(Loop(frames, packetsRemain)))
      ensures if Stuck(old(frames)) then rd == old(rd) && stack == old(stack)
              else rd == Advance(old(rd), |old(frames)[0]| + 2) && stack == old(stack) + Kept(old(frames)[0], mem, limit)
    {
      var status, buffer, frameLen := AllocRecvBuf(limit, mem);
      match status {
        case Ok =>
          if buffer.Some? {
            ghost var f := frames[0];
            var data := Receive(buffer.value);
            assert |f| <= limit ==> data == f;
            if |data| != 0 && frameLen <= |data| {
              stack := stack + [data];
            }
          }
        case NoMem => FlushFrame();
        case InvalidSize =>
      }
    }

    /** Drains the receive buffer. `mem` says for each frame whether there is memory for it. */
    method Drain(limit: nat, mem: seq<bool>)
      requires Valid() && limit >= MIN_LEN && |mem| == |frames|
      requires forall k :: 0 <= k < |frames| ==> |frames[k]| >= MIN_LEN
      modifies this
      ensures Valid() && frames == []
      ensures stack == old(stack) + Delivered(old(frames), mem, limit)
      ensures rd == Advance(old(rd), |Wire(old(frames))|)
    {
      ghost var all, start := frames, stack;
      var k := 0;
      var again := true;
      while again
        invariant Stored() && 0 <= k <= |all| && frames == all[k..]
        invariant if again then k == 0 || k < |all| else k == |all|
        invariant packetsRemain == (0 < k < |all|)
        invariant stack == start + Delivered(all[..k], mem[..k], limit)
        invariant rd == Advance(old(rd), |Wire(all[..k])|)
        decreases if again then 1 + |frames| else 0
      {
        if k < |all| {
          OneMore(all, mem, limit, k, old(rd));
        }
        DrainOne(limit, k < |mem| && mem[k]);
        again := packetsRemain;
        k := if k < |mem| then k + 1 else k;
      }
      assert all[..|all|] == all && mem[..|mem|] == mem;
    }
  }
}
