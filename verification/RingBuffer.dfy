/** The circular byte buffer between the packet hook and the capture server. */
module RingBuffer {
  import opened Bits
  import opened Addresses

  /** The place `i` bytes behind `tail` in a circle of `size` bytes. */
  function Wrap(tail: nat, i: nat, size: nat): nat {
    if tail + i < size then tail + i else tail + i - size
  }

  /** The place `p` lies in the arc of `n` bytes that starts at `start`. */
  predicate InArc(p: nat, start: nat, n: nat, size: nat) {
    start <= p < start + n || start <= p + size < start + n
  }

  lemma ModOnce(x: nat, size: nat)
    requires 0 < size && x <= size
    ensures x % size == if x == size then 0 else x
  {
  }

  lemma MulMono(p: int, q: int, size: nat)
    requires p <= q
    ensures p * size <= q * size
  {
    assert q * size - p * size == (q - p) * size;
  }

  lemma QuotientIsOne(q: int, size: nat, r: nat)
    requires r < size && size <= q * size + r < size + size
    ensures q == 1
  {
    if q < 1 {
      MulMono(q, 0, size);
    } else if q > 1 {
      MulMono(2, q, size);
    }
  }

  lemma ModWrap(t: nat, n: nat, size: nat)
    requires t < size && n <= size
    ensures (t + n) % size == Wrap(t, n, size)
  {
    if t + n >= size {
      var q, r := (t + n) / size, (t + n) % size;
      QuotientIsOne(q, size, r);
    }
  }

  class RingBuf {
    var data: array?<Byte>
    var size: nat
    var head: nat
    var tail: nat
    var available: nat
    var dropped: Word
    var dataReady: bool

    /** The bytes held, oldest first. */
    ghost var contents: seq<Byte>
    /** All bytes accepted, and all bytes taken out, since the buffer was last allocated or reset. */
    ghost var accepted: seq<Byte>
    ghost var taken: seq<Byte>

    ghost predicate Valid()
      reads this, data
    {
      && accepted == taken + contents
      && available == |contents|
      && if data == null then size == head == tail == available == 0
         else
           && data.Length == size > 0
           && head < size && tail < size && available <= size
           && head == Wrap(tail, available, size)
           && forall i :: 0 <= i < available ==> data[Wrap(tail, i, size)] == contents[i]
    }

    constructor ()
      ensures Valid() && data == null && !dataReady
    {
      data, size, head, tail, available, dropped, dataReady := null, 0, 0, 0, 0, 0, false;
      contents, accepted, taken := [], [], [];
    }

    /** Allocates the buffer unless there is one or memory is short, and then drains a stale signal. */
    method Alloc(n: nat, memory: bool) returns (ok: bool)
      requires Valid() && n > 0
      modifies this
      ensures Valid() && ok == (data != null) == (old(data) != null || memory)
      ensures old(data) != null || !memory ==> data == old(data) && contents == old(contents) && dataReady == old(dataReady)
      ensures old(data) == null && memory ==>
                fresh(data) && size == n && contents == [] && accepted == [] && dropped == 0 && !dataReady
    {
      if data != null {
        return true;
      }
      if !memory {
        return false;
      }
      data := new Byte[n];
      size, head, tail, available, dropped := n, 0, 0, 0, 0;
      contents, accepted, taken := [], [], [];
      dataReady := false;
      ok := true;
    }

    method Free()
      requires Valid()
      modifies this
      ensures Valid() && data == null && contents == []
      ensures dataReady == old(dataReady)
    {
      if data != null {
        data := null;
        size, head, tail, available, dropped := 0, 0, 0, 0, 0;
        contents, accepted, taken := [], [], [];
      }
    }

    /** Forgets what is held; the signal stays as it is. */
    method Reset()
      requires Valid()
      modifies this
      ensures Valid() && data == old(data) && size == old(size) && contents == [] && accepted == []
      ensures dataReady == old(dataReady)
    {
      head, tail, available, dropped := 0, 0, 0, 0;
      contents, accepted, taken := [], [], [];
    }

    method CountDrop()
      modifies this`dropped
      ensures dropped == Plus1(old(dropped))
    {
      dropped := Plus1(dropped);
    }

    /** Copies `src` behind the head, in one piece or around the end, and moves the head. */
    method CopyIn(src: seq<Byte>)
      requires data != null && data.Length == size && head < size && |src| <= size
      modifies this`head, data
      ensures head < size && head == Wrap(old(head), |src|, size)
      ensures forall i :: 0 <= i < |src| ==> data[Wrap(old(head), i, size)] == src[i]
      ensures forall p :: 0 <= p < size && !InArc(p, old(head), |src|, size) ==> data[p] == old(data[p])
    {
      var len := |src|;
      var firstChunk := size - head;
      if firstChunk >= len {
        forall i | 0 <= i < len {
          data[head + i] := src[i];
        }
        ModOnce(head + len, size);
        head := (head + len) % size;
      } else {
        forall i | 0 <= i < firstChunk {
          data[head + i] := src[i];
        }
        forall i | 0 <= i < len - firstChunk {
          data[i] := src[firstChunk + i];
        }
        head := len - firstChunk;
      }
    }

    /** Stores `src` behind what is held. */
    method Append(src: seq<Byte>)
      requires Valid() && data != null && |src| <= size - available
      modifies this`head, this`available, this`contents, this`accepted, data
      ensures Valid() && contents == old(contents) + src && accepted == old(accepted) + src
    {
      CopyIn(src);
      available := available + |src|;
      contents, accepted := contents + src, accepted + src;
      assert accepted == taken + contents;
      assert forall i :: 0 <= i < |src| ==> Wrap(tail, |old(contents)| + i, size) == Wrap(old(head), i, size);
    }

    /** Writes all of `src` or nothing. `busy` says that another task holds the mutex. */
    method Write(src: seq<Byte>, busy: bool) returns (ok: bool)
      requires Valid()
      modifies this, data
      ensures Valid() && data == old(data) && size == old(size)
      ensures ok == (data != null && !busy && |old(contents)| + |src| <= size)
      ensures contents == old(contents) + (if ok then src else [])
      ensures accepted == old(accepted) + (if ok then src else []) && taken == old(taken)
      ensures dataReady == (ok || old(dataReady))
      ensures dropped == if data == null || ok then old(dropped) else Plus1(old(dropped))
    {
      if data == null {
        return false;
      }
      if busy {
        CountDrop();
        return false;
      }
      var len := |src|;
      var freeSpace := size - available;
      if len > freeSpace {
        CountDrop();
        return false;
      }
      Append(src);
      dataReady := true;
      ok := true;
    }

    /** Copies the oldest `n` bytes out, in one piece or around the end. */
    method CopyOut(dest: array<Byte>, n: nat)
      requires data != null && dest != data && data.Length == size && tail < size && n <= size && n <= dest.Length
      modifies dest
      ensures forall i :: 0 <= i < n ==> dest[i] == data[Wrap(tail, i, size)]
      ensures forall i :: n <= i < dest.Length ==> dest[i] == old(dest[i])
    {
      var firstChunk := size - tail;
      if firstChunk >= n {
        forall i | 0 <= i < n {
          dest[i] := data[tail + i];
        }
      } else {
        forall i | 0 <= i < firstChunk {
          dest[i] := data[tail + i];
        }
        forall i | 0 <= i < n - firstChunk {
          dest[firstChunk + i] := data[i];
        }
      }
    }

    /** Moves the tail over `n` bytes. */
    method Advance(n: nat)
      requires Valid() && data != null && n <= available
      modifies this`tail, this`available, this`contents, this`taken
      ensures Valid() && contents == old(contents)[n..]
      ensures taken == old(taken) + old(contents)[..n]
    {
      ModWrap(tail, n, size);
      tail := (tail + n) % size;
      available := available - n;
      taken := taken + contents[..n];
      contents := contents[n..];
    }

    /** Takes up to `dest.Length` bytes out, if the signal is set. What is left is signalled again. */
    method Read(dest: array<Byte>) returns (n: nat)
      requires Valid() && dest != data
      modifies this, dest
      ensures Valid() && data == old(data) && size == old(size)
      ensures n == if data != null && old(dataReady) then Min(dest.Length, |old(contents)|) else 0
      ensures dest[..n] == old(contents)[..n] && contents == old(contents)[n..]
      ensures accepted == old(accepted) && taken == old(taken) + dest[..n]
      ensures forall i :: n <= i < dest.Length ==> dest[i] == old(dest[i])
      ensures dataReady == (if data == null then old(dataReady) else old(dataReady) && contents != [])
    {
      if data == null {
        return 0;
      }
      if !dataReady {
        return 0;
      }
      dataReady := false;
      if available == 0 {
        return 0;
      }
      n := Min(dest.Length, available);
      CopyOut(dest, n);
      Advance(n);
      if available > 0 {
        dataReady := true;
      }
    }

    /** Copies what the next read would take out, and takes nothing. */
    method Peek(dest: array<Byte>) returns (n: nat)
      requires Valid() && dest != data
      modifies dest
      ensures Valid()
      ensures n == Min(dest.Length, |contents|) && dest[..n] == contents[..n]
      ensures forall i :: n <= i < dest.Length ==> dest[i] == old(dest[i])
    {
      if data == null || available == 0 {
        return 0;
      }
      n := Min(dest.Length, available);
      CopyOut(dest, n);
    }

    method Skip(len: nat)
      requires Valid()
      modifies this
      ensures Valid() && data == old(data) && size == old(size) && dataReady == old(dataReady)
      ensures contents == old(contents)[Min(len, |old(contents)|)..] && accepted == old(accepted)
    {
      if data == null {
        return;
      }
      Advance(Min(len, available));
    }
  }
}
