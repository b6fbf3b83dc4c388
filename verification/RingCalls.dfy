/** What a write, a read and a session do when nothing comes between their steps, and that a write always ends. */
module RingCalls {
  import opened RingSignal

  /** The steps can be taken one after the other from `s`, and lead to `t`. */
  predicate Leads(s: State, steps: seq<Step>, t: State)
    decreases |steps|
  {
    if steps == [] then s == t else Enabled(s, steps[0]) && Leads(Apply(s, steps[0]), steps[1..], t)
  }

  lemma LeadsBy(s: State, step: Step, s1: State, rest: seq<Step>, t: State, steps: seq<Step>)
    requires Enabled(s, step) && s1 == Apply(s, step) && Leads(s1, rest, t) && steps == [step] + rest
    ensures Leads(s, steps, t)
  {
    assert steps[0] == step && steps[1..] == rest;
  }

  function WriteRank(pc: WriterPc): nat {
    match pc
    case Idle => 0
    case Signal => 1
    case Written => 2
    case Locked => 3
    case Entered => 4
  }

  /** Every step of a write brings it nearer to its end. */
  lemma WriteEnds(s: State, step: Step)
    requires Enabled(s, step) && IsWriterStep(step) && !step.WriterEnter?
    ensures WriteRank(Apply(s, step).writers[step.i]) < WriteRank(s.writers[step.i])
    ensures Apply(s, step).writers == s.writers[step.i := Apply(s, step).writers[step.i]]
  {
  }

  /** A write never waits, not even for the mutex. */
  lemma WriteGoesOn(s: State, i: nat, len: nat)
    requires i < |s.writers| && s.writers[i] != Idle
    ensures exists step :: Enabled(s, step) && IsWriterStep(step) && !step.WriterEnter? && step.i == i
  {
    var step := match s.writers[i] {
      case Entered => if s.mutex == Nobody then WriterLock(i) else WriterBusy(i)
      case Locked =>
        if !s.present then WriterGone(i)
        else if s.available + len > s.capacity then WriterFull(i, len) else WriterCopy(i, len)
      case Written => WriterUnlock(i)
      case _ => WriterSignal(i)
    };
    assert Enabled(s, step) && IsWriterStep(step) && !step.WriterEnter? && step.i == i;
  }

  /** A write that gets the mutex and finds room adds its bytes, sets the signal and leaves the mutex free. */
  lemma WriteDone(s: State, i: nat, len: nat)
    requires i < |s.writers| && s.writers[i] == Idle && s.present && s.mutex == Nobody && s.available + len <= s.capacity
    ensures Leads(s, [WriterEnter(i), WriterLock(i), WriterCopy(i, len), WriterUnlock(i), WriterSignal(i)],
                  s.(available := s.available + len, sem := true))
  {
    var t := s.(available := s.available + len, sem := true);
    var s1 := s.(writers := s.writers[i := Entered]);
    var s2 := s.(writers := s.writers[i := Locked], mutex := Writer(i));
    var s3 := s.(writers := s.writers[i := Written], mutex := Writer(i), available := s.available + len);
    var s4 := s.(writers := s.writers[i := Signal], available := s.available + len);
    var last := [WriterUnlock(i), WriterSignal(i)];
    assert t.writers == s4.writers[i := Idle];
    assert Leads(t, [], t);
    LeadsBy(s4, WriterSignal(i), t, [], t, [WriterSignal(i)]);
    LeadsBy(s3, WriterUnlock(i), s4, [WriterSignal(i)], t, last);
    LeadsBy(s2, WriterCopy(i, len), s3, last, t, [WriterCopy(i, len)] + last);
    LeadsBy(s1, WriterLock(i), s2, [WriterCopy(i, len)] + last, t, [WriterLock(i), WriterCopy(i, len)] + last);
    LeadsBy(s, WriterEnter(i), s1, [WriterLock(i), WriterCopy(i, len)] + last, t,
            [WriterEnter(i), WriterLock(i), WriterCopy(i, len), WriterUnlock(i), WriterSignal(i)]);
  }

  /** One that finds the mutex taken, the buffer gone or no room changes nothing. */
  lemma WriteRefused(s: State, i: nat, len: nat)
    requires i < |s.writers| && s.writers[i] == Entered
    ensures s.mutex != Nobody ==> Leads(s, [WriterBusy(i)], s.(writers := s.writers[i := Idle]))
    ensures s.mutex == Nobody && !s.present ==> Leads(s, [WriterLock(i), WriterGone(i)], s.(writers := s.writers[i := Idle]))
    ensures s.mutex == Nobody && s.present && s.available + len > s.capacity ==>
              Leads(s, [WriterLock(i), WriterFull(i, len)], s.(writers := s.writers[i := Idle]))
  {
    var t := s.(writers := s.writers[i := Idle]);
    var s1 := s.(writers := s.writers[i := Locked], mutex := Writer(i));
    assert Leads(t, [], t);
    if s.mutex != Nobody {
      LeadsBy(s, WriterBusy(i), t, [], t, [WriterBusy(i)]);
    } else if !s.present {
      LeadsBy(s1, WriterGone(i), t, [], t, [WriterGone(i)]);
      LeadsBy(s, WriterLock(i), s1, [WriterGone(i)], t, [WriterLock(i), WriterGone(i)]);
    } else if s.available + len > s.capacity {
      LeadsBy(s1, WriterFull(i, len), t, [], t, [WriterFull(i, len)]);
      LeadsBy(s, WriterLock(i), s1, [WriterFull(i, len)], t, [WriterLock(i), WriterFull(i, len)]);
    }
  }

  lemma CopyPart(s: State, max: nat, t: State)
    requires s.server == Reading && s.present && 0 < max < s.available
    requires t == s.(server := Stream, available := s.available - max, sem := true, mutex := Nobody)
    ensures Leads(s, [ReadCopy(max), ReadGive, ReadUnlock], t)
  {
    var s1 := s.(server := Left, available := s.available - max);
    var s2 := s1.(server := Unlocking, sem := true);
    assert Leads(t, [], t);
    LeadsBy(s2, ReadUnlock, t, [], t, [ReadUnlock]);
    LeadsBy(s1, ReadGive, s2, [ReadUnlock], t, [ReadGive, ReadUnlock]);
    LeadsBy(s, ReadCopy(max), s1, [ReadGive, ReadUnlock], t, [ReadCopy(max), ReadGive, ReadUnlock]);
  }

  /** A read of a part takes the bytes out and sets the signal again. */
  lemma ReadPart(s: State, max: nat, t: State)
    requires s.server == Wait && s.sem && s.mutex == Nobody && s.present && 0 < max < s.available
    requires t == s.(server := Stream, available := s.available - max)
    ensures Leads(s, [ReadTake, ReadLock, ReadCopy(max), ReadGive, ReadUnlock], t)
  {
    var s1, s2 := s.(server := Taken, sem := false), s.(server := Reading, sem := false, mutex := Server);
    var last := [ReadCopy(max), ReadGive, ReadUnlock];
    CopyPart(s2, max, t);
    LeadsBy(s1, ReadLock, s2, last, t, [ReadLock] + last);
    LeadsBy(s, ReadTake, s1, [ReadLock] + last, t, [ReadTake, ReadLock, ReadCopy(max), ReadGive, ReadUnlock]);
  }

  /** A read of everything leaves the signal off. */
  lemma ReadAll(s: State, max: nat)
    requires s.server == Wait && s.sem && s.mutex == Nobody && s.present && 0 < s.available <= max
    ensures Leads(s, [ReadTake, ReadLock, ReadCopy(max), ReadUnlock], s.(server := Stream, available := 0, sem := false))
  {
    var t := s.(server := Stream, available := 0, sem := false);
    var s1 := s.(server := Taken, sem := false);
    var s2 := s.(server := Reading, sem := false, mutex := Server);
    var s3 := s.(server := Unlocking, sem := false, mutex := Server, available := 0);
    assert Leads(t, [], t);
    LeadsBy(s3, ReadUnlock, t, [], t, [ReadUnlock]);
    LeadsBy(s2, ReadCopy(max), s3, [ReadUnlock], t, [ReadCopy(max), ReadUnlock]);
    LeadsBy(s1, ReadLock, s2, [ReadCopy(max), ReadUnlock], t, [ReadLock, ReadCopy(max), ReadUnlock]);
    LeadsBy(s, ReadTake, s1, [ReadLock, ReadCopy(max), ReadUnlock], t, [ReadTake, ReadLock, ReadCopy(max), ReadUnlock]);
  }

  /** A signal without bytes is taken and nothing is read; without a signal the read times out. */
  lemma NothingRead(s: State)
    requires s.server == Wait && s.mutex == Nobody && s.available == 0
    ensures s.sem ==> Leads(s, [ReadTake, ReadLock, ReadEmpty], s.(server := Stream, sem := false))
    ensures !s.sem ==> Leads(s, [ReadTimeout], s.(server := Stream))
  {
    var t := s.(server := Stream, sem := false);
    assert Leads(t, [], t);
    if s.sem {
      var s1, s2 := s.(server := Taken, sem := false), s.(server := Reading, sem := false, mutex := Server);
      LeadsBy(s2, ReadEmpty, t, [], t, [ReadEmpty]);
      LeadsBy(s1, ReadLock, s2, [ReadEmpty], t, [ReadLock, ReadEmpty]);
      LeadsBy(s, ReadTake, s1, [ReadLock, ReadEmpty], t, [ReadTake, ReadLock, ReadEmpty]);
    } else {
      LeadsBy(s, ReadTimeout, t, [], t, [ReadTimeout]);
    }
  }

  /** A session begins with an empty buffer and without a signal. */
  lemma SessionBegins(s: State)
    requires s.server == Accepting && s.mutex == Nobody && !s.present
    ensures Leads(s, [Accept, AllocLock, AllocDone, Drain],
                  s.(server := Stream, present := true, available := 0, sem := false))
  {
    var t := s.(server := Stream, present := true, available := 0, sem := false);
    var s1, s2 := s.(server := AllocWant), s.(server := AllocLocked, mutex := Server);
    var s3 := s.(server := Draining, present := true, available := 0);
    assert Leads(t, [], t);
    LeadsBy(s3, Drain, t, [], t, [Drain]);
    LeadsBy(s2, AllocDone, s3, [Drain], t, [AllocDone, Drain]);
    LeadsBy(s1, AllocLock, s2, [AllocDone, Drain], t, [AllocLock, AllocDone, Drain]);
    LeadsBy(s, Accept, s1, [AllocLock, AllocDone, Drain], t, [Accept, AllocLock, AllocDone, Drain]);
  }

  /** And ends without a buffer; a signal that was set stays. */
  lemma SessionEnds(s: State)
    requires s.server == Stream && s.mutex == Nobody
    ensures Leads(s, [Disconnect, FreeLock, FreeDone], s.(server := Accepting, present := false, available := 0))
  {
    var t := s.(server := Accepting, present := false, available := 0);
    var s1, s2 := s.(server := FreeWant), s.(server := FreeLocked, mutex := Server);
    assert Leads(t, [], t);
    LeadsBy(s2, FreeDone, t, [], t, [FreeDone]);
    LeadsBy(s1, FreeLock, s2, [FreeDone], t, [FreeLock, FreeDone]);
    LeadsBy(s, Disconnect, s1, [FreeLock, FreeDone], t, [Disconnect, FreeLock, FreeDone]);
  }
}
