/** The packet filter: four lists of up to sixteen rules, evaluated first match first. */
module Acl {
  import opened Bits
  import opened Addresses
  import opened Wrappers

  const LISTS := 4
  const ENTRIES := 16

  const NO_MATCH: Byte := 0xFF
  const TCP: Byte := 6
  const UDP: Byte := 17

  /** A slot of a table. Addresses are stored masked; a port of 0 and a protocol of 0 stand for any. */
  datatype Entry = Entry(
    src: Word, sMask: Word, dest: Word, dMask: Word,
    sPort: Half, dPort: Half, proto: Byte, allow: Byte,
    hits: Word, valid: bool)

  const EMPTY := Entry(0, 0, 0, 0, 0, 0, 0, 0, 0, false)

  datatype Stats = Stats(allowed: Word, denied: Word, nomatch: Word)

  /** What the filter looks at in a packet. */
  datatype Flow = Flow(src: Word, dest: Word, proto: Byte, sPort: Half, dPort: Half)

  /** Where the IP header starts: raw IPv4, an Ethernet frame, or undecided, which is read as raw; None passes. */
  function HeaderAt(p: seq<Byte>): (r: Option<nat>)
    ensures r.Some? ==> r.value == 0 || (r.value == 14 && |p| >= 14)
  {
    if |p| >= 1 && p[0] / 16 == 4 && p[0] % 16 >= 5 then Some(0)
    else if |p| >= 1 && p[0] / 16 == 6 then None
    else if |p| >= 14 then
      var ethertype := BigEndian(p[12], p[13]);
      if ethertype == 0x0800 then Some(14)
      else if ethertype == 0x0806 || ethertype == 0x86DD || ethertype < 0x0600 then None
      else Some(0)
    else Some(0)
  }

  function PortsFit(p: seq<Byte>, at: nat, proto: Byte): bool {
    (proto == TCP && |p| >= at + 20) || (proto == UDP && |p| >= at + 8)
  }

  /** The flow of a packet the rules apply to; other packets pass. */
  function ParseFlow(p: seq<Byte>): Option<Flow> {
    match HeaderAt(p)
    case None => None
    case Some(o) =>
      if |p| < o + 20 || p[o] / 16 != 4 then None
      else
        var src := Join(p[o + 12], p[o + 13], p[o + 14], p[o + 15]);
        var dest := Join(p[o + 16], p[o + 17], p[o + 18], p[o + 19]);
        var t := o + p[o] % 16 * 4;
        if PortsFit(p, t, p[o + 9])
        then Some(Flow(src, dest, p[o + 9], BigEndian(p[t], p[t + 1]), BigEndian(p[t + 2], p[t + 3])))
        else Some(Flow(src, dest, p[o + 9], 0, 0))
  }

  predicate Matches(e: Entry, f: Flow) {
    && (e.proto == 0 || e.proto == f.proto)
    && And(f.src, e.sMask) == e.src
    && And(f.dest, e.dMask) == e.dest
    && ((e.sPort == 0 && e.dPort == 0) || f.proto == TCP || f.proto == UDP)
    && (e.sPort == 0 || e.sPort == f.sPort)
    && (e.dPort == 0 || e.dPort == f.dPort)
  }

  /** The position of the first rule that matches, or the number of rules. */
  function FirstMatch(rules: seq<Entry>, f: Flow): (i: nat)
    ensures i <= |rules| && (i < |rules| ==> Matches(rules[i], f))
    ensures forall j :: 0 <= j < i ==> !Matches(rules[j], f)
  {
    if rules == [] then 0 else if Matches(rules[0], f) then 0 else 1 + FirstMatch(rules[1..], f)
  }

  /** The action and the monitor flag of a rule. */
  function Action(e: Entry): Byte {
    e.allow % 4
  }

  function FlowVerdict(rules: seq<Entry>, f: Flow): Byte {
    var i := FirstMatch(rules, f);
    if i < |rules| then Action(rules[i]) else NO_MATCH
  }

  function Verdict(rules: seq<Entry>, p: seq<Byte>): Byte {
    match ParseFlow(p)
    case None => NO_MATCH
    case Some(f) => FlowVerdict(rules, f)
  }

  /** The packet is dropped. */
  predicate Denies(verdict: Byte) {
    verdict % 2 == 0 && verdict != NO_MATCH
  }

  function Removed(rules: seq<Entry>, i: nat): (r: seq<Entry>)
    requires i < |rules|
    ensures |r| == |rules| - 1
  {
    rules[..i] + rules[i + 1..]
  }

  lemma FirstMatchIs(rules: seq<Entry>, f: Flow, i: nat)
    requires i <= |rules| && (i < |rules| ==> Matches(rules[i], f))
    requires forall j :: 0 <= j < i ==> !Matches(rules[j], f)
    ensures FirstMatch(rules, f) == i
  {
  }

  /** Rule `i` is the first that matches. */
  predicate Decides(rules: seq<Entry>, f: Flow, i: nat) {
    i < |rules| && Matches(rules[i], f) && forall j :: 0 <= j < i ==> !Matches(rules[j], f)
  }

  /** A packet is dropped exactly if the first rule that matches it denies; without one it passes. */
  lemma DeniedExactly(rules: seq<Entry>, f: Flow)
    ensures Denies(FlowVerdict(rules, f)) <==> exists i: nat :: Decides(rules, f, i) && rules[i].allow % 2 == 0
  {
    var k := FirstMatch(rules, f);
    if k < |rules| {
      assert Decides(rules, f, k);
    }
    forall i: nat | Decides(rules, f, i)
      ensures k == i
    {
      FirstMatchIs(rules, f, i);
    }
  }

  /** An added rule decides exactly the packets that no earlier rule matches. */
  lemma AddVerdict(rules: seq<Entry>, e: Entry, f: Flow)
    ensures FlowVerdict(rules + [e], f) ==
              if FirstMatch(rules, f) < |rules| then FlowVerdict(rules, f)
              else if Matches(e, f) then Action(e) else NO_MATCH
  {
    var i, all := FirstMatch(rules, f), rules + [e];
    if i < |rules| || Matches(e, f) {
      FirstMatchIs(all, f, i);
    } else {
      FirstMatchIs(all, f, |all|);
    }
  }

  /** A deleted rule changes the verdict only on packets that it decided, and leaves those to the rules behind it. */
  lemma DeleteVerdict(rules: seq<Entry>, i: nat, f: Flow)
    requires i < |rules|
    ensures FlowVerdict(Removed(rules, i), f) ==
              if FirstMatch(rules, f) == i then FlowVerdict(rules[i + 1..], f) else FlowVerdict(rules, f)
  {
    var k, less := FirstMatch(rules, f), Removed(rules, i);
    if k == i {
      DeleteDeciding(rules, less, rules[i + 1..], i, f);
    } else {
      DeleteOther(rules, less, i, f, k);
    }
  }

  lemma DeleteDeciding(rules: seq<Entry>, less: seq<Entry>, rest: seq<Entry>, i: nat, f: Flow)
    requires i < |rules| && less == Removed(rules, i) && rest == rules[i + 1..] && i == FirstMatch(rules, f)
    ensures FlowVerdict(less, f) == FlowVerdict(rest, f)
  {
    assert less[i..] == rest;
    VerdictSkips(less, rest, f, i);
  }

  /** Rules in front that do not match do not matter. */
  lemma {:induction false} VerdictSkips(rules: seq<Entry>, rest: seq<Entry>, f: Flow, i: nat)
    requires i <= |rules| && rest == rules[i..]
    requires forall j :: 0 <= j < i ==> !Matches(rules[j], f)
    ensures FlowVerdict(rules, f) == FlowVerdict(rest, f)
  {
    if i > 0 {
      var tail := rules[1..];
      assert tail[i - 1..] == rest;
      VerdictSkips(tail, rest, f, i - 1);
    }
  }

  lemma DeleteOther(rules: seq<Entry>, less: seq<Entry>, i: nat, f: Flow, k: nat)
    requires i < |rules| && less == Removed(rules, i) && k == FirstMatch(rules, f) != i
    ensures FlowVerdict(less, f) == FlowVerdict(rules, f)
  {
    var m := if k < i then k else k - 1;
    forall j | 0 <= j < m
      ensures !Matches(less[j], f)
    {
      assert less[j] == if j < i then rules[j] else rules[j + 1];
    }
    if k < |rules| {
      assert less[m] == rules[k];
    }
    FirstMatchIs(less, f, m);
  }

  /** The address is in the block of 2^k addresses that contains `net`. */
  ghost predicate InBlock(ip: Word, net: Word, k: nat) {
    Floor(Swap(net), k) <= Swap(ip) < Floor(Swap(net), k) + Pow2(k)
  }

  /** With a contiguous mask of k host bits, masked addresses agree exactly if both are in one block. */
  lemma CidrBlock(ip: Word, net: Word, mask: Word, k: nat)
    requires k <= 32 && Swap(mask) == Mask(k)
    ensures And(ip, mask) == And(net, mask) <==> InBlock(ip, net, k)
  {
    AndSwap(ip, mask);
    AndSwap(net, mask);
    AndMask(Swap(ip), k);
    AndMask(Swap(net), k);
    SwapTwice(And(ip, mask));
    SwapTwice(And(net, mask));
    if InBlock(ip, net, k) {
      FloorOfBlock(Swap(ip), Swap(net), k);
    }
  }

  predicate Port(wanted: Half, found: Half, proto: Byte) {
    wanted == 0 || (wanted == found && (proto == TCP || proto == UDP))
  }

  /** What a stored rule with CIDR masks matches: two blocks of addresses, a protocol and ports. */
  lemma MatchesExactly(e: Entry, f: Flow, src: Word, dest: Word, j: nat, k: nat)
    requires j <= 32 && Swap(e.sMask) == Mask(j) && e.src == And(src, e.sMask)
    requires k <= 32 && Swap(e.dMask) == Mask(k) && e.dest == And(dest, e.dMask)
    ensures Matches(e, f) <==>
              && (e.proto == 0 || e.proto == f.proto)
              && InBlock(f.src, src, j) && InBlock(f.dest, dest, k)
              && Port(e.sPort, f.sPort, f.proto) && Port(e.dPort, f.dPort, f.proto)
  {
    CidrBlock(f.src, src, e.sMask, j);
    CidrBlock(f.dest, dest, e.dMask, k);
  }

  function Counted(s: Stats, verdict: Byte): Stats {
    if verdict == NO_MATCH then s.(nomatch := Plus1(s.nomatch))
    else if verdict % 2 == 1 then s.(allowed := Plus1(s.allowed))
    else s.(denied := Plus1(s.denied))
  }

  /** The rules after one of them has matched: its hit counter is one higher. */
  function Hit(rules: seq<Entry>, f: Flow): (r: seq<Entry>)
    ensures |r| == |rules|
  {
    var i := FirstMatch(rules, f);
    if i < |rules| then rules[i := rules[i].(hits := Plus1(rules[i].hits))] else rules
  }

  /** Counting hits never changes a verdict. */
  lemma HitVerdict(rules: seq<Entry>, f: Flow, g: Flow)
    ensures FlowVerdict(Hit(rules, f), g) == FlowVerdict(rules, g)
  {
    FirstMatchIs(Hit(rules, f), g, FirstMatch(rules, g));
  }

  class AclTable {
    const entries: array2<Entry>
    const counts: array<Byte>
    const stats: array<Stats>
    /** The rules of each list, in order. */
    ghost var rows: seq<seq<Entry>>

    ghost predicate Shape()
      reads this
    {
      entries.Length0 == LISTS && entries.Length1 == ENTRIES && counts.Length == LISTS && stats.Length == LISTS
      && |rows| == LISTS
    }

    /** The valid entries of a list are a prefix of its slots, and are its rules. */
    ghost predicate Holds(n: nat)
      requires n < LISTS && Shape()
      reads this, entries
    {
      && |rows[n]| <= ENTRIES
      && (forall j :: 0 <= j < |rows[n]| ==> entries[n, j].valid && entries[n, j] == rows[n][j])
      && forall j :: |rows[n]| <= j < ENTRIES ==> !entries[n, j].valid
    }

    ghost predicate TableValid()
      reads this, entries
    {
      Shape() && forall n :: 0 <= n < LISTS ==> Holds(n)
    }

    ghost predicate Valid()
      reads this, entries, counts
    {
      TableValid() && forall n :: 0 <= n < LISTS ==> counts[n] == |rows[n]|
    }

    constructor ()
      ensures Valid() && rows == [[], [], [], []] && fresh(entries) && fresh(counts) && fresh(stats)
    {
      entries := new Entry[LISTS, ENTRIES]((_, _) => EMPTY);
      counts := new Byte[LISTS](_ => 0);
      stats := new Stats[LISTS](_ => Stats(0, 0, 0));
      rows := [[], [], [], []];
    }

    method IsEmpty(n: Byte) returns (empty: bool)
      requires Valid()
      ensures empty == (n >= LISTS || rows[n] == [])
    {
      empty := n >= LISTS || counts[n] == 0;
    }

    /** Stores a rule in the first free slot, with its addresses masked. */
    method Add(n: Byte, src: Word, sMask: Word, dest: Word, dMask: Word, proto: Byte,
               sPort: Half, dPort: Half, allow: Byte) returns (ok: bool)
      requires Valid()
      modifies this, entries, counts
      ensures Valid() && ok == (n < LISTS && |old(rows[n])| < ENTRIES)
      ensures rows == if !ok then old(rows) else
                old(rows)[n := old(rows[n]) + [Entry(And(src, sMask), sMask, And(dest, dMask), dMask,
                                                     sPort, dPort, proto, allow, 0, true)]]
    {
      if n >= LISTS {
        return false;
      }
      assert Holds(n);
      var slot := 0;
      while slot < ENTRIES && entries[n, slot].valid
        invariant slot <= |rows[n]|
      {
        slot := slot + 1;
      }
      if slot == ENTRIES {
        return false;
      }
      var e := Entry(And(src, sMask), sMask, And(dest, dMask), dMask, sPort, dPort, proto, allow, 0, true);
      entries[n, slot] := e;
      counts[n] := counts[n] + 1;
      rows := rows[n := rows[n] + [e]];
      forall m | 0 <= m < LISTS
        ensures Holds(m)
      {
        assert old(Holds(m));
      }
      ok := true;
    }

    /** Clears a slot and moves the rules behind it up. */
    method Compact(n: nat, i: nat)
      requires TableValid() && n < LISTS && i < |rows[n]|
      modifies entries
      ensures forall m, j :: 0 <= m < LISTS && m != n && 0 <= j < ENTRIES ==> entries[m, j] == old(entries[m, j])
      ensures forall j :: 0 <= j < ENTRIES ==>
                entries[n, j] == if j < i then old(entries[n, j])
                                 else if j + 1 < |rows[n]| then rows[n][j + 1]
                                 else if j < |rows[n]| then EMPTY else old(entries[n, j])
    {
      assert Holds(n);
      ghost var row := rows[n];
      entries[n, i] := EMPTY;
      var k := i;
      while k < ENTRIES - 1 && entries[n, k + 1].valid
        invariant i <= k < |row|
        invariant forall m, j :: 0 <= m < LISTS && 0 <= j < ENTRIES && (m != n || j < i || j > k) ==>
                    entries[m, j] == old(entries[m, j])
        invariant forall j :: i <= j < k ==> entries[n, j] == row[j + 1]
        invariant entries[n, k] == EMPTY
      {
        entries[n, k] := entries[n, k + 1];
        entries[n, k + 1] := EMPTY;
        k := k + 1;
      }
    }

    /** Removes a rule; the others keep their order. */
    method Delete(n: Byte, i: Byte) returns (ok: bool)
      requires Valid()
      modifies this, entries, counts
      ensures Valid() && ok == (n < LISTS && i < |old(rows[n])|)
      ensures rows == if ok then old(rows)[n := Removed(old(rows[n]), i)] else old(rows)
    {
      assert n < LISTS ==> Holds(n);
      if n >= LISTS || i >= ENTRIES || !entries[n, i].valid {
        return false;
      }
      Compact(n, i);
      if counts[n] > 0 {
        counts[n] := counts[n] - 1;
      }
      rows := rows[n := Removed(rows[n], i)];
      forall m | 0 <= m < LISTS
        ensures Holds(m)
      {
        assert old(Holds(m));
      }
      ok := true;
    }

    method Clear(n: Byte)
      requires Valid()
      modifies this, entries, counts
      ensures Valid() && rows == if n < LISTS then old(rows)[n := []] else old(rows)
    {
      if n >= LISTS {
        return;
      }
      forall j | 0 <= j < ENTRIES {
        entries[n, j] := EMPTY;
      }
      counts[n] := 0;
      rows := rows[n := []];
      forall m | 0 <= m < LISTS
        ensures Holds(m)
      {
        assert old(Holds(m));
      }
    }

    /** The number of valid entries among the first `k` slots, in whatever places they are. */
    ghost function NumValid(n: nat, k: nat): nat
      requires Shape() && n < LISTS && k <= ENTRIES
      reads this, entries
    {
      if k == 0 then 0 else NumValid(n, k - 1) + if entries[n, k - 1].valid then 1 else 0
    }

    lemma {:induction false} NumValidPrefix(n: nat, k: nat)
      requires Shape() && n < LISTS && k <= ENTRIES && Holds(n)
      ensures NumValid(n, k) == Min(k, |rows[n]|)
    {
      if k > 0 {
        NumValidPrefix(n, k - 1);
      }
    }

    /** Recomputes the count of a list whose slots were written directly. If the valid entries are a prefix of the
        slots, the count agrees with the rules again. */
    method Recount(n: Byte)
      requires Shape()
      modifies counts
      ensures n < LISTS ==> counts[n] == NumValid(n, ENTRIES)
      ensures forall m :: 0 <= m < LISTS && m != n ==> counts[m] == old(counts[m])
      ensures TableValid() && (forall m :: 0 <= m < LISTS && m != n ==> counts[m] == |rows[m]|) ==> Valid()
    {
      if n >= LISTS {
        return;
      }
      var count: Byte := 0;
      for i := 0 to ENTRIES
        invariant count == NumValid(n, i) && count <= i
      {
        if entries[n, i].valid {
          count := count + 1;
        }
      }
      counts[n] := count;
      if TableValid() {
        assert Holds(n);
        NumValidPrefix(n, ENTRIES);
      }
    }

    /** Reads the addresses, protocol and ports of a packet, or finds that the filter does not apply. */
    method Parse(p: seq<Byte>) returns (flow: Option<Flow>)
      ensures flow == ParseFlow(p)
    {
      var offset := 0;
      var raw := false;
      if |p| >= 1 {
        var nibble := p[0] / 16;
        if nibble == 4 {
          raw := p[0] % 16 >= 5;
        } else if nibble == 6 {
          return None;
        }
      }
      if !raw && |p| >= 14 {
        var ethertype := BigEndian(p[12], p[13]);
        if ethertype == 0x0800 || ethertype == 0x0806 || ethertype == 0x86DD || ethertype < 0x0600 {
          if ethertype != 0x0800 {
            return None;
          }
          offset := 14;
        }
      }
      if |p| < offset + 20 {
        return None;
      }
      if p[offset] / 16 != 4 {
        return None;
      }
      var src := Join(p[offset + 12], p[offset + 13], p[offset + 14], p[offset + 15]);
      var dest := Join(p[offset + 16], p[offset + 17], p[offset + 18], p[offset + 19]);
      var proto := p[offset + 9];
      var sPort, dPort := 0, 0;
      var t := offset + p[offset] % 16 * 4;
      if proto == TCP && |p| >= t + 20 {
        sPort, dPort := BigEndian(p[t], p[t + 1]), BigEndian(p[t + 2], p[t + 3]);
      } else if proto == UDP && |p| >= t + 8 {
        sPort, dPort := BigEndian(p[t], p[t + 1]), BigEndian(p[t + 2], p[t + 3]);
      }
      flow := Some(Flow(src, dest, proto, sPort, dPort));
    }

    method RuleMatches(e: Entry, f: Flow) returns (r: bool)
      ensures r == Matches(e, f)
    {
      if e.proto != 0 && e.proto != f.proto {
        return false;
      }
      if And(f.src, e.sMask) != e.src {
        return false;
      }
      if And(f.dest, e.dMask) != e.dest {
        return false;
      }
      if e.sPort != 0 || e.dPort != 0 {
        if f.proto != TCP && f.proto != UDP {
          return false;
        }
        if e.sPort != 0 && e.sPort != f.sPort {
          return false;
        }
        if e.dPort != 0 && e.dPort != f.dPort {
          return false;
        }
      }
      r := true;
    }

    /** The slot of the first rule that matches, or the number of slots. */
    method Scan(n: nat, f: Flow) returns (i: nat)
      requires Valid() && n < LISTS
      ensures i == if FirstMatch(rows[n], f) < |rows[n]| then FirstMatch(rows[n], f) else ENTRIES
    {
      ghost var row := rows[n];
      assert Holds(n);
      i := 0;
      while i < ENTRIES
        invariant i <= ENTRIES
        invariant forall j :: 0 <= j < i && j < |row| ==> !Matches(row[j], f)
      {
        var e := entries[n, i];
        if e.valid {
          var matched := RuleMatches(e, f);
          if matched {
            FirstMatchIs(row, f, i);
            return;
          }
        }
        i := i + 1;
      }
      FirstMatchIs(row, f, |row|);
    }

    /** Evaluates the rules of a list in order and counts the outcome. */
    method Evaluate(n: nat, f: Flow) returns (verdict: Byte)
      requires Valid() && n < LISTS
      modifies this`rows, entries, stats
      ensures Valid() && verdict == FlowVerdict(old(rows[n]), f)
      ensures rows == old(rows)[n := Hit(old(rows[n]), f)]
      ensures stats[n] == Counted(old(stats[n]), verdict)
      ensures forall m :: 0 <= m < LISTS && m != n ==> stats[m] == old(stats[m])
    {
      assert Holds(n);
      ghost var row := rows[n];
      verdict := NO_MATCH;
      var i := Scan(n, f);
      if i < ENTRIES {
        var e := entries[n, i];
        entries[n, i] := e.(hits := Plus1(e.hits));
        verdict := Action(e);
        if verdict % 2 == 1 {
          stats[n] := stats[n].(allowed := Plus1(stats[n].allowed));
        } else {
          stats[n] := stats[n].(denied := Plus1(stats[n].denied));
        }
      } else {
        stats[n] := stats[n].(nomatch := Plus1(stats[n].nomatch));
      }
      rows := rows[n := Hit(row, f)];
      forall m | 0 <= m < LISTS
        ensures Holds(m)
      {
        assert old(Holds(m));
      }
    }

    /** The verdict of a list on the first segment of a packet; one of the list's three counters goes up. */
    method CheckPacket(n: Byte, p: seq<Byte>) returns (verdict: Byte)
      requires Valid()
      modifies this`rows, entries, stats
      ensures Valid() && verdict == if n < LISTS then Verdict(old(rows[n]), p) else NO_MATCH
      ensures rows == if n < LISTS && ParseFlow(p).Some?
                      then old(rows)[n := Hit(old(rows[n]), ParseFlow(p).value)] else old(rows)
      ensures forall m :: 0 <= m < LISTS ==>
                stats[m] == if m == n && ParseFlow(p).Some? then Counted(old(stats[m]), verdict) else old(stats[m])
    {
      if n >= LISTS {
        return NO_MATCH;
      }
      var flow := Parse(p);
      if flow.None? {
        return NO_MATCH;
      }
      verdict := Evaluate(n, flow.value);
    }

    /** The input hooks' use of the filter: a list without rules is not consulted, which never changes the verdict. */
    method Drops(n: Byte, p: seq<Byte>) returns (drop: bool)
      requires Valid() && n < LISTS
      modifies this`rows, entries, stats
      ensures Valid() && drop == Denies(Verdict(old(rows[n]), p))
    {
      drop := false;
      var empty := IsEmpty(n);
      if !empty {
        var verdict := CheckPacket(n, p);
        drop := verdict % 2 == 0 && verdict != NO_MATCH;
      }
    }
  }
}
