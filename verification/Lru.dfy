/**
  The replacement policy of one set of the lookup cache (emu68/src/ExecutionLoop.c, lines 62 to 166), as
  functions.  The allocation word is a sequence of 32 bits, most significant first: bit i says that way i
  has not been used lately.
*/
module Lru {

  type Bits = b: seq<bool> | |b| == 32 witness seq(32, i => true)

  const Free: nat := 0xffff_ffff

  /** No way is available: `current >> (32 - ways) == 0`. */
  predicate Exhausted(bits: Bits, ways: nat)
    requires ways <= 32
  {
    forall i :: 0 <= i < ways ==> !bits[i]
  }

  /** Every bit but one. */
  function AllBut(i: nat): Bits { seq(32, j => j != i) }

  /** A way was used: clear its bit, and start over with all others if that was the last one. */
  function Touch(bits: Bits, ways: nat, i: nat): Bits
    requires i < ways <= 32
  {
    var current: Bits := bits[i := false];
    if Exhausted(current, ways) then AllBut(i) else current
  }

  /** Count of leading zeros; 32 if there is no one. */
  function LeadingZeros(bits: seq<bool>): (k: nat)
    ensures k <= |bits|
    ensures forall j :: 0 <= j < k ==> !bits[j]
    ensures k < |bits| ==> bits[k]
  {
    if bits == [] || bits[0] then 0 else 1 + LeadingZeros(bits[1..])
  }

  /** The way the next insertion takes. */
  function Victim(bits: Bits): nat { LeadingZeros(bits) }

  lemma VictimInRange(bits: Bits, ways: nat)
    requires ways <= 32
    ensures Victim(bits) < ways <==> !Exhausted(bits, ways)
  {
  }

  /** With two or more ways, using a way leaves another one available, and the way just used is not the
      next victim; with a single way it always fails. */
  lemma TouchAvailableIff(bits: Bits, ways: nat, i: nat)
    requires i < ways <= 32
    ensures !Exhausted(Touch(bits, ways, i), ways) <==> ways >= 2
    ensures ways >= 2 ==> Victim(Touch(bits, ways, i)) < ways && Victim(Touch(bits, ways, i)) != i
  {
    var t := Touch(bits, ways, i);
    assert !t[i];
    if ways >= 2 {
      var other := if i == 0 then 1 else 0;
      assert Exhausted(bits[i := false], ways) ==> t[other];
      VictimInRange(t, ways);
    }
  }

  // ---------------------------------------------------------------- runs

  /** One set: the address in each way, and the allocation bits. */
  datatype SetState = SetState(tags: seq<nat>, bits: Bits)

  datatype Op = Find(addr: nat) | Insert(addr: nat) | Invalidate(addr: nat) | InvalidateEntry(way: nat)

  /** The first way that holds an address, or the number of ways. */
  function IndexOf(tags: seq<nat>, addr: nat): (k: nat)
    ensures k <= |tags|
    ensures forall j :: 0 <= j < k ==> tags[j] != addr
    ensures k < |tags| ==> tags[k] == addr
  {
    if tags == [] || tags[0] == addr then 0 else 1 + IndexOf(tags[1..], addr)
  }

  function Apply(s: SetState, op: Op): SetState
    requires |s.tags| <= 32
  {
    var ways := |s.tags|;
    match op
    case Find(addr) =>
      var k := IndexOf(s.tags, addr);
      if k < ways then s.(bits := Touch(s.bits, ways, k)) else s
    case Insert(addr) =>
      var k := Victim(s.bits);
      if k < ways then SetState(s.tags[k := addr], Touch(s.bits, ways, k)) else s
    case Invalidate(addr) =>
      var k := IndexOf(s.tags, addr);
      if k < ways then SetState(s.tags[k := Free], s.bits[k := true]) else s
    case InvalidateEntry(way) =>
      if way < ways then s.(tags := s.tags[way := Free]) else s
  }

  function Run(s: SetState, ops: seq<Op>): SetState
    requires |s.tags| <= 32
    decreases |ops|
  {
    if ops == [] then s else Run(Apply(s, ops[0]), ops[1..])
  }

  lemma ApplyAvailable(s: SetState, op: Op)
    requires 2 <= |s.tags| <= 32 && !Exhausted(s.bits, |s.tags|)
    ensures var t := Apply(s, op); |t.tags| == |s.tags| && !Exhausted(t.bits, |t.tags|)
  {
    var ways := |s.tags|;
    match op
    case Find(addr) =>
      if IndexOf(s.tags, addr) < ways { TouchAvailableIff(s.bits, ways, IndexOf(s.tags, addr)); }
    case Insert(addr) =>
      if Victim(s.bits) < ways { TouchAvailableIff(s.bits, ways, Victim(s.bits)); }
    case Invalidate(addr) =>
      var k := IndexOf(s.tags, addr);
      if k < ways { assert s.bits[k := true][k]; }
    case InvalidateEntry(way) =>
  }

  /** Over every run of finds, insertions and invalidations some way stays available, so that the chosen way
      is always in range. */
  lemma {:induction false} RunAvailable(s: SetState, ops: seq<Op>)
    requires 2 <= |s.tags| <= 32 && !Exhausted(s.bits, |s.tags|)
    ensures var t := Run(s, ops); |t.tags| == |s.tags| && !Exhausted(t.bits, |t.tags|) && Victim(t.bits) < |t.tags|
    decreases |ops|
  {
    if ops == [] {
      VictimInRange(s.bits, |s.tags|);
    } else {
      ApplyAvailable(s, ops[0]);
      RunAvailable(Apply(s, ops[0]), ops[1..]);
    }
  }

  // ---------------------------------------------------------------- which way is next

  /** The ways used since the set last started over: a find or an insertion uses a way, and when that was the last
      one unused, only it counts; an invalidated way is unused. */
  function UsedAfter(s: SetState, op: Op, used: set<nat>): set<nat>
    requires |s.tags| <= 32
  {
    var ways := |s.tags|;
    var k := if op.Insert? then Victim(s.bits) else if op.InvalidateEntry? then ways else IndexOf(s.tags, op.addr);
    if k >= ways then used
    else if op.Invalidate? then used - {k}
    else if forall j :: 0 <= j < ways && j != k ==> j in used then {k}
    else used + {k}
  }

  function UsedIn(s: SetState, ops: seq<Op>, used: set<nat>): set<nat>
    requires |s.tags| <= 32
    decreases |ops|
  {
    if ops == [] then used else UsedIn(Apply(s, ops[0]), ops[1..], UsedAfter(s, ops[0], used))
  }

  /** The allocation word marks exactly the ways in use. */
  ghost predicate Marks(s: SetState, used: set<nat>) {
    |s.tags| <= 32 && forall j :: 0 <= j < |s.tags| ==> (s.bits[j] <==> j !in used)
  }

  lemma ApplyMarks(s: SetState, op: Op, used: set<nat>)
    requires Marks(s, used)
    ensures Marks(Apply(s, op), UsedAfter(s, op, used)) && |Apply(s, op).tags| == |s.tags|
  {
    var ways := |s.tags|;
    var k := if op.Insert? then Victim(s.bits) else if op.InvalidateEntry? then ways else IndexOf(s.tags, op.addr);
    if k < ways && (op.Find? || op.Insert?) {
      TouchMarks(s, k, used);
    }
  }

  lemma TouchMarks(s: SetState, k: nat, used: set<nat>)
    requires Marks(s, used) && k < |s.tags|
    ensures var used' := if forall j :: 0 <= j < |s.tags| && j != k ==> j in used then {k} else used + {k};
      forall j :: 0 <= j < |s.tags| ==> (Touch(s.bits, |s.tags|, k)[j] <==> j !in used')
  {
    var current := s.bits[k := false];
    if j :| 0 <= j < |s.tags| && j != k && j !in used {
      assert current[j];
    } else {
      assert Exhausted(current, |s.tags|);
    }
  }

  lemma {:induction false} RunMarks(s: SetState, ops: seq<Op>, used: set<nat>)
    requires Marks(s, used)
    ensures Marks(Run(s, ops), UsedIn(s, ops, used)) && |Run(s, ops).tags| == |s.tags|
    decreases |ops|
  {
    hide Marks, Apply, UsedAfter;
    assert |s.tags| <= 32 by {
      MarksFit(s, used);
    }
    if ops != [] {
      ApplyMarks(s, ops[0], used);
      MarksFit(Apply(s, ops[0]), UsedAfter(s, ops[0], used));
      RunMarks(Apply(s, ops[0]), ops[1..], UsedAfter(s, ops[0], used));
    }
  }

  lemma MarksFit(s: SetState, used: set<nat>)
    requires Marks(s, used)
    ensures |s.tags| <= 32
  {
  }

  /** After any run from a fresh set, an insertion takes the first of the ways not used since the set last started
      over: no used way is taken again while another is unused. */
  lemma FirstUnusedNext(ways: nat, ops: seq<Op>)
    requires 2 <= ways <= 32
    ensures var s := Run(Fresh(ways), ops);
      var used, k := UsedIn(Fresh(ways), ops, {}), Victim(s.bits);
      k < ways && k !in used && (forall j :: 0 <= j < k ==> j in used)
  {
    hide Run, UsedIn;
    assert Fresh(ways).bits[0];
    RunMarks(Fresh(ways), ops, {});
    RunAvailable(Fresh(ways), ops);
  }

  // ---------------------------------------------------------------- filling a set

  function Fresh(ways: nat): SetState {
    SetState(seq(ways, i => Free), seq(32, i => true))
  }

  /** The addresses inserted in a run, in order. */
  function Inserted(ops: seq<Op>): seq<nat> {
    if ops == [] then [] else (if ops[0].Insert? then [ops[0].addr] else []) + Inserted(ops[1..])
  }

  /** A run as the lookup makes them: finds of real addresses, and insertions. */
  predicate LookupsOnly(ops: seq<Op>) {
    forall i :: 0 <= i < |ops| ==> (ops[i].Find? || ops[i].Insert?) && ops[i].addr != Free
  }

  /** The first |xs| ways hold xs, the others are free, and until the set is full exactly the free ways are
      available. */
  ghost predicate Filled(s: SetState, xs: seq<nat>) {
    && |xs| <= |s.tags| <= 32
    && (forall j :: 0 <= j < |xs| ==> s.tags[j] == xs[j])
    && (forall j :: |xs| <= j < |s.tags| ==> s.tags[j] == Free)
    && (|xs| < |s.tags| ==> forall j :: 0 <= j < |s.tags| ==> s.bits[j] == (j >= |xs|))
  }

  lemma FindKeepsFilled(s: SetState, xs: seq<nat>, addr: nat)
    requires Filled(s, xs) && addr != Free
    ensures Filled(Apply(s, Find(addr)), xs) && |Apply(s, Find(addr)).tags| == |s.tags|
  {
    var k := IndexOf(s.tags, addr);
    if k < |s.tags| && |xs| < |s.tags| {
      assert k < |xs|;
      var c := s.bits[k := false];
      assert c == s.bits;
      assert c[|xs|];
    }
  }

  lemma InsertFills(s: SetState, xs: seq<nat>, addr: nat)
    requires Filled(s, xs) && |xs| < |s.tags|
    ensures Filled(Apply(s, Insert(addr)), xs + [addr]) && |Apply(s, Insert(addr)).tags| == |s.tags|
  {
    var ways := |s.tags|;
    assert s.bits[|xs|];
    assert Victim(s.bits) == |xs|;
    var c := s.bits[|xs| := false];
    if |xs| + 1 < ways {
      assert c[|xs| + 1];
    }
  }

  lemma FilledFits(s: SetState, xs: seq<nat>)
    requires Filled(s, xs)
    ensures |s.tags| <= 32
  {
  }

  lemma {:induction false} RunFills(s: SetState, xs: seq<nat>, ops: seq<Op>)
    requires Filled(s, xs) && LookupsOnly(ops) && |xs| + |Inserted(ops)| <= |s.tags|
    ensures Filled(Run(s, ops), xs + Inserted(ops))
    decreases |ops|
  {
    hide Apply, Filled;
    FilledFits(s, xs);
    if ops == [] {
      assert xs + Inserted(ops) == xs;
    } else if ops[0].Find? {
      FindKeepsFilled(s, xs, ops[0].addr);
      assert Inserted(ops) == Inserted(ops[1..]);
      RunFills(Apply(s, ops[0]), xs, ops[1..]);
    } else {
      InsertFills(s, xs, ops[0].addr);
      RunFills(Apply(s, ops[0]), xs + [ops[0].addr], ops[1..]);
      assert xs + Inserted(ops) == (xs + [ops[0].addr]) + Inserted(ops[1..]);
    }
  }

  /** After a flush, as many insertions as there are ways, with any lookups among them, evict nothing:
      every inserted address is still found. */
  lemma FirstInsertsStay(ways: nat, ops: seq<Op>, k: nat)
    requires ways <= 32 && LookupsOnly(ops) && |Inserted(ops)| <= ways && k < |Inserted(ops)|
    ensures IndexOf(Run(Fresh(ways), ops).tags, Inserted(ops)[k]) < ways
  {
    RunFills(Fresh(ways), [], ops);
    assert [] + Inserted(ops) == Inserted(ops);
    var s := Run(Fresh(ways), ops);
    assert s.tags[k] == Inserted(ops)[k];
    RunKeepsWays(Fresh(ways), ops);
  }

  lemma {:induction false} RunKeepsWays(s: SetState, ops: seq<Op>)
    requires |s.tags| <= 32
    ensures |Run(s, ops).tags| == |s.tags|
    decreases |ops|
  {
    if ops != [] {
      RunKeepsWays(Apply(s, ops[0]), ops[1..]);
    }
  }
}
