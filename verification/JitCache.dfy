/**
  The lookup of translated code (emu68/src/ExecutionLoop.c, lines 58 to 216): a set-associative table in
  front of hash buckets of translation units.  The table must agree with a plain search of the bucket; it
  does as long as units are added and flushed, but not after units have been evicted
  (emu68/src/M68k_Translator.c, lines 954 to 968).
  Addresses and entry points are numbers; an entry point of 0 is the null pointer.
*/
module JitCache {
  import opened Lru

  datatype Entry = Entry(m68k: nat, arm: nat)

  datatype TUnit = TUnit(epoch: nat, m68k: nat, entry: nat)

  /** The plain search: the first unit of the bucket with this epoch and address. */
  function BucketFind(units: seq<TUnit>, epoch: nat, pc: nat): nat {
    if units == [] then 0
    else if units[0].epoch == epoch && units[0].m68k == pc then units[0].entry
    else BucketFind(units[1..], epoch, pc)
  }

  lemma {:induction false} BucketFindIs(units: seq<TUnit>, epoch: nat, pc: nat, k: nat)
    requires k < |units| && units[k].epoch == epoch && units[k].m68k == pc
    requires forall j :: 0 <= j < k ==> units[j].epoch != epoch || units[j].m68k != pc
    ensures BucketFind(units, epoch, pc) == units[k].entry
    decreases k
  {
    if k > 0 {
      BucketFindIs(units[1..], epoch, pc, k - 1);
    }
  }

  lemma {:induction false} BucketFindNone(units: seq<TUnit>, epoch: nat, pc: nat)
    requires forall j :: 0 <= j < |units| ==> units[j].epoch != epoch || units[j].m68k != pc
    ensures BucketFind(units, epoch, pc) == 0
    decreases |units|
  {
    if units != [] {
      BucketFindNone(units[1..], epoch, pc);
    }
  }

  // ---------------------------------------------------------------- one set of the table

  function TagsOf(row: seq<Entry>): (tags: seq<nat>)
    ensures |tags| == |row| && forall i :: 0 <= i < |row| ==> tags[i] == row[i].m68k
  {
    seq(|row|, i requires 0 <= i < |row| => row[i].m68k)
  }

  function SetOf(addr: nat, sets: nat): nat
    requires sets > 0
  {
    (addr / 16) % sets
  }

  function HashOf(pc: nat, hashSize: nat): nat
    requires hashSize > 0
  {
    (pc / 4) % hashSize
  }

  /** An entry is free, or holds an address that belongs to set s. */
  predicate EntryValid(e: Entry, s: nat, sets: nat)
    requires sets > 0
  {
    if e.arm == 0 then e.m68k == Free else e.m68k < Free && SetOf(e.m68k, sets) == s
  }

  /** No address twice. */
  ghost predicate RowValid(row: seq<Entry>, s: nat, sets: nat)
    requires sets > 0
  {
    && (forall i :: 0 <= i < |row| ==> EntryValid(row[i], s, sets))
    && (forall i, j :: 0 <= i < j < |row| && row[i].arm != 0 ==> row[i].m68k != row[j].m68k)
  }

  // ---------------------------------------------------------------- one bucket

  predicate Current(u: TUnit, epoch: nat) { u.epoch == epoch }

  ghost predicate BucketValid(units: seq<TUnit>, epoch: nat, h: nat, hashSize: nat)
    requires hashSize > 0
  {
    && (forall j :: 0 <= j < |units| ==>
          HashOf(units[j].m68k, hashSize) == h && units[j].m68k < Free && units[j].entry != 0)
    && (forall i, j :: 0 <= i < j < |units| && Current(units[i], epoch) && Current(units[j], epoch) ==>
          units[i].m68k != units[j].m68k)
  }

  /** Current units of two buckets share an entry point only if they are the same. */
  ghost predicate Apart(a: seq<TUnit>, b: seq<TUnit>, epoch: nat) {
    forall u, v :: u in a && v in b && Current(u, epoch) && Current(v, epoch) && u.entry == v.entry ==> u == v
  }

  lemma ApartMembers(a: seq<TUnit>, b: seq<TUnit>, epoch: nat, u: TUnit, v: TUnit)
    requires Apart(a, b, epoch) && u in a && v in b && Current(u, epoch) && Current(v, epoch) && u.entry == v.entry
    ensures u == v
  {
  }

  lemma Prepended(units: seq<TUnit>, u: TUnit, epoch: nat, h: nat, hashSize: nat)
    requires hashSize > 0 && BucketValid(units, epoch, h, hashSize)
    requires Current(u, epoch) && u.m68k < Free && u.entry != 0 && HashOf(u.m68k, hashSize) == h
    requires BucketFind(units, epoch, u.m68k) == 0
    ensures BucketValid([u] + units, epoch, h, hashSize) && BucketFind([u] + units, epoch, u.m68k) == u.entry
    ensures forall v :: v in units ==> v in [u] + units
  {
    forall v | v in units && Current(v, epoch)
      ensures v.m68k != u.m68k
    {
      if v.m68k == u.m68k {
        UnitFound(units, epoch, h, hashSize, u.m68k, v.entry);
      }
    }
  }

  lemma PrependedApart(units: seq<TUnit>, others: seq<TUnit>, u: TUnit, epoch: nat)
    requires Apart(units, others, epoch) && Apart(others, units, epoch)
    requires forall v :: v in others && Current(v, epoch) ==> v.entry != u.entry
    ensures Apart([u] + units, others, epoch) && Apart(others, [u] + units, epoch)
  {
  }

  lemma PrependedSelf(units: seq<TUnit>, u: TUnit, epoch: nat)
    requires Apart(units, units, epoch)
    requires forall v :: v in units && Current(v, epoch) ==> v.entry != u.entry
    ensures Apart([u] + units, [u] + units, epoch)
  {
  }

  lemma FewerApart(units: seq<TUnit>, rest: seq<TUnit>, others: seq<TUnit>, fewer: seq<TUnit>, epoch: nat)
    requires Apart(units, others, epoch)
    requires (forall u :: u in rest ==> u in units) && (forall u :: u in fewer ==> u in others)
    ensures Apart(rest, fewer, epoch)
  {
  }

  lemma UnitFound(units: seq<TUnit>, epoch: nat, h: nat, hashSize: nat, pc: nat, arm: nat)
    requires hashSize > 0 && BucketValid(units, epoch, h, hashSize) && TUnit(epoch, pc, arm) in units
    ensures BucketFind(units, epoch, pc) == arm
  {
    var k :| 0 <= k < |units| && units[k] == TUnit(epoch, pc, arm);
    BucketFindIs(units, epoch, pc, k);
  }

  // ---------------------------------------------------------------- units that leave

  /** The bucket after REMOVE of one node. */
  function Without(units: seq<TUnit>, u: TUnit): seq<TUnit> {
    if units == [] then []
    else if units[0] == u then units[1..]
    else [units[0]] + Without(units[1..], u)
  }

  lemma {:induction false} WithoutMembers(units: seq<TUnit>, u: TUnit)
    ensures forall v :: v in Without(units, u) ==> v in units
    ensures forall v :: v in units && v != u ==> v in Without(units, u)
    decreases |units|
  {
    if units != [] && units[0] != u {
      WithoutMembers(units[1..], u);
    }
  }

  lemma {:induction false} WithoutValid(units: seq<TUnit>, u: TUnit, epoch: nat, h: nat, hashSize: nat)
    requires hashSize > 0 && BucketValid(units, epoch, h, hashSize)
    ensures BucketValid(Without(units, u), epoch, h, hashSize)
    ensures Current(u, epoch) ==> u !in Without(units, u)
    decreases |units|
  {
    if units != [] && units[0] != u {
      TailValid(units, epoch, h, hashSize);
      WithoutValid(units[1..], u, epoch, h, hashSize);
      WithoutMembers(units[1..], u);
      hide BucketValid;
      HeadValid(units[0], Without(units[1..], u), units, epoch, h, hashSize);
    }
  }

  lemma TailValid(units: seq<TUnit>, epoch: nat, h: nat, hashSize: nat)
    requires hashSize > 0 && units != [] && BucketValid(units, epoch, h, hashSize)
    ensures BucketValid(units[1..], epoch, h, hashSize)
  {
  }

  lemma HeadValid(u: TUnit, rest: seq<TUnit>, units: seq<TUnit>, epoch: nat, h: nat, hashSize: nat)
    requires hashSize > 0 && units != [] && units[0] == u && BucketValid(units, epoch, h, hashSize)
    requires BucketValid(rest, epoch, h, hashSize) && forall v :: v in rest ==> v in units[1..]
    ensures BucketValid([u] + rest, epoch, h, hashSize)
  {
    var all := [u] + rest;
    forall j | 1 <= j < |all|
      ensures exists m :: 1 <= m < |units| && units[m] == all[j]
    {
      assert all[j] in units[1..];
      var m :| 0 <= m < |units[1..]| && units[1..][m] == all[j];
      assert units[m + 1] == all[j];
    }
  }

  /** Of the current units of a bucket, those that have not left. */
  ghost predicate Stayed(before: seq<TUnit>, after: seq<TUnit>, gone: seq<TUnit>, epoch: nat) {
    forall v :: Current(v, epoch) ==> (v in after <==> v in before && v !in gone)
  }

  /** In a bucket without two current units of one address the search finds exactly the units in it. */
  lemma FindIsMember(units: seq<TUnit>, epoch: nat, h: nat, hashSize: nat, pc: nat, arm: nat)
    requires hashSize > 0 && BucketValid(units, epoch, h, hashSize) && arm != 0
    ensures BucketFind(units, epoch, pc) == arm <==> TUnit(epoch, pc, arm) in units
  {
    if TUnit(epoch, pc, arm) in units {
      UnitFound(units, epoch, h, hashSize, pc, arm);
    } else if BucketFind(units, epoch, pc) == arm {
      FoundMember(units, epoch, pc);
    }
    hide BucketValid;
  }

  lemma {:induction false} FoundMember(units: seq<TUnit>, epoch: nat, pc: nat)
    requires BucketFind(units, epoch, pc) != 0
    ensures TUnit(epoch, pc, BucketFind(units, epoch, pc)) in units
    decreases |units|
  {
    if !(units[0].epoch == epoch && units[0].m68k == pc) {
      FoundMember(units[1..], epoch, pc);
    } else {
      assert units[0] == TUnit(epoch, pc, units[0].entry);
    }
  }

  /** An address a guest PC can have, other than 0. */
  predicate EvenPc(pc: nat) { pc != 0 && pc % 2 == 0 && pc < 0x1_0000_0000 }

  class Cache {
    const ways: nat
    const sets: nat
    const hashSize: nat
    const entries: array<seq<Entry>>
    const alloc: array<Bits>
    const buckets: array<seq<TUnit>>
    var epoch: nat

    /** M68K_InitializeCache: no unit, no entry. */
    constructor (ways: nat, sets: nat, hashSize: nat, epoch: nat)
      requires 2 <= ways <= 32 && 0 < sets && 0 < hashSize
      ensures Valid() && fresh(entries) && fresh(alloc) && fresh(buckets) && this.epoch == epoch
      ensures this.ways == ways && this.sets == sets && this.hashSize == hashSize
      ensures forall h :: 0 <= h < hashSize ==> buckets[h] == []
    {
      this.ways, this.sets, this.hashSize, this.epoch := ways, sets, hashSize, epoch;
      entries := new seq<Entry>[sets](_ => seq(ways, i => Entry(Free, 0)));
      alloc := new Bits[sets](_ => seq(32, i => true));
      buckets := new seq<TUnit>[hashSize](_ => []);
      new;
      assert forall s :: 0 <= s < sets ==> alloc[s][0];
    }

    ghost predicate Shape()
      reads entries
    {
      && 2 <= ways <= 32 && 0 < sets && 0 < hashSize
      && entries.Length == sets && alloc.Length == sets && buckets.Length == hashSize
      && forall s :: 0 <= s < sets ==> |entries[s]| == ways
    }

    /** Some way of every set is available. */
    ghost predicate Available()
      requires Shape()
      reads this, entries, alloc
    {
      forall s :: 0 <= s < sets ==> !Exhausted(alloc[s], ways)
    }

    ghost predicate BucketsValid()
      requires Shape()
      reads this, entries, buckets
    {
      forall h :: 0 <= h < hashSize ==> BucketValid(buckets[h], epoch, h, hashSize)
    }

    /** In the current epoch two units share an entry point only if they are one. */
    ghost predicate EntryPointsUnique()
      requires Shape()
      reads this, entries, buckets
    {
      forall g, h :: 0 <= g < hashSize && 0 <= h < hashSize ==> Apart(buckets[g], buckets[h], epoch)
    }

    ghost predicate TableValid()
      requires Shape()
      reads this, entries
    {
      forall s :: 0 <= s < sets ==> RowValid(entries[s], s, sets)
    }

    /** The bucket of an address holds a current unit with it and this entry point. */
    ghost predicate Named(m68k: nat, arm: nat)
      requires Shape()
      reads this, entries, buckets
    {
      TUnit(epoch, m68k, arm) in buckets[HashOf(m68k, hashSize)]
    }

    /** Every live entry, except perhaps those of one address, names a unit. */
    ghost predicate NamesUnits(except: nat)
      requires Shape()
      reads this, entries, buckets
    {
      forall s, i :: 0 <= s < sets && 0 <= i < ways && entries[s][i].arm != 0 && entries[s][i].m68k != except ==>
        Named(entries[s][i].m68k, entries[s][i].arm)
    }

    ghost predicate ValidExcept(except: nat)
      reads this, entries, alloc, buckets
    {
      && Shape() && Available() && BucketsValid() && EntryPointsUnique() && TableValid() && NamesUnits(except)
    }

    ghost predicate Valid()
      reads this, entries, alloc, buckets
    {
      ValidExcept(Free)
    }

    /** The plain search for an address. */
    ghost function Plain(pc: nat): nat
      requires Shape()
      reads this, entries, buckets
    {
      BucketFind(buckets[HashOf(pc, hashSize)], epoch, pc)
    }

    /** The lookup: what the table says, else what the plain search says. */
    ghost function Lookup(pc: nat): nat
      requires Shape()
      reads this, entries, buckets
    {
      var row := entries[SetOf(pc, sets)];
      var k := IndexOf(TagsOf(row), pc);
      if k < ways && row[k].arm != 0 then row[k].arm else Plain(pc)
    }

    /** One set as the replacement policy sees it. */
    ghost function StateOf(s: nat): SetState
      requires Shape() && s < sets
      reads this, entries, alloc
    {
      SetState(TagsOf(entries[s]), alloc[s])
    }

    /** LRU_FindBlock: the entry point, or 0. */
    method FindBlock(address: nat) returns (arm: nat)
      requires Shape() && Available()
      modifies alloc
      ensures Available()
      ensures var s := (address / 16) % sets;
        var k := IndexOf(TagsOf(entries[s]), address);
        if k < ways then
          arm == entries[s][k].arm && alloc[..] == old(alloc[..])[s := Touch(old(alloc[s]), ways, k)]
        else arm == 0 && alloc[..] == old(alloc[..])
      ensures StateOf(SetOf(address, sets)) == Apply(old(StateOf(SetOf(address, sets))), Find(address))
    {
      var s := SetOf(address, sets);
      var i := 0;
      while i < ways
        invariant 0 <= i <= ways
        invariant forall j :: 0 <= j < i ==> entries[s][j].m68k != address
        invariant alloc[..] == old(alloc[..])
      {
        if entries[s][i].m68k == address {
          FirstIndex(TagsOf(entries[s]), address, i);
          TouchAvailableIff(alloc[s], ways, i);
          alloc[s] := Touch(alloc[s], ways, i);
          return entries[s][i].arm;
        }
        i := i + 1;
      }
      NoIndex(TagsOf(entries[s]), address);
      return 0;
    }

    /** LRU_InsertBlock. */
    method InsertBlock(u: TUnit)
      requires Shape() && Available()
      modifies entries, alloc
      ensures Shape() && Available()
      ensures var s := (u.m68k / 16) % sets;
        var k := Victim(old(alloc[s]));
        && k < ways
        && entries[..] == old(entries[..])[s := old(entries[s])[k := Entry(u.m68k, u.entry)]]
        && alloc[..] == old(alloc[..])[s := Touch(old(alloc[s]), ways, k)]
      ensures StateOf(SetOf(u.m68k, sets)) == Apply(old(StateOf(SetOf(u.m68k, sets))), Insert(u.m68k))
    {
      var s := SetOf(u.m68k, sets);
      VictimInRange(alloc[s], ways);
      TagsUpdated(entries[s], Victim(alloc[s]), Entry(u.m68k, u.entry));
      var loc := Victim(alloc[s]);
      TouchAvailableIff(alloc[s], ways, loc);
      entries[s] := entries[s][loc := Entry(u.m68k, u.entry)];
      alloc[s] := Touch(alloc[s], ways, loc);
    }

    /** FindUnitQuick: table first, then the bucket, from its head sentinel, whose key reads as epoch 0 and
        address 0; a unit found there enters the table.  As long as the invariant holds, the result for every
        even nonzero PC is that of the plain search. */
    method FindUnitQuick(pc: nat) returns (arm: nat)
      requires Shape() && Available() && EvenPc(pc)
      modifies entries, alloc
      ensures Shape() && Available() && arm == old(Lookup(pc))
      ensures old(Valid()) ==> Valid() && arm == Plain(pc) && (arm != 0 ==> IndexOf(TagsOf(entries[SetOf(pc, sets)]), pc) < ways)
    {
      hide BucketValid, RowValid, Exhausted, EntryValid, BucketFind, Touch;
      ghost var valid := Valid();
      ghost var row := entries[SetOf(pc, sets)];
      ghost var k := IndexOf(TagsOf(row), pc);
      if valid {
        if k < ways && row[k].arm != 0 {
          HitIsUnit(pc, k);
        } else {
          MissHasNoEntry(pc);
        }
      }
      arm := FindBlock(pc);
      if arm != 0 {
        return;
      }
      var u := Search(buckets[HashOf(pc, hashSize)], epoch, pc);
      arm := u.entry;
      if u.entry != 0 {
        Enter(u);
      }
    }

    /** LRU_InvalidateByM68kAddress stops at the first match: enough, since no address is there twice. */
    method InvalidateByM68kAddress(addr: nat)
      requires ValidExcept(addr) && addr < Free
      modifies entries, alloc
      ensures Valid()
      ensures forall s, i :: 0 <= s < sets && 0 <= i < ways ==>
        entries[s][i] == if old(entries[s][i]).m68k == addr then Entry(0xffff_ffff, 0) else old(entries[s][i])
      ensures StateOf(SetOf(addr, sets)) == Apply(old(StateOf(SetOf(addr, sets))), Invalidate(addr))
    {
      hide BucketValid, Apart;
      var s := SetOf(addr, sets);
      ghost var row := entries[s];
      assert RowValid(row, s, sets);
      OnlyInItsSet(addr);
      var i := 0;
      while i < ways
        invariant 0 <= i <= ways
        invariant ValidExcept(addr) && entries[..] == old(entries[..]) && alloc[..] == old(alloc[..])
        invariant forall j :: 0 <= j < i ==> row[j].m68k != addr
      {
        if entries[s][i].m68k == addr {
          entries[s] := entries[s][i := Entry(Free, 0)];
          assert alloc[s][i := true][i];
          alloc[s] := alloc[s][i := true];
          FirstIndex(TagsOf(row), addr, i);
          TagsUpdated(row, i, Entry(Free, 0));
          FreedRow(row, s, sets, i);
          assert forall t :: 0 <= t < sets && t != s ==> entries[t] == old(entries[..])[t];
          return;
        }
        i := i + 1;
      }
      NoIndex(TagsOf(row), addr);
    }

    /** An address is only in its own set. */
    lemma OnlyInItsSet(addr: nat)
      requires ValidExcept(addr) && addr < Free
      ensures forall t, j :: 0 <= t < sets && 0 <= j < ways && entries[t][j].m68k == addr ==> t == SetOf(addr, sets)
    {
      forall t, j | 0 <= t < sets && 0 <= j < ways && entries[t][j].m68k == addr
        ensures t == SetOf(addr, sets)
      {
        assert RowValid(entries[t], t, sets);
        assert EntryValid(entries[t][j], t, sets);
      }
    }

    /** LRU_InvalidateAll. */
    method InvalidateAll()
      requires Shape() && BucketsValid() && EntryPointsUnique()
      modifies entries, alloc
      ensures Valid()
      ensures forall s :: 0 <= s < sets ==> TagsOf(entries[s]) == Fresh(ways).tags && alloc[s] == Fresh(ways).bits
    {
      var s := 0;
      while s < sets
        invariant 0 <= s <= sets && Shape()
        invariant forall t :: 0 <= t < s ==> entries[t] == seq(ways, i => Entry(Free, 0))
        invariant forall t :: 0 <= t < s ==> alloc[t] == seq(32, i => true)
        invariant BucketsValid() && EntryPointsUnique()
      {
        entries[s] := seq(ways, i => Entry(Free, 0));
        alloc[s] := seq(32, i => true);
        s := s + 1;
      }
      assert forall t :: 0 <= t < sets ==> !Exhausted(alloc[t], ways) by {
        assert forall t :: 0 <= t < sets ==> alloc[t][0];
      }
    }

    /** A flush: the units of past epochs stay in their buckets, but no key matches them any more. */
    method Flush()
      requires Valid()
      requires forall h, u :: 0 <= h < hashSize && u in buckets[h] ==> u.epoch <= epoch
      modifies this, entries, alloc
      ensures Valid() && epoch == old(epoch) + 1
      ensures forall h :: 0 <= h < hashSize ==> forall pc :: BucketFind(buckets[h], epoch, pc) == 0
    {
      epoch := epoch + 1;
      forall h | 0 <= h < hashSize
        ensures BucketValid(buckets[h], epoch, h, hashSize)
      {
        assert BucketValid(buckets[h], old(epoch), h, hashSize);
      }
      InvalidateAll();
      forall h, pc: nat | 0 <= h < hashSize
        ensures BucketFind(buckets[h], epoch, pc) == 0
      {
        BucketFindNone(buckets[h], epoch, pc);
      }
    }

    /** A new unit goes to the head of its bucket (ADDHEAD). */
    method AddUnit(u: TUnit)
      requires Valid() && Current(u, epoch) && u.m68k < Free && u.entry != 0
      requires BucketFind(buckets[HashOf(u.m68k, hashSize)], epoch, u.m68k) == 0
      requires forall h, v :: 0 <= h < hashSize && v in buckets[h] && Current(v, epoch) ==> v.entry != u.entry
      modifies buckets
      ensures Valid()
      ensures var h := (u.m68k / 4) % hashSize;
        && buckets[..] == old(buckets[..])[h := [u] + old(buckets[h])]
        && BucketFind(buckets[h], epoch, u.m68k) == u.entry
    {
      hide BucketValid, RowValid, BucketFind, Apart, Exhausted;
      var h := HashOf(u.m68k, hashSize);
      ghost var units, all := buckets[h], buckets[..];
      assert BucketValid(units, epoch, h, hashSize);
      Prepended(units, u, epoch, h, hashSize);
      forall g | 0 <= g < hashSize && g != h
        ensures Apart([u] + units, all[g], epoch) && Apart(all[g], [u] + units, epoch)
      {
        PrependedApart(units, all[g], u, epoch);
      }
      PrependedSelf(units, u, epoch);
      buckets[h] := [u] + buckets[h];
      assert forall g :: 0 <= g < hashSize && g != h ==> buckets[g] == all[g];
    }

    /** What a removal would have to do, and none does: the unit leaves its bucket (REMOVE), and the table
        forgets its address. */
    method DropUnit(pc: nat, k: nat)
      requires Valid() && k < |buckets[HashOf(pc, hashSize)]| && pc < Free
      requires buckets[HashOf(pc, hashSize)][k].m68k == pc && Current(buckets[HashOf(pc, hashSize)][k], epoch)
      modifies buckets, entries, alloc
      ensures Valid()
      ensures BucketFind(buckets[HashOf(pc, hashSize)], epoch, pc) == 0
      ensures forall s, i :: 0 <= s < sets && 0 <= i < ways ==> entries[s][i].m68k != pc
    {
      RemoveUnit(pc, k);
      BucketFindNone(buckets[HashOf(pc, hashSize)], epoch, pc);
      InvalidateByM68kAddress(pc);
    }

    method RemoveUnit(pc: nat, k: nat)
      requires Valid() && k < |buckets[HashOf(pc, hashSize)]| && pc < Free
      requires buckets[HashOf(pc, hashSize)][k].m68k == pc && Current(buckets[HashOf(pc, hashSize)][k], epoch)
      modifies buckets
      ensures ValidExcept(pc)
      ensures var units := buckets[HashOf(pc, hashSize)];
        forall j :: 0 <= j < |units| ==> units[j].epoch != epoch || units[j].m68k != pc
    {
      hide BucketValid, RowValid, Apart, Exhausted;
      var h := HashOf(pc, hashSize);
      ghost var units, all := buckets[h], buckets[..];
      assert BucketValid(units, epoch, h, hashSize);
      var rest := buckets[h][..k] + buckets[h][k + 1..];
      WithoutUnit(units, rest, epoch, h, hashSize, k);
      forall g | 0 <= g < hashSize
        ensures Apart(rest, all[g], epoch) && Apart(all[g], rest, epoch) && Apart(rest, rest, epoch)
      {
        FewerApart(units, rest, all[g], all[g], epoch);
        FewerApart(all[g], all[g], units, rest, epoch);
        FewerApart(units, rest, units, rest, epoch);
      }
      buckets[h] := rest;
      assert forall g :: 0 <= g < hashSize && g != h ==> buckets[g] == all[g];
      OtherNames(all, units, rest, pc, k);
    }

    /** Entries for other addresses still name their units. */
    lemma OtherNames(all: seq<seq<TUnit>>, units: seq<TUnit>, rest: seq<TUnit>, pc: nat, k: nat)
      requires Shape() && |all| == hashSize && k < |units| && units[k].m68k == pc
      requires all[HashOf(pc, hashSize)] == units && buckets[..] == all[HashOf(pc, hashSize) := rest]
      requires forall u :: u in units && u != units[k] ==> u in rest
      requires forall s, i :: 0 <= s < sets && 0 <= i < ways && entries[s][i].arm != 0 && entries[s][i].m68k != Free ==>
        TUnit(epoch, entries[s][i].m68k, entries[s][i].arm) in all[HashOf(entries[s][i].m68k, hashSize)]
      requires TableValid()
      ensures NamesUnits(pc)
    {
      forall s, i | 0 <= s < sets && 0 <= i < ways && entries[s][i].arm != 0 && entries[s][i].m68k != pc
        ensures Named(entries[s][i].m68k, entries[s][i].arm)
      {
        assert RowValid(entries[s], s, sets);
        assert EntryValid(entries[s][i], s, sets);
        var u := TUnit(epoch, entries[s][i].m68k, entries[s][i].arm);
        assert u in all[HashOf(u.m68k, hashSize)];
      }
    }

    // -------------------------------------------------------------- eviction

    /** The buckets without the current units of a list. */
    ghost predicate Left(before: seq<seq<TUnit>>, gone: seq<TUnit>)
      requires Shape() && |before| == hashSize
      reads this, entries, buckets
    {
      forall h :: 0 <= h < hashSize ==> BucketValid(buckets[h], epoch, h, hashSize) && Stayed(before[h], buckets[h], gone, epoch)
    }

    /** When there is no memory for a new unit, up to 64 units go, least recently used first: off the list of
        all units, out of their buckets, and back to the allocator.  The table is not touched.  From then on the
        lookup agrees with the plain search, for every even nonzero PC, if and only if no entry of the table
        is that of an evicted unit. */
    method Evict(lru: seq<TUnit>) returns (rest: seq<TUnit>)
      requires Valid()
      modifies buckets
      ensures Shape() && Available()
      ensures |rest| == (if |lru| < 64 then 0 else |lru| - 64) && rest == lru[..|rest|]
      ensures var gone := lru[|rest|..];
        && Left(old(buckets[..]), gone)
        && ((forall pc | EvenPc(pc) :: Lookup(pc) == Plain(pc))
            <==> (forall s, i | 0 <= s < sets && 0 <= i < ways && entries[s][i].arm != 0 && EvenPc(entries[s][i].m68k)
                  :: TUnit(epoch, entries[s][i].m68k, entries[s][i].arm) !in gone))
    {
      hide BucketValid, RowValid, EntryValid, Apart, Exhausted, Lookup, Plain, Left, Available;
      ghost var before := buckets[..];
      HomeBuckets();
      rest := UnlinkTail(lru);
      StaleIff(before, lru[|rest|..]);
    }

    method UnlinkTail(lru: seq<TUnit>) returns (rest: seq<TUnit>)
      requires Shape() && Available() && BucketsValid()
      requires forall h, v :: 0 <= h < hashSize && v in buckets[h] ==> HashOf(v.m68k, hashSize) == h
      modifies buckets
      ensures |rest| == (if |lru| < 64 then 0 else |lru| - 64) && rest == lru[..|rest|]
      ensures Shape() && Available() && Left(old(buckets[..]), lru[|rest|..])
    {
      hide BucketValid, Exhausted;
      ghost var before := buckets[..];
      var n := 0;
      rest := lru;
      while n < 64 && rest != []
        invariant n <= 64 && n <= |lru| && rest == lru[..|lru| - n]
        invariant Shape() && Available() && Left(before, lru[|lru| - n..])
      {
        var u := rest[|rest| - 1];
        assert lru[|lru| - (n + 1)..] == [u] + lru[|lru| - n..];
        Unlink(u, before, lru[|lru| - n..]);
        rest := rest[..|rest| - 1];
        n := n + 1;
      }
    }

    lemma HomeBuckets()
      requires Shape() && BucketsValid()
      ensures forall h, v :: 0 <= h < hashSize && v in buckets[h] ==> HashOf(v.m68k, hashSize) == h
    {
      forall h | 0 <= h < hashSize
        ensures forall v :: v in buckets[h] ==> HashOf(v.m68k, hashSize) == h
      {
        assert BucketValid(buckets[h], epoch, h, hashSize);
      }
    }

    method Unlink(u: TUnit, ghost before: seq<seq<TUnit>>, ghost gone: seq<TUnit>)
      requires Shape() && Available() && |before| == hashSize && Left(before, gone)
      requires forall h, v :: 0 <= h < hashSize && v in before[h] ==> HashOf(v.m68k, hashSize) == h
      modifies buckets
      ensures Shape() && Available() && Left(before, [u] + gone)
    {
      hide BucketValid, RowValid, EntryValid, Apart, Exhausted;
      var h := HashOf(u.m68k, hashSize);
      ghost var units, all := buckets[h], buckets[..];
      WithoutValid(units, u, epoch, h, hashSize);
      WithoutMembers(units, u);
      buckets[h] := Without(buckets[h], u);
      forall g | 0 <= g < hashSize
        ensures BucketValid(buckets[g], epoch, g, hashSize) && Stayed(before[g], buckets[g], [u] + gone, epoch)
      {
        assert BucketValid(all[g], epoch, g, hashSize) && Stayed(before[g], all[g], gone, epoch);
        assert g != h ==> buckets[g] == all[g] && u !in before[g];
      }
    }

    /** The lookup agrees with the plain search if and only if no entry is that of a unit that has gone. */
    lemma StaleIff(before: seq<seq<TUnit>>, gone: seq<TUnit>)
      requires Shape() && TableValid() && |before| == hashSize && Left(before, gone)
      requires forall s, i :: 0 <= s < sets && 0 <= i < ways && entries[s][i].arm != 0 && entries[s][i].m68k != Free ==>
        TUnit(epoch, entries[s][i].m68k, entries[s][i].arm) in before[HashOf(entries[s][i].m68k, hashSize)]
      ensures (forall pc | EvenPc(pc) :: Lookup(pc) == Plain(pc))
         <==> (forall s, i | 0 <= s < sets && 0 <= i < ways && entries[s][i].arm != 0 && EvenPc(entries[s][i].m68k)
               :: TUnit(epoch, entries[s][i].m68k, entries[s][i].arm) !in gone)
    {
      hide BucketValid, RowValid, EntryValid, BucketFind;
      forall s, i | 0 <= s < sets && 0 <= i < ways && entries[s][i].arm != 0
        ensures var e := entries[s][i];
          Lookup(e.m68k) == e.arm && (Plain(e.m68k) == e.arm <==> TUnit(epoch, e.m68k, e.arm) !in gone)
      {
        EntryDecides(before, gone, s, i);
      }
      forall pc | EvenPc(pc)
        ensures Lookup(pc) == Plain(pc)
          || exists s, i :: 0 <= s < sets && 0 <= i < ways && entries[s][i].arm != 0 && entries[s][i].m68k == pc && Lookup(pc) == entries[s][i].arm
      {
        var k := IndexOf(TagsOf(entries[SetOf(pc, sets)]), pc);
        if Lookup(pc) != Plain(pc) {
          assert entries[SetOf(pc, sets)][k].m68k == pc;
        }
      }
    }

    lemma EntryDecides(before: seq<seq<TUnit>>, gone: seq<TUnit>, s: nat, i: nat)
      requires Shape() && TableValid() && |before| == hashSize && Left(before, gone)
      requires s < sets && i < ways && entries[s][i].arm != 0
      requires entries[s][i].m68k != Free ==>
        TUnit(epoch, entries[s][i].m68k, entries[s][i].arm) in before[HashOf(entries[s][i].m68k, hashSize)]
      ensures var e := entries[s][i];
        Lookup(e.m68k) == e.arm && (Plain(e.m68k) == e.arm <==> TUnit(epoch, e.m68k, e.arm) !in gone)
    {
      hide BucketValid, BucketFind;
      var e := entries[s][i];
      assert RowValid(entries[s], s, sets) && EntryValid(e, s, sets);
      OnlyIndex(entries[s], s, sets, i);
      var h := HashOf(e.m68k, hashSize);
      assert Stayed(before[h], buckets[h], gone, epoch) && BucketValid(buckets[h], epoch, h, hashSize);
      FindIsMember(buckets[h], epoch, h, hashSize, e.m68k, e.arm);
    }

    /** LRU_InvalidateByARMAddress stops at the first match: enough, since no entry point is there twice. */
    method InvalidateByArmAddress(arm: nat)
      requires Valid() && arm != 0
      modifies entries
      ensures Valid()
      ensures forall s, i :: 0 <= s < sets && 0 <= i < ways ==>
        entries[s][i] == if old(entries[s][i]).arm == arm then Entry(0xffff_ffff, 0) else old(entries[s][i])
    {
      var s := 0;
      while s < sets
        invariant 0 <= s <= sets && Valid() && entries[..] == old(entries[..])
        invariant forall t, j :: 0 <= t < s && 0 <= j < ways ==> entries[t][j].arm != arm
      {
        var i := 0;
        while i < ways
          invariant 0 <= i <= ways && Valid() && entries[..] == old(entries[..])
          invariant forall j :: 0 <= j < i ==> entries[s][j].arm != arm
          invariant forall t, j :: 0 <= t < s && 0 <= j < ways ==> entries[t][j].arm != arm
        {
          if entries[s][i].arm == arm {
            OnlyOneEntry(s, i);
            FreeEntry(s, i);
            return;
          }
          i := i + 1;
        }
        s := s + 1;
      }
    }

    method FreeEntry(s: nat, i: nat)
      requires Valid() && s < sets && i < ways
      modifies entries
      ensures Valid() && entries[..] == old(entries[..])[s := old(entries[s])[i := Entry(Free, 0)]]
    {
      hide BucketValid, Apart, Exhausted, EntryValid;
      ghost var row, all := entries[s], entries[..];
      assert RowValid(row, s, sets);
      FreedRow(row, s, sets, i);
      hide RowValid;
      entries[s] := entries[s][i := Entry(Free, 0)];
      assert forall t :: 0 <= t < sets && t != s ==> entries[t] == all[t];
    }

    lemma OnlyOneEntry(s: nat, i: nat)
      requires Valid() && s < sets && i < ways && entries[s][i].arm != 0
      ensures forall t, j :: 0 <= t < sets && 0 <= j < ways && entries[t][j].arm == entries[s][i].arm ==> t == s && j == i
    {
      forall t, j | 0 <= t < sets && 0 <= j < ways && entries[t][j].arm == entries[s][i].arm
        ensures t == s && j == i
      {
        SameEntry(s, i, t, j);
      }
    }

    lemma SameEntry(s: nat, i: nat, t: nat, j: nat)
      requires Valid() && s < sets && i < ways && t < sets && j < ways
      requires entries[s][i].arm != 0 && entries[t][j].arm == entries[s][i].arm
      ensures t == s && j == i
    {
      hide BucketValid, Exhausted, Apart;
      var e, f := entries[s][i], entries[t][j];
      assert RowValid(entries[s], s, sets) && RowValid(entries[t], t, sets);
      assert EntryValid(e, s, sets) && EntryValid(f, t, sets);
      assert Named(e.m68k, e.arm) && Named(f.m68k, f.arm);
      ApartMembers(buckets[HashOf(e.m68k, hashSize)], buckets[HashOf(f.m68k, hashSize)], epoch,
                   TUnit(epoch, e.m68k, e.arm), TUnit(epoch, f.m68k, f.arm));
    }

    /** Entering a current unit that the table does not hold keeps the invariant. */
    method Enter(u: TUnit)
      requires Shape() && Available()
      modifies entries, alloc
      ensures Shape() && Available()
      ensures old(Valid()) && Current(u, epoch) && u in buckets[HashOf(u.m68k, hashSize)]
        && (forall i :: 0 <= i < ways ==> old(entries[SetOf(u.m68k, sets)])[i].m68k != u.m68k)
        ==> Valid() && IndexOf(TagsOf(entries[SetOf(u.m68k, sets)]), u.m68k) < ways
    {
      ghost var s := SetOf(u.m68k, sets);
      ghost var row := entries[s];
      ghost var k := Victim(alloc[s]);
      hide BucketValid, RowValid, EntryValid, Apart, Exhausted, Touch;
      ghost var keeps := Valid() && Current(u, epoch) && u in buckets[HashOf(u.m68k, hashSize)]
        && forall i :: 0 <= i < ways ==> row[i].m68k != u.m68k;
      InsertBlock(u);
      if keeps {
        assert RowValid(row, s, sets);
        assert BucketValid(buckets[HashOf(u.m68k, hashSize)], epoch, HashOf(u.m68k, hashSize), hashSize);
        EnteredRow(row, s, sets, k, u, buckets[HashOf(u.m68k, hashSize)], epoch, hashSize);
        assert entries[s] == row[k := Entry(u.m68k, u.entry)];
        assert forall t :: 0 <= t < sets && t != s ==> entries[t] == old(entries[..])[t];
        FoundIndex(TagsOf(entries[s]), u.m68k, k);
      }
    }

    /** A table entry for an address is what the plain search finds. */
    lemma HitIsUnit(pc: nat, k: nat)
      requires Valid() && pc < Free && k < ways
      requires entries[SetOf(pc, sets)][k].m68k == pc && entries[SetOf(pc, sets)][k].arm != 0
      ensures BucketFind(buckets[HashOf(pc, hashSize)], epoch, pc) == entries[SetOf(pc, sets)][k].arm
    {
      var h, arm := HashOf(pc, hashSize), entries[SetOf(pc, sets)][k].arm;
      assert Named(pc, arm);
      UnitFound(buckets[h], epoch, h, hashSize, pc, arm);
    }

    lemma MissHasNoEntry(pc: nat)
      requires Valid() && pc < Free
      requires var row := entries[SetOf(pc, sets)];
        IndexOf(TagsOf(row), pc) < ways ==> row[IndexOf(TagsOf(row), pc)].arm == 0
      ensures forall i :: 0 <= i < ways ==> entries[SetOf(pc, sets)][i].m68k != pc
    {
      var s := SetOf(pc, sets);
      var row := entries[s];
      var k := IndexOf(TagsOf(row), pc);
      assert RowValid(row, s, sets);
      assert forall i :: 0 <= i < ways ==> EntryValid(row[i], s, sets);
    }
  }

  /** A cache whose one unit has been looked up. */
  method OneUnit(u: TUnit) returns (c: Cache)
    requires u == TUnit(1, 8, 64)
    ensures fresh(c) && fresh(c.entries) && fresh(c.alloc) && fresh(c.buckets)
    ensures c.Valid() && c.sets == 1 && c.hashSize == 1 && c.epoch == 1 && c.buckets[0] == [u]
    ensures var k := IndexOf(TagsOf(c.entries[0]), 8); k < c.ways && c.entries[0][k].arm != 0
  {
    hide BucketValid, Apart, Exhausted;
    c := new Cache(2, 1, 1, 1);
    c.AddUnit(u);
    var first := c.FindUnitQuick(8);
    assert RowValid(c.entries[0], 0, 1);
    assert EntryValid(c.entries[0][IndexOf(TagsOf(c.entries[0]), 8)], 0, 1);
  }

  /** The failure in full: a unit is added, looked up, and evicted; the next lookup still finds its code. */
  method StaleHit() returns (c: Cache, arm: nat)
    ensures c.Shape() && arm != 0 && c.Plain(8) == 0
  {
    hide BucketValid, RowValid, EntryValid, Apart, Exhausted, BucketFind;
    var u := TUnit(1, 8, 64);
    c := OneUnit(u);
    var rest := c.Evict([u]);
    forall v | v in c.buckets[0]
      ensures v.epoch != 1 || v.m68k != 8
    {
      assert Stayed([u], c.buckets[0], [u], 1);
    }
    BucketFindNone(c.buckets[0], 1, 8);
    arm := c.FindUnitQuick(8);
  }

  lemma OnlyIndex(row: seq<Entry>, s: nat, sets: nat, i: nat)
    requires sets > 0 && RowValid(row, s, sets) && i < |row| && row[i].arm != 0
    ensures IndexOf(TagsOf(row), row[i].m68k) == i
  {
    assert forall j :: 0 <= j < |row| ==> EntryValid(row[j], s, sets) && TagsOf(row)[j] == row[j].m68k;
  }

  lemma TagsUpdated(row: seq<Entry>, k: nat, e: Entry)
    requires k < |row|
    ensures TagsOf(row[k := e]) == TagsOf(row)[k := e.m68k]
  {
  }

  /** The walk through a bucket, head sentinel first. */
  method Search(units: seq<TUnit>, epoch: nat, pc: nat) returns (u: TUnit)
    requires pc != 0
    ensures u.entry == BucketFind(units, epoch, pc)
    ensures u.entry != 0 ==> Current(u, epoch) && u.m68k == pc && u in units
  {
    var nodes := [TUnit(0, 0, 1)] + units;
    var j := 0;
    while j < |nodes|
      invariant 0 <= j <= |nodes|
      invariant forall i :: 0 <= i < j ==> nodes[i].epoch != epoch || nodes[i].m68k != pc
    {
      if nodes[j].epoch == epoch && nodes[j].m68k == pc {
        assert nodes[j] == units[j - 1];
        assert forall i :: 0 <= i < j - 1 ==> units[i] == nodes[i + 1];
        BucketFindIs(units, epoch, pc, j - 1);
        return nodes[j];
      }
      j := j + 1;
    }
    assert forall i :: 0 <= i < |units| ==> units[i] == nodes[i + 1];
    BucketFindNone(units, epoch, pc);
    return TUnit(0, 0, 0);
  }

  /** The head sentinel matches the key made of epoch 0 and address 0, and no other. */
  lemma SentinelKey(epoch: nat, pc: nat)
    ensures BucketFind([TUnit(0, 0, 1)], epoch, pc) != 0 <==> epoch == 0 && pc == 0
  {
    if epoch == 0 && pc == 0 {
      BucketFindIs([TUnit(0, 0, 1)], epoch, pc, 0);
    } else {
      BucketFindNone([TUnit(0, 0, 1)], epoch, pc);
    }
  }

  lemma EnteredRow(row: seq<Entry>, s: nat, sets: nat, k: nat, u: TUnit, units: seq<TUnit>, epoch: nat, hashSize: nat)
    requires sets > 0 && hashSize > 0 && RowValid(row, s, sets) && k < |row| && SetOf(u.m68k, sets) == s
    requires forall i :: 0 <= i < |row| ==> row[i].m68k != u.m68k
    requires BucketValid(units, epoch, HashOf(u.m68k, hashSize), hashSize) && u in units
    ensures RowValid(row[k := Entry(u.m68k, u.entry)], s, sets)
  {
  }

  lemma FreedRow(row: seq<Entry>, s: nat, sets: nat, i: nat)
    requires sets > 0 && RowValid(row, s, sets) && i < |row|
    ensures RowValid(row[i := Entry(Free, 0)], s, sets)
  {
  }

  lemma WithoutUnit(units: seq<TUnit>, rest: seq<TUnit>, epoch: nat, h: nat, hashSize: nat, k: nat)
    requires hashSize > 0 && BucketValid(units, epoch, h, hashSize) && k < |units| && Current(units[k], epoch)
    requires rest == units[..k] + units[k + 1..]
    ensures BucketValid(rest, epoch, h, hashSize)
    ensures forall j :: 0 <= j < |rest| ==> rest[j] in units && (rest[j].epoch != epoch || rest[j].m68k != units[k].m68k)
    ensures forall u :: u in units && u != units[k] ==> u in rest
  {
    forall u | u in units && u != units[k]
      ensures u in rest
    {
      var j :| 0 <= j < |units| && units[j] == u;
      assert rest[if j < k then j else j - 1] == u;
    }
  }

  lemma FirstIndex(tags: seq<nat>, addr: nat, i: nat)
    requires i < |tags| && tags[i] == addr && forall j :: 0 <= j < i ==> tags[j] != addr
    ensures IndexOf(tags, addr) == i
  {
  }

  lemma NoIndex(tags: seq<nat>, addr: nat)
    requires forall j :: 0 <= j < |tags| ==> tags[j] != addr
    ensures IndexOf(tags, addr) == |tags|
  {
  }

  lemma FoundIndex(tags: seq<nat>, addr: nat, k: nat)
    requires k < |tags| && tags[k] == addr
    ensures IndexOf(tags, addr) < |tags|
  {
  }
}
