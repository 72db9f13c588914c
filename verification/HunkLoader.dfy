/**
  Loading Amiga hunk files (emu68/src/HunkLoader.c): pre-allocation of the hunks with their size and next
  fields, the size GetHunkFileSize reports for them, the walk along the chain, and relocation.  Memory is
  bytes; longwords are stored most significant byte first.  The virtual base is the load address.
*/
module HunkLoader {
  import opened Memory

  function Zero(m: Bytes, a: int, n: nat): Bytes {
    q => if a <= q < a + n then 0 else m(q)
  }

  lemma ReadZeroed(m: Bytes, a: int, n: nat, q: int)
    ensures a <= q && q + 4 <= a + n ==> ReadLong(Zero(m, a, n), q) == 0
    ensures q + 4 <= a || a + n <= q ==> ReadLong(Zero(m, a, n), q) == ReadLong(m, q)
  {
  }

  // ---------------------------------------------------------------- layout

  /** A hunk begins with h_Size and h_Next; its data follow. */
  const Header: nat := 8

  function Round32(n: nat): nat { (n + 31) / 32 * 32 }

  lemma RoundsUp(n: nat)
    ensures n <= Round32(n) < n + 32
  {
  }

  /** Where hunk i is allocated. */
  function At(sizes: seq<nat>, p: nat, i: nat): nat
    requires i <= |sizes|
  {
    if i == 0 then p else At(sizes, p, i - 1) + Round32(sizes[i - 1] + Header)
  }

  /** The address a next field holds, and the address of the data. */
  function NextField(sizes: seq<nat>, p: nat, i: nat): nat
    requires i <= |sizes|
  {
    At(sizes, p, i) + 4
  }

  function DataOf(sizes: seq<nat>, p: nat, i: nat): nat
    requires i <= |sizes|
  {
    At(sizes, p, i) + Header
  }

  /** GetHunkFileSize: sixteen bytes more for each hunk. */
  function ReportedSize(sizes: seq<nat>): nat {
    if sizes == [] then 0
    else ReportedSize(sizes[..|sizes| - 1]) + Round32(sizes[|sizes| - 1] + Header + 16)
  }

  /** The layout in numbers: the first hunk is at p, the next field four and the data eight bytes into a hunk, and the
      next hunk follows at the smallest multiple of 32 bytes that holds both header and data. */
  lemma LayoutInNumbers(sizes: seq<nat>, p: nat, i: nat)
    requires i < |sizes|
    ensures At(sizes, p, 0) == p && NextField(sizes, p, i) == At(sizes, p, i) + 4 && DataOf(sizes, p, i) == At(sizes, p, i) + 8
    ensures var d := At(sizes, p, i + 1) - At(sizes, p, i);
      d % 32 == 0 && 8 + sizes[i] <= d < 8 + sizes[i] + 32
  {
    RoundsUp(sizes[i] + Header);
  }

  /** And what GetHunkFileSize counts for one more hunk: the smallest multiple of 32 that holds 24 bytes more than its
      data. */
  lemma ReportInNumbers(sizes: seq<nat>, n: nat)
    ensures var d := ReportedSize(sizes + [n]) - ReportedSize(sizes);
      ReportedSize([]) == 0 && d % 32 == 0 && 24 + n <= d < 24 + n + 32
  {
    assert (sizes + [n])[..|sizes|] == sizes;
    RoundsUp(n + Header + 16);
  }

  /** Hunks lie one after the other: each ends, data included, where or before a later one begins. */
  lemma {:induction false} Apart(sizes: seq<nat>, p: nat, i: nat, j: nat)
    requires i < j <= |sizes|
    ensures At(sizes, p, i) + Header + sizes[i] <= At(sizes, p, j)
    decreases j
  {
    RoundsUp(sizes[j - 1] + Header);
    if i < j - 1 {
      Apart(sizes, p, i, j - 1);
    }
  }

  lemma {:induction false} NotBelow(sizes: seq<nat>, p: nat, i: nat)
    requires i <= |sizes|
    ensures p <= At(sizes, p, i)
    decreases i
  {
    if i > 0 {
      NotBelow(sizes, p, i - 1);
    }
  }

  lemma {:induction false} AtPrefix(sizes: seq<nat>, p: nat, i: nat, k: nat)
    requires i <= k <= |sizes|
    ensures At(sizes[..k], p, i) == At(sizes, p, i)
    decreases i
  {
    if i > 0 {
      AtPrefix(sizes, p, i - 1, k);
    }
  }

  lemma RoundGrows(a: nat, b: nat)
    requires a <= b
    ensures Round32(a) <= Round32(b)
  {
    assert (a + 31) / 32 <= (b + 31) / 32;
  }

  /** The reported size is enough for all of them. */
  lemma {:induction false} ReportedSizeSuffices(sizes: seq<nat>, p: nat)
    ensures At(sizes, p, |sizes|) <= p + ReportedSize(sizes)
    decreases |sizes|
  {
    hide Round32;
    if sizes != [] {
      var k := |sizes| - 1;
      ReportedSizeSuffices(sizes[..k], p);
      AtPrefix(sizes, p, k, k);
      RoundGrows(sizes[k] + Header, sizes[k] + Header + 16);
    }
  }

  /** All hunks are pairwise disjoint and inside the memory that was asked for. */
  lemma HunksFit(sizes: seq<nat>, p: nat, i: nat, j: nat)
    requires i < j < |sizes|
    ensures At(sizes, p, i) + Header + sizes[i] <= At(sizes, p, j)
    ensures p <= At(sizes, p, i) && At(sizes, p, j) + Header + sizes[j] <= p + ReportedSize(sizes)
  {
    Apart(sizes, p, i, j);
    Apart(sizes, p, j, |sizes|);
    NotBelow(sizes, p, i);
    ReportedSizeSuffices(sizes, p);
  }

  // ---------------------------------------------------------------- the chain

  /** The first i hunks have their fields: size, and the next field of the following one (0 in the last). */
  ghost predicate Chained(m: Bytes, sizes: seq<nat>, p: nat, i: nat)
    requires i <= |sizes|
  {
    forall j :: 0 <= j < i ==>
      && ReadLong(m, At(sizes, p, j)) == sizes[j]
      && ReadLong(m, NextField(sizes, p, j)) == if j + 1 < i then NextField(sizes, p, j + 1) else 0
  }

  /** The data of the first i hunks are zero. */
  ghost predicate Cleared(m: Bytes, sizes: seq<nat>, p: nat, i: nat)
    requires i <= |sizes|
  {
    forall j, q :: 0 <= j < i && DataOf(sizes, p, j) <= q < DataOf(sizes, p, j) + sizes[j] ==> m(q) == 0
  }

  /** Memory outside a range is as before. */
  ghost predicate Outside(m: Bytes, m': Bytes, lo: int, hi: int) {
    forall q :: q < lo || hi <= q ==> m'(q) == m(q)
  }

  /** One more hunk: cleared, its fields written, and linked from the one before. */
  function AddHunk(m: Bytes, sizes: seq<nat>, p: nat, i: nat): Bytes
    requires i < |sizes|
  {
    var h := At(sizes, p, i);
    var m1 := WriteLong(WriteLong(Zero(m, h, sizes[i] + Header), h + 4, 0), h, sizes[i]);
    if i == 0 then m1 else WriteLong(m1, NextField(sizes, p, i - 1), h + 4)
  }

  lemma AddHunkFields(m: Bytes, sizes: seq<nat>, p: nat, i: nat)
    requires i < |sizes| && At(sizes, p, |sizes|) < 0x1_0000_0000
    requires Chained(m, sizes, p, i)
    ensures Chained(AddHunk(m, sizes, p, i), sizes, p, i + 1)
  {
    hide ReadLong, WriteLong, Zero, Round32, At;
    var h := At(sizes, p, i);
    var z := Zero(m, h, sizes[i] + Header);
    var w := WriteLong(z, h + 4, 0);
    var m1 := WriteLong(w, h, sizes[i]);
    var m2 := AddHunk(m, sizes, p, i);
    Apart(sizes, p, i, |sizes|);
    LongWritten(z, h + 4, 0);
    LongElsewhere(w, h, sizes[i], h + 4);
    LongWritten(w, h, sizes[i]);
    forall j | 0 <= j < i + 1
      ensures ReadLong(m2, At(sizes, p, j)) == sizes[j]
      ensures ReadLong(m2, NextField(sizes, p, j)) == if j + 1 < i + 1 then NextField(sizes, p, j + 1) else 0
    {
      if i > 0 {
        var prev := NextField(sizes, p, i - 1);
        Apart(sizes, p, i - 1, i);
        LongWritten(m1, prev, h + 4);
        if j < i - 1 {
          Apart(sizes, p, j, i - 1);
        }
        LongElsewhere(m1, prev, h + 4, At(sizes, p, j));
        if j != i - 1 {
          LongElsewhere(m1, prev, h + 4, NextField(sizes, p, j));
        }
      }
      if j < i {
        Apart(sizes, p, j, i);
        OldFields(m, h, sizes[i], At(sizes, p, j));
        OldFields(m, h, sizes[i], NextField(sizes, p, j));
      }
    }
  }

  /** Fields below a new hunk are not touched by its initialisation. */
  lemma OldFields(m: Bytes, h: int, size: nat, q: int)
    requires q + 4 <= h
    ensures ReadLong(WriteLong(WriteLong(Zero(m, h, size + Header), h + 4, 0), h, size), q) == ReadLong(m, q)
  {
    var z := Zero(m, h, size + Header);
    ReadZeroed(m, h, size + Header, q);
    LongElsewhere(z, h + 4, 0, q);
    LongElsewhere(WriteLong(z, h + 4, 0), h, size, q);
    hide ReadLong, WriteLong, Zero;
  }

  lemma WriteFrame(m: Bytes, a: int, v: int)
    ensures Outside(m, WriteLong(m, a, v), a, a + 4)
  {
  }

  /** Initialising a hunk clears its data and touches nothing outside it. */
  lemma InitFrame(m: Bytes, h: int, size: nat)
    ensures var m1 := WriteLong(WriteLong(Zero(m, h, size + Header), h + 4, 0), h, size);
      Outside(m, m1, h, h + Header + size) && forall q :: h + Header <= q < h + Header + size ==> m1(q) == 0
  {
    var z := Zero(m, h, size + Header);
    WriteFrame(z, h + 4, 0);
    WriteFrame(WriteLong(z, h + 4, 0), h, size);
    hide WriteLong;
  }

  lemma AddHunkFrame(m: Bytes, sizes: seq<nat>, p: nat, i: nat)
    requires i < |sizes|
    ensures var m2 := AddHunk(m, sizes, p, i);
      && Outside(m, m2, if i == 0 then p else At(sizes, p, i - 1) + 4, At(sizes, p, i + 1))
      && (i > 0 ==> forall q :: At(sizes, p, i - 1) + 8 <= q < At(sizes, p, i) ==> m2(q) == m(q))
      && forall q :: DataOf(sizes, p, i) <= q < DataOf(sizes, p, i) + sizes[i] ==> m2(q) == 0
  {
    var h := At(sizes, p, i);
    Apart(sizes, p, i, i + 1);
    InitFrame(m, h, sizes[i]);
    if i > 0 {
      Apart(sizes, p, i - 1, i);
      var m1 := WriteLong(WriteLong(Zero(m, h, sizes[i] + Header), h + 4, 0), h, sizes[i]);
      WriteFrame(m1, NextField(sizes, p, i - 1), h + 4);
    }
    hide At, Round32, WriteLong, Zero;
  }

  lemma AddHunkByte(m: Bytes, sizes: seq<nat>, p: nat, i: nat, j: nat, q: int)
    requires i < |sizes| && Cleared(m, sizes, p, i)
    requires j <= i && DataOf(sizes, p, j) <= q < DataOf(sizes, p, j) + sizes[j]
    ensures AddHunk(m, sizes, p, i)(q) == 0
  {
    hide AddHunk, At, Round32, Cleared;
    AddHunkFrame(m, sizes, p, i);
    if j < i {
      ClearedAt(m, sizes, p, i, j, q);
      Apart(sizes, p, j, i);
      if j < i - 1 {
        Apart(sizes, p, j, i - 1);
      }
    }
  }

  lemma ClearedAt(m: Bytes, sizes: seq<nat>, p: nat, i: nat, j: nat, q: int)
    requires i <= |sizes| && Cleared(m, sizes, p, i)
    requires j < i && DataOf(sizes, p, j) <= q < DataOf(sizes, p, j) + sizes[j]
    ensures m(q) == 0
  {
    hide At;
  }

  lemma AddHunkData(m: Bytes, sizes: seq<nat>, p: nat, i: nat)
    requires i < |sizes| && Cleared(m, sizes, p, i)
    ensures Cleared(AddHunk(m, sizes, p, i), sizes, p, i + 1)
    ensures Outside(m, AddHunk(m, sizes, p, i), if i == 0 then p else At(sizes, p, i - 1) + 4, At(sizes, p, i + 1))
  {
    AddHunkFrame(m, sizes, p, i);
    hide AddHunk, At, Round32, Outside;
    forall j, q | 0 <= j < i + 1 && DataOf(sizes, p, j) <= q < DataOf(sizes, p, j) + sizes[j]
      ensures AddHunk(m, sizes, p, i)(q) == 0
    {
      AddHunkByte(m, sizes, p, i, j, q);
    }
  }

  /** 32-bit addition. */
  function Sum32(x: int, y: int): (r: int)
    ensures 0 <= r < 0x1_0000_0000
  {
    (x + y) % 0x1_0000_0000
  }

  /** What a relocation adds: the address of the target's data, relative to the hunk's own if so asked. */
  function Reference(sizes: seq<nat>, p: nat, h: nat, pcRelative: bool, target: nat): int
    requires h < |sizes| && target < |sizes|
  {
    DataOf(sizes, p, target) - if pcRelative then DataOf(sizes, p, h) else 0
  }

  /** In numbers: the data of a hunk begin eight bytes into it. */
  lemma ReferenceAdds(sizes: seq<nat>, p: nat, h: nat, pcRelative: bool, target: nat, x: int)
    requires h < |sizes| && target < |sizes|
    ensures (x + Reference(sizes, p, h, pcRelative, target)) % 0x1_0000_0000
      == (x + At(sizes, p, target) + 8 - if pcRelative then At(sizes, p, h) + 8 else 0) % 0x1_0000_0000
  {
    hide At;
  }

  /** The memory after a relocation: offset after offset, the longword there goes up by `ref`, modulo 2^32. */
  function Relocated(m: Bytes, base: int, offsets: seq<nat>, ref: int): Bytes {
    if offsets == [] then m
    else
      var a := base + offsets[0];
      Relocated(WriteLong(m, a, Sum32(ReadLong(m, a), ref)), base, offsets[1..], ref)
  }

  /** Offsets of different longwords. */
  predicate Separate(offsets: seq<nat>) {
    forall i, j :: 0 <= i < j < |offsets| ==> offsets[i] + 4 <= offsets[j] || offsets[j] + 4 <= offsets[i]
  }

  /** A longword away from all offsets is kept. */
  lemma {:induction false} RelocatedElsewhere(m: Bytes, base: int, offsets: seq<nat>, ref: int, q: int)
    requires forall i :: 0 <= i < |offsets| ==> q + 4 <= base + offsets[i] || base + offsets[i] + 4 <= q
    ensures ReadLong(Relocated(m, base, offsets, ref), q) == ReadLong(m, q)
    decreases |offsets|
  {
    if offsets != [] {
      hide ReadLong, WriteLong, Sum32;
      var a := base + offsets[0];
      var v := Sum32(ReadLong(m, a), ref);
      LongElsewhere(m, a, v, q);
      RelocatedElsewhere(WriteLong(m, a, v), base, offsets[1..], ref, q);
    }
  }

  /** Each relocated longword is its old value plus the reference. */
  lemma {:induction false} RelocatedAt(m: Bytes, base: int, offsets: seq<nat>, ref: int, k: nat)
    requires Separate(offsets) && k < |offsets|
    ensures ReadLong(Relocated(m, base, offsets, ref), base + offsets[k])
         == (ReadLong(m, base + offsets[k]) + ref) % 0x1_0000_0000
    decreases |offsets|
  {
    hide ReadLong, WriteLong;
    var a := base + offsets[0];
    var v := Sum32(ReadLong(m, a), ref);
    var m' := WriteLong(m, a, v);
    if k == 0 {
      LongWritten(m, a, v);
      RelocatedElsewhere(m', base, offsets[1..], ref, a);
    } else {
      LongElsewhere(m, a, v, base + offsets[k]);
      RelocatedAt(m', base, offsets[1..], ref, k - 1);
    }
  }

  lemma SameFields(m: Bytes, m': Bytes, sizes: seq<nat>, p: nat, i: nat)
    requires i <= |sizes| && Chained(m, sizes, p, i)
    requires forall j :: 0 <= j < i ==> ReadLong(m', At(sizes, p, j)) == ReadLong(m, At(sizes, p, j))
    requires forall j :: 0 <= j < i ==> ReadLong(m', NextField(sizes, p, j)) == ReadLong(m, NextField(sizes, p, j))
    ensures Chained(m', sizes, p, i)
  {
    hide ReadLong, At, NextField;
  }

  /** Relocations inside the data of a hunk leave the chain as it is. */
  lemma RelocatedChain(m: Bytes, sizes: seq<nat>, p: nat, h: nat, offsets: seq<nat>, ref: int)
    requires h < |sizes| && Chained(m, sizes, p, |sizes|)
    requires forall i :: 0 <= i < |offsets| ==> offsets[i] + 4 <= sizes[h]
    ensures Chained(Relocated(m, DataOf(sizes, p, h), offsets, ref), sizes, p, |sizes|)
  {
    var m' := Relocated(m, DataOf(sizes, p, h), offsets, ref);
    forall j | 0 <= j < |sizes|
      ensures ReadLong(m', At(sizes, p, j)) == ReadLong(m, At(sizes, p, j))
      ensures ReadLong(m', NextField(sizes, p, j)) == ReadLong(m, NextField(sizes, p, j))
    {
      FieldKept(m, sizes, p, h, offsets, ref, j);
    }
    hide ReadLong, At, NextField, Chained, Relocated;
    SameFields(m, m', sizes, p, |sizes|);
  }

  lemma FieldKept(m: Bytes, sizes: seq<nat>, p: nat, h: nat, offsets: seq<nat>, ref: int, j: nat)
    requires h < |sizes| && j < |sizes|
    requires forall i :: 0 <= i < |offsets| ==> offsets[i] + 4 <= sizes[h]
    ensures var m' := Relocated(m, DataOf(sizes, p, h), offsets, ref);
      && ReadLong(m', At(sizes, p, j)) == ReadLong(m, At(sizes, p, j))
      && ReadLong(m', NextField(sizes, p, j)) == ReadLong(m, NextField(sizes, p, j))
  {
    hide ReadLong, Relocated, At;
    if j < h {
      Apart(sizes, p, j, h);
    } else if h < j {
      Apart(sizes, p, h, j);
    }
    RelocatedElsewhere(m, DataOf(sizes, p, h), offsets, ref, At(sizes, p, j));
    RelocatedElsewhere(m, DataOf(sizes, p, h), offsets, ref, NextField(sizes, p, j));
  }

  class Loader {
    var mem: Bytes
    var pool: nat

    /** _my_malloc */
    method Malloc(size: nat) returns (ptr: nat)
      modifies this`pool
      ensures ptr == old(pool) && pool == old(pool) + Round32(size)
    {
      ptr := pool;
      pool := pool + Round32(size);
    }

    /** Pre-allocation of all hunks from the load address. */
    method Preallocate(sizes: seq<nat>, p: nat)
      requires At(sizes, p, |sizes|) < 0x1_0000_0000
      modifies this
      ensures pool == At(sizes, p, |sizes|)
      ensures Chained(mem, sizes, p, |sizes|) && Cleared(mem, sizes, p, |sizes|)
      ensures Outside(old(mem), mem, p, p + ReportedSize(sizes))
    {
      hide WriteLong, Zero, Chained, Cleared, Round32;
      pool := p;
      var prevhunk := 0;
      var i := 0;
      NoHunks(mem, sizes, p);
      while i < |sizes|
        invariant 0 <= i <= |sizes| && pool == At(sizes, p, i)
        invariant i > 0 ==> prevhunk == NextField(sizes, p, i - 1)
        invariant Chained(mem, sizes, p, i) && Cleared(mem, sizes, p, i)
        invariant Outside(old(mem), mem, p, At(sizes, p, i))
      {
        AddHunkFields(mem, sizes, p, i);
        AddHunkData(mem, sizes, p, i);
        StillOutside(old(mem), mem, sizes, p, i);
        var size := sizes[i];
        var h := Malloc(size + Header);
        mem := Zero(mem, h, size + Header);
        mem := WriteLong(mem, h + 4, 0);
        mem := WriteLong(mem, h, size);
        if i > 0 {
          mem := WriteLong(mem, prevhunk, h + 4);
        }
        prevhunk := h + 4;
        i := i + 1;
      }
      ReportedSizeSuffices(sizes, p);
    }

    lemma NoHunks(m: Bytes, sizes: seq<nat>, p: nat)
      ensures Chained(m, sizes, p, 0) && Cleared(m, sizes, p, 0)
    {
    }

    lemma StillOutside(m0: Bytes, m: Bytes, sizes: seq<nat>, p: nat, i: nat)
      requires i < |sizes| && Outside(m0, m, p, At(sizes, p, i))
      requires Outside(m, AddHunk(m, sizes, p, i), if i == 0 then p else At(sizes, p, i - 1) + 4, At(sizes, p, i + 1))
      ensures Outside(m0, AddHunk(m, sizes, p, i), p, At(sizes, p, i + 1))
    {
      Apart(sizes, p, i, i + 1);
      if i > 0 {
        NotBelow(sizes, p, i - 1);
      }
      hide At, Round32, AddHunk;
    }

    /** Follow the chain from the first hunk: k steps reach the next field of hunk k. */
    method Follow(ghost sizes: seq<nat>, p: nat, k: nat) returns (segments: int)
      requires k < |sizes| && Chained(mem, sizes, p, |sizes|)
      ensures segments == NextField(sizes, p, k)
    {
      segments := p + 4;
      var i := 0;
      while i < k
        invariant 0 <= i <= k && segments == NextField(sizes, p, i)
      {
        segments := ReadLong(mem, segments);
        i := i + 1;
      }
    }

    /** One entry of HUNK_RELOC32, or of its PC-relative twin: follow the chain to the hunk referred to, and add
        the address of its data (less that of the hunk's own) to every longword at an offset in hunk h. */
    method Relocate(ghost sizes: seq<nat>, p: nat, ghost h: nat, pcRelative: bool, target: nat, offsets: seq<nat>, base: int)
      requires h < |sizes| && target < |sizes| && Chained(mem, sizes, p, |sizes|)
      requires base == DataOf(sizes, p, h)
      requires forall i :: 0 <= i < |offsets| ==> offsets[i] + 4 <= sizes[h]
      modifies this`mem
      ensures mem == Relocated(old(mem), base, offsets, Reference(sizes, p, h, pcRelative, target))
      ensures Chained(mem, sizes, p, |sizes|)
    {
      hide ReadLong, WriteLong, Sum32, Chained;
      RelocatedChain(mem, sizes, p, h, offsets, Reference(sizes, p, h, pcRelative, target));
      var segments := Follow(sizes, p, target);
      var ref := segments + 4;
      if pcRelative {
        ref := ref - base;
      }
      var i := 0;
      assert offsets[0..] == offsets;
      while i < |offsets|
        invariant 0 <= i <= |offsets|
        invariant Relocated(mem, base, offsets[i..], ref) == Relocated(old(mem), base, offsets, ref)
      {
        var a := base + offsets[i];
        assert offsets[i..][1..] == offsets[i + 1..];
        mem := WriteLong(mem, a, Sum32(ReadLong(mem, a), ref));
        i := i + 1;
      }
      assert offsets[i..] == [];
    }
  }
}
