/**
  A whole load of LoadHunkFile (emu68/src/HunkLoader.c): after pre-allocation the blocks of the file are taken in
  order, contents copied and relocations applied, and at the end of each hunk the chain is followed to the next.
  Blocks are taken as parsed, and the first hunk to load is number 0.
*/
module HunkLoad {
  import opened Memory
  import opened HunkLoader
  import DuffCopy

  /** Code or data, a relocation entry (HUNK_RELOC32 or PC-relative) for one target hunk, and blocks that change
      nothing (BSS, symbols). */
  datatype Block =
    | Contents(longs: seq<int>)
    | Reloc(pcRelative: bool, target: nat, offsets: seq<nat>)
    | Passive

  function Zeros(): Bytes { q => 0 }

  predicate IsLong(v: int) { 0 <= v < 0x1_0000_0000 }

  /** What a linker writes and the loader does not check. */
  predicate BlockOk(sizes: seq<nat>, h: nat, b: Block)
    requires h < |sizes|
  {
    match b
    case Contents(longs) => 1 <= |longs| && 4 * |longs| <= sizes[h] && forall i :: 0 <= i < |longs| ==> IsLong(longs[i])
    case Reloc(_, target, offsets) => target < |sizes| && forall i :: 0 <= i < |offsets| ==> offsets[i] + 4 <= sizes[h]
    case Passive => true
  }

  predicate HunkOk(sizes: seq<nat>, h: nat, blocks: seq<Block>)
    requires h < |sizes|
  {
    forall i :: 0 <= i < |blocks| ==> BlockOk(sizes, h, blocks[i])
  }

  // ---------------------------------------------------------------- contents

  /** Longwords written one after another. */
  function StoreLongs(m: Bytes, a: int, longs: seq<int>): Bytes
    decreases |longs|
  {
    if longs == [] then m else StoreLongs(WriteLong(m, a, longs[0]), a + 4, longs[1..])
  }

  lemma {:induction false} StoredElsewhere(m: Bytes, a: int, longs: seq<int>, q: int)
    requires q < a || a + 4 * |longs| <= q
    ensures StoreLongs(m, a, longs)(q) == m(q)
    decreases |longs|
  {
    if longs != [] {
      StoredElsewhere(WriteLong(m, a, longs[0]), a + 4, longs[1..], q);
    }
  }

  /** Each longword is where it was copied to. */
  lemma {:induction false} StoredAt(m: Bytes, a: int, longs: seq<int>, k: nat)
    requires k < |longs| && forall i :: 0 <= i < |longs| ==> IsLong(longs[i])
    ensures ReadLong(StoreLongs(m, a, longs), a + 4 * k) == longs[k]
    decreases |longs|
  {
    hide ReadLong, WriteLong;
    var m1 := WriteLong(m, a, longs[0]);
    if k == 0 {
      LongWritten(m, a, longs[0]);
      forall q | a <= q < a + 4
        ensures StoreLongs(m, a, longs)(q) == m1(q)
      {
        StoredElsewhere(m1, a + 4, longs[1..], q);
      }
      LongKept(m1, StoreLongs(m, a, longs), a);
    } else {
      StoredAt(m1, a + 4, longs[1..], k - 1);
    }
  }

  /** The bytes between the data of a hunk and the header of the next. */
  function Room(size: nat): (r: nat)
    ensures size <= r
  {
    RoundsUp(size + Header);
    Round32(size + Header) - Header
  }

  lemma RoomAligned(size: nat)
    ensures Room(size) == 4 * (Room(size) / 4)
  {
    var k := (size + Header + 31) / 32;
    assert Room(size) == 4 * (8 * k - 2);
  }

  function Repeated(v: int, n: nat): (longs: seq<int>)
    ensures |longs| == n && forall i :: 0 <= i < n ==> longs[i] == v
  {
    seq(n, i => v)
  }

  predicate AllLongs(longs: seq<int>, n: nat) { |longs| == n && forall i :: 0 <= i < n ==> IsLong(longs[i]) }

  lemma FieldsApart(sizes: seq<nat>, p: nat, h: nat, j: nat, n: nat)
    requires h < |sizes| && j < |sizes| && (h + 1 == |sizes| || n <= Room(sizes[h]))
    ensures At(sizes, p, j) + Header <= DataOf(sizes, p, h) || DataOf(sizes, p, h) + n <= At(sizes, p, j)
  {
    if j < h {
      Apart(sizes, p, j, h);
    } else if h < j {
      assert At(sizes, p, h + 1) == DataOf(sizes, p, h) + Room(sizes[h]);
      if h + 1 < j {
        Apart(sizes, p, h + 1, j);
      }
    }
    hide Round32;
  }

  lemma StoredChain(m: Bytes, sizes: seq<nat>, p: nat, h: nat, longs: seq<int>)
    requires h < |sizes| && Chained(m, sizes, p, |sizes|)
    requires h + 1 == |sizes| || 4 * |longs| <= Room(sizes[h])
    ensures Chained(StoreLongs(m, DataOf(sizes, p, h), longs), sizes, p, |sizes|)
  {
    var m' := StoreLongs(m, DataOf(sizes, p, h), longs);
    hide ReadLong, StoreLongs, Room, At;
    forall j | 0 <= j < |sizes|
      ensures ReadLong(m', At(sizes, p, j)) == ReadLong(m, At(sizes, p, j))
      ensures ReadLong(m', NextField(sizes, p, j)) == ReadLong(m, NextField(sizes, p, j))
    {
      FieldsApart(sizes, p, h, j, 4 * |longs|);
      forall q | At(sizes, p, j) <= q < At(sizes, p, j) + Header
        ensures m'(q) == m(q)
      {
        StoredElsewhere(m, DataOf(sizes, p, h), longs, q);
      }
      LongKept(m, m', At(sizes, p, j));
      LongKept(m, m', NextField(sizes, p, j));
    }
    SameFields(m, m', sizes, p, |sizes|);
  }

  /** Copying n longwords into a hunk is sure to keep the chain if and only if they end before the next hunk
      begins (which is up to 31 bytes after the hunk's own end), or there is none. */
  lemma CopyKeepsChainIff(m: Bytes, sizes: seq<nat>, p: nat, h: nat, n: nat)
    requires h < |sizes| && Chained(m, sizes, p, |sizes|)
    ensures (forall longs: seq<int> | AllLongs(longs, n) :: Chained(StoreLongs(m, DataOf(sizes, p, h), longs), sizes, p, |sizes|))
       <==> h + 1 == |sizes| || 4 * n <= Room(sizes[h])
  {
    if h + 1 == |sizes| || 4 * n <= Room(sizes[h]) {
      forall longs: seq<int> | AllLongs(longs, n)
        ensures Chained(StoreLongs(m, DataOf(sizes, p, h), longs), sizes, p, |sizes|)
      {
        StoredChain(m, sizes, p, h, longs);
      }
    } else {
      var v := if sizes[h + 1] == 0 then 1 else 0;
      OverrunBreaks(m, sizes, p, h, Repeated(v, n));
      assert AllLongs(Repeated(v, n), n);
    }
    hide Chained, StoreLongs, AllLongs, Room, At;
  }

  /** A longword where the size of the next hunk was breaks the chain. */
  lemma OverrunBreaks(m: Bytes, sizes: seq<nat>, p: nat, h: nat, longs: seq<int>)
    requires h + 1 < |sizes| && Room(sizes[h]) < 4 * |longs|
    requires forall i :: 0 <= i < |longs| ==> IsLong(longs[i]) && longs[i] != sizes[h + 1]
    ensures !Chained(StoreLongs(m, DataOf(sizes, p, h), longs), sizes, p, |sizes|)
  {
    hide *;
    var r := Room(sizes[h]) / 4;
    var m' := StoreLongs(m, DataOf(sizes, p, h), longs);
    NextHunk(sizes, p, h);
    RoomAligned(sizes[h]);
    StoredAt(m, DataOf(sizes, p, h), longs, r);
    if Chained(m', sizes, p, |sizes|) {
      SizeField(m', sizes, p, h + 1);
    }
  }

  lemma NextHunk(sizes: seq<nat>, p: nat, h: nat)
    requires h < |sizes|
    ensures At(sizes, p, h + 1) == DataOf(sizes, p, h) + Room(sizes[h])
  {
    hide Round32;
  }

  lemma SizeField(m: Bytes, sizes: seq<nat>, p: nat, j: nat)
    requires j < |sizes| && Chained(m, sizes, p, |sizes|)
    ensures ReadLong(m, At(sizes, p, j)) == sizes[j]
  {
    hide ReadLong, At, NextField;
  }

  // ---------------------------------------------------------------- blocks

  function ApplyBlock(m: Bytes, sizes: seq<nat>, p: nat, h: nat, b: Block): Bytes
    requires h < |sizes| && BlockOk(sizes, h, b)
  {
    match b
    case Contents(longs) => StoreLongs(m, DataOf(sizes, p, h), longs)
    case Reloc(pcRelative, target, offsets) => Relocated(m, DataOf(sizes, p, h), offsets, Reference(sizes, p, h, pcRelative, target))
    case Passive => m
  }

  function ApplyBlocks(m: Bytes, sizes: seq<nat>, p: nat, h: nat, blocks: seq<Block>): Bytes
    requires h < |sizes| && HunkOk(sizes, h, blocks)
  {
    if blocks == [] then m else ApplyBlocks(ApplyBlock(m, sizes, p, h, blocks[0]), sizes, p, h, blocks[1..])
  }

  /** The memory after the first n hunks of a file. */
  function Loaded(m: Bytes, sizes: seq<nat>, p: nat, file: seq<seq<Block>>, n: nat): Bytes
    requires FileOk(sizes, file) && n <= |sizes|
  {
    if n == 0 then m else ApplyBlocks(Loaded(m, sizes, p, file, n - 1), sizes, p, n - 1, file[n - 1])
  }

  predicate FileOk(sizes: seq<nat>, file: seq<seq<Block>>) {
    |file| == |sizes| && forall h :: 0 <= h < |sizes| ==> HunkOk(sizes, h, file[h])
  }

  predicate InData(sizes: seq<nat>, p: nat, h: nat, q: int)
    requires h < |sizes|
  {
    DataOf(sizes, p, h) <= q < DataOf(sizes, p, h) + sizes[h]
  }

  /** Two memories agree on the data of a hunk. */
  ghost predicate SameData(m: Bytes, m': Bytes, sizes: seq<nat>, p: nat, h: nat)
    requires h < |sizes|
  {
    forall q :: InData(sizes, p, h, q) ==> m'(q) == m(q)
  }

  ghost predicate OnlyData(m: Bytes, m': Bytes, sizes: seq<nat>, p: nat, h: nat)
    requires h < |sizes|
  {
    forall q :: !InData(sizes, p, h, q) ==> m'(q) == m(q)
  }

  lemma {:induction false} RelocatedBytes(m: Bytes, base: int, offsets: seq<nat>, ref: int, size: nat, q: int)
    requires (forall i :: 0 <= i < |offsets| ==> offsets[i] + 4 <= size) && (q < base || base + size <= q)
    ensures Relocated(m, base, offsets, ref)(q) == m(q)
    decreases |offsets|
  {
    if offsets != [] {
      var a := base + offsets[0];
      RelocatedBytes(WriteLong(m, a, Sum32(ReadLong(m, a), ref)), base, offsets[1..], ref, size, q);
      hide ReadLong, Sum32;
    }
  }

  /** A block changes the data of its own hunk only. */
  lemma BlockFrame(m: Bytes, sizes: seq<nat>, p: nat, h: nat, b: Block)
    requires h < |sizes| && BlockOk(sizes, h, b)
    ensures OnlyData(m, ApplyBlock(m, sizes, p, h, b), sizes, p, h)
  {
    hide StoreLongs, Relocated, At;
    forall q | !InData(sizes, p, h, q)
      ensures ApplyBlock(m, sizes, p, h, b)(q) == m(q)
    {
      match b
      case Contents(longs) => StoredElsewhere(m, DataOf(sizes, p, h), longs, q);
      case Reloc(pcRelative, target, offsets) =>
        RelocatedBytes(m, DataOf(sizes, p, h), offsets, Reference(sizes, p, h, pcRelative, target), sizes[h], q);
      case Passive =>
    }
  }

  /** Two memories agree from one address up to another. */
  ghost predicate SameRange(m: Bytes, m': Bytes, lo: int, hi: int) {
    forall q :: lo <= q < hi ==> m'(q) == m(q)
  }

  lemma {:induction false} SameStored(m: Bytes, m': Bytes, a: int, longs: seq<int>, lo: int, hi: int)
    requires SameRange(m, m', lo, hi)
    ensures SameRange(StoreLongs(m, a, longs), StoreLongs(m', a, longs), lo, hi)
    decreases |longs|
  {
    if longs != [] {
      SameWritten(m, m', a, longs[0], lo, hi);
      SameStored(WriteLong(m, a, longs[0]), WriteLong(m', a, longs[0]), a + 4, longs[1..], lo, hi);
      hide WriteLong, SameRange;
    }
  }

  lemma {:induction false} SameRelocated(m: Bytes, m': Bytes, base: int, offsets: seq<nat>, ref: int, size: nat)
    requires SameRange(m, m', base, base + size)
    requires forall i :: 0 <= i < |offsets| ==> offsets[i] + 4 <= size
    ensures SameRange(Relocated(m, base, offsets, ref), Relocated(m', base, offsets, ref), base, base + size)
    decreases |offsets|
  {
    hide *;
    RelocatedParts(m, base, offsets, ref);
    RelocatedParts(m', base, offsets, ref);
    if offsets != [] {
      var a := base + offsets[0];
      SameLong(m, m', a, base, base + size);
      var v := Sum32(ReadLong(m, a), ref);
      SameWritten(m, m', a, v, base, base + size);
      SameRelocated(WriteLong(m, a, v), WriteLong(m', a, v), base, offsets[1..], ref, size);
    }
  }

  lemma RelocatedParts(m: Bytes, base: int, offsets: seq<nat>, ref: int)
    ensures offsets == [] ==> Relocated(m, base, offsets, ref) == m
    ensures offsets != [] ==> var a := base + offsets[0];
      Relocated(m, base, offsets, ref) == Relocated(WriteLong(m, a, Sum32(ReadLong(m, a), ref)), base, offsets[1..], ref)
  {
    hide ReadLong, WriteLong, Sum32;
  }

  lemma SameLong(m: Bytes, m': Bytes, a: int, lo: int, hi: int)
    requires SameRange(m, m', lo, hi) && lo <= a && a + 4 <= hi
    ensures ReadLong(m', a) == ReadLong(m, a)
  {
    LongKept(m, m', a);
    hide ReadLong;
  }

  lemma SameWritten(m: Bytes, m': Bytes, a: int, v: int, lo: int, hi: int)
    requires SameRange(m, m', lo, hi)
    ensures SameRange(WriteLong(m, a, v), WriteLong(m', a, v), lo, hi)
  {
  }

  /** What a block makes of the data depends on nothing else. */
  lemma BlockLocal(m: Bytes, m': Bytes, sizes: seq<nat>, p: nat, h: nat, b: Block)
    requires h < |sizes| && BlockOk(sizes, h, b) && SameData(m, m', sizes, p, h)
    ensures SameData(ApplyBlock(m, sizes, p, h, b), ApplyBlock(m', sizes, p, h, b), sizes, p, h)
  {
    hide StoreLongs, Relocated, At;
    var base := DataOf(sizes, p, h);
    forall q | base <= q < base + sizes[h]
      ensures m'(q) == m(q)
    {
      assert InData(sizes, p, h, q);
    }
    match b
    case Contents(longs) => SameStored(m, m', base, longs, base, base + sizes[h]);
    case Reloc(pcRelative, target, offsets) => SameRelocated(m, m', base, offsets, Reference(sizes, p, h, pcRelative, target), sizes[h]);
    case Passive =>
  }

  lemma {:induction false} BlocksFrame(m: Bytes, sizes: seq<nat>, p: nat, h: nat, blocks: seq<Block>)
    requires h < |sizes| && HunkOk(sizes, h, blocks)
    ensures OnlyData(m, ApplyBlocks(m, sizes, p, h, blocks), sizes, p, h)
    decreases |blocks|
  {
    if blocks != [] {
      hide ApplyBlock, BlockOk, InData;
      BlockFrame(m, sizes, p, h, blocks[0]);
      BlocksFrame(ApplyBlock(m, sizes, p, h, blocks[0]), sizes, p, h, blocks[1..]);
    }
  }

  lemma {:induction false} BlocksLocal(m: Bytes, m': Bytes, sizes: seq<nat>, p: nat, h: nat, blocks: seq<Block>)
    requires h < |sizes| && HunkOk(sizes, h, blocks) && SameData(m, m', sizes, p, h)
    ensures SameData(ApplyBlocks(m, sizes, p, h, blocks), ApplyBlocks(m', sizes, p, h, blocks), sizes, p, h)
    decreases |blocks|
  {
    if blocks != [] {
      hide ApplyBlock, BlockOk, SameData;
      BlockLocal(m, m', sizes, p, h, blocks[0]);
      BlocksLocal(ApplyBlock(m, sizes, p, h, blocks[0]), ApplyBlock(m', sizes, p, h, blocks[0]), sizes, p, h, blocks[1..]);
    }
  }

  /** Changes to the data of a hunk keep the chain. */
  lemma DataKeepsChain(m: Bytes, m': Bytes, sizes: seq<nat>, p: nat, h: nat)
    requires h < |sizes| && Chained(m, sizes, p, |sizes|) && OnlyData(m, m', sizes, p, h)
    ensures Chained(m', sizes, p, |sizes|)
  {
    hide ReadLong, At, Room;
    forall j | 0 <= j < |sizes|
      ensures ReadLong(m', At(sizes, p, j)) == ReadLong(m, At(sizes, p, j))
      ensures ReadLong(m', NextField(sizes, p, j)) == ReadLong(m, NextField(sizes, p, j))
    {
      FieldsApart(sizes, p, h, j, sizes[h]);
      forall q | At(sizes, p, j) <= q < At(sizes, p, j) + Header
        ensures m'(q) == m(q)
      {
        assert !InData(sizes, p, h, q);
      }
      LongKept(m, m', At(sizes, p, j));
      LongKept(m, m', NextField(sizes, p, j));
    }
    SameFields(m, m', sizes, p, |sizes|);
  }

  lemma OtherData(m: Bytes, m': Bytes, sizes: seq<nat>, p: nat, h: nat, j: nat)
    requires h < |sizes| && j < |sizes| && h != j && OnlyData(m, m', sizes, p, h)
    ensures SameData(m, m', sizes, p, j)
  {
    if h < j {
      Apart(sizes, p, h, j);
    } else {
      Apart(sizes, p, j, h);
    }
    forall q | InData(sizes, p, j, q)
      ensures m'(q) == m(q)
    {
      assert !InData(sizes, p, h, q);
    }
    hide At;
  }

  // ---------------------------------------------------------------- a whole load

  /** What the blocks of a hunk make of data that are all zero. */
  function Image(sizes: seq<nat>, p: nat, h: nat, blocks: seq<Block>): Bytes
    requires h < |sizes| && HunkOk(sizes, h, blocks)
  {
    ApplyBlocks(Zeros(), sizes, p, h, blocks)
  }

  lemma ClearedData(m: Bytes, sizes: seq<nat>, p: nat, h: nat)
    requires h < |sizes| && Cleared(m, sizes, p, |sizes|)
    ensures SameData(Zeros(), m, sizes, p, h)
  {
    forall q | InData(sizes, p, h, q)
      ensures m(q) == 0
    {
      ClearedAt(m, sizes, p, |sizes|, h, q);
    }
    hide At;
  }

  lemma SameTwice(a: Bytes, b: Bytes, c: Bytes, sizes: seq<nat>, p: nat, h: nat)
    requires h < |sizes| && SameData(a, b, sizes, p, h) && SameData(b, c, sizes, p, h)
    ensures SameData(a, c, sizes, p, h)
  {
    hide InData;
  }

  /** The hunks of a file are loaded independently: after the first n, each of them holds its own image, those
      after them are as pre-allocated, and the chain is intact. */
  lemma {:induction false} LoadedHunks(m: Bytes, sizes: seq<nat>, p: nat, file: seq<seq<Block>>, n: nat, h: nat)
    requires FileOk(sizes, file) && n <= |sizes| && h < |sizes|
    requires Chained(m, sizes, p, |sizes|) && Cleared(m, sizes, p, |sizes|)
    ensures Chained(Loaded(m, sizes, p, file, n), sizes, p, |sizes|)
    ensures if h < n then SameData(Image(sizes, p, h, file[h]), Loaded(m, sizes, p, file, n), sizes, p, h)
            else SameData(Zeros(), Loaded(m, sizes, p, file, n), sizes, p, h)
    decreases n
  {
    hide SameData, OnlyData, Chained, Cleared, ApplyBlocks, HunkOk;
    if n == 0 {
      ClearedData(m, sizes, p, h);
    } else {
      var k := n - 1;
      var before := Loaded(m, sizes, p, file, k);
      var after := Loaded(m, sizes, p, file, n);
      LoadedHunks(m, sizes, p, file, k, h);
      BlocksFrame(before, sizes, p, k, file[k]);
      DataKeepsChain(before, after, sizes, p, k);
      if h == k {
        BlocksLocal(Zeros(), before, sizes, p, h, file[h]);
      } else {
        OtherData(before, after, sizes, p, k, h);
        if h < k {
          SameTwice(Image(sizes, p, h, file[h]), before, after, sizes, p, h);
        } else {
          SameTwice(Zeros(), before, after, sizes, p, h);
        }
      }
    }
  }

  lemma {:induction false} LoadedOutside(m: Bytes, sizes: seq<nat>, p: nat, file: seq<seq<Block>>, n: nat)
    requires FileOk(sizes, file) && n <= |sizes|
    ensures Outside(m, Loaded(m, sizes, p, file, n), p, p + ReportedSize(sizes))
    decreases n
  {
    if n > 0 {
      var k := n - 1;
      LoadedOutside(m, sizes, p, file, k);
      BlocksFrame(Loaded(m, sizes, p, file, k), sizes, p, k, file[k]);
      Apart(sizes, p, k, |sizes|);
      NotBelow(sizes, p, k);
      ReportedSizeSuffices(sizes, p);
      hide ApplyBlocks, At, ReportedSize, HunkOk;
    }
  }

  // ---------------------------------------------------------------- what a longword becomes

  datatype Entry = Entry(pcRelative: bool, target: nat, offsets: seq<nat>)

  function Relocations(entries: seq<Entry>): (blocks: seq<Block>)
    ensures |blocks| == |entries|
    ensures forall i :: 0 <= i < |entries| ==> blocks[i] == Block.Reloc(entries[i].pcRelative, entries[i].target, entries[i].offsets)
  {
    seq(|entries|, i requires 0 <= i < |entries| => Block.Reloc(entries[i].pcRelative, entries[i].target, entries[i].offsets))
  }

  /** No longword is relocated twice. */
  ghost predicate Disjoint(entries: seq<Entry>) {
    && (forall i :: 0 <= i < |entries| ==> Separate(entries[i].offsets))
    && (forall i, j, x, y :: 0 <= i < j < |entries| && x in entries[i].offsets && y in entries[j].offsets ==> x + 4 <= y || y + 4 <= x)
  }

  /** A longword that no entry lists. */
  ghost predicate Unlisted(entries: seq<Entry>, off: nat) {
    forall i, x :: 0 <= i < |entries| && x in entries[i].offsets ==> x + 4 <= off || off + 4 <= x
  }

  lemma FirstEntry(m: Bytes, sizes: seq<nat>, p: nat, h: nat, entries: seq<Entry>)
    requires h < |sizes| && entries != [] && HunkOk(sizes, h, Relocations(entries))
    ensures var e := entries[0];
      && e.target < |sizes| && (forall i :: 0 <= i < |e.offsets| ==> e.offsets[i] + 4 <= sizes[h])
      && HunkOk(sizes, h, Relocations(entries[1..]))
      && ApplyBlocks(m, sizes, p, h, Relocations(entries))
         == ApplyBlocks(Relocated(m, DataOf(sizes, p, h), e.offsets, Reference(sizes, p, h, e.pcRelative, e.target)), sizes, p, h, Relocations(entries[1..]))
  {
    var blocks := Relocations(entries);
    assert BlockOk(sizes, h, blocks[0]);
    assert blocks[1..] == Relocations(entries[1..]);
    hide Relocated, At, Reference;
  }

  lemma {:induction false} KeptByAll(m: Bytes, sizes: seq<nat>, p: nat, h: nat, entries: seq<Entry>, off: nat)
    requires h < |sizes| && HunkOk(sizes, h, Relocations(entries)) && Unlisted(entries, off)
    ensures ReadLong(ApplyBlocks(m, sizes, p, h, Relocations(entries)), DataOf(sizes, p, h) + off) == ReadLong(m, DataOf(sizes, p, h) + off)
    decreases |entries|
  {
    hide *;
    if entries == [] {
      NoEntries(m, sizes, p, h);
    } else {
      var e := entries[0];
      FirstEntry(m, sizes, p, h, entries);
      UnlistedParts(entries, off);
      var base, ref := DataOf(sizes, p, h), Reference(sizes, p, h, e.pcRelative, e.target);
      RelocatedElsewhere(m, base, e.offsets, ref, base + off);
      KeptByAll(Relocated(m, base, e.offsets, ref), sizes, p, h, entries[1..], off);
    }
  }

  lemma NoEntries(m: Bytes, sizes: seq<nat>, p: nat, h: nat)
    requires h < |sizes| && HunkOk(sizes, h, Relocations([]))
    ensures ApplyBlocks(m, sizes, p, h, Relocations([])) == m
  {
  }

  lemma UnlistedParts(entries: seq<Entry>, off: nat)
    requires entries != [] && Unlisted(entries, off)
    ensures Unlisted(entries[1..], off)
    ensures var offsets := entries[0].offsets;
      forall i :: 0 <= i < |offsets| ==> offsets[i] + 4 <= off || off + 4 <= offsets[i]
  {
    var offsets := entries[0].offsets;
    assert forall i :: 0 <= i < |offsets| ==> offsets[i] in offsets;
  }

  lemma UnlistedRest(entries: seq<Entry>, k: nat)
    requires entries != [] && Disjoint(entries) && k < |entries[0].offsets|
    ensures Unlisted(entries[1..], entries[0].offsets[k])
  {
    assert entries[0].offsets[k] in entries[0].offsets;
  }

  lemma FirstApart(entries: seq<Entry>, i: nat, k: nat)
    requires Disjoint(entries) && 0 < i < |entries| && k < |entries[i].offsets|
    ensures var x := entries[i].offsets[k];
      forall l :: 0 <= l < |entries[0].offsets| ==> x + 4 <= entries[0].offsets[l] || entries[0].offsets[l] + 4 <= x
  {
    assert entries[i].offsets[k] in entries[i].offsets;
    assert forall l :: 0 <= l < |entries[0].offsets| ==> entries[0].offsets[l] in entries[0].offsets;
  }

  lemma DisjointRest(entries: seq<Entry>)
    requires entries != [] && Disjoint(entries)
    ensures Separate(entries[0].offsets) && Disjoint(entries[1..])
  {
    hide Separate;
  }

  /** Every longword an entry lists goes up by that entry's reference, modulo 2^32, whatever the others do. */
  lemma {:induction false} RaisedByOne(m: Bytes, sizes: seq<nat>, p: nat, h: nat, entries: seq<Entry>, i: nat, k: nat)
    requires h < |sizes| && HunkOk(sizes, h, Relocations(entries)) && Disjoint(entries)
    requires i < |entries| && k < |entries[i].offsets| && entries[i].target < |sizes|
    ensures var a := DataOf(sizes, p, h) + entries[i].offsets[k];
      ReadLong(ApplyBlocks(m, sizes, p, h, Relocations(entries)), a)
      == (ReadLong(m, a) + At(sizes, p, entries[i].target) + 8 - if entries[i].pcRelative then At(sizes, p, h) + 8 else 0) % 0x1_0000_0000
    decreases |entries|
  {
    hide *;
    var e, off, rest := entries[0], entries[i].offsets[k], entries[1..];
    FirstEntry(m, sizes, p, h, entries);
    var base, ref := DataOf(sizes, p, h), Reference(sizes, p, h, e.pcRelative, e.target);
    DisjointRest(entries);
    var m1 := Relocated(m, base, e.offsets, ref);
    if i == 0 {
      ReferenceAdds(sizes, p, h, e.pcRelative, e.target, ReadLong(m, base + off));
      RelocatedAt(m, base, e.offsets, ref, k);
      UnlistedRest(entries, k);
      KeptByAll(m1, sizes, p, h, rest, off);
    } else {
      FirstApart(entries, i, k);
      RelocatedElsewhere(m, base, e.offsets, ref, base + off);
      RaisedByOne(m1, sizes, p, h, rest, i - 1, k);
    }
  }

  /** A hunk with code or data and relocations, at the end of a whole load: the k-th longword of its contents
      holds what the file says, or that plus the reference of the entry that lists it. */
  lemma LoadedLong(m: Bytes, sizes: seq<nat>, p: nat, file: seq<seq<Block>>, h: nat, longs: seq<int>, entries: seq<Entry>, k: nat)
    requires Chained(m, sizes, p, |sizes|) && Cleared(m, sizes, p, |sizes|) && FileOk(sizes, file)
    requires h < |sizes| && file[h] == [Block.Contents(longs)] + Relocations(entries) && Disjoint(entries) && k < |longs|
    ensures var done := Loaded(m, sizes, p, file, |sizes|);
      var v := ReadLong(done, DataOf(sizes, p, h) + 4 * k);
      && (Unlisted(entries, 4 * k) ==> v == longs[k])
      && forall i :: 0 <= i < |entries| && 4 * k in entries[i].offsets ==>
           entries[i].target < |sizes|
           && v == (longs[k] + At(sizes, p, entries[i].target) + 8 - if entries[i].pcRelative then At(sizes, p, h) + 8 else 0) % 0x1_0000_0000
  {
    hide *;
    var done := Loaded(m, sizes, p, file, |sizes|);
    FileHunk(sizes, file, h);
    LoadedHunks(m, sizes, p, file, |sizes|, h);
    ContentsFirst(sizes, p, h, file[h], longs, entries);
    ImageLong(done, sizes, p, h, file[h], longs, k);
    var stored := StoreLongs(Zeros(), DataOf(sizes, p, h), longs);
    if Unlisted(entries, 4 * k) {
      KeptByAll(stored, sizes, p, h, entries, 4 * k);
    }
    forall i | 0 <= i < |entries| && 4 * k in entries[i].offsets
      ensures entries[i].target < |sizes|
      ensures ReadLong(done, DataOf(sizes, p, h) + 4 * k)
           == (longs[k] + At(sizes, p, entries[i].target) + 8 - if entries[i].pcRelative then At(sizes, p, h) + 8 else 0) % 0x1_0000_0000
    {
      TargetOk(sizes, h, entries, i);
      var l :| 0 <= l < |entries[i].offsets| && entries[i].offsets[l] == 4 * k;
      RaisedByOne(stored, sizes, p, h, entries, i, l);
    }
  }

  lemma FileHunk(sizes: seq<nat>, file: seq<seq<Block>>, h: nat)
    requires FileOk(sizes, file) && h < |sizes|
    ensures |file| == |sizes| && HunkOk(sizes, h, file[h])
  {
    hide HunkOk;
  }

  lemma TargetOk(sizes: seq<nat>, h: nat, entries: seq<Entry>, i: nat)
    requires h < |sizes| && HunkOk(sizes, h, Relocations(entries)) && i < |entries|
    ensures entries[i].target < |sizes|
  {
    assert BlockOk(sizes, h, Relocations(entries)[i]);
  }

  lemma ContentsFirst(sizes: seq<nat>, p: nat, h: nat, blocks: seq<Block>, longs: seq<int>, entries: seq<Entry>)
    requires h < |sizes| && HunkOk(sizes, h, blocks) && blocks == [Block.Contents(longs)] + Relocations(entries)
    ensures BlockOk(sizes, h, Block.Contents(longs)) && HunkOk(sizes, h, Relocations(entries))
    ensures Image(sizes, p, h, blocks) == ApplyBlocks(StoreLongs(Zeros(), DataOf(sizes, p, h), longs), sizes, p, h, Relocations(entries))
  {
    assert blocks[0] == Block.Contents(longs) && blocks[1..] == Relocations(entries);
    assert forall i :: 0 <= i < |entries| ==> blocks[i + 1] == Relocations(entries)[i];
    hide StoreLongs, Relocated, At;
  }

  /** A longword of the contents, in the loaded hunk and before the relocations. */
  lemma ImageLong(done: Bytes, sizes: seq<nat>, p: nat, h: nat, blocks: seq<Block>, longs: seq<int>, k: nat)
    requires h < |sizes| && HunkOk(sizes, h, blocks) && BlockOk(sizes, h, Block.Contents(longs)) && k < |longs|
    requires SameData(Image(sizes, p, h, blocks), done, sizes, p, h)
    ensures ReadLong(done, DataOf(sizes, p, h) + 4 * k) == ReadLong(Image(sizes, p, h, blocks), DataOf(sizes, p, h) + 4 * k)
    ensures ReadLong(StoreLongs(Zeros(), DataOf(sizes, p, h), longs), DataOf(sizes, p, h) + 4 * k) == longs[k]
  {
    hide ReadLong, Image, StoreLongs, At;
    var a := DataOf(sizes, p, h) + 4 * k;
    forall q | a <= q < a + 4
      ensures done(q) == Image(sizes, p, h, blocks)(q)
    {
      assert InData(sizes, p, h, q);
    }
    LongKept(Image(sizes, p, h, blocks), done, a);
    StoredAt(Zeros(), DataOf(sizes, p, h), longs, k);
  }

  // ---------------------------------------------------------------- the copy

  lemma WordWritten(m: Bytes, base: int, to: int, v: int, i: int)
    requires IsLong(v)
    ensures ReadLong(WriteLong(m, base + 4 * to, v), base + 4 * i) == if i == to then v else ReadLong(m, base + 4 * i)
  {
    LongWritten(m, base + 4 * to, v);
    if i != to {
      LongElsewhere(m, base + 4 * to, v, base + 4 * i);
    }
    hide ReadLong, WriteLong;
  }

  /** The device of DuffCopy, on memory seen as words, and the contents written one after another are the same
      (source and target do not overlap, and the block has as many words as the device copies). */
  lemma {:induction false} CopyStores(w: DuffCopy.Words32, m: Bytes, base: int, to: int, from: int, longs: seq<int>, i: int)
    requires forall q :: w(q) == ReadLong(m, base + 4 * q)
    requires forall k :: 0 <= k < |longs| ==> IsLong(longs[k]) && w(from + k) == longs[k]
    requires to + |longs| <= from || from + |longs| <= to
    ensures DuffCopy.Copy(w, to, from, |longs|)(i) == ReadLong(StoreLongs(m, base + 4 * to, longs), base + 4 * i)
    decreases |longs|
  {
    hide ReadLong, WriteLong;
    if longs != [] {
      var v := longs[0];
      var w' := DuffCopy.Put(w, to, w(from));
      var m' := WriteLong(m, base + 4 * to, v);
      assert w(from + 0) == longs[0];
      forall q
        ensures w'(q) == ReadLong(m', base + 4 * q)
      {
        WordWritten(m, base, to, v, q);
      }
      var rest := longs[1..];
      forall k | 0 <= k < |rest|
        ensures IsLong(rest[k]) && w'(from + 1 + k) == rest[k]
      {
        assert w(from + (1 + k)) == longs[1 + k];
      }
      CopyStores(w', m', base, to + 1, from + 1, rest, i);
      assert base + 4 * (to + 1) == base + 4 * to + 4;
    }
  }

  /** A block of contents that the loader may copy: the device copies exactly its words. */
  lemma BlockCopies(sizes: seq<nat>, h: nat, longs: seq<int>)
    requires h < |sizes| && BlockOk(sizes, h, Block.Contents(longs)) && sizes[h] < 0x1_0000_0000
    ensures DuffCopy.Copied(|longs|) == |longs|
  {
    DuffCopy.CopiedIsCountIff(|longs|);
  }

  // ---------------------------------------------------------------- as the source writes it

  /** Copy the contents of a block. */
  method Pull(l: Loader, a: int, longs: seq<int>)
    modifies l`mem
    ensures l.mem == StoreLongs(old(l.mem), a, longs)
  {
    hide WriteLong;
    var k := 0;
    assert longs[0..] == longs;
    while k < |longs|
      invariant 0 <= k <= |longs|
      invariant StoreLongs(l.mem, a + 4 * k, longs[k..]) == StoreLongs(old(l.mem), a, longs)
    {
      assert longs[k..][1..] == longs[k + 1..];
      l.mem := WriteLong(l.mem, a + 4 * k, longs[k]);
      k := k + 1;
    }
    assert longs[k..] == [];
  }

  /** The switch on the kind of block. */
  method TakeBlock(l: Loader, sizes: seq<nat>, p: nat, h: nat, base: int, b: Block)
    requires h < |sizes| && BlockOk(sizes, h, b) && Chained(l.mem, sizes, p, |sizes|) && base == DataOf(sizes, p, h)
    modifies l`mem
    ensures l.mem == ApplyBlock(old(l.mem), sizes, p, h, b) && Chained(l.mem, sizes, p, |sizes|)
  {
    hide Chained, Relocated, StoreLongs, At, BlockOk, OnlyData;
    BlockParts(sizes, h, b);
    ghost var before := l.mem;
    BlockFrame(before, sizes, p, h, b);
    DataKeepsChain(before, ApplyBlock(before, sizes, p, h, b), sizes, p, h);
    if b.Contents? {
      Pull(l, base, b.longs);
    } else if b.Reloc? {
      l.Relocate(sizes, p, h, b.pcRelative, b.target, b.offsets, base);
    }
  }

  lemma BlockParts(sizes: seq<nat>, h: nat, b: Block)
    requires h < |sizes| && BlockOk(sizes, h, b)
    ensures b.Reloc? ==> b.target < |sizes| && forall i :: 0 <= i < |b.offsets| ==> b.offsets[i] + 4 <= sizes[h]
  {
  }

  /** All blocks of one hunk. */
  method TakeHunk(l: Loader, sizes: seq<nat>, p: nat, h: nat, base: int, blocks: seq<Block>)
    requires h < |sizes| && HunkOk(sizes, h, blocks) && Chained(l.mem, sizes, p, |sizes|) && base == DataOf(sizes, p, h)
    modifies l`mem
    ensures l.mem == ApplyBlocks(old(l.mem), sizes, p, h, blocks) && Chained(l.mem, sizes, p, |sizes|)
  {
    hide Chained, ApplyBlock, BlockOk, At;
    var i := 0;
    assert blocks[0..] == blocks;
    while i < |blocks|
      invariant 0 <= i <= |blocks| && Chained(l.mem, sizes, p, |sizes|)
      invariant ApplyBlocks(l.mem, sizes, p, h, blocks[i..]) == ApplyBlocks(old(l.mem), sizes, p, h, blocks)
    {
      assert blocks[i..][1..] == blocks[i + 1..];
      TakeBlock(l, sizes, p, h, base, blocks[i]);
      i := i + 1;
    }
    assert blocks[i..] == [];
  }

  /** LoadHunkFile: allocate all hunks, then take the blocks of each.  Every hunk ends up
      holding its image, the chain leads through all of them, and nothing outside the reported size changes. */
  method LoadHunkFile(l: Loader, sizes: seq<nat>, p: nat, file: seq<seq<Block>>)
    requires FileOk(sizes, file) && At(sizes, p, |sizes|) < 0x1_0000_0000
    modifies l
    ensures Chained(l.mem, sizes, p, |sizes|) && Outside(old(l.mem), l.mem, p, p + ReportedSize(sizes))
    ensures forall h :: 0 <= h < |sizes| ==> SameData(Image(sizes, p, h, file[h]), l.mem, sizes, p, h)
  {
    hide Chained, Cleared, SameData, Image, ReportedSize, Outside, Loaded, HunkOk, At;
    l.Preallocate(sizes, p);
    ghost var start := l.mem;
    TakeHunks(l, sizes, p, file);
    forall k | 0 <= k < |sizes|
      ensures SameData(Image(sizes, p, k, file[k]), l.mem, sizes, p, k)
    {
      LoadedHunks(start, sizes, p, file, |sizes|, k);
    }
    LoadedOutside(start, sizes, p, file, |sizes|);
    OutsideTwice(old(l.mem), start, l.mem, p, p + ReportedSize(sizes));
  }

  /** Hunk after hunk, from each to the next by its next field. */
  method TakeHunks(l: Loader, sizes: seq<nat>, p: nat, file: seq<seq<Block>>)
    requires FileOk(sizes, file) && Chained(l.mem, sizes, p, |sizes|)
    modifies l`mem
    ensures l.mem == Loaded(old(l.mem), sizes, p, file, |sizes|) && Chained(l.mem, sizes, p, |sizes|)
  {
    hide Chained, HunkOk, ApplyBlocks, ReadLong;
    var h, n := p, 0;
    while n < |file|
      invariant 0 <= n <= |file| && l.mem == Loaded(old(l.mem), sizes, p, file, n) && Chained(l.mem, sizes, p, |sizes|)
      invariant n < |sizes| ==> h == At(sizes, p, n)
    {
      TakeHunk(l, sizes, p, n, h + Header, file[n]);
      NextLink(l.mem, sizes, p, n);
      h := ReadLong(l.mem, h + 4) - 4;
      n := n + 1;
    }
  }

  lemma NextLink(m: Bytes, sizes: seq<nat>, p: nat, n: nat)
    requires n < |sizes| && Chained(m, sizes, p, |sizes|)
    ensures ReadLong(m, NextField(sizes, p, n)) == if n + 1 < |sizes| then NextField(sizes, p, n + 1) else 0
  {
    hide ReadLong, At;
    var next := NextField(sizes, p, n + 1);
    assert n + 1 < |sizes| ==> ReadLong(m, NextField(sizes, p, n)) == next;
  }

  lemma OutsideTwice(a: Bytes, b: Bytes, c: Bytes, lo: int, hi: int)
    requires Outside(a, b, lo, hi) && Outside(b, c, lo, hi)
    ensures Outside(a, c, lo, hi)
  {
  }
}
