/**
  Loading relocatable ELF files (emu68/src/ElfLoader.c): GetElfSize measures a read-only and a writable
  region; the placing loop of LoadELFFile then gives every section an address.  The two passes must agree.
  Sizes and addresses are numbers; sums that overflow 32 bits are not considered.
*/
module ElfLoader {
  import opened Memory

  /** A section header: where in the file the section is, and what kind it is.  `table` is a symbol or string
      table, which stays in the file; `nobits` is a section without contents in the file. */
  datatype Section = Section(size: nat, align: nat, write: bool, alloc: bool, table: bool, nobits: bool, offset: nat)

  /** `(x + a - 1) & ~(a - 1)` for a power of two a; for a = 0 the mask is empty. */
  function AlignUp(x: nat, a: nat): nat {
    if a == 0 then 0 else (x + a - 1) / a * a
  }

  ghost predicate Divides(a: nat, n: nat) {
    exists k: nat :: n == k * a
  }

  lemma AlignBounds(x: nat, a: nat)
    requires a >= 1
    ensures x <= AlignUp(x, a) < x + a && Divides(a, AlignUp(x, a))
  {
    var n := x + a - 1;
    assert n == n / a * a + n % a;
    assert AlignUp(x, a) == (n / a) * a;
  }

  lemma MultiplesApart(a: nat, k: nat, l: nat)
    requires k < l
    ensures k * a + a <= l * a
  {
    assert (l - k - 1) * a >= 0;
    assert l * a == k * a + a + (l - k - 1) * a;
  }

  /** Two multiples of a less than a apart are equal. */
  lemma CloseMultiples(a: nat, y: nat, z: nat)
    requires a >= 1 && Divides(a, y) && Divides(a, z) && y < z + a && z < y + a
    ensures y == z
  {
    var k: nat :| y == k * a;
    var l: nat :| z == l * a;
    if k < l {
      MultiplesApart(a, k, l);
    } else if l < k {
      MultiplesApart(a, l, k);
    }
  }

  lemma DividesSum(a: nat, y: nat, z: nat)
    requires Divides(a, y) && Divides(a, z)
    ensures Divides(a, y + z)
  {
    var k: nat :| y == k * a;
    var l: nat :| z == l * a;
    assert y + z == (k + l) * a;
  }

  lemma DividesTrans(a: nat, b: nat, n: nat)
    requires Divides(a, b) && Divides(b, n)
    ensures Divides(a, n)
  {
    var k: nat :| b == k * a;
    var l: nat :| n == l * b;
    assert n == (l * k) * a;
  }

  /** Aligning moves with a base that is itself aligned. */
  lemma AlignShift(x: nat, base: nat, a: nat)
    requires a >= 1 && Divides(a, base)
    ensures AlignUp(base + x, a) == base + AlignUp(x, a)
  {
    AlignBounds(x, a);
    AlignBounds(base + x, a);
    DividesSum(a, base, AlignUp(x, a));
    CloseMultiples(a, AlignUp(base + x, a), base + AlignUp(x, a));
  }

  lemma AlignMonotone(x: nat, y: nat, a: nat)
    requires a >= 1 && x <= y
    ensures AlignUp(x, a) <= AlignUp(y, a)
  {
    AlignBounds(x, a);
    AlignBounds(y, a);
    if AlignUp(x, a) > AlignUp(y, a) {
      CloseMultiples(a, AlignUp(x, a), AlignUp(y, a));
    }
  }

  // ---------------------------------------------------------------- the two passes as functions

  predicate Measured(s: Section, write: bool) { s.alloc && s.write == write }
  predicate Placed(s: Section, write: bool) { s.alloc && s.write == write && !s.table && s.size != 0 }

  /** The size of one region after a prefix of the table. */
  function MeasureStep(m: nat, s: Section, write: bool): nat {
    if Measured(s, write) then AlignUp(m, s.align) + AlignUp(s.size, s.align) else m
  }

  function Measure(sections: seq<Section>, write: bool): nat {
    if sections == [] then 0
    else MeasureStep(Measure(sections[..|sections| - 1], write), sections[|sections| - 1], write)
  }

  /** What one more section adds to a region: nothing if it is not allocated or belongs to the other region, else
      both the size so far and its own rounded up to its alignment. */
  lemma MeasureAppend(sections: seq<Section>, s: Section, write: bool)
    requires s.align >= 1
    ensures var m := Measure(sections, write);
      Measure(sections + [s], write)
      == if !s.alloc || s.write != write then m else (m + s.align - 1) / s.align * s.align + (s.size + s.align - 1) / s.align * s.align
  {
    assert (sections + [s])[..|sections|] == sections;
  }

  /** The cursor of one region after a prefix of the table. */
  function CursorStep(p: nat, s: Section, write: bool): nat {
    if Placed(s, write) then AlignUp(p, s.align) + s.size else p
  }

  function Cursor(sections: seq<Section>, write: bool, base: nat): nat {
    if sections == [] then base
    else CursorStep(Cursor(sections[..|sections| - 1], write, base), sections[|sections| - 1], write)
  }

  /** Where section i lands, if it is placed. */
  function Address(sections: seq<Section>, write: bool, base: nat, i: nat): nat
    requires i < |sections|
  {
    AlignUp(Cursor(sections[..i], write, base), sections[i].align)
  }

  ghost predicate AlignmentsDivide(sections: seq<Section>, k: nat) {
    forall i :: 0 <= i < |sections| ==> sections[i].align >= 1 && Divides(sections[i].align, k)
  }

  // ---------------------------------------------------------------- measuring bounds placing

  lemma StepFits(base: nat, k: nat, m: nat, p: nat, s: Section, write: bool)
    requires s.align >= 1 && Divides(s.align, k) && Divides(k, base) && base <= p <= base + m
    ensures m <= MeasureStep(m, s, write)
    ensures p <= CursorStep(p, s, write) <= base + MeasureStep(m, s, write)
  {
    var a := s.align;
    DividesTrans(a, k, base);
    AlignShift(p - base, base, a);
    AlignMonotone(p - base, m, a);
    AlignBounds(m, a);
    AlignBounds(s.size, a);
    AlignBounds(p, a);
    hide AlignUp, Divides;
  }

  /** From an aligned base the cursor never passes what was measured. */
  lemma {:induction false} CursorFits(sections: seq<Section>, write: bool, base: nat, k: nat)
    requires AlignmentsDivide(sections, k) && Divides(k, base)
    ensures base <= Cursor(sections, write, base) <= base + Measure(sections, write)
    decreases |sections|
  {
    if sections != [] {
      var front, last := sections[..|sections| - 1], sections[|sections| - 1];
      CursorFits(front, write, base, k);
      StepFits(base, k, Measure(front, write), Cursor(front, write, base), last, write);
    }
  }

  lemma {:induction false} MeasureGrows(sections: seq<Section>, write: bool, i: nat, k: nat)
    requires i <= |sections| && AlignmentsDivide(sections, k)
    ensures Measure(sections[..i], write) <= Measure(sections, write)
    decreases |sections|
  {
    if i < |sections| {
      var front, last := sections[..|sections| - 1], sections[|sections| - 1];
      assert front[..i] == sections[..i];
      MeasureGrows(front, write, i, k);
      AlignBounds(Measure(front, write), last.align);
    } else {
      assert sections[..i] == sections;
    }
  }

  lemma {:induction false} CursorGrows(sections: seq<Section>, write: bool, base: nat, i: nat, k: nat)
    requires i <= |sections| && AlignmentsDivide(sections, k)
    ensures Cursor(sections[..i], write, base) <= Cursor(sections, write, base)
    decreases |sections|
  {
    if i < |sections| {
      var front, last := sections[..|sections| - 1], sections[|sections| - 1];
      assert front[..i] == sections[..i];
      CursorGrows(front, write, base, i, k);
      AlignBounds(Cursor(front, write, base), last.align);
    } else {
      assert sections[..i] == sections;
    }
  }

  /** Every placed section is aligned and lies inside the region whose size was reported. */
  lemma SectionFits(sections: seq<Section>, write: bool, base: nat, k: nat, i: nat)
    requires AlignmentsDivide(sections, k) && Divides(k, base)
    requires i < |sections| && Placed(sections[i], write)
    ensures var a := Address(sections, write, base, i);
      && Divides(sections[i].align, a)
      && base <= a && a + sections[i].size <= base + Measure(sections, write)
      && a + sections[i].size == Cursor(sections[..i + 1], write, base)
  {
    var upTo := sections[..i + 1];
    assert upTo[..i] == sections[..i];
    AlignBounds(Cursor(sections[..i], write, base), sections[i].align);
    CursorFits(sections[..i], write, base, k);
    CursorFits(upTo, write, base, k);
    MeasureGrows(sections, write, i + 1, k);
  }

  /** Sections of one region come one after the other. */
  lemma SameRegionApart(sections: seq<Section>, write: bool, base: nat, k: nat, i: nat, j: nat)
    requires AlignmentsDivide(sections, k) && Divides(k, base)
    requires i < j < |sections| && Placed(sections[i], write) && Placed(sections[j], write)
    ensures Address(sections, write, base, i) + sections[i].size <= Address(sections, write, base, j)
  {
    SectionFits(sections, write, base, k, i);
    assert sections[..j][..i + 1] == sections[..i + 1];
    CursorGrows(sections[..j], write, base, i + 1, k);
    AlignBounds(Cursor(sections[..j], write, base), sections[j].align);
  }

  /** The base of the writable region: the read-only region rounded up to pages. */
  function WritableBase(sections: seq<Section>, load: nat): nat {
    load + AlignUp(Measure(sections, false), 4096)
  }

  function BaseOf(sections: seq<Section>, write: bool, load: nat): nat {
    if write then WritableBase(sections, load) else load
  }

  /** All placed sections of a table: aligned, inside their region, the read-only region below the
      writable one, and pairwise disjoint. */
  lemma PlacementAgrees(sections: seq<Section>, load: nat, k: nat, i: nat, j: nat)
    requires AlignmentsDivide(sections, k) && Divides(k, load) && Divides(k, WritableBase(sections, load))
    requires i < |sections| && j < |sections| && i != j
    requires Placed(sections[i], sections[i].write) && Placed(sections[j], sections[j].write)
    ensures var s, t := sections[i], sections[j];
      var a, b := Address(sections, s.write, BaseOf(sections, s.write, load), i), Address(sections, t.write, BaseOf(sections, t.write, load), j);
      && Divides(s.align, a)
      && BaseOf(sections, s.write, load) <= a && a + s.size <= BaseOf(sections, s.write, load) + Measure(sections, s.write)
      && load + Measure(sections, false) <= WritableBase(sections, load)
      && (a + s.size <= b || b + t.size <= a)
  {
    var s, t := sections[i], sections[j];
    AlignBounds(Measure(sections, false), 4096);
    SectionFits(sections, s.write, BaseOf(sections, s.write, load), k, i);
    SectionFits(sections, t.write, BaseOf(sections, t.write, load), k, j);
    if s.write == t.write {
      if i < j {
        SameRegionApart(sections, s.write, BaseOf(sections, s.write, load), k, i, j);
      } else {
        SameRegionApart(sections, s.write, BaseOf(sections, s.write, load), k, j, i);
      }
    }
  }

  /** A page-aligned load address and alignments up to a page are enough for both bases. */
  lemma PagesSuffice(sections: seq<Section>, load: nat, k: nat)
    requires Divides(k, 4096) && Divides(4096, load)
    ensures Divides(k, load) && Divides(k, WritableBase(sections, load))
  {
    AlignBounds(Measure(sections, false), 4096);
    DividesTrans(k, 4096, load);
    DividesTrans(k, 4096, AlignUp(Measure(sections, false), 4096));
    DividesSum(k, load, AlignUp(Measure(sections, false), 4096));
  }

  /** One section of alignment and size k. */
  function Single(k: nat, write: bool): seq<Section> { [Section(k, k, write, true, false, true, 0)] }

  lemma SingleOverflows(k: nat, write: bool, base: nat)
    requires k >= 1 && !Divides(k, base)
    ensures AlignmentsDivide(Single(k, write), k)
    ensures Cursor(Single(k, write), write, base) > base + Measure(Single(k, write), write)
  {
    var t := Single(k, write);
    assert t[..0] == [];
    assert k == 1 * k && 0 == 0 * k;
    AlignBounds(base, k);
    AlignBounds(k, k);
    AlignBounds(0, k);
    CloseMultiples(k, AlignUp(k, k), k);
    CloseMultiples(k, AlignUp(0, k), 0);
    assert Cursor(t, write, base) == AlignUp(base, k) + k;
    assert Measure(t, write) == AlignUp(0, k) + AlignUp(k, k);
  }

  /** The exact condition: every table whose alignments divide k fits the region measured for it if and only
      if k divides the base.  For the writable region the base is only known to be a multiple of 4096 (from a
      page-aligned load address), so larger alignments may overrun it. */
  lemma RegionFitsIff(write: bool, base: nat, k: nat)
    requires k >= 1
    ensures (forall t: seq<Section> :: AlignmentsDivide(t, k) ==> Cursor(t, write, base) <= base + Measure(t, write))
       <==> Divides(k, base)
  {
    if Divides(k, base) {
      forall t: seq<Section> | AlignmentsDivide(t, k)
        ensures Cursor(t, write, base) <= base + Measure(t, write)
      {
        CursorFits(t, write, base, k);
      }
    } else {
      SingleOverflows(k, write, base);
    }
  }

  /** A writable section aligned to 8192, after a page of read-only data at a load address aligned to 8192. */
  lemma LargeAlignmentOverruns()
    ensures var t := [Section(16, 4, false, true, false, true, 0), Section(8192, 8192, true, true, false, true, 0)];
      Cursor(t, true, WritableBase(t, 8192)) > WritableBase(t, 8192) + Measure(t, true)
  {
    var t := [Section(16, 4, false, true, false, true, 0), Section(8192, 8192, true, true, false, true, 0)];
    assert t[..1] == [t[0]] && [t[0]][..0] == [];
    assert Measure([t[0]], false) == 16 && Measure(t, false) == 16;
    assert Measure([t[0]], true) == 0 && Measure(t, true) == 8192;
    assert WritableBase(t, 8192) == 12288;
    assert Cursor([t[0]], true, 12288) == 12288;
  }

  /** An alignment of 0 makes the measuring pass forget everything before it, and puts a section that is
      placed at address 0, wherever the file was to be loaded. */
  lemma ZeroAlignmentForgets(sections: seq<Section>, s: Section, write: bool, base: nat)
    requires Measured(s, write) && s.align == 0
    ensures Measure(sections + [s], write) == 0
    ensures Placed(s, write) ==> Address(sections + [s], write, base, |sections|) == 0 && Cursor(sections + [s], write, base) == s.size
  {
    assert (sections + [s])[..|sections|] == sections;
  }

  // ---------------------------------------------------------------- contents

  /** The bytes of a section, copied from the file at `elf` or cleared. */
  function Fill(m: Bytes, elf: nat, s: Section, a: nat): Bytes {
    q => if a <= q < a + s.size then (if s.nobits then 0 else m(elf + s.offset + (q - a))) else m(q)
  }

  /** Where section i of a table loaded at `load` goes. */
  function AddressOf(sections: seq<Section>, load: nat, i: nat): nat
    requires i < |sections|
  {
    Address(sections, sections[i].write, BaseOf(sections, sections[i].write, load), i)
  }

  predicate IsPlaced(s: Section) { Placed(s, s.write) }

  /** The address a header holds afterwards: in the file for a table, in its region for a placed section, and
      what it was for any other. */
  function HeaderAddress(sections: seq<Section>, elf: nat, load: nat, i: nat, was: nat): nat
    requires i < |sections|
  {
    if sections[i].table then elf + sections[i].offset
    else if IsPlaced(sections[i]) then AddressOf(sections, load, i)
    else was
  }

  /** Memory after the first n sections. */
  function Contents(sections: seq<Section>, n: nat, elf: nat, load: nat, m: Bytes): Bytes
    requires n <= |sections|
  {
    if n == 0 then m
    else
      var before := Contents(sections, n - 1, elf, load, m);
      if IsPlaced(sections[n - 1]) then Fill(before, elf, sections[n - 1], AddressOf(sections, load, n - 1)) else before
  }

  /** The end of the writable region. */
  function EndOf(sections: seq<Section>, load: nat): nat { WritableBase(sections, load) + Measure(sections, true) }

  /** The file is not where it is loaded to. */
  ghost predicate FileApart(sections: seq<Section>, elf: nat, load: nat) {
    forall i :: 0 <= i < |sections| && IsPlaced(sections[i]) && !sections[i].nobits ==>
      elf + sections[i].offset + sections[i].size <= load || EndOf(sections, load) <= elf + sections[i].offset
  }

  lemma InRegions(sections: seq<Section>, load: nat, k: nat, i: nat)
    requires AlignmentsDivide(sections, k) && Divides(k, load) && Divides(k, WritableBase(sections, load))
    requires i < |sections| && IsPlaced(sections[i])
    ensures load <= AddressOf(sections, load, i) && AddressOf(sections, load, i) + sections[i].size <= EndOf(sections, load)
  {
    AlignBounds(Measure(sections, false), 4096);
    SectionFits(sections, sections[i].write, BaseOf(sections, sections[i].write, load), k, i);
    hide Measure, AlignUp, Address;
  }

  lemma {:induction false} OutsideKept(sections: seq<Section>, n: nat, elf: nat, load: nat, k: nat, m: Bytes, q: int)
    requires AlignmentsDivide(sections, k) && Divides(k, load) && Divides(k, WritableBase(sections, load))
    requires n <= |sections| && (q < load || EndOf(sections, load) <= q)
    ensures Contents(sections, n, elf, load, m)(q) == m(q)
    decreases n
  {
    if n > 0 {
      OutsideKept(sections, n - 1, elf, load, k, m, q);
      if IsPlaced(sections[n - 1]) {
        InRegions(sections, load, k, n - 1);
      }
    }
    hide AddressOf, EndOf;
  }

  /** Loading puts every section in place: each byte of it is the file's, or 0 if it has no contents there,
      whatever is loaded before and after it; and nothing outside the two regions changes. */
  lemma {:induction false} ContentsLoaded(sections: seq<Section>, n: nat, elf: nat, load: nat, k: nat, m: Bytes, i: nat, q: int)
    requires AlignmentsDivide(sections, k) && Divides(k, load) && Divides(k, WritableBase(sections, load))
    requires FileApart(sections, elf, load)
    requires i < n <= |sections| && IsPlaced(sections[i])
    requires var a := AddressOf(sections, load, i); a <= q < a + sections[i].size
    ensures var a := AddressOf(sections, load, i);
      Contents(sections, n, elf, load, m)(q) == if sections[i].nobits then 0 else m(elf + sections[i].offset + (q - a))
    decreases n
  {
    hide AddressOf, EndOf, AlignmentsDivide, Divides, WritableBase;
    var a := AddressOf(sections, load, i);
    if i == n - 1 {
      var from := elf + sections[i].offset + (q - a);
      if !sections[i].nobits {
        OutsideKept(sections, n - 1, elf, load, k, m, from);
      }
    } else {
      ContentsLoaded(sections, n - 1, elf, load, k, m, i, q);
      if IsPlaced(sections[n - 1]) {
        TwoApart(sections, load, k, i, n - 1);
      }
    }
  }

  lemma TwoApart(sections: seq<Section>, load: nat, k: nat, i: nat, j: nat)
    requires AlignmentsDivide(sections, k) && Divides(k, load) && Divides(k, WritableBase(sections, load))
    requires i < |sections| && j < |sections| && i != j && IsPlaced(sections[i]) && IsPlaced(sections[j])
    ensures var a, b := AddressOf(sections, load, i), AddressOf(sections, load, j);
      a + sections[i].size <= b || b + sections[j].size <= a
  {
    PlacementAgrees(sections, load, k, i, j);
    hide Address, BaseOf, Measure, WritableBase;
  }

  // ---------------------------------------------------------------- the loops

  /** GetElfSize: one pass over the table. */
  method GetElfSize(sections: array<Section>) returns (sizeRw: nat, sizeRo: nat)
    ensures sizeRw == Measure(sections[..], true) && sizeRo == Measure(sections[..], false)
  {
    sizeRw, sizeRo := 0, 0;
    var i := 0;
    while i < sections.Length
      invariant 0 <= i <= sections.Length
      invariant sizeRw == Measure(sections[..i], true) && sizeRo == Measure(sections[..i], false)
    {
      var s := sections[i];
      assert sections[..i + 1][..i] == sections[..i];
      if s.alloc {
        var size := AlignUp(s.size, s.align);
        if s.write {
          sizeRw := AlignUp(sizeRw, s.align);
          sizeRw := sizeRw + size;
        } else {
          sizeRo := AlignUp(sizeRo, s.align);
          sizeRo := sizeRo + size;
        }
      }
      i := i + 1;
    }
    assert sections[..i] == sections[..];
  }

  class Loader {
    var ptrRo: nat
    var ptrRw: nat
    var mem: Bytes

    /** loadHunk: a section gets an address and its contents; an empty one gets neither. */
    method LoadHunk(s: Section, elf: nat) returns (placed: bool, addr: nat)
      modifies this
      ensures placed == (s.size != 0)
      ensures placed ==> addr == AlignUp(old(if s.write then ptrRw else ptrRo), s.align)
      ensures ptrRw == if placed && s.write then addr + s.size else old(ptrRw)
      ensures ptrRo == if placed && !s.write then addr + s.size else old(ptrRo)
      ensures mem == if placed then Fill(old(mem), elf, s, addr) else old(mem)
    {
      placed, addr := s.size != 0, 0;
      if !placed {
        return;
      }
      if s.write {
        ptrRw := AlignUp(ptrRw, s.align);
        addr := ptrRw;
        ptrRw := ptrRw + s.size;
      } else {
        ptrRo := AlignUp(ptrRo, s.align);
        addr := ptrRo;
        ptrRo := ptrRo + s.size;
      }
      mem := Fill(mem, elf, s, addr);
    }

    /** The placing loop of LoadELFFile: symbol and string tables are used where they are in the file, every
        placed section gets its address and contents, and no other header changes. */
    method Place(sections: array<Section>, addresses: array<nat>, elf: nat, load: nat)
      requires addresses.Length == sections.Length
      modifies this, addresses
      ensures forall i :: 0 <= i < sections.Length ==>
        addresses[i] == HeaderAddress(sections[..], elf, load, i, old(addresses[i]))
      ensures forall i :: 0 <= i < sections.Length && sections[i].table ==> addresses[i] == elf + sections[i].offset
      ensures forall i :: 0 <= i < sections.Length && !sections[i].table && sections[i].alloc && sections[i].size != 0 ==>
        addresses[i] == AddressOf(sections[..], load, i)
      ensures forall i :: 0 <= i < sections.Length && !sections[i].table && (!sections[i].alloc || sections[i].size == 0) ==>
        addresses[i] == old(addresses[i])
      ensures mem == Contents(sections[..], sections.Length, elf, load, old(mem))
    {
      hide AlignUp, Fill;
      var sizeRw, sizeRo := GetElfSize(sections);
      ptrRo := load;
      ptrRw := ptrRo + AlignUp(sizeRo, 4096);
      ghost var all := sections[..];
      var i := 0;
      while i < sections.Length
        invariant 0 <= i <= sections.Length && sections[..] == all
        invariant ptrRo == Cursor(all[..i], false, BaseOf(all, false, load))
        invariant ptrRw == Cursor(all[..i], true, BaseOf(all, true, load))
        invariant mem == Contents(all, i, elf, load, old(mem))
        invariant forall j :: 0 <= j < i ==> addresses[j] == HeaderAddress(all, elf, load, j, old(addresses[j]))
        invariant forall j :: i <= j < sections.Length ==> addresses[j] == old(addresses[j])
      {
        var s := sections[i];
        assert all[..i + 1][..i] == all[..i];
        if s.table {
          addresses[i] := elf + s.offset;
        } else if s.alloc {
          var placed, addr := LoadHunk(s, elf);
          if placed {
            addresses[i] := addr;
          }
        }
        i := i + 1;
      }
    }
  }
}
