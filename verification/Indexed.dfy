/**
  Address register indirect with index, in the brief and the full format (mode 6 of
  EMIT_LoadFromEffectiveAddress, emu68/src/M68k_EA.c), against sections 2.2.6 and 2.2.8 to 2.2.10 of
  the M68000 Family Programmer's Reference Manual.
*/
module Indexed {
  import opened Words
  import opened A64
  import opened Displacement
  import opened Wrappers
  import opened Manual

  // ---------------------------------------------------------------- the emitters

  /** Scratch registers the address computation itself does not use. */
  predicate Free(k: nat) { k < 2 || k > 9 }

  /** What is wanted at the address: the address itself (size 0), an operand, or a place to store. */
  datatype Access = Address | Data(size: Size, signed: bool) | Put(size: Size)

  function Fetched(acc: Access, m: Mem, a: Word): Word
    requires !acc.Put?
  {
    if acc.Address? then a else Extend(acc.size, acc.signed, Load(m, a, acc.size))
  }

  /** load_s16_ext32 */
  function LoadS16(rd: Reg, w: Word): Insn {
    if Bit(w, 15) then MovnImmed(rd, Not(w)) else MovImmed(rd, w, 0)
  }

  function ReadAt(acc: Access, rt: Reg, rn: Reg): Insn {
    match acc
    case Address => MovReg(rt, rn)
    case Data(size, signed) => Ld(size, signed, rt, rn, Scaled(W(0)))
    case Put(size) => St(size, rt, rn, Scaled(W(0)))
  }

  function ReadIndexed(acc: Access, rn: Reg, rt: Reg, index: Option<Reg>, shift: bv8): seq<Insn> {
    if index.None? then [ReadAt(acc, rt, rn)]
    else if acc.Address? then [AddReg(rt, rn, index.value, shift)]
    else [AddReg(T(5), rn, index.value, shift), ReadAt(acc, rt, T(5))]
  }

  /** load_reg_from_addr and store_reg_to_addr; a missing base counts as zero. */
  function LoadFrom(acc: Access, base: Option<Reg>, rt: Reg, index: Option<Reg>, shift: bv8): seq<Insn> {
    if base.Some? then ReadIndexed(acc, base.value, rt, index, shift)
    else [ClearBase()] + ReadIndexed(acc, T(6), rt, index, shift)
  }

  /** The index register to use, sign-extended into a scratch register if it is a word. */
  function IndexOf(xn: Reg, long: bool): Reg { if long then xn else T(2) }
  function IndexCode(xn: Reg, long: bool): seq<Insn> { if long then [] else [Sxth(T(2), xn)] }

  /** The brief displacement is added to a copy of the base unless it is zero. */
  function BriefBase(an: Reg, d8: Word): seq<Insn> {
    if d8 == W(0) then [] else if Ascending(d8) then [AddImmed(T(3), an, d8)] else [SubImmed(T(3), an, Neg(d8))]
  }

  function Brief(acc: Access, an: Reg, d8: Word, xn: Reg, long: bool, scale: bv8, rt: Reg): seq<Insn> {
    BriefBase(an, d8) + IndexCode(xn, long)
    + LoadFrom(acc, Some(if d8 == W(0) then an else T(3)), rt, Some(IndexOf(xn, long)), scale)
  }

  function BdCode(e: Ext, words: Stream, k: nat): seq<Insn> {
    if e.bd.BdWord? then [LoadS16(T(3), words(k))]
    else if e.bd.BdLong? then [LoadImmediate(T(3), Pair(words(k), words(k + 1)))]
    else []
  }

  function OdCode(e: Ext, words: Stream, k: nat): seq<Insn> {
    if e.od.OdWord? then [LoadS16(T(4), words(k))]
    else if e.od.OdLong? then [LoadImmediate(T(4), Pair(words(k), words(k + 1)))]
    else []
  }

  predicate HasBd(e: Ext) { e.bd.BdWord? || e.bd.BdLong? }
  predicate HasOd(e: Ext) { e.od.OdWord? || e.od.OdLong? }

  function IndexReg(e: Ext): Option<Reg> { if e.noIndex then None else Some(IndexOf(e.xn, e.long)) }

  /** Address register indirect with index. */
  function Direct(acc: Access, base: Option<Reg>, hasBd: bool, index: Option<Reg>, scale: bv8, rt: Reg): seq<Insn> {
    if hasBd then AddBase(base) + LoadFrom(acc, Some(T(3)), rt, index, scale)
    else LoadFrom(acc, base, rt, index, scale)
  }

  /** Without a base displacement the base is copied, and no longer counted as a base. */
  function CopyBase(base: Option<Reg>): Insn {
    MovReg(T(3), if base.Some? then base.value else ZR)
  }

  function AddOuter(hasOd: bool): seq<Insn> {
    if hasOd then [AddReg(T(3), T(3), T(4), 0)] else []
  }

  function PostIndexed(acc: Access, base: Option<Reg>, index: Option<Reg>, scale: bv8, hasOd: bool, rt: Reg): seq<Insn> {
    [Ld(Long, false, T(3), T(3), if base.Some? then RegUxtw(base.value) else Scaled(W(0)))]
    + AddOuter(hasOd)
    + LoadFrom(acc, Some(T(3)), rt, index, scale)
  }

  function AddBase(base: Option<Reg>): seq<Insn> {
    if base.Some? then [AddReg(T(3), base.value, T(3), 0)] else []
  }

  /** Fetch the pointer, with the index already applied.  The store twin uses a register offset where
      the load adds. */
  function PreFetch(put: bool, base: Option<Reg>, index: Option<Reg>, scale: bv8): seq<Insn> {
    if index.None? then
      if !put then LoadFrom(Data(Long, false), base, T(3), Some(T(3)), 0)
      else if base.Some? then [Ld(Long, false, T(3), base.value, RegUxtw(T(3)))]
      else [MovReg(T(6), ZR), Ld(Long, false, T(3), T(6), RegUxtw(T(3)))]
    else AddBase(base) + LoadFrom(Data(Long, false), Some(T(3)), T(3), index, scale)
  }

  function PreIndexed(acc: Access, base: Option<Reg>, index: Option<Reg>, scale: bv8, hasOd: bool, rt: Reg): seq<Insn> {
    PreFetch(acc.Put?, base, index, scale)
    + AddOuter(hasOd)
    + LoadFrom(acc, Some(T(3)), rt, None, 0)
  }

  function Full(acc: Access, an: Reg, e: Ext, words: Stream, k: nat, rt: Reg): seq<Insn> {
    var base := if e.noBase then None else Some(an);
    var index := IndexReg(e);
    (if e.noIndex then [] else IndexCode(e.xn, e.long)) + BdCode(e, words, k) + OdCode(e, words, k + BdCount(e)) +
    (if e.od.NoIndirection? && !e.post && !e.reserved then Direct(acc, base, HasBd(e), index, e.scale, rt)
     else
       (if HasBd(e) then [] else [CopyBase(base)]) +
       (var base' := if HasBd(e) then base else None;
        if e.post then PostIndexed(acc, base', index, e.scale, HasOd(e), rt)
        else PreIndexed(acc, base', index, e.scale, HasOd(e), rt)))
  }

  // ---------------------------------------------------------------- effect

  /** Only scratch registers differ. */
  ghost predicate OnlyScratch(s: Host, t: Host) {
    && t.mem == s.mem && t.n == s.n && t.z == s.z && t.c == s.c && t.v == s.v
    && forall r: Reg :: !r.T? ==> t.Get(r) == s.Get(r)
  }

  /** T(k) receives v; of the other registers at most T(5) and T(6) change. */
  ghost predicate Gives(k: nat, v: Word, s: Host, t: Host) {
    && t.mem == s.mem && t.n == s.n && t.z == s.z && t.c == s.c && t.v == s.v
    && t.Get(T(k)) == v
    && forall r: Reg :: r != T(k) && r != T(5) && r != T(6) ==> t.Get(r) == s.Get(r)
  }

  function IndexValue(s: Host, index: Option<Reg>, shift: bv8): Word {
    if index.Some? then ShiftL(s.Get(index.value), shift) else W(0)
  }

  lemma ReadAtStep(acc: Access, rt: Reg, rn: Reg, s: Host)
    requires rt != ZR && !acc.Put?
    ensures Step(ReadAt(acc, rt, rn), s) == s.Set(rt, Fetched(acc, s.mem, s.Get(rn)))
    ensures !Jumps(ReadAt(acc, rt, rn))
  {
    if acc.Data? {
      ScaleZero(acc.size);
      PlusZero(s.Get(rn));
    }
    hide Plus, Scale, Load, Extend;
  }

  lemma ReadIndexedEffect(acc: Access, rn: Reg, k: nat, index: Option<Reg>, shift: bv8, s: Host)
    requires k != 5 && k != 6 && !acc.Put?
    ensures var code := ReadIndexed(acc, rn, T(k), index, shift);
      && Straight(code)
      && Gives(k, Fetched(acc, s.mem, Plus(s.Get(rn), IndexValue(s, index, shift))), s, End(code, s))
  {
    hide Plus, ShiftL, Load, Extend, ReadAt, Run, End, Straight;
    if index.None? {
      PlusZero(s.Get(rn));
      ReadAtStep(acc, T(k), rn, s);
      Exec1(ReadAt(acc, T(k), rn), s);
    } else if acc.Address? {
      Exec1(AddReg(T(k), rn, index.value, shift), s);
    } else {
      var t := Step(AddReg(T(5), rn, index.value, shift), s);
      ReadAtStep(acc, T(k), T(5), t);
      Exec2(AddReg(T(5), rn, index.value, shift), ReadAt(acc, T(k), T(5)), s);
    }
  }

  /** load_reg_from_addr reads base + (index << shift); a missing one counts as zero. */
  lemma LoadFromEffect(acc: Access, base: Option<Reg>, k: nat, index: Option<Reg>, shift: bv8, s: Host)
    requires k != 5 && k != 6 && !acc.Put?
    requires index.Some? ==> index.value != T(6)
    ensures var code := LoadFrom(acc, base, T(k), index, shift);
      && Straight(code)
      && Gives(k, Fetched(acc, s.mem, Plus(BaseValue(s, base), IndexValue(s, index, shift))), s, End(code, s))
  {
    hide Plus, ShiftL, Fetched, ReadIndexed, Run, End, Straight;
    if base.Some? {
      ReadIndexedEffect(acc, base.value, k, index, shift, s);
    } else {
      Exec1(MovReg(T(6), ZR), s);
      ReadIndexedEffect(acc, T(6), k, index, shift, Step(MovReg(T(6), ZR), s));
      Then([MovReg(T(6), ZR)], ReadIndexed(acc, T(6), T(k), index, shift), s);
    }
  }

  /** Registers the index and base may be. */
  predicate IsGuest(r: Reg) { r.D? || r.A? }

  predicate IndexOk(index: Option<Reg>) { index.Some? ==> IsGuest(index.value) || index.value == T(2) }
  predicate BaseOk(base: Option<Reg>) { base.Some? ==> IsGuest(base.value) }

  lemma AddBaseEffect(base: Option<Reg>, s: Host)
    requires BaseOk(base)
    ensures Straight(AddBase(base))
    ensures Gives(3, Plus(BaseValue(s, base), s.Get(T(3))), s, End(AddBase(base), s))
  {
    hide Plus, ShiftL, Run, End, Straight;
    if base.Some? {
      ShiftLZero(s.Get(T(3)));
      Exec1(AddReg(T(3), base.value, T(3), 0), s);
    } else {
      PlusZero(s.Get(T(3)));
      Exec0(s);
    }
  }

  lemma AddOuterEffect(hasOd: bool, s: Host)
    ensures Straight(AddOuter(hasOd))
    ensures Gives(3, if hasOd then Plus(s.Get(T(3)), s.Get(T(4))) else s.Get(T(3)), s, End(AddOuter(hasOd), s))
  {
    hide Plus, ShiftL, Run, End, Straight;
    if hasOd {
      ShiftLZero(s.Get(T(4)));
      Exec1(AddReg(T(3), T(3), T(4), 0), s);
    } else {
      Exec0(s);
    }
  }

  /** The changes of T(3), T(k), T(5) and T(6) by two pieces of code in a row. */
  ghost predicate Within(k: nat, s: Host, t: Host) {
    && t.mem == s.mem && t.n == s.n && t.z == s.z && t.c == s.c && t.v == s.v
    && forall r: Reg :: r != T(k) && r != T(3) && r != T(5) && r != T(6) ==> t.Get(r) == s.Get(r)
  }

  /** The access at address a: the register read gets the value, or the value stored reaches memory;
      otherwise only T(3), T(5) and T(6) change. */
  ghost predicate Done(acc: Access, k: nat, a: Word, s: Host, t: Host) {
    && t.n == s.n && t.z == s.z && t.c == s.c && t.v == s.v
    && t.mem == (if acc.Put? then Store(s.mem, a, acc.size, s.Get(T(k))) else s.mem)
    && (!acc.Put? ==> t.Get(T(k)) == Fetched(acc, s.mem, a))
    && forall r: Reg :: r != T(k) && r != T(3) && r != T(5) && r != T(6) ==> t.Get(r) == s.Get(r)
  }

  lemma StoreAt(size: Size, rn: Reg, rt: Reg, s: Host)
    ensures Step(ReadAt(Put(size), rt, rn), s) == s.(mem := Store(s.mem, s.Get(rn), size, s.Get(rt)))
    ensures !Jumps(ReadAt(Put(size), rt, rn))
  {
    ScaleZero(size);
    PlusZero(s.Get(rn));
    hide Plus, Scale, Store;
  }

  lemma StoreIndexed(size: Size, rn: Reg, k: nat, index: Option<Reg>, shift: bv8, s: Host)
    requires k != 5 && k != 6
    ensures var code := ReadIndexed(Put(size), rn, T(k), index, shift);
      && Straight(code)
      && Done(Put(size), k, Plus(s.Get(rn), IndexValue(s, index, shift)), s, End(code, s))
  {
    hide Plus, ShiftL, Store, ReadAt, Run, End, Straight;
    if index.None? {
      PlusZero(s.Get(rn));
      StoreAt(size, rn, T(k), s);
      Exec1(ReadAt(Put(size), T(k), rn), s);
    } else {
      var t := Step(AddReg(T(5), rn, index.value, shift), s);
      StoreAt(size, T(5), T(k), t);
      Exec2(AddReg(T(5), rn, index.value, shift), ReadAt(Put(size), T(k), T(5)), s);
    }
  }

  /** load_reg_from_addr and store_reg_to_addr. */
  lemma AccessEffect(acc: Access, base: Option<Reg>, k: nat, index: Option<Reg>, shift: bv8, s: Host)
    requires k != 5 && k != 6
    requires index.Some? ==> index.value != T(6)
    ensures var code := LoadFrom(acc, base, T(k), index, shift);
      && Straight(code)
      && Done(acc, k, Plus(BaseValue(s, base), IndexValue(s, index, shift)), s, End(code, s))
  {
    if !acc.Put? {
      LoadFromEffect(acc, base, k, index, shift, s);
      hide Plus, ShiftL, Fetched, LoadFrom, Run, End, Straight;
    } else {
      hide Plus, ShiftL, Store, ReadIndexed, Run, End, Straight;
      if base.Some? {
        StoreIndexed(acc.size, base.value, k, index, shift, s);
      } else {
        Exec1(MovReg(T(6), ZR), s);
        StoreIndexed(acc.size, T(6), k, index, shift, Step(MovReg(T(6), ZR), s));
        Then([MovReg(T(6), ZR)], ReadIndexed(acc, T(6), T(k), index, shift), s);
      }
    }
  }

  lemma DirectEffect(acc: Access, base: Option<Reg>, hasBd: bool, index: Option<Reg>, scale: bv8, k: nat, bd: Word, s: Host)
    requires BaseOk(base) && IndexOk(index) && Free(k)
    requires bd == if hasBd then s.Get(T(3)) else W(0)
    ensures var code := Direct(acc, base, hasBd, index, scale, T(k));
      && Straight(code)
      && Done(acc, k, Plus(Plus(BaseValue(s, base), bd), IndexValue(s, index, scale)), s, End(code, s))
  {
    hide Plus, ShiftL, Fetched, Store, AddBase, LoadFrom, Run, End, Straight;
    PlusZero(BaseValue(s, base));
    if hasBd {
      AddBaseEffect(base, s);
      var t := End(AddBase(base), s);
      AccessEffect(acc, Some(T(3)), k, index, scale, t);
      Then(AddBase(base), LoadFrom(acc, Some(T(3)), T(k), index, scale), s);
    } else {
      AccessEffect(acc, base, k, index, scale, s);
    }
  }

  /** The last read of the indirect modes, after the outer displacement. */
  lemma OuterEffect(acc: Access, hasOd: bool, index: Option<Reg>, scale: bv8, k: nat, od: Word, s: Host)
    requires IndexOk(index) && Free(k)
    requires od == if hasOd then s.Get(T(4)) else W(0)
    ensures var code := AddOuter(hasOd) + LoadFrom(acc, Some(T(3)), T(k), index, scale);
      && Straight(code)
      && Done(acc, k, Plus(Plus(s.Get(T(3)), od), IndexValue(s, index, scale)), s, End(code, s))
  {
    hide Plus, ShiftL, Fetched, Store, AddOuter, LoadFrom, Run, End, Straight;
    PlusZero(s.Get(T(3)));
    AddOuterEffect(hasOd, s);
    var t := End(AddOuter(hasOd), s);
    AccessEffect(acc, Some(T(3)), k, index, scale, t);
    Then(AddOuter(hasOd), LoadFrom(acc, Some(T(3)), T(k), index, scale), s);
  }

  lemma PostFetch(base: Option<Reg>, s: Host)
    requires BaseOk(base)
    ensures var code := [Ld(Long, false, T(3), T(3), if base.Some? then RegUxtw(base.value) else Scaled(W(0)))];
      && Straight(code)
      && Gives(3, Load(s.mem, Plus(s.Get(T(3)), BaseValue(s, base)), Long), s, End(code, s))
  {
    hide Plus, Load, Scale, Run, End, Straight;
    ScaleZero(Long);
    Exec1(Ld(Long, false, T(3), T(3), if base.Some? then RegUxtw(base.value) else Scaled(W(0))), s);
  }

  lemma PostIndexedEffect(acc: Access, base: Option<Reg>, index: Option<Reg>, scale: bv8, hasOd: bool, k: nat, od: Word, s: Host)
    requires BaseOk(base) && IndexOk(index) && Free(k)
    requires od == if hasOd then s.Get(T(4)) else W(0)
    ensures var code := PostIndexed(acc, base, index, scale, hasOd, T(k));
      && Straight(code)
      && var pointer := Load(s.mem, Plus(BaseValue(s, base), s.Get(T(3))), Long);
         Done(acc, k, Plus(Plus(pointer, IndexValue(s, index, scale)), od), s, End(code, s))
  {
    hide Plus, ShiftL, Load, Fetched, Store, AddOuter, LoadFrom, Run, End, Straight;
    PostFetch(base, s);
    PlusCommutes(BaseValue(s, base), s.Get(T(3)));
    var first := [Ld(Long, false, T(3), T(3), if base.Some? then RegUxtw(base.value) else Scaled(W(0)))];
    var rest := AddOuter(hasOd) + LoadFrom(acc, Some(T(3)), T(k), index, scale);
    var t := End(first, s);
    OuterEffect(acc, hasOd, index, scale, k, od, t);
    Then(first, rest, s);
    assert PostIndexed(acc, base, index, scale, hasOd, T(k)) == first + rest;
    Swap(t.Get(T(3)), od, IndexValue(s, index, scale));
  }

  lemma Swap(x: Word, y: Word, z: Word)
    ensures Plus(Plus(x, y), z) == Plus(Plus(x, z), y)
  {
    PlusAssoc(x, y, z);
    PlusAssoc(x, z, y);
    PlusCommutes(y, z);
    hide Plus;
  }

  lemma PreFetchEffect(put: bool, base: Option<Reg>, index: Option<Reg>, scale: bv8, s: Host)
    requires BaseOk(base) && IndexOk(index)
    ensures Straight(PreFetch(put, base, index, scale))
    ensures Within(3, s, End(PreFetch(put, base, index, scale), s))
    ensures End(PreFetch(put, base, index, scale), s).Get(T(3))
         == Load(s.mem, Plus(Plus(BaseValue(s, base), s.Get(T(3))), IndexValue(s, index, scale)), Long)
  {
    hide Plus, ShiftL, Load, AddBase, LoadFrom, Run, End, Straight;
    if index.None? {
      ShiftLZero(s.Get(T(3)));
      PlusZero(Plus(BaseValue(s, base), s.Get(T(3))));
      if !put {
        LoadFromEffect(Data(Long, false), base, 3, Some(T(3)), 0, s);
      } else if base.Some? {
        Exec1(Ld(Long, false, T(3), base.value, RegUxtw(T(3))), s);
      } else {
        Exec2(MovReg(T(6), ZR), Ld(Long, false, T(3), T(6), RegUxtw(T(3))), s);
      }
    } else {
      AddBaseEffect(base, s);
      var t := End(AddBase(base), s);
      LoadFromEffect(Data(Long, false), Some(T(3)), 3, index, scale, t);
      Then(AddBase(base), LoadFrom(Data(Long, false), Some(T(3)), T(3), index, scale), s);
    }
  }

  lemma PreIndexedEffect(acc: Access, base: Option<Reg>, index: Option<Reg>, scale: bv8, hasOd: bool, k: nat, od: Word, s: Host)
    requires BaseOk(base) && IndexOk(index) && Free(k)
    requires od == if hasOd then s.Get(T(4)) else W(0)
    ensures var code := PreIndexed(acc, base, index, scale, hasOd, T(k));
      && Straight(code)
      && var pointer := Load(s.mem, Plus(Plus(BaseValue(s, base), s.Get(T(3))), IndexValue(s, index, scale)), Long);
         Done(acc, k, Plus(pointer, od), s, End(code, s))
  {
    hide Plus, ShiftL, Load, Fetched, Store, PreFetch, AddOuter, LoadFrom, Run, End, Straight;
    PreFetchEffect(acc.Put?, base, index, scale, s);
    var t := End(PreFetch(acc.Put?, base, index, scale), s);
    var rest := AddOuter(hasOd) + LoadFrom(acc, Some(T(3)), T(k), None, 0);
    OuterEffect(acc, hasOd, None, 0, k, od, t);
    PlusZero(Plus(t.Get(T(3)), od));
    Then(PreFetch(acc.Put?, base, index, scale), rest, s);
    assert PreIndexed(acc, base, index, scale, hasOd, T(k)) == PreFetch(acc.Put?, base, index, scale) + rest;
  }

  // ---------------------------------------------------------------- the whole mode

  lemma NegativeS16(w: Word)
    requires w.b < 0x1_0000 && w.b & 0x8000 != 0
    ensures Not(Low16(Not(w))).b == Sext16(w).b
  {
  }

  lemma PositiveS16(w: Word)
    requires w.b < 0x1_0000 && w.b & 0x8000 == 0
    ensures Low16(w).b == Sext16(w).b
  {
  }

  lemma Bit15(w: Word)
    ensures Bit(w, 15) == (w.b & 0x8000 != 0)
  {
  }

  lemma LoadS16Step(rd: Reg, w: Word, s: Host)
    requires w.b < 0x1_0000 && rd != ZR
    ensures !Jumps(LoadS16(rd, w)) && Step(LoadS16(rd, w), s) == s.Set(rd, Sext16(w))
  {
    hide Not, Low16, Sext16, Bit;
    Bit15(w);
    if Bit(w, 15) {
      NegativeS16(w);
      SameBits(Not(Low16(Not(w))), Sext16(w));
    } else {
      PositiveS16(w);
      SameBits(Low16(w), Sext16(w));
    }
  }

  lemma BdEffect(e: Ext, words: Stream, k: nat, s: Host)
    requires Halfwords(words)
    ensures Straight(BdCode(e, words, k))
    ensures End(BdCode(e, words, k), s) == if HasBd(e) then s.Set(T(3), BdValue(e, words, k)) else s
    ensures !HasBd(e) ==> BdValue(e, words, k) == W(0)
  {
    hide Sext16, Or, ShiftL, Run, End, Straight, LoadS16;
    Exec0(s);
    if e.bd.BdWord? {
      LoadS16Step(T(3), words(k), s);
      Exec1(LoadS16(T(3), words(k)), s);
    } else if e.bd.BdLong? {
      Exec1(LoadImmediate(T(3), Pair(words(k), words(k + 1))), s);
    }
  }

  lemma OdEffect(e: Ext, words: Stream, k: nat, s: Host)
    requires Halfwords(words)
    ensures Straight(OdCode(e, words, k))
    ensures End(OdCode(e, words, k), s) == if HasOd(e) then s.Set(T(4), OdValue(e, words, k)) else s
    ensures !HasOd(e) ==> OdValue(e, words, k) == W(0)
  {
    hide Sext16, Or, ShiftL, Run, End, Straight, LoadS16;
    Exec0(s);
    if e.od.OdWord? {
      LoadS16Step(T(4), words(k), s);
      Exec1(LoadS16(T(4), words(k)), s);
    } else if e.od.OdLong? {
      Exec1(LoadImmediate(T(4), Pair(words(k), words(k + 1))), s);
    }
  }

  lemma IndexEffect(xn: Reg, long: bool, s: Host)
    ensures Straight(IndexCode(xn, long))
    ensures End(IndexCode(xn, long), s) == if long then s else s.Set(T(2), Sext16(s.Get(xn)))
  {
    hide Sext16, Run, End, Straight;
    Exec0(s);
    if !long {
      Exec1(Sxth(T(2), xn), s);
    }
  }

  function Prologue(e: Ext, words: Stream, k: nat): seq<Insn> {
    (if e.noIndex then [] else IndexCode(e.xn, e.long)) + BdCode(e, words, k) + OdCode(e, words, k + BdCount(e))
  }

  function SpecIndex(s: Host, e: Ext): Word {
    if e.noIndex then W(0) else ScaledIndex(s, e.xn, e.long, e.scale)
  }

  ghost predicate Prepared(e: Ext, words: Stream, k: nat, s: Host, t: Host) {
    && t.mem == s.mem && t.n == s.n && t.z == s.z && t.c == s.c && t.v == s.v
    && (forall r: Reg :: r != T(2) && r != T(3) && r != T(4) ==> t.Get(r) == s.Get(r))
    && IndexValue(t, IndexReg(e), e.scale) == SpecIndex(s, e)
    && BdValue(e, words, k) == (if HasBd(e) then t.Get(T(3)) else W(0))
    && OdValue(e, words, k + BdCount(e)) == (if HasOd(e) then t.Get(T(4)) else W(0))
  }

  function PrologueState(e: Ext, words: Stream, k: nat, s: Host): Host {
    var t := if e.noIndex || e.long then s else s.Set(T(2), Sext16(s.Get(e.xn)));
    var u := if HasBd(e) then t.Set(T(3), BdValue(e, words, k)) else t;
    if HasOd(e) then u.Set(T(4), OdValue(e, words, k + BdCount(e))) else u
  }

  lemma PrologueFrame(e: Ext, words: Stream, k: nat, s: Host)
    ensures var t := PrologueState(e, words, k, s);
      && t.mem == s.mem && t.n == s.n && t.z == s.z && t.c == s.c && t.v == s.v
      && (forall r: Reg :: r != T(2) && r != T(3) && r != T(4) ==> t.Get(r) == s.Get(r))
  {
    hide Sext16, BdValue, OdValue, BdCount, HasBd, HasOd;
  }

  lemma PrologueValues(e: Ext, words: Stream, k: nat, s: Host)
    requires IsGuest(e.xn)
    ensures var t := PrologueState(e, words, k, s);
      && (!e.noIndex ==> t.Get(IndexOf(e.xn, e.long)) == if e.long then s.Get(e.xn) else Sext16(s.Get(e.xn)))
      && (HasBd(e) ==> t.Get(T(3)) == BdValue(e, words, k))
      && (HasOd(e) ==> t.Get(T(4)) == OdValue(e, words, k + BdCount(e)))
  {
    hide Sext16, BdValue, OdValue, BdCount, HasBd, HasOd;
  }

  lemma PrologueRun(e: Ext, words: Stream, k: nat, s: Host)
    requires Halfwords(words) && IsGuest(e.xn)
    ensures Straight(Prologue(e, words, k))
    ensures End(Prologue(e, words, k), s) == PrologueState(e, words, k, s)
    ensures !HasBd(e) ==> BdValue(e, words, k) == W(0)
    ensures !HasOd(e) ==> OdValue(e, words, k + BdCount(e)) == W(0)
  {
    hide Sext16, Halfwords, BdCode, OdCode, BdValue, OdValue, IndexCode, BdCount, HasBd, HasOd, Run, End, Straight;
    var a := if e.noIndex then [] else IndexCode(e.xn, e.long);
    Exec0(s);
    IndexEffect(e.xn, e.long, s);
    var t := End(a, s);
    BdEffect(e, words, k, t);
    Then(a, BdCode(e, words, k), s);
    var u := End(BdCode(e, words, k), t);
    OdEffect(e, words, k + BdCount(e), u);
    Then(a + BdCode(e, words, k), OdCode(e, words, k + BdCount(e)), s);
  }

  lemma PrologueEffect(e: Ext, words: Stream, k: nat, s: Host)
    requires Halfwords(words) && IsGuest(e.xn)
    ensures Straight(Prologue(e, words, k)) && Prepared(e, words, k, s, End(Prologue(e, words, k), s))
  {
    PrologueRun(e, words, k, s);
    PrologueFrame(e, words, k, s);
    PrologueValues(e, words, k, s);
    hide Sext16, ShiftL, Halfwords, BdValue, OdValue, BdCount, HasBd, HasOd, Prologue, PrologueState, Run, End, Straight;
  }

  /** The part after the prologue. */
  function Body(acc: Access, an: Reg, e: Ext, rt: Reg): seq<Insn> {
    var base := if e.noBase then None else Some(an);
    var index := IndexReg(e);
    if e.od.NoIndirection? && !e.post && !e.reserved then Direct(acc, base, HasBd(e), index, e.scale, rt)
    else if HasBd(e) then Indirect(acc, base, e, rt)
    else [CopyBase(base)] + Indirect(acc, None, e, rt)
  }

  function Indirect(acc: Access, base: Option<Reg>, e: Ext, rt: Reg): seq<Insn> {
    if e.post then PostIndexed(acc, base, IndexReg(e), e.scale, HasOd(e), rt)
    else PreIndexed(acc, base, IndexReg(e), e.scale, HasOd(e), rt)
  }

  /** The manual's address from its parts. */
  function AddressOf(e: Ext, m: Mem, base: Word, bd: Word, index: Word, od: Word): Word {
    if e.od.NoIndirection? then Plus(Plus(base, bd), index)
    else if e.post then Plus(Plus(Load(m, Plus(base, bd), Long), index), od)
    else Plus(Load(m, Plus(Plus(base, bd), index), Long), od)
  }

  lemma IndirectEffect(acc: Access, base: Option<Reg>, e: Ext, k: nat, od: Word, s: Host)
    requires BaseOk(base) && IndexOk(IndexReg(e)) && Free(k) && !e.od.NoIndirection?
    requires od == if HasOd(e) then s.Get(T(4)) else W(0)
    ensures var code := Indirect(acc, base, e, T(k));
      && Straight(code)
      && Done(acc, k, AddressOf(e, s.mem, BaseValue(s, base), s.Get(T(3)), IndexValue(s, IndexReg(e), e.scale), od), s, End(code, s))
  {
    if e.post {
      PostIndexedEffect(acc, base, IndexReg(e), e.scale, HasOd(e), k, od, s);
    } else {
      PreIndexedEffect(acc, base, IndexReg(e), e.scale, HasOd(e), k, od, s);
    }
    hide Plus, Load, Fetched, Store, Run, End, Straight, Within, PostIndexed, PreIndexed, IndexValue, BaseValue;
  }

  lemma CopyBaseEffect(base: Option<Reg>, s: Host)
    ensures Straight([CopyBase(base)]) && Gives(3, BaseValue(s, base), s, End([CopyBase(base)], s))
  {
    hide Run, End, Straight;
    Exec1(CopyBase(base), s);
  }

  lemma BodyEffect(acc: Access, an: Reg, e: Ext, k: nat, bd: Word, od: Word, s: Host)
    requires Valid(e) && IsGuest(an) && Free(k)
    requires bd == if HasBd(e) then s.Get(T(3)) else W(0)
    requires od == if HasOd(e) then s.Get(T(4)) else W(0)
    ensures var code := Body(acc, an, e, T(k));
      && Straight(code)
      && Done(acc, k, AddressOf(e, s.mem, if e.noBase then W(0) else s.Get(an), bd, IndexValue(s, IndexReg(e), e.scale), od), s, End(code, s))
  {
    hide Plus, Load, Fetched, Store, Run, End, Straight, Direct, Indirect;
    var base := if e.noBase then None else Some(an);
    if e.od.NoIndirection? {
      DirectEffect(acc, base, HasBd(e), IndexReg(e), e.scale, k, bd, s);
    } else if HasBd(e) {
      IndirectEffect(acc, base, e, k, od, s);
    } else {
      CopyBaseEffect(base, s);
      var t := End([CopyBase(base)], s);
      IndirectEffect(acc, None, e, k, od, t);
      Then([CopyBase(base)], Indirect(acc, None, e, T(k)), s);
      PlusZero(BaseValue(s, base));
    }
  }

  lemma FullCode(acc: Access, an: Reg, e: Ext, words: Stream, k: nat, rt: Reg)
    ensures Full(acc, an, e, words, k, rt) == Prologue(e, words, k) + Body(acc, an, e, rt)
  {
    hide IndexCode, BdCode, OdCode, Direct, PostIndexed, PreIndexed;
  }

  lemma FullParts(s: Host, an: Reg, e: Ext, words: Stream, k: nat)
    ensures FullAddress(s, an, e, words, k)
         == AddressOf(e, s.mem, if e.noBase then W(0) else s.Get(an), BdValue(e, words, k), SpecIndex(s, e), OdValue(e, words, k + BdCount(e)))
    ensures Valid(e) ==> IsGuest(e.xn)
  {
    hide Plus, Load, BdValue, OdValue, BdCount, ScaledIndex;
  }

  lemma PreparedKeeps(e: Ext, words: Stream, k: nat, an: Reg, i: nat, s: Host, t: Host)
    requires Prepared(e, words, k, s, t) && IsGuest(an) && Free(i)
    ensures t.mem == s.mem && t.Get(an) == s.Get(an) && t.Get(T(i)) == s.Get(T(i)) && OnlyScratch(s, t)
  {
    hide BdValue, OdValue, BdCount, HasBd, HasOd, IndexValue, SpecIndex;
  }

  /** An access seen from outside: only scratch registers change besides memory, which changes only by
      the store. */
  ghost predicate Accessed(acc: Access, i: nat, a: Word, s: Host, t: Host) {
    && OnlyScratch(s, t.(mem := s.mem))
    && t.mem == (if acc.Put? then Store(s.mem, a, acc.size, s.Get(T(i))) else s.mem)
    && (!acc.Put? ==> t.Get(T(i)) == Fetched(acc, s.mem, a))
  }

  lemma DoneAccessed(acc: Access, i: nat, a: Word, s: Host, t: Host, u: Host)
    requires OnlyScratch(s, t) && Done(acc, i, a, t, u) && t.Get(T(i)) == s.Get(T(i))
    ensures Accessed(acc, i, a, s, u)
  {
    hide Store, Fetched;
  }

  /** For every full extension word the manual defines, the code reads the manual's address (or yields
      it, for size 0) and touches nothing but scratch registers. */
  lemma FullEffect(acc: Access, an: Reg, e: Ext, words: Stream, k: nat, i: nat, s: Host)
    requires Valid(e) && IsGuest(an) && Free(i) && Halfwords(words)
    ensures var code := Full(acc, an, e, words, k, T(i));
      Straight(code) && Accessed(acc, i, FullAddress(s, an, e, words, k), s, End(code, s))
  {
    FullCode(acc, an, e, words, k, T(i));
    PrologueEffect(e, words, k, s);
    var t := End(Prologue(e, words, k), s);
    hide Halfwords, Plus, Load, Fetched, Store, Run, End, Straight, Prologue, Body, Full, BdValue, OdValue, BdCount, HasBd, HasOd, IndexReg, IndexValue, ScaledIndex, AddressOf, FullAddress, Valid, OnlyScratch, Done, Accessed;
    PreparedKeeps(e, words, k, an, i, s, t);
    FullParts(s, an, e, words, k);
    BodyEffect(acc, an, e, i, BdValue(e, words, k), OdValue(e, words, k + BdCount(e)), t);
    Then(Prologue(e, words, k), Body(acc, an, e, T(i)), s);
    DoneAccessed(acc, i, FullAddress(s, an, e, words, k), s, t, End(Body(acc, an, e, T(i)), t));
  }

  // ---------------------------------------------------------------- the brief format

  /** A sign-extended 8-bit displacement. */
  predicate IsD8(w: Word) { w.b < 0x80 || 0xffff_ff80 <= w.b }

  lemma D8Reachable(d8: Word)
    requires IsD8(d8)
    ensures Reachable(d8)
  {
  }

  lemma BriefBaseEffect(an: Reg, d8: Word, s: Host)
    requires IsD8(d8) && IsGuest(an)
    ensures Straight(BriefBase(an, d8))
    ensures End(BriefBase(an, d8), s) == if d8 == W(0) then s else s.Set(T(3), Plus(s.Get(an), d8))
  {
    D8Reachable(d8);
    Exec0(s);
    NearAddress(an, T(3), d8, s);
    hide Plus, Neg, Ascending, IsD8, AddImmed, SubImmed, Run, End, Straight;
  }

  lemma BriefPrologue(an: Reg, d8: Word, xn: Reg, long: bool, i: nat, s: Host)
    requires Free(i) && IsD8(d8) && IsGuest(an) && IsGuest(xn)
    ensures var code := BriefBase(an, d8) + IndexCode(xn, long);
      var t := End(code, s);
      && Straight(code) && OnlyScratch(s, t)
      && t.Get(T(i)) == s.Get(T(i))
      && t.Get(if d8 == W(0) then an else T(3)) == Plus(s.Get(an), d8)
      && t.Get(IndexOf(xn, long)) == if long then s.Get(xn) else Sext16(s.Get(xn))
  {
    hide Plus, Sext16, IsD8, BriefBase, IndexCode, Run, End, Straight;
    PlusZero(s.Get(an));
    BriefBaseEffect(an, d8, s);
    var t := End(BriefBase(an, d8), s);
    IndexEffect(xn, long, t);
    Then(BriefBase(an, d8), IndexCode(xn, long), s);
  }

  /** The brief format accesses the manual's address, for every 8-bit displacement, index register,
      index size and scale. */
  lemma BriefEffect(acc: Access, an: Reg, d8: Word, xn: Reg, long: bool, scale: bv8, i: nat, s: Host)
    requires IsD8(d8) && IsGuest(an) && IsGuest(xn) && Free(i)
    ensures var code := Brief(acc, an, d8, xn, long, scale, T(i));
      Straight(code) && Accessed(acc, i, BriefAddress(s, an, d8, xn, long, scale), s, End(code, s))
  {
    hide Plus, ShiftL, Sext16, IsD8, BriefBase, IndexCode, LoadFrom, Run, End, Straight, Done, Accessed, OnlyScratch;
    BriefPrologue(an, d8, xn, long, i, s);
    var prologue := BriefBase(an, d8) + IndexCode(xn, long);
    var t := End(prologue, s);
    var base := Some(if d8 == W(0) then an else T(3));
    var index := Some(IndexOf(xn, long));
    AccessEffect(acc, base, i, index, scale, t);
    Then(prologue, LoadFrom(acc, base, T(i), index, scale), s);
    DoneAccessed(acc, i, BriefAddress(s, an, d8, xn, long, scale), s, t, End(LoadFrom(acc, base, T(i), index, scale), t));
  }

  // ---------------------------------------------------------------- either format

  /** Mode 6: code, and the number of extension words read from position k on. */
  function Mode6(acc: Access, an: Reg, words: Stream, k: nat, rt: Reg): (seq<Insn>, nat) {
    var w := ExtensionOf(words, k);
    if IsBrief(w) then
      (Brief(acc, an, BriefDisplacement(w), IndexRegister(w), w & 0x0800 != 0, BriefScale(w), rt), 1)
    else
      (Full(acc, an, DecodeExt(w), words, k + 1, rt), 1 + BdCount(DecodeExt(w)) + OdCount(DecodeExt(w)))
  }

  lemma BriefIsD8(w: bv16)
    ensures IsD8(BriefDisplacement(w))
  {
  }

  /** Mode 6 for every valid extension word, in either format. */
  lemma Mode6Effect(acc: Access, an: Reg, words: Stream, k: nat, i: nat, s: Host)
    requires Mode6Valid(ExtensionOf(words, k)) && IsGuest(an) && Free(i) && Halfwords(words)
    ensures var code := Mode6(acc, an, words, k, T(i)).0;
      Straight(code) && Accessed(acc, i, Mode6Address(s, an, words, k), s, End(code, s))
  {
    hide Halfwords, Valid, ExtensionOf, DecodeExt, BriefDisplacement, BriefScale, IsBrief, BriefAddress, FullAddress, Brief, Full, Accessed, Run, End, Straight;
    var w := ExtensionOf(words, k);
    if IsBrief(w) {
      BriefIsD8(w);
      BriefEffect(acc, an, BriefDisplacement(w), IndexRegister(w), w & 0x0800 != 0, BriefScale(w), i, s);
    } else {
      FullEffect(acc, an, DecodeExt(w), words, k + 1, i, s);
    }
  }
}
