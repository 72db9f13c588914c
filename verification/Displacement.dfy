/**
  Access to memory at a base register plus a displacement: load_reg_from_addr_offset and its store
  twin (emu68/src/M68k_EA.c).  Several encodings are used, depending on the size of the access and of
  the displacement; all of them must address base + displacement.
*/
module Displacement {
  import opened Words
  import opened A64
  import opened Pc
  import opened Wrappers
  import opened Manual

  /** -256 < w < 256 */
  predicate Near(w: Word) { w.b < 256 || -w.b < 256 }

  /** -4096 < w < 4096 */
  predicate Reachable(w: Word) { w.b < 4096 || -w.b < 4096 }

  /** The scaled form reaches the displacement. */
  predicate ScaledFits(size: Size, w: Word) {
    match size
    case Long => Below(w, 16384) && w.b & 3 == 0
    case Half => w.b < 8192 && w.b & 1 == 0
    case Byte => w.b < 4096
  }

  function LogSize(size: Size): bv8 {
    match size case Byte => 0 case Half => 1 case Long => 2
  }

  /** The addressing form chosen, if one instruction is enough. */
  function DirectForm(size: Size, offset: Word): Option<Addressing> {
    if size.Long? && offset == W(0) then Some(Scaled(W(0)))
    else if Near(offset) then Some(Unscaled(offset))
    else if ScaledFits(size, offset) then Some(Scaled(ShiftR(offset, LogSize(size))))
    else None
  }

  /** The displacement in a register.  Without `wide` only 16-bit displacements are expected: positive
      ones by MOVZ, others by MOVN of -offset - 1. */
  function Materialise(rd: Reg, offset: Word, wide: bool): Insn {
    if wide then LoadImmediate(rd, offset)
    else if Positive(offset) then MovImmed(rd, offset, 0)
    else MovnImmed(rd, Minus(Neg(offset), W(1)))
  }

  function LoadOffset(size: Size, signed: bool, base: Reg, rt: Reg, offset: Word, wide: bool): seq<Insn> {
    match DirectForm(size, offset)
    case Some(mode) => [Ld(size, signed, rt, base, mode)]
    case None => [Materialise(T(7), offset, wide), AddReg(T(7), base, T(7), 0), Ld(size, signed, rt, T(7), Scaled(W(0)))]
  }

  function StoreOffset(size: Size, base: Reg, rt: Reg, offset: Word, wide: bool): seq<Insn> {
    match DirectForm(size, offset)
    case Some(mode) => [St(size, rt, base, mode)]
    case None => [Materialise(T(7), offset, wide), AddReg(T(7), base, T(7), 0), St(size, rt, T(7), Scaled(W(0)))]
  }

  /** w >= 0 */
  predicate Ascending(w: Word) { w.b < 0x8000_0000 }

  /** Size 0: the address itself. */
  function AddressOffset(base: Reg, rt: Reg, offset: Word, wide: bool): seq<Insn> {
    if Reachable(offset) then
      if Ascending(offset) then [AddImmed(rt, base, offset)] else [SubImmed(rt, base, Neg(offset))]
    else [Materialise(T(7), offset, wide), AddReg(rt, base, T(7), 0)]
  }

  /** Without a base register a cleared one stands in. */
  function ClearBase(): Insn { MovReg(T(6), ZR) }

  function LoadAt(size: Size, signed: bool, base: Option<Reg>, rt: Reg, offset: Word, wide: bool): seq<Insn> {
    if base.Some? then LoadOffset(size, signed, base.value, rt, offset, wide)
    else [ClearBase()] + LoadOffset(size, signed, T(6), rt, offset, wide)
  }

  function StoreAt(size: Size, base: Option<Reg>, rt: Reg, offset: Word, wide: bool): seq<Insn> {
    if base.Some? then StoreOffset(size, base.value, rt, offset, wide)
    else [ClearBase()] + StoreOffset(size, T(6), rt, offset, wide)
  }

  function AddressAt(base: Option<Reg>, rt: Reg, offset: Word, wide: bool): seq<Insn> {
    if base.Some? then AddressOffset(base.value, rt, offset, wide)
    else [ClearBase()] + AddressOffset(T(6), rt, offset, wide)
  }

  /** A missing base counts as zero. */
  function BaseValue(s: Host, base: Option<Reg>): Word {
    if base.Some? then s.Get(base.value) else W(0)
  }

  // ---------------------------------------------------------------- bits

  lemma NearBits(w: Word)
    requires Near(w)
    ensures Sext9(w).b == w.b
  {
  }

  lemma ScaledBits(size: Size, w: Word)
    requires ScaledFits(size, w)
    ensures Scale(ShiftR(w, LogSize(size)), size).b == w.b
  {
  }

  lemma ScaleZero(size: Size)
    ensures Scale(W(0), size) == W(0)
  {
    assert Scale(W(0), size).b == 0;
  }

  lemma PositiveBits(w: Word)
    requires IsD16(w) && Positive(w)
    ensures Low16(w).b == w.b
  {
  }

  lemma NegativeBits(w: Word)
    requires IsD16(w) && !Positive(w)
    ensures Not(Low16(Minus(Neg(w), W(1)))).b == w.b || w.b == 0
  {
  }

  lemma ReachBits(w: Word)
    requires Reachable(w)
    ensures Ascending(w) ==> w.b < 4096
    ensures !Ascending(w) ==> Neg(w).b < 4096
  {
  }

  // ---------------------------------------------------------------- effect

  lemma MaterialiseStep(rd: Reg, offset: Word, wide: bool, s: Host)
    requires wide || (IsD16(offset) && offset != W(0))
    requires rd != ZR
    ensures !Jumps(Materialise(rd, offset, wide))
    ensures Step(Materialise(rd, offset, wide), s) == s.Set(rd, offset)
  {
    if !wide {
      if Positive(offset) {
        PositiveBits(offset);
        SameBits(Low16(offset), offset);
      } else {
        NegativeBits(offset);
        hide Low16, Not, Minus, Neg, Positive, IsD16;
        SameBits(Not(Low16(Minus(Neg(offset), W(1)))), offset);
      }
    }
    hide Low16, Not, Minus, Neg, Positive, IsD16;
  }

  /** One instruction, if it is enough, addresses base + displacement. */
  lemma DirectAddress(size: Size, offset: Word, base: Reg, s: Host)
    requires DirectForm(size, offset).Some?
    ensures var mode := DirectForm(size, offset).value;
      Address(s, size, base, mode) == Plus(s.Get(base), offset) && WriteBack(s, base, mode) == s
  {
    if size.Long? && offset == W(0) {
      ScaleZero(size);
    } else if Near(offset) {
      NearBits(offset);
      SameBits(Sext9(offset), offset);
    } else {
      ScaledBits(size, offset);
      SameBits(Scale(ShiftR(offset, LogSize(size)), size), offset);
    }
    hide Near, ScaledFits, Scale, Sext9, ShiftR, LogSize, Plus;
  }

  /** The displacement added to the base in the scratch register. */
  lemma AddressInScratch(base: Reg, rd: Reg, offset: Word, wide: bool, s: Host)
    requires wide || (IsD16(offset) && offset != W(0))
    requires base != T(7) && rd != ZR
    ensures var code := [Materialise(T(7), offset, wide), AddReg(rd, base, T(7), 0)];
      && Straight(code)
      && End(code, s) == s.Set(T(7), offset).Set(rd, Plus(s.Get(base), offset))
  {
    MaterialiseStep(T(7), offset, wide, s);
    ShiftLZero(offset);
    hide Materialise, IsD16, Plus, ShiftL, Run, End, Straight;
    Exec2(Materialise(T(7), offset, wide), AddReg(rd, base, T(7), 0), s);
  }

  lemma NotDirect(size: Size, offset: Word)
    requires DirectForm(size, offset).None?
    ensures offset != W(0)
  {
  }

  lemma LoadOffsetEffect(size: Size, signed: bool, base: Reg, rt: Reg, offset: Word, wide: bool, s: Host)
    requires wide || IsD16(offset)
    requires base != T(7) && rt != ZR
    ensures var code := LoadOffset(size, signed, base, rt, offset, wide);
      && Straight(code) && OnlyRegs(rt, T(7), s, End(code, s))
      && End(code, s).Get(rt) == Extend(size, signed, Load(s.mem, Plus(s.Get(base), offset), size))
  {
    hide Materialise, IsD16, Plus, Load, Extend, Scale, Run, End, Straight;
    var code := LoadOffset(size, signed, base, rt, offset, wide);
    if DirectForm(size, offset).Some? {
      DirectAddress(size, offset, base, s);
      Exec1(code[0], s);
    } else {
      NotDirect(size, offset);
      AddressInScratch(base, T(7), offset, wide, s);
      var t := End([code[0], code[1]], s);
      ScaleZero(size);
      PlusZero(t.Get(T(7)));
      Exec1(code[2], t);
      Then([code[0], code[1]], [code[2]], s);
      assert code == [code[0], code[1]] + [code[2]];
    }
    hide DirectForm, LoadOffset;
  }

  lemma StoreOffsetEffect(size: Size, base: Reg, rt: Reg, offset: Word, wide: bool, s: Host)
    requires wide || IsD16(offset)
    requires base != T(7) && rt != T(7)
    ensures var code := StoreOffset(size, base, rt, offset, wide);
      && Straight(code)
      && OnlyRegs(T(7), T(7), s, End(code, s).(mem := s.mem))
      && End(code, s).mem == Store(s.mem, Plus(s.Get(base), offset), size, s.Get(rt))
  {
    hide Materialise, IsD16, Plus, Store, Scale, Run, End, Straight;
    var code := StoreOffset(size, base, rt, offset, wide);
    if DirectForm(size, offset).Some? {
      DirectAddress(size, offset, base, s);
      Exec1(code[0], s);
    } else {
      NotDirect(size, offset);
      AddressInScratch(base, T(7), offset, wide, s);
      var t := End([code[0], code[1]], s);
      ScaleZero(size);
      PlusZero(t.Get(T(7)));
      Exec1(code[2], t);
      Then([code[0], code[1]], [code[2]], s);
      assert code == [code[0], code[1]] + [code[2]];
    }
    hide DirectForm, StoreOffset;
  }

  lemma ReachableZero(offset: Word)
    requires !Reachable(offset)
    ensures offset != W(0)
  {
  }

  lemma NearAddress(base: Reg, rt: Reg, offset: Word, s: Host)
    requires Reachable(offset) && rt != ZR
    ensures var code := [if Ascending(offset) then AddImmed(rt, base, offset) else SubImmed(rt, base, Neg(offset))];
      Straight(code) && End(code, s) == s.Set(rt, Plus(s.Get(base), offset))
  {
    ReachBits(offset);
    hide *;
    if Ascending(offset) {
      AddForm(rt, base, offset, s);
    } else {
      SubForm(rt, base, offset, s);
    }
  }

  lemma AddressOffsetEffect(base: Reg, rt: Reg, offset: Word, wide: bool, s: Host)
    requires wide || IsD16(offset)
    requires base != T(7) && rt != ZR
    ensures var code := AddressOffset(base, rt, offset, wide);
      && Straight(code) && OnlyRegs(rt, T(7), s, End(code, s))
      && End(code, s).Get(rt) == Plus(s.Get(base), offset)
  {
    hide Plus, Neg, Ascending, IsD16, Reachable, Run, End, Straight, Step, AddImmed, SubImmed, AddReg, Materialise;
    if Reachable(offset) {
      NearAddress(base, rt, offset, s);
    } else {
      ReachableZero(offset);
      AddressInScratch(base, rt, offset, wide, s);
    }
  }

  /** A base that no scratch register of these sequences holds. */
  predicate Usable(base: Option<Reg>) { base.Some? ==> base.value != T(7) }

  /** Memory, host flags and every register but one and the scratch registers are as before. */
  ghost predicate OnlyThat(rd: Reg, s: Host, t: Host) {
    && t.mem == s.mem && t.n == s.n && t.z == s.z && t.c == s.c && t.v == s.v
    && forall r: Reg :: r != rd && !r.T? ==> t.Get(r) == s.Get(r)
  }

  lemma Cleared(rest: seq<Insn>, s: Host)
    requires Straight(rest)
    ensures var t := s.Set(T(6), W(0));
      Straight([ClearBase()] + rest) && End([ClearBase()] + rest, s) == End(rest, t)
  {
    hide Run, End, Straight;
    Exec1(ClearBase(), s);
    Then([ClearBase()], rest, s);
  }

  /** Whatever form is picked, with a base register or without, the load reads base + displacement. */
  lemma LoadAtEffect(size: Size, signed: bool, base: Option<Reg>, rt: Reg, offset: Word, wide: bool, s: Host)
    requires wide || IsD16(offset)
    requires Usable(base) && rt != ZR
    ensures var code := LoadAt(size, signed, base, rt, offset, wide);
      && Straight(code) && OnlyThat(rt, s, End(code, s))
      && End(code, s).Get(rt) == Extend(size, signed, Load(s.mem, Plus(BaseValue(s, base), offset), size))
  {
    hide LoadOffset, IsD16, Plus, Load, Extend, Run, End, Straight, ClearBase;
    if base.Some? {
      LoadOffsetEffect(size, signed, base.value, rt, offset, wide, s);
    } else {
      LoadOffsetEffect(size, signed, T(6), rt, offset, wide, s.Set(T(6), W(0)));
      Cleared(LoadOffset(size, signed, T(6), rt, offset, wide), s);
    }
  }

  /** The same of a store, which writes nothing else. */
  lemma StoreAtEffect(size: Size, base: Option<Reg>, rt: Reg, offset: Word, wide: bool, s: Host)
    requires wide || IsD16(offset)
    requires Usable(base) && rt != T(7) && rt != T(6)
    ensures var code := StoreAt(size, base, rt, offset, wide);
      && Straight(code) && OnlyThat(ZR, s, End(code, s).(mem := s.mem))
      && End(code, s).mem == Store(s.mem, Plus(BaseValue(s, base), offset), size, s.Get(rt))
  {
    hide StoreOffset, IsD16, Plus, Store, Run, End, Straight, ClearBase;
    if base.Some? {
      StoreOffsetEffect(size, base.value, rt, offset, wide, s);
    } else {
      StoreOffsetEffect(size, T(6), rt, offset, wide, s.Set(T(6), W(0)));
      Cleared(StoreOffset(size, T(6), rt, offset, wide), s);
    }
  }

  /** Size 0 yields base + displacement. */
  lemma AddressAtEffect(base: Option<Reg>, rt: Reg, offset: Word, wide: bool, s: Host)
    requires wide || IsD16(offset)
    requires Usable(base) && rt != ZR
    ensures var code := AddressAt(base, rt, offset, wide);
      && Straight(code) && OnlyThat(rt, s, End(code, s))
      && End(code, s).Get(rt) == Plus(BaseValue(s, base), offset)
  {
    hide AddressOffset, IsD16, Plus, Run, End, Straight, ClearBase;
    if base.Some? {
      AddressOffsetEffect(base.value, rt, offset, wide, s);
    } else {
      AddressOffsetEffect(T(6), rt, offset, wide, s.Set(T(6), W(0)));
      Cleared(AddressOffset(T(6), rt, offset, wide), s);
    }
  }

  /** -65536 <= w < 65536 */
  predicate IsS17(w: Word) { w.b < 0x1_0000 || 0xffff_0000 <= w.b }

  /** The form without LoadImmediate is exact if and only if the displacement is nonzero and of at most
      seventeen bits; every 16-bit one is, and zero never gets there. */
  lemma MaterialiseExactIff(offset: Word, s: Host)
    ensures Step(Materialise(T(7), offset, false), s).Get(T(7)) == offset <==> (IsS17(offset) && offset != W(0))
  {
    S17Bits(offset);
    hide Low16, Not, Minus, Neg, Positive, IsS17;
  }

  lemma S17Bits(w: Word)
    ensures Positive(w) ==> (Low16(w).b == w.b <==> (IsS17(w) && w.b != 0))
    ensures !Positive(w) ==> (Not(Low16(Minus(Neg(w), W(1)))).b == w.b <==> (IsS17(w) && w.b != 0))
  {
  }
}
