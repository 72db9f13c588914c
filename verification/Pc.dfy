/**
  The lagging program counter (emu68/src/M68k_Translator.c, lines 52 to 103).  The register that
  holds the m68k PC is behind by a pending offset known at translation time; emitters either add
  to the offset, fold it into an addition of their own, or write it out.
  Offsets are 32-bit two's complement words.
*/
module Pc {
  import opened Words
  import opened A64

  predicate Positive(w: Word) { 0 < w.b < 0x8000_0000 }

  /** Signed: w > limit or w < -limit. */
  predicate Beyond(w: Word, limit: bv32) { limit < w.b && w.b < -limit }

  predicate Below(w: Word, limit: bv32) { 0 < w.b < limit }

  /** Write the pending offset out. */
  function WriteOut(pending: Word): seq<Insn> {
    if Positive(pending) then [AddImmed(PC, PC, pending)] else [SubImmed(PC, PC, Neg(pending))]
  }

  /** EMIT_FlushPC; afterwards nothing is pending. */
  function FlushPc(pending: Word): seq<Insn> {
    if pending.b == 0 then [] else WriteOut(pending)
  }

  /** EMIT_AdvancePC: code, and the new pending offset. */
  function AdvancePc(pending: Word, offset: Word): (seq<Insn>, Word) {
    var p := Plus(pending, offset);
    if Beyond(p, 120) then (WriteOut(p), W(0)) else ([], p)
  }

  /** EMIT_GetOffsetPC: code, the new pending offset, and the offset to use. */
  function GetOffsetPc(pending: Word, offset: Word): (seq<Insn>, Word, Word) {
    var p := Plus(pending, offset);
    if Beyond(p, 127) then (WriteOut(pending), W(0), offset) else ([], pending, p)
  }

  /** The additions of a constant to the PC (or of the PC and a constant to another register) that
      emitters choose by its size: below `pos` an immediate addition, above -`neg` a subtraction,
      else a constant in a register. */
  function AddOffset(rd: Reg, offset: Word, pos: bv32, neg: bv32, tmp: Reg): seq<Insn> {
    if Below(offset, pos) then [AddImmed(rd, PC, offset)]
    else if Below(Neg(offset), neg) then [SubImmed(rd, PC, Neg(offset))]
    else if offset != W(0) then [LoadImmediate(tmp, offset), AddReg(rd, PC, tmp, 0)]
    else []
  }

  /** Only rd, tmp and scratch registers differ. */
  ghost predicate OnlyRegs(rd: Reg, tmp: Reg, s: Host, t: Host) {
    && t.mem == s.mem && t.n == s.n && t.z == s.z && t.c == s.c && t.v == s.v
    && forall r: Reg :: r != rd && r != tmp ==> t.Get(r) == s.Get(r)
  }

  /** Within the reach of a 12-bit immediate, added or subtracted. */
  predicate Small(w: Word) { w.b < 4096 || -w.b < 4096 }

  predicate SignedByte(w: Word) { w.b <= 127 || -w.b <= 127 }

  /** What AdvancePC lets be pending, over a whole translation: instructions only ever advance. */
  predicate Pending(w: Word) { w.b <= 120 }

  // ---------------------------------------------------------------- bits

  lemma SmallImmediate(w: Word)
    requires w.b < 4096
    ensures Low12(w) == w
  {
    assert Low12(w).b == w.b;
  }

  lemma WriteOutBits(p: Word)
    requires Small(p)
    ensures Positive(p) ==> p.b < 4096
    ensures !Positive(p) ==> Neg(p).b < 4096
  {
  }

  lemma NegIsZero(w: Word)
    requires w.b == 0
    ensures w == W(0)
  {
  }

  // ---------------------------------------------------------------- effect

  lemma AddStep(rd: Reg, rn: Reg, offset: Word, s: Host)
    requires offset.b < 4096 && rd != ZR
    ensures Step(AddImmed(rd, rn, offset), s) == s.Set(rd, Plus(s.Get(rn), offset))
  {
    SmallImmediate(offset);
    hide Plus, Low12;
  }

  lemma SubStep(rd: Reg, rn: Reg, offset: Word, s: Host)
    requires Neg(offset).b < 4096 && rd != ZR
    ensures Step(SubImmed(rd, rn, Neg(offset)), s) == s.Set(rd, Plus(s.Get(rn), offset))
  {
    SmallImmediate(Neg(offset));
    MinusNeg(s.Get(rn), offset);
    hide Plus, Minus, Low12, Neg;
  }

  lemma LoadAddStep(rd: Reg, offset: Word, tmp: Reg, s: Host)
    requires rd != ZR && tmp != ZR && tmp != PC
    ensures var code := [LoadImmediate(tmp, offset), AddReg(rd, PC, tmp, 0)];
      && Straight(code) && OnlyRegs(rd, tmp, s, End(code, s)) && End(code, s).Get(rd) == Plus(s.Get(PC), offset)
  {
    ShiftLZero(offset);
    hide Plus, ShiftL, Run, End, Straight;
    Exec2(LoadImmediate(tmp, offset), AddReg(rd, PC, tmp, 0), s);
  }

  lemma WriteOutEffect(p: Word, s: Host)
    requires Small(p)
    ensures Straight(WriteOut(p)) && OnlyRegs(PC, PC, s, End(WriteOut(p), s))
    ensures End(WriteOut(p), s).Get(PC) == Plus(s.Get(PC), p)
  {
    hide Plus, Neg, Small, Positive, Step, Run, End, Straight;
    WriteOutBits(p);
    Exec1(WriteOut(p)[0], s);
    if Positive(p) {
      AddStep(PC, PC, p, s);
    } else {
      SubStep(PC, PC, p, s);
    }
  }

  lemma FlushEffect(p: Word, s: Host)
    requires Small(p)
    ensures Straight(FlushPc(p)) && OnlyRegs(PC, PC, s, End(FlushPc(p), s))
    ensures End(FlushPc(p), s).Get(PC) == Plus(s.Get(PC), p)
  {
    if p.b == 0 {
      NegIsZero(p);
      PlusZero(s.Get(PC));
      Exec0(s);
    } else {
      WriteOutEffect(p, s);
    }
    hide Plus, Small, WriteOut, Run, End, Straight;
  }

  lemma AdvanceRange(p: Word, offset: Word)
    requires Pending(p) && offset.b <= 255
    ensures Small(Plus(p, offset))
    ensures !Beyond(Plus(p, offset), 120) ==> Pending(Plus(p, offset))
  {
  }

  /** Advancing keeps "register plus pending offset" in step, and what is pending stays within 0..120. */
  lemma AdvanceEffect(p: Word, offset: Word, s: Host)
    requires Pending(p) && offset.b <= 255
    ensures var (code, q) := AdvancePc(p, offset);
      && Straight(code) && Pending(q) && OnlyRegs(PC, PC, s, End(code, s))
      && Plus(End(code, s).Get(PC), q) == Plus(Plus(s.Get(PC), p), offset)
  {
    AdvanceRange(p, offset);
    PlusAssoc(s.Get(PC), p, offset);
    var r := Plus(p, offset);
    PlusZero(Plus(s.Get(PC), r));
    Exec0(s);
    if Beyond(r, 120) {
      WriteOutEffect(r, s);
    }
    assert Pending(W(0));
    hide Plus, WriteOut, Small, Beyond, Pending, Run, End, Straight;
  }

  lemma OffsetRange(p: Word, offset: Word)
    requires Pending(p) && offset.b <= 7
    ensures !Beyond(Plus(p, offset), 127) && Plus(p, offset).b <= 127
  {
  }

  /** GetOffsetPC after any run of advances: the offset absorbs what is pending and fits a signed byte;
      nothing needs to be written out. */
  lemma GetOffsetExact(p: Word, offset: Word)
    requires Pending(p) && offset.b <= 7
    ensures GetOffsetPc(p, offset) == ([], p, Plus(p, offset)) && Plus(p, offset).b <= 127
  {
    OffsetRange(p, offset);
    hide Plus, Beyond, Pending;
  }

  lemma GetOffsetBits(p: Word, offset: Word)
    requires SignedByte(p)
    requires SignedByte(offset)
    ensures Beyond(Plus(p, offset), 127) || SignedByte(Plus(p, offset))
  {
  }

  /** In general, whatever signed byte was pending: register plus returned offset is the old register
      plus the old pending offset plus the requested one, and the returned offset is a signed byte. */
  lemma GetOffsetEffect(p: Word, offset: Word, s: Host)
    requires SignedByte(p)
    requires SignedByte(offset)
    ensures var (code, q, o) := GetOffsetPc(p, offset);
      && Straight(code) && OnlyRegs(PC, PC, s, End(code, s))
      && Plus(End(code, s).Get(PC), o) == Plus(Plus(s.Get(PC), p), offset)
      && SignedByte(o)
      && (q == W(0) || (code == [] && q == p))
  {
    hide Plus, SignedByte, Small, WriteOut, Beyond, Step, Run, End, Straight;
    PlusAssoc(s.Get(PC), p, offset);
    GetOffsetBits(p, offset);
    WideByte(p);
    if Beyond(Plus(p, offset), 127) {
      WriteOutEffect(p, s);
    } else {
      Exec0(s);
    }
  }

  lemma WideByte(p: Word)
    requires SignedByte(p)
    ensures Small(p)
  {
  }

  lemma AddForm(rd: Reg, rn: Reg, offset: Word, s: Host)
    requires offset.b < 4096 && rd != ZR
    ensures var code := [AddImmed(rd, rn, offset)];
      Straight(code) && End(code, s) == s.Set(rd, Plus(s.Get(rn), offset))
  {
    Exec1(AddImmed(rd, rn, offset), s);
    AddStep(rd, rn, offset, s);
    hide *;
  }

  lemma SubForm(rd: Reg, rn: Reg, offset: Word, s: Host)
    requires Neg(offset).b < 4096 && rd != ZR
    ensures var code := [SubImmed(rd, rn, Neg(offset))];
      Straight(code) && End(code, s) == s.Set(rd, Plus(s.Get(rn), offset))
  {
    Exec1(SubImmed(rd, rn, Neg(offset)), s);
    SubStep(rd, rn, offset, s);
    hide *;
  }

  /** Every constant below the limit fits the immediate field. */
  predicate Encodable(limit: bv32) { limit <= 4096 }

  lemma Ranges(offset: Word, pos: bv32, neg: bv32)
    requires Encodable(pos) && Encodable(neg)
    ensures Below(offset, pos) ==> offset.b < 4096
    ensures Below(Neg(offset), neg) ==> Neg(offset).b < 4096
  {
  }

  lemma ImmediateForm(rd: Reg, offset: Word, pos: bv32, neg: bv32, s: Host)
    requires Encodable(pos) && Encodable(neg) && rd != ZR
    requires Below(offset, pos) || Below(Neg(offset), neg)
    ensures var code := [if Below(offset, pos) then AddImmed(rd, PC, offset) else SubImmed(rd, PC, Neg(offset))];
      Straight(code) && End(code, s) == s.Set(rd, Plus(s.Get(PC), offset))
  {
    Ranges(offset, pos, neg);
    hide *;
    if Below(offset, pos) {
      AddForm(rd, PC, offset, s);
    } else {
      SubForm(rd, PC, offset, s);
    }
  }

  /** Whichever form the size of the constant selects, the register ends as PC plus the constant. */
  lemma AddOffsetEffect(rd: Reg, offset: Word, pos: bv32, neg: bv32, tmp: Reg, s: Host)
    requires Encodable(pos) && Encodable(neg) && rd != ZR && tmp != ZR && tmp != PC
    requires rd == PC || offset != W(0)
    ensures var code := AddOffset(rd, offset, pos, neg, tmp);
      && Straight(code) && OnlyRegs(rd, tmp, s, End(code, s)) && End(code, s).Get(rd) == Plus(s.Get(PC), offset)
  {
    hide Plus, Neg, Below, Encodable, AddImmed, SubImmed, LoadImmediate, AddReg, Step, Run, End, Straight;
    if Below(offset, pos) || Below(Neg(offset), neg) {
      ImmediateForm(rd, offset, pos, neg, s);
    } else if offset != W(0) {
      LoadAddStep(rd, offset, tmp, s);
    } else {
      PlusZero(s.Get(PC));
      Exec0(s);
    }
  }
}
