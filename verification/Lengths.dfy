/**
  How long the emitted code is: no instruction takes more than 24 cells, its exit block and the return after
  that included.
*/
module Lengths {
  import opened Words
  import opened A64
  import opened M68k
  import opened Manual
  import opened Wrappers
  import F = Flags
  import opened Capture
  import N = Conditions
  import Q = Quick
  import opened Pc
  import D = Displacement
  import I = Indexed
  import opened Guest
  import opened EmitQuick
  import opened EmitBranch
  import opened Unit

  /** The cells of a fragment, its exit block and the return after that. */
  function CellsOf(e: Emitted): nat {
    |e.main| + if e.leaves then |e.exit| + 1 else 0
  }

  // ---------------------------------------------------------------- condition codes

  lemma SettingLength(flags: bv8, cond: Cond)
    ensures |F.ClearFlags(flags)| <= 2 && |F.SetFlagsConditional(flags, cond)| <= 3
    ensures flags == 0 ==> F.SetFlagsConditional(flags, cond) == []
    ensures flags == 1 || flags == 4 || flags == 8 || flags == 16 ==> |F.SetFlagsConditional(flags, cond)| == 2
  {
  }

  lemma CaptureLength(inverted: bool, mask: Mask)
    requires mask < 32
    ensures |CaptureAll(inverted, mask)| <= 6
  {
    CaptureAllCode(inverted, mask);
    PopcountCases(mask);
    hide CaptureAll, Popcount, Single, SwapCV, F.ClearFlags, F.SetFlagsConditional, SetLeft;
    if mask == 17 || mask == 18 || mask == 20 || mask == 24 {
      PairLength(inverted, mask);
    }
  }

  lemma PairLength(inverted: bool, mask: Mask)
    requires mask == 17 || mask == 18 || mask == 20 || mask == 24
    ensures |F.ClearFlags(SwapCV(mask)) + SetLeft(inverted, mask)| <= 6
  {
    PairCode(mask, inverted);
    var (f, cf, g, cg) := PairSettings(mask, inverted);
    SettingLength(SwapCV(mask), cf);
    SettingLength(f, cf);
    SettingLength(g, cg);
    hide F.ClearFlags, F.SetFlagsConditional, SetLeft, SwapCV;
  }

  lemma InPlaceFlagsLength(size: Size, mask: Mask)
    ensures var (now, left) := InPlaceFlags(size, mask);
      |now| <= 4 && (left == 0 || (now == [] && left == mask))
  {
    SettingLength(4, EQ);
    SettingLength(8, NE);
    hide F.ClearFlags, F.SetFlagsConditional;
  }

  // ---------------------------------------------------------------- the PC

  lemma PcLengths(pending: Word, offset: Word)
    ensures |AdvancePc(pending, offset).0| <= 1 && |GetOffsetPc(pending, offset).0| <= 1 && |FlushPc(pending)| <= 1
  {
    hide Plus, Neg, Beyond, Positive;
  }

  lemma AddOffsetLength(rd: Reg, offset: Word, pos: bv32, neg: bv32, tmp: Reg)
    ensures |AddOffset(rd, offset, pos, neg, tmp)| <= 2
  {
    hide Below, Neg;
  }

  lemma ConditionLengths(cond: CondCode, hostFlags: Mask)
    ensures |N.JumpOnCondition(cond, hostFlags, 0)| <= 3 && |N.TestCondition(cond, hostFlags).0| <= 2
  {
    hide N.OnHost;
  }

  // ---------------------------------------------------------------- addresses

  lemma LoadFromLength(acc: I.Access, base: Option<Reg>, rt: Reg, index: Option<Reg>, shift: bv8)
    ensures |I.LoadFrom(acc, base, rt, index, shift)| <= 2 + if base.None? then 1 else 0
    ensures index.None? && base.Some? ==> |I.LoadFrom(acc, base, rt, index, shift)| == 1
  {
  }

  lemma BriefLength(acc: I.Access, an: Reg, d8: Word, xn: Reg, long: bool, scale: bv8, rt: Reg)
    ensures |I.Brief(acc, an, d8, xn, long, scale, rt)| <= 4
  {
    LoadFromLength(acc, Some(if d8 == W(0) then an else T(3)), rt, Some(I.IndexOf(xn, long)), scale);
    hide I.LoadFrom, D.Ascending, Neg;
  }

  lemma PreFetchLength(put: bool, base: Option<Reg>, index: Option<Reg>, scale: bv8)
    ensures |I.PreFetch(put, base, index, scale)| <= 3
  {
    LoadFromLength(I.Data(Long, false), base, T(3), Some(T(3)), 0);
    LoadFromLength(I.Data(Long, false), Some(T(3)), T(3), index, scale);
    hide I.LoadFrom;
  }

  lemma IndirectLength(acc: I.Access, base: Option<Reg>, e: Ext, rt: Reg)
    ensures |I.Indirect(acc, base, e, rt)| <= 5
  {
    PreFetchLength(acc.Put?, base, I.IndexReg(e), e.scale);
    LoadFromLength(acc, Some(T(3)), rt, I.IndexReg(e), e.scale);
    LoadFromLength(acc, Some(T(3)), rt, None, 0);
    hide I.PreFetch, I.LoadFrom, I.IndexReg, I.HasOd;
  }

  lemma FullLength(acc: I.Access, an: Reg, e: Ext, words: Stream, k: nat, rt: Reg)
    ensures |I.Full(acc, an, e, words, k, rt)| <= 9
  {
    I.FullCode(acc, an, e, words, k, rt);
    hide I.Full, I.Prologue, I.Body;
    PrologueLength(e, words, k);
    BodyLength(acc, an, e, rt);
  }

  lemma PrologueLength(e: Ext, words: Stream, k: nat)
    ensures |I.Prologue(e, words, k)| <= 3
  {
    hide I.LoadS16, Pair;
  }

  lemma BodyLength(acc: I.Access, an: Reg, e: Ext, rt: Reg)
    ensures |I.Body(acc, an, e, rt)| <= 6
  {
    var base := if e.noBase then None else Some(an);
    IndirectLength(acc, base, e, rt);
    IndirectLength(acc, None, e, rt);
    LoadFromLength(acc, Some(T(3)), rt, I.IndexReg(e), e.scale);
    LoadFromLength(acc, base, rt, I.IndexReg(e), e.scale);
    hide I.Indirect, I.LoadFrom, I.IndexReg, I.HasBd;
  }

  lemma Mode6Length(acc: I.Access, an: Reg, words: Stream, rt: Reg)
    ensures |I.Mode6(acc, an, words, 0, rt).0| <= 9
  {
    hide ExtensionOf, DecodeExt, IsBrief, I.Brief, I.Full, BdCount, OdCount, BriefDisplacement, IndexRegister, BriefScale;
    var w := ExtensionOf(words, 0);
    BriefLength(acc, an, BriefDisplacement(w), IndexRegister(w), w & 0x0800 != 0, BriefScale(w), rt);
    FullLength(acc, an, DecodeExt(w), words, 1, rt);
  }

  lemma DisplacedLength(base: Reg, rt: Reg, offset: Word)
    ensures |D.AddressOffset(base, rt, offset, false)| <= 2 && |D.StoreOffset(Byte, base, rt, offset, false)| <= 3
  {
    hide D.Reachable, D.Ascending, D.Materialise, D.DirectForm, Neg;
  }

  lemma EaLength(ea: Ea)
    ensures |EaCode(ea)| <= 9 && |StoreByte(ea)| <= 9
  {
    hide I.Mode6, D.AddressOffset, D.StoreOffset, StepOf, Neg;
    match ea
    case Indirect(n) => DisplacedLength(A(n), T(0), W(0));
    case Displaced(n, d16) =>
      DisplacedLength(A(n), T(10), d16);
      DisplacedLength(A(n), T(0), d16);
    case IndexedBy(n, words) =>
      Mode6Length(I.Address, A(n), words, T(10));
      Mode6Length(I.Put(Byte), A(n), words, T(0));
    case _ =>
  }

  // ---------------------------------------------------------------- instructions

  lemma ComputeLength(op: QOp, q: Word, size: Size, mask: Mask, ea: Ea)
    ensures |Compute(op, q, size, mask, ea)| <= 15
  {
    EaLength(ea);
    hide EaCode, Q.TopImmediate, Q.TopShift, Q.WidthOf, Q.FlagsOp, Q.PlainOp, Q.InPlace, LoadMode, StoreMode, EaBase, Lsl, Lsr, Bfxil, MovImmed, AddsReg, SubsReg, TstImmed;
  }

  lemma QuickLength(op: QOp, q: Word, size: Size, mask: Mask, ea: Ea, pending: Word)
    requires mask < 32
    ensures |QuickCode(op, q, size, mask, ea, pending)| <= 22
  {
    ComputeLength(op, q, size, mask, ea);
    InPlaceFlagsLength(size, mask);
    PcLengths(pending, Length(ExtensionWords(ea)));
    CaptureLength(op.SUBQ?, mask);
    NoCapture(op.SUBQ?);
    hide Compute, InPlaceFlags, AdvancePc, CaptureAll, Length, ExtensionWords;
  }

  lemma BccLength(cond: CondCode, form: Form, disp: Word, takeBranch: bool, tr: Tr)
    ensures CellsOf(EmitBcc(cond, form, disp, takeBranch, tr)) <= 24
  {
    var (_, _, off) := GetOffsetPc(tr.pending, W(2));
    PcLengths(tr.pending, W(2));
    ConditionLengths(if takeBranch then Opposite(cond) else cond, tr.hostFlags);
    AddOffsetLength(PC, Plus(disp, off), 4096, 4096, X0);
    AddOffsetLength(PC, Plus(Minus(off, W(2)), FormLength(form)), 255, 256, X0);
    hide GetOffsetPc, N.JumpOnCondition, AddOffset, Plus, Minus, FormLength, N.HostFlagsAfter, Opposite;
  }

  lemma BraLength(bsr: bool, form: Form, disp: Word, inlined: bool, tr: Tr)
    ensures CellsOf(EmitBra(bsr, form, disp, inlined, tr)) <= 24
  {
    var (_, _, off) := GetOffsetPc(tr.pending, W(2));
    PcLengths(tr.pending, W(2));
    AddOffsetLength(T(0), ReturnOffset(form, off), 256, 256, T(0));
    AddOffsetLength(PC, Plus(off, disp), 4096, 4096, T(1));
    hide GetOffsetPc, AddOffset, Plus, FormLength, N.HostFlagsAfter, ReturnOffset, Neg;
  }

  lemma DbccLength(cond: CondCode, n: nat, disp: Word, tr: Tr)
    ensures CellsOf(EmitDbcc(cond, n, disp, tr)) <= 24
  {
    var (_, _, off) := GetOffsetPc(tr.pending, W(0));
    PcLengths(tr.pending, W(0));
    PcLengths(tr.pending, W(4));
    ConditionLengths(cond, tr.hostFlags);
    AddOffsetLength(PC, Plus(Plus(W(2), disp), off), 4096, 4096, T(0));
    hide GetOffsetPc, AdvancePc, N.JumpOnCondition, AddOffset, Plus, N.HostFlagsAfter;
  }

  lemma SccLength(cond: CondCode, ea: Ea, tr: Tr)
    ensures CellsOf(EmitScc(cond, ea, tr)) <= 24
  {
    ConditionLengths(cond, tr.hostFlags);
    EaLength(ea);
    PcLengths(tr.pending, Length(ExtensionWords(ea)));
    hide N.TestCondition, StoreByte, AdvancePc, Length, ExtensionWords, N.HostFlagsAfter, Plus;
  }

  /** The code of one instruction, with its exit block. */
  lemma EmitLength(i: Insn68, mask: Mask, choice: Choice, tr: Tr)
    requires mask < 32
    ensures CellsOf(Emit(i, mask, choice, tr)) <= 24
  {
    hide EmitScc, EmitDbcc, EmitBcc, EmitBra, QuickCode, QuickNext;
    match i
    case QuickOp(op, q, size, ea) => QuickLength(op, q, size, mask, ea, tr.pending);
    case Scc(cond, ea) => SccLength(cond, ea, tr);
    case DBcc(cond, n, disp) => DbccLength(cond, n, disp, tr);
    case Bcc(cond, form, disp) => BccLength(cond, form, disp, choice.takeBranch, tr);
    case BRA(form, disp) => BraLength(false, form, disp, choice.inlined, tr);
    case BSR(form, disp) => BraLength(true, form, disp, choice.inlined, tr);
  }

  // ---------------------------------------------------------------- masks

  /** Sound masks have no bits but the five flags. */
  lemma SoundSmall(prog: Program, live: Word -> Mask, masks: Word -> Mask, a: Word)
    requires Sound(prog, live, masks)
    ensures masks(a) < 32
  {
    var c := Cpu(r => W(0), b => ByteCell(0), a, Ccr(false, false, false, false, false), W(0));
    ExecSuccessor(prog(a), c);
    var b := Exec68(prog(a), c).pc;
    hide Exec68, Successor;
    assert Flow(prog(a), masks(a), live(a), live(b));
    SetsSmall(prog(a), masks(a));
    hide Flow;
  }

  lemma SetsSmall(i: Insn68, mask: Mask)
    requires mask & !SetsOf(i) == 0
    ensures mask < 32
  {
  }
}
