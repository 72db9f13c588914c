/**
  The translator as the source writes it: emitters that append to a code buffer, cache in `host_flags`
  which host flags are still valid, carry a pending PC offset, and move the m68k code pointer.  Each
  method is proved to append the code, and to leave the state, given by the function that models the
  emitter; what that code does is proved about the function.
*/
module Translator {
  import opened Words
  import opened A64
  import opened M68k
  import F = Flags
  import C = Capture
  import N = Conditions
  import P = FpuConditions
  import Q = Quick
  import O = Pc
  import D = Displacement
  import I = Indexed
  import opened Manual
  import opened Guest
  import opened EmitQuick
  import opened EmitBranch
  import opened Unit
  import opened Link
  import opened Wrappers

  lemma HostFlagsCompose(a: seq<Insn>, b: seq<Insn>, hostFlags: Mask)
    ensures N.HostFlagsAfter(a + b, hostFlags) == N.HostFlagsAfter(b, N.HostFlagsAfter(a, hostFlags))
  {
    var all := a + b;
    assert forall i :: 0 <= i < |a| ==> all[i] == a[i];
    assert forall i :: 0 <= i < |b| ==> all[|a| + i] == b[i];
    if exists i :: 0 <= i < |all| && ResetsFlags(all[i]) {
      var i :| 0 <= i < |all| && ResetsFlags(all[i]);
      if i < |a| {
        assert ResetsFlags(a[i]);
      } else {
        assert ResetsFlags(b[i - |a|]);
      }
    }
  }

  class Context {
    var code: seq<Insn>
    var fixups: seq<Fixup>
    var hostFlags: Mask
    var pending: Word
    var ptr: Word

    constructor (start: Word)
      ensures code == [] && fixups == [] && hostFlags == 0 && pending == W(0) && ptr == start
    {
      code, fixups, hostFlags, pending, ptr := [], [], 0, W(0), start;
    }

    /** The translation-time state. */
    ghost function State(): Tr
      reads this
    {
      Tr(hostFlags, pending, ptr)
    }

    /** Encode and append; encoders of flag-setting instructions reset `host_flags`. */
    method Emit(insns: seq<Insn>)
      modifies this`code, this`hostFlags
      ensures code == old(code) + insns
      ensures hostFlags == N.HostFlagsAfter(insns, old(hostFlags))
    {
      code := code + insns;
      var i := 0;
      ghost var start := hostFlags;
      while i < |insns|
        invariant 0 <= i <= |insns|
        invariant code == old(code) + insns
        invariant hostFlags == N.HostFlagsAfter(insns[..i], start)
      {
        assert insns[..i + 1] == insns[..i] + [insns[i]];
        HostFlagsCompose(insns[..i], [insns[i]], start);
        if ResetsFlags(insns[i]) {
          hostFlags := 0;
        }
        ResetsAlone(insns[i], N.HostFlagsAfter(insns[..i], start));
        i := i + 1;
      }
      assert insns[..i] == insns;
    }

    // -------------------------------------------------------------- the pending PC offset

    method GetOffsetPC(offset: Word) returns (o: Word)
      modifies this`code, this`hostFlags, this`pending
      ensures var (flush, p, r) := O.GetOffsetPc(old(pending), offset);
        code == old(code) + flush && pending == p && o == r
      ensures hostFlags == old(hostFlags)
    {
      o := Plus(pending, offset);
      if O.Beyond(o, 127) {
        WriteOutQuiet(pending, hostFlags);
        if O.Positive(pending) {
          Emit([AddImmed(PC, PC, pending)]);
        } else {
          Emit([SubImmed(PC, PC, Neg(pending))]);
        }
        pending := W(0);
        o := offset;
      }
    }

    method ResetOffsetPC()
      modifies this`pending
      ensures pending == W(0)
    {
      pending := W(0);
    }

    method AdvancePC(offset: Word)
      modifies this`code, this`hostFlags, this`pending
      ensures var (adv, p) := O.AdvancePc(old(pending), offset);
        code == old(code) + adv && pending == p
      ensures hostFlags == old(hostFlags)
    {
      pending := Plus(pending, offset);
      if O.Beyond(pending, 120) {
        WriteOutQuiet(pending, hostFlags);
        if O.Positive(pending) {
          Emit([AddImmed(PC, PC, pending)]);
        } else {
          Emit([SubImmed(PC, PC, Neg(pending))]);
        }
        pending := W(0);
      }
    }

    method FlushPC()
      modifies this`code, this`hostFlags, this`pending
      ensures code == old(code) + O.FlushPc(old(pending)) && pending == W(0)
      ensures hostFlags == old(hostFlags)
    {
      WriteOutQuiet(pending, hostFlags);
      if O.Positive(pending) {
        Emit([AddImmed(PC, PC, pending)]);
      } else if pending.b != 0 {
        Emit([SubImmed(PC, PC, Neg(pending))]);
      }
      PositiveNotZero(pending);
      pending := W(0);
    }

    // -------------------------------------------------------------- capturing flags

    /** The switch on a mask with one flag; false if it has no case for it. */
    method CaptureSingle(withX: bool, inverted: bool, mask: Mask) returns (done: bool)
      modifies this`code, this`hostFlags
      ensures done == (mask == 1 || mask == 2 || mask == 4 || mask == 8 || (withX && mask == 16))
      ensures code == old(code) + if done then C.CaptureOne(mask, inverted) else []
    {
      done := true;
      if mask == 1 {
        Emit([Cset(T(0), C.CarryCond(inverted)), Bfi(CC, T(0), 1, 1)]);
      } else if mask == 2 {
        Emit([Cset(T(0), VS), Bfi(CC, T(0), 0, 1)]);
      } else if mask == 4 {
        Emit([Cset(T(0), EQ), Bfi(CC, T(0), 2, 1)]);
      } else if mask == 8 {
        Emit([Cset(T(0), MI), Bfi(CC, T(0), 3, 1)]);
      } else if withX && mask == 16 {
        Emit([Cset(T(0), C.CarryCond(inverted)), Bfi(CC, T(0), 4, 1)]);
      } else {
        done := false;
      }
    }

    method CaptureAllFlags(flip: bool, x: bool, inverted: bool)
      modifies this`code, this`hostFlags
      ensures code == old(code) + (C.CaptureNibble(flip) + if x then C.PutBit(C.CarryCond(inverted), 4) else [])
    {
      Emit([GetNzcv(T(0))]);
      if flip {
        Emit([EorImmed(T(0), T(0), 1, 3)]);
      }
      Emit([Bfxil(CC, T(0), 28, 4)]);
      assert code == old(code) + C.CaptureNibble(flip);
      if x {
        Emit([Cset(T(0), C.CarryCond(inverted)), Bfi(CC, T(0), 4, 1)]);
      }
    }

    /** The capture proper, before what is left is cleared. */
    method CaptureFlags(withX: bool, inverted: bool, mask: Mask) returns (left: Mask)
      modifies this`code, this`hostFlags
      ensures code == old(code) + C.Capture(withX, inverted, mask).0
      ensures left == C.Capture(withX, inverted, mask).1
    {
      hide C.Popcount, C.CaptureOne, C.CaptureNibble, C.PutBit, N.HostFlagsAfter;
      left := mask;
      if mask == 0 {
      } else if C.Popcount(mask) == 1 {
        OneOfFive(mask);
        var done := CaptureSingle(withX, inverted, mask);
        if done {
          left := 0;
        }
      } else if !withX {
        CaptureAllFlags(inverted && mask & 1 != 0, false, inverted);
        left := mask & 16;
      } else if C.Popcount(mask) > 2 {
        CaptureAllFlags(inverted && mask & 17 != 0, mask & 16 != 0, inverted);
        left := 0;
      }
    }

    /** EMIT_GetNZCV, EMIT_GetNZCVX, EMIT_GetNZnCV and EMIT_GetNZnCVX. */
    method GetFlags(withX: bool, inverted: bool, mask: Mask) returns (left: Mask)
      modifies this`code, this`hostFlags
      ensures code == old(code) + C.GetFlags(withX, inverted, mask).0
      ensures left == C.GetFlags(withX, inverted, mask).1
      ensures hostFlags == C.CapturedHostFlags(inverted, mask)
    {
      hide C.Capture, C.SwapCV, C.CapturedHostFlags, F.ClearFlags, N.HostFlagsAfter;
      left := CaptureFlags(withX, inverted, mask);
      Assoc(old(code), C.Capture(withX, inverted, mask).0, F.ClearFlags(C.SwapCV(left)));
      if left != 0 {
        Emit(F.ClearFlags(C.SwapCV(left)));
      } else {
        NothingToClear();
      }
      hostFlags := C.CapturedHostFlags(inverted, mask);
    }

    /** EMIT_ClearFlags, EMIT_SetFlags and EMIT_SetFlagsConditional emit what their functions say. */
    method SetFlagsConditional(flags: bv8, cond: Cond)
      modifies this`code, this`hostFlags
      ensures code == old(code) + F.SetFlagsConditional(flags, cond) && hostFlags == old(hostFlags)
    {
      ConditionalQuiet(flags, cond, hostFlags);
      hide F.SetFlagsConditional, N.HostFlagsAfter;
      Emit(F.SetFlagsConditional(flags, cond));
    }

    method ClearFlags(flags: bv8)
      modifies this`code, this`hostFlags
      ensures code == old(code) + F.ClearFlags(flags) && hostFlags == old(hostFlags)
    {
      ClearQuiet(flags, hostFlags);
      hide F.ClearFlags, N.HostFlagsAfter;
      Emit(F.ClearFlags(flags));
    }

    method SetIf(wanted: bool, flags: bv8, cond: Cond)
      modifies this`code, this`hostFlags
      ensures code == old(code) + (if wanted then F.SetFlagsConditional(flags, cond) else [])
      ensures hostFlags == old(hostFlags)
    {
      hide F.SetFlagsConditional;
      if wanted {
        SetFlagsConditional(flags, cond);
      }
    }

    method SetAll(z: bool, n: bool, v: bool, xc: bool, m: bv8, carry: Cond)
      modifies this`code, this`hostFlags
      ensures code == old(code) +
        ((if z then F.SetFlagsConditional(4, EQ) else []) +
         (if n then F.SetFlagsConditional(8, MI) else []) +
         (if v then F.SetFlagsConditional(1, VS) else []) +
         (if xc then F.SetFlagsConditional(m, carry) else []))
      ensures hostFlags == old(hostFlags)
    {
      hide F.SetFlagsConditional;
      SetIf(z, 4, EQ);
      SetIf(n, 8, MI);
      SetIf(v, 1, VS);
      SetIf(xc, m, carry);
    }

    /** The settings ADDQ and SUBQ emit for the flags the capture has left. */
    method SetLeft(inverted: bool, left: Mask)
      modifies this`code, this`hostFlags
      ensures code == old(code) + C.SetLeft(inverted, left) && hostFlags == old(hostFlags)
    {
      hide F.SetFlagsConditional, C.CarryCond, C.SetLeft;
      SetLeftParts(inverted, left);
      var z, n, v, xc := left & SR_Z != 0, left & SR_N != 0, left & SR_V != 0, left & 17 != 0;
      var m := if left & 17 == 16 then 16 else if left & 17 == 1 then 2 else 18;
      SetAll(z, n, v, xc, m, C.CarryCond(inverted));
    }

    // -------------------------------------------------------------- conditions

    /** EMIT_JumpOnCondition, with the position of its branch and how that is to be patched. */
    method JumpOnCondition(cond: CondCode) returns (at: nat, kind: FixupType)
      requires !cond.M_T? && !cond.M_F?
      modifies this`code, this`hostFlags
      ensures var jump := N.JumpOnCondition(cond, old(hostFlags), 0);
        code == old(code) + jump && hostFlags == N.HostFlagsAfter(jump, old(hostFlags))
      ensures at == |old(code)| + |N.JumpPrefix(cond, old(hostFlags))| && kind == KindOf(N.JumpBranch(cond, old(hostFlags), 0))
    {
      N.JumpParts(cond, hostFlags, 0);
      hide N.HostFlagsAfter, N.JumpPrefix, N.OnHost, N.SameCond, TstImmed, Ror;
      JumpKind(cond, hostFlags);
      kind := FIXUP_BCC;
      if cond == M_LS {
        Emit([TstImmed(CC, 2, 31), BCond(NE, 0)]);
      } else if cond == M_HI {
        Emit([TstImmed(CC, 2, 31), BCond(EQ, 0)]);
      } else if N.OnHost(cond, hostFlags) {
        Emit([BCond(N.SameCond(cond), 0)]);
      } else {
        kind := JumpOnRegister(cond);
      }
      at := |code| - 1;
    }

    /** The branch of a condition that the host flags cannot decide, on the cached register. */
    method JumpOnRegister(cond: CondCode) returns (kind: FixupType)
      requires !cond.M_T? && !cond.M_F? && !cond.M_LS? && !cond.M_HI? && !N.OnHost(cond, hostFlags)
      modifies this`code, this`hostFlags
      ensures var jump := N.JumpOnCondition(cond, old(hostFlags), 0);
        code == old(code) + jump && hostFlags == N.HostFlagsAfter(jump, old(hostFlags))
      ensures kind == if N.ByTest(cond) then FIXUP_TBZ else FIXUP_BCC
    {
      hide N.HostFlagsAfter, N.OnHost, N.SameCond, Ror;
      kind := FIXUP_TBZ;
      if cond == M_EQ || cond == M_NE {
        Emit([TestBit(cond == M_EQ, CC, 2, 0)]);
      } else if cond == M_CS || cond == M_CC {
        Emit([TestBit(cond == M_CS, CC, 1, 0)]);
      } else if cond == M_PL || cond == M_MI {
        Emit([TestBit(cond == M_MI, CC, 3, 0)]);
      } else if cond == M_VS || cond == M_VC {
        Emit([TestBit(cond == M_VS, CC, 0, 0)]);
      } else {
        kind := FIXUP_BCC;
        assert N.JumpOnCondition(cond, hostFlags, 0) == [Ror(T(8), CC, 4), SetNzcv(T(8)), BCond(N.SameCond(cond), 0)];
        Emit([Ror(T(8), CC, 4), SetNzcv(T(8)), BCond(N.SameCond(cond), 0)]);
      }
    }

    /** EMIT_TestCondition: the host condition that means success. */
    method TestCondition(cond: CondCode) returns (success: Cond)
      requires !cond.M_T? && !cond.M_F?
      modifies this`code, this`hostFlags
      ensures var (test, c) := N.TestCondition(cond, old(hostFlags));
        code == old(code) + test && hostFlags == N.HostFlagsAfter(test, old(hostFlags)) && success == c
    {
      hide N.HostFlagsAfter, N.HostNeeds, TstImmed, Ror;
      NoReset(hostFlags);
      if cond == M_LS || cond == M_HI {
        Emit([TstImmed(CC, 2, 31)]);
        success := if cond == M_LS then NE else EQ;
      } else if N.OnHost(cond, hostFlags) {
        success := N.SameCond(cond);
      } else if cond == M_EQ || cond == M_NE {
        Emit([TstImmed(CC, 1, 30)]);
        success := if cond == M_EQ then NE else EQ;
      } else if cond == M_CS || cond == M_CC {
        Emit([TstImmed(CC, 1, 31)]);
        success := if cond == M_CS then NE else EQ;
      } else if cond == M_PL || cond == M_MI {
        Emit([TstImmed(CC, 1, 29)]);
        success := if cond == M_MI then NE else EQ;
      } else if cond == M_VS || cond == M_VC {
        Emit([TstImmed(CC, 1, 0)]);
        success := if cond == M_VS then NE else EQ;
      } else {
        Emit([Ror(T(8), CC, 4), SetNzcv(T(8))]);
        success := N.SameCond(cond);
      }
    }

    /** EMIT_TestFPUCondition: the host condition that means success.  In every state the code appended falls
        through, leaves the guest alone, and that condition then holds exactly when the predicate does, unless
        the field selects F or SF. */
    method TestFPUCondition(field: bv8) returns (success: Cond)
      modifies this`code, this`hostFlags
      ensures |old(code)| <= |code| && code[..|old(code)|] == old(code)
      ensures forall s: Host :: P.Decides(code[|old(code)|..], success, field, s) <==> field & 15 != 0
      ensures hostFlags == if field & 15 != 0 && field & 15 != 15 then 0 else old(hostFlags)
    {
      hide P.FpuTest, P.Decides, N.HostFlagsAfter, P.Selected;
      ghost var start, before := code, hostFlags;
      success := TestPredicate(P.Selected(field));
      ghost var test := P.TestFpuCondition(field).0;
      FpuTestResets(field, before);
      FpuTestDecides(field);
      assert code[|start|..] == test;
    }

    /** The cases of one test each, and of a mask; the others are those that need more. */
    method TestPredicate(cond: P.FpuCond) returns (success: Cond)
      modifies this`code, this`hostFlags
      ensures code == old(code) + P.FpuTest(cond).0 && success == P.FpuTest(cond).1
      ensures hostFlags == N.HostFlagsAfter(P.FpuTest(cond).0, old(hostFlags))
    {
      hide N.HostFlagsAfter, TstImmed, TstReg, MovImmed;
      NoReset(hostFlags);
      if cond.FEQ? {
        Emit([TstImmed(FPSR, 1, 31 & (32 - 26))]);
        success := NE;
      } else if cond.FNE? {
        Emit([TstImmed(FPSR, 1, 31 & (32 - 26))]);
        success := EQ;
      } else if cond.OGT? {
        Emit([MovImmed(T(8), W(0x0d00), 1), TstReg(FPSR, T(8))]);
        success := EQ;
      } else if cond.ULE? {
        Emit([MovImmed(T(8), W(0x0d00), 1), TstReg(FPSR, T(8))]);
        success := NE;
      } else if cond.OGL? {
        Emit([MovImmed(T(8), W(0x0500), 1), TstReg(FPSR, T(8))]);
        success := EQ;
      } else if cond.UEQ? {
        Emit([MovImmed(T(8), W(0x0500), 1), TstReg(FPSR, T(8))]);
        success := NE;
      } else if cond.OR? {
        Emit([TstImmed(FPSR, 1, 31 & (32 - 24))]);
        success := EQ;
      } else if cond.UN? {
        Emit([TstImmed(FPSR, 1, 31 & (32 - 24))]);
        success := NE;
      } else if cond.F? {
        success := NV;
      } else if cond.FT? {
        success := AL;
      } else {
        success := TestOrder(cond);
      }
    }

    method TestOrder(cond: P.FpuCond) returns (success: Cond)
      requires cond.OGE? || cond.ULT? || cond.OLT? || cond.UGE? || cond.OLE? || cond.UGT?
      modifies this`code, this`hostFlags
      ensures code == old(code) + P.FpuTest(cond).0 && success == P.FpuTest(cond).1
      ensures hostFlags == N.HostFlagsAfter(P.FpuTest(cond).0, old(hostFlags))
    {
      hide N.HostFlagsAfter, TstImmed, OrrReg, EorImmed, AndReg, BicImmed, MvnReg;
      success := NE;
      if cond.OGE? {
        Emit([TstImmed(FPSR, 1, 31 & (32 - 26)), BCond(NE, 4), OrrReg(T(8), FPSR, FPSR, LSL, 3),
              EorImmed(T(8), T(8), 1, 31 & (32 - 27)), TstImmed(T(8), 1, 31 & (32 - 27))]);
      } else if cond.ULT? {
        Emit([TstImmed(FPSR, 1, 31 & (32 - 24)), BCond(NE, 4), EorImmed(T(8), FPSR, 1, 31 & (32 - 26)),
              AndReg(T(8), T(8), T(8), 1), TstImmed(T(8), 1, 31 & (32 - 27))]);
      } else if cond.OLT? {
        Emit([BicImmed(T(8), FPSR, 1, 31 & (32 - 25)), OrrReg(T(8), T(8), T(8), LSL, 2),
              EorImmed(T(8), T(8), 1, 31 & (32 - 27)), TstImmed(T(8), 2, 31 & (32 - 26))]);
        success := EQ;
      } else if cond.UGE? {
        Emit([EorImmed(T(8), FPSR, 1, 31 & (32 - 27)), BicImmed(T(8), T(8), 1, 31 & (32 - 25)),
              TstImmed(T(8), 4, 31 & (32 - 24))]);
      } else if cond.OLE? {
        Emit([TstImmed(FPSR, 1, 31 & (32 - 26)), BCond(NE, 4), EorImmed(T(8), FPSR, 1, 31 & (32 - 24)),
              AndReg(T(8), T(8), T(8), 3), TstImmed(T(8), 1, 31 & (32 - 27))]);
      } else {
        Emit([TstImmed(FPSR, 1, 31 & (32 - 24)), BCond(NE, 4), OrrReg(T(8), FPSR, FPSR, LSR, 1),
              MvnReg(T(8), T(8)), TstImmed(T(8), 1, 31 & (32 - 26))]);
      }
    }

    // -------------------------------------------------------------- effective addresses

    method Materialise(offset: Word, wide: bool)
      modifies this`code, this`hostFlags
      ensures code == old(code) + [D.Materialise(T(7), offset, wide)] && hostFlags == old(hostFlags)
    {
      hide Neg, Minus, O.Positive, N.HostFlagsAfter;
      ResetsAlone(D.Materialise(T(7), offset, wide), hostFlags);
      if wide {
        Emit([LoadImmediate(T(7), offset)]);
      } else if O.Positive(offset) {
        Emit([MovImmed(T(7), offset, 0)]);
      } else {
        Emit([MovnImmed(T(7), Minus(Neg(offset), W(1)))]);
      }
    }

    /** The register to address from: without a base, a cleared one. */
    method BaseRegister(base: Option<Reg>) returns (rn: Reg)
      modifies this`code, this`hostFlags
      ensures code == old(code) + (if base.Some? then [] else [D.ClearBase()]) && hostFlags == old(hostFlags)
      ensures rn == if base.Some? then base.value else T(6)
    {
      if base.Some? {
        rn := base.value;
      } else {
        EmitQuiet([MovReg(T(6), ZR)]);
        rn := T(6);
      }
    }

    /** load_reg_from_addr_offset for an operand. */
    method LoadAt(size: Size, signed: bool, base: Option<Reg>, rt: Reg, offset: Word, wide: bool)
      modifies this`code, this`hostFlags
      ensures code == old(code) + D.LoadAt(size, signed, base, rt, offset, wide) && hostFlags == old(hostFlags)
    {
      hide D.LoadOffset, D.ClearBase;
      var rn := BaseRegister(base);
      LoadOffset(size, signed, rn, rt, offset, wide);
    }

    /** store_reg_to_addr_offset for an operand. */
    method StoreAt(size: Size, base: Option<Reg>, rt: Reg, offset: Word, wide: bool)
      modifies this`code, this`hostFlags
      ensures code == old(code) + D.StoreAt(size, base, rt, offset, wide) && hostFlags == old(hostFlags)
    {
      hide D.StoreOffset, D.ClearBase;
      var rn := BaseRegister(base);
      StoreOffset(size, rn, rt, offset, wide);
    }

    /** Either of them with size 0. */
    method AddressAt(base: Option<Reg>, rt: Reg, offset: Word, wide: bool)
      modifies this`code, this`hostFlags
      ensures code == old(code) + D.AddressAt(base, rt, offset, wide) && hostFlags == old(hostFlags)
    {
      hide D.AddressOffset, D.ClearBase;
      var rn := BaseRegister(base);
      AddressOffset(rn, rt, offset, wide);
    }

    method LoadOffset(size: Size, signed: bool, base: Reg, rt: Reg, offset: Word, wide: bool)
      modifies this`code, this`hostFlags
      ensures code == old(code) + D.LoadOffset(size, signed, base, rt, offset, wide) && hostFlags == old(hostFlags)
    {
      hide D.Near, D.ScaledFits, D.Materialise, ShiftR, D.LogSize, N.HostFlagsAfter;
      QuietAccess(hostFlags);
      QuietPair(AddReg(T(7), base, T(7), 0), Ld(size, signed, rt, T(7), Scaled(W(0))), hostFlags);
      if size.Long? && offset == W(0) {
        Emit([Ld(size, signed, rt, base, Scaled(W(0)))]);
      } else if D.Near(offset) {
        Emit([Ld(size, signed, rt, base, Unscaled(offset))]);
      } else if D.ScaledFits(size, offset) {
        Emit([Ld(size, signed, rt, base, Scaled(ShiftR(offset, D.LogSize(size))))]);
      } else {
        Materialise(offset, wide);
        Emit([AddReg(T(7), base, T(7), 0), Ld(size, signed, rt, T(7), Scaled(W(0)))]);
      }
    }

    method StoreOffset(size: Size, base: Reg, rt: Reg, offset: Word, wide: bool)
      modifies this`code, this`hostFlags
      ensures code == old(code) + D.StoreOffset(size, base, rt, offset, wide) && hostFlags == old(hostFlags)
    {
      hide D.Near, D.ScaledFits, D.Materialise, ShiftR, D.LogSize, N.HostFlagsAfter;
      QuietAccess(hostFlags);
      QuietPair(AddReg(T(7), base, T(7), 0), St(size, rt, T(7), Scaled(W(0))), hostFlags);
      if size.Long? && offset == W(0) {
        Emit([St(size, rt, base, Scaled(W(0)))]);
      } else if D.Near(offset) {
        Emit([St(size, rt, base, Unscaled(offset))]);
      } else if D.ScaledFits(size, offset) {
        Emit([St(size, rt, base, Scaled(ShiftR(offset, D.LogSize(size))))]);
      } else {
        Materialise(offset, wide);
        Emit([AddReg(T(7), base, T(7), 0), St(size, rt, T(7), Scaled(W(0)))]);
      }
    }

    method AddressOffset(base: Reg, rt: Reg, offset: Word, wide: bool)
      modifies this`code, this`hostFlags
      ensures code == old(code) + D.AddressOffset(base, rt, offset, wide) && hostFlags == old(hostFlags)
    {
      hide D.Reachable, D.Ascending, D.Materialise, Neg, N.HostFlagsAfter;
      QuietAccess(hostFlags);
      if D.Reachable(offset) {
        if D.Ascending(offset) {
          Emit([AddImmed(rt, base, offset)]);
        } else {
          Emit([SubImmed(rt, base, Neg(offset))]);
        }
      } else {
        Materialise(offset, wide);
        Emit([AddReg(rt, base, T(7), 0)]);
      }
    }

    method EmitQuiet(insns: seq<Insn>)
      requires Quiet(insns)
      modifies this`code, this`hostFlags
      ensures code == old(code) + insns && hostFlags == old(hostFlags)
    {
      N.KeepsMarks(insns, hostFlags);
      hide N.HostFlagsAfter;
      Emit(insns);
    }

    /** load_reg_from_addr and store_reg_to_addr; no base means a cleared register. */
    method AccessFrom(acc: I.Access, base: Option<Reg>, rt: Reg, index: Option<Reg>, shift: bv8)
      modifies this`code, this`hostFlags
      ensures code == old(code) + I.LoadFrom(acc, base, rt, index, shift) && hostFlags == old(hostFlags)
    {
      var rn := BaseRegister(base);
      if index.None? {
        EmitQuiet([I.ReadAt(acc, rt, rn)]);
      } else if acc.Address? {
        EmitQuiet([AddReg(rt, rn, index.value, shift)]);
      } else {
        EmitQuiet([AddReg(T(5), rn, index.value, shift), I.ReadAt(acc, rt, T(5))]);
      }
    }

    /** The index register of a full extension word, sign-extended into a scratch register if need be. */
    method IndexOperand(e: Ext) returns (index: Option<Reg>)
      modifies this`code, this`hostFlags
      ensures code == old(code) + (if e.noIndex then [] else I.IndexCode(e.xn, e.long)) && hostFlags == old(hostFlags)
      ensures index == I.IndexReg(e)
    {
      index := None;
      if !e.noIndex {
        if e.long {
          index := Some(e.xn);
        } else {
          EmitQuiet([Sxth(T(2), e.xn)]);
          index := Some(T(2));
        }
      }
    }

    method BaseDisplacement(e: Ext, words: Stream, k: nat) returns (bd: Option<Reg>, ext: nat)
      modifies this`code, this`hostFlags
      ensures code == old(code) + I.BdCode(e, words, k) && hostFlags == old(hostFlags)
      ensures bd == (if I.HasBd(e) then Some(T(3)) else None) && ext == k + BdCount(e)
    {
      hide I.LoadS16, Pair;
      bd, ext := None, k;
      if e.bd.BdWord? {
        bd := Some(T(3));
        QuietS16(T(3), words(ext));
        EmitQuiet([I.LoadS16(T(3), words(ext))]);
        ext := ext + 1;
      } else if e.bd.BdLong? {
        bd := Some(T(3));
        EmitQuiet([LoadImmediate(T(3), Pair(words(ext), words(ext + 1)))]);
        ext := ext + 2;
      }
    }

    method OuterDisplacement(e: Ext, words: Stream, k: nat) returns (outer: bool, ext: nat)
      modifies this`code, this`hostFlags
      ensures code == old(code) + I.OdCode(e, words, k) && hostFlags == old(hostFlags)
      ensures outer == I.HasOd(e) && ext == k + OdCount(e)
    {
      hide I.LoadS16, Pair;
      outer, ext := false, k;
      if e.od.OdWord? {
        outer := true;
        QuietS16(T(4), words(ext));
        EmitQuiet([I.LoadS16(T(4), words(ext))]);
        ext := ext + 1;
      } else if e.od.OdLong? {
        outer := true;
        EmitQuiet([LoadImmediate(T(4), Pair(words(ext), words(ext + 1)))]);
        ext := ext + 2;
      }
    }

    /** The operands of a full extension word in registers; returns the position after its words. */
    method FullOperands(e: Ext, words: Stream, k: nat) returns (index: Option<Reg>, bd: Option<Reg>, outer: bool, ext: nat)
      modifies this`code, this`hostFlags
      ensures code == old(code) + I.Prologue(e, words, k) && hostFlags == old(hostFlags)
      ensures index == I.IndexReg(e) && bd == (if I.HasBd(e) then Some(T(3)) else None) && outer == I.HasOd(e)
      ensures ext == k + BdCount(e) + OdCount(e)
    {
      hide I.BdCode, I.OdCode, I.IndexCode, BdCount, OdCount, I.IndexReg, I.HasBd, I.HasOd;
      index := IndexOperand(e);
      bd, ext := BaseDisplacement(e, words, k);
      outer, ext := OuterDisplacement(e, words, ext);
    }

    /** Address register indirect with index. */
    method Direct(acc: I.Access, base: Option<Reg>, bd: Option<Reg>, index: Option<Reg>, scale: bv8, rt: Reg)
      requires bd.Some? ==> bd.value == T(3)
      modifies this`code, this`hostFlags
      ensures code == old(code) + I.Direct(acc, base, bd.Some?, index, scale, rt) && hostFlags == old(hostFlags)
    {
      hide I.LoadFrom;
      var from := bd;
      if base.Some? && bd.Some? {
        EmitQuiet([AddReg(T(3), base.value, T(3), 0)]);
      } else if bd.None? {
        from := base;
      }
      AccessFrom(acc, from, rt, index, scale);
    }

    method AddOuter(outer: bool)
      modifies this`code, this`hostFlags
      ensures code == old(code) + I.AddOuter(outer) && hostFlags == old(hostFlags)
    {
      if outer {
        EmitQuiet([AddReg(T(3), T(3), T(4), 0)]);
      }
    }

    /** The outer displacement and the last access. */
    method OuterAccess(acc: I.Access, outer: bool, index: Option<Reg>, scale: bv8, rt: Reg)
      modifies this`code, this`hostFlags
      ensures code == old(code) + (I.AddOuter(outer) + I.LoadFrom(acc, Some(T(3)), rt, index, scale))
      ensures hostFlags == old(hostFlags)
    {
      hide I.LoadFrom;
      AddOuter(outer);
      AccessFrom(acc, Some(T(3)), rt, index, scale);
    }

    /** Memory indirect, after the displacement (or a copy of the base) is in T(3). */
    method Indirect(acc: I.Access, base: Option<Reg>, e: Ext, index: Option<Reg>, outer: bool, rt: Reg)
      requires index == I.IndexReg(e) && outer == I.HasOd(e)
      modifies this`code, this`hostFlags
      ensures code == old(code) + I.Indirect(acc, base, e, rt) && hostFlags == old(hostFlags)
    {
      hide I.LoadFrom, I.AddOuter, I.PreFetch, I.IndexReg, I.HasOd;
      IndirectParts(acc, base, e, rt);
      ghost var start := code;
      if e.post {
        hide I.Indirect;
        ghost var fetch := [Ld(Long, false, T(3), T(3), if base.Some? then RegUxtw(base.value) else Scaled(W(0)))];
        EmitQuiet([Ld(Long, false, T(3), T(3), if base.Some? then RegUxtw(base.value) else Scaled(W(0)))]);
        OuterAccess(acc, outer, index, e.scale, rt);
        Assoc(start, fetch, I.AddOuter(outer) + I.LoadFrom(acc, Some(T(3)), rt, index, e.scale));
      } else {
        hide I.Indirect;
        PreFetch(acc.Put?, base, index, e.scale);
        OuterAccess(acc, outer, None, 0, rt);
        Assoc(start, I.PreFetch(acc.Put?, base, index, e.scale), I.AddOuter(outer) + I.LoadFrom(acc, Some(T(3)), rt, None, 0));
      }
    }

    method PreFetch(put: bool, base: Option<Reg>, index: Option<Reg>, scale: bv8)
      modifies this`code, this`hostFlags
      ensures code == old(code) + I.PreFetch(put, base, index, scale) && hostFlags == old(hostFlags)
    {
      hide I.LoadFrom;
      if index.None? {
        if !put {
          AccessFrom(I.Data(Long, false), base, T(3), Some(T(3)), 0);
        } else if base.Some? {
          EmitQuiet([Ld(Long, false, T(3), base.value, RegUxtw(T(3)))]);
        } else {
          EmitQuiet([MovReg(T(6), ZR), Ld(Long, false, T(3), T(6), RegUxtw(T(3)))]);
        }
      } else {
        if base.Some? {
          EmitQuiet([AddReg(T(3), base.value, T(3), 0)]);
        }
        AccessFrom(I.Data(Long, false), Some(T(3)), T(3), index, scale);
      }
    }

    /** The full format of mode 6. */
    method FullExtension(acc: I.Access, an: Reg, e: Ext, words: Stream, k: nat, rt: Reg) returns (ext: nat)
      modifies this`code, this`hostFlags
      ensures code == old(code) + I.Full(acc, an, e, words, k, rt) && hostFlags == old(hostFlags)
      ensures ext == k + BdCount(e) + OdCount(e)
    {
      I.FullCode(acc, an, e, words, k, rt);
      hide I.Prologue, I.Full, I.Direct, I.Indirect, I.IndexReg, I.HasBd, I.HasOd, BdCount, OdCount;
      var base := if e.noBase then None else Some(an);
      var index, bd, outer;
      index, bd, outer, ext := FullOperands(e, words, k);
      Assoc(old(code), I.Prologue(e, words, k), I.Body(acc, an, e, rt));
      if e.od.NoIndirection? && !e.post && !e.reserved {
        Direct(acc, base, bd, index, e.scale, rt);
      } else {
        if bd.None? {
          EmitQuiet([I.CopyBase(base)]);
          base := None;
        }
        Indirect(acc, base, e, index, outer, rt);
      }
    }

    /** The brief format of mode 6. */
    method BriefExtension(acc: I.Access, an: Reg, d8: Word, xn: Reg, long: bool, scale: bv8, rt: Reg)
      modifies this`code, this`hostFlags
      ensures code == old(code) + I.Brief(acc, an, d8, xn, long, scale, rt) && hostFlags == old(hostFlags)
    {
      hide I.LoadFrom, D.Ascending, Neg, I.IndexCode;
      var base := DisplacedBase(an, d8);
      var index := ExtendedIndex(xn, long);
      AccessFrom(acc, Some(base), rt, Some(index), scale);
    }

    /** The base with the brief displacement, in a copy unless that is zero. */
    method DisplacedBase(an: Reg, d8: Word) returns (base: Reg)
      modifies this`code, this`hostFlags
      ensures code == old(code) + I.BriefBase(an, d8) && hostFlags == old(hostFlags)
      ensures base == if d8 == W(0) then an else T(3)
    {
      hide D.Ascending, Neg;
      base := an;
      if d8 != W(0) {
        if D.Ascending(d8) {
          EmitQuiet([AddImmed(T(3), an, d8)]);
        } else {
          EmitQuiet([SubImmed(T(3), an, Neg(d8))]);
        }
        base := T(3);
      }
    }

    method ExtendedIndex(xn: Reg, long: bool) returns (index: Reg)
      modifies this`code, this`hostFlags
      ensures code == old(code) + I.IndexCode(xn, long) && hostFlags == old(hostFlags)
      ensures index == I.IndexOf(xn, long)
    {
      index := xn;
      if !long {
        EmitQuiet([Sxth(T(2), xn)]);
        index := T(2);
      }
    }

    /** Mode 6, reading extension words from position k; returns the position after them. */
    method Mode6(acc: I.Access, an: Reg, words: Stream, k: nat, rt: Reg) returns (ext: nat)
      modifies this`code, this`hostFlags
      ensures code == old(code) + I.Mode6(acc, an, words, k, rt).0 && hostFlags == old(hostFlags)
      ensures ext == k + I.Mode6(acc, an, words, k, rt).1
    {
      hide ExtensionOf, DecodeExt, IsBrief, IndexRegister, BriefDisplacement, BriefScale, I.Brief, I.Full, BdCount, OdCount;
      var w := ExtensionOf(words, k);
      if IsBrief(w) {
        BriefExtension(acc, an, BriefDisplacement(w), IndexRegister(w), w & 0x0800 != 0, BriefScale(w), rt);
        ext := k + 1;
      } else {
        ext := FullExtension(acc, an, DecodeExt(w), words, k + 1, rt);
      }
    }

    /** EMIT_LoadFromEffectiveAddress with size 0: the register that holds the address (before a
        predecrement), and the number of extension words. */
    method LoadAddress(ea: Ea) returns (base: Reg, ext: nat)
      requires InMemory(ea)
      modifies this`code, this`hostFlags
      ensures code == old(code) + EaCode(ea) && hostFlags == old(hostFlags)
      ensures base == EaBase(ea) && ext == ExtensionWords(ea)
    {
      hide I.Mode6, D.AddressOffset, ExtensionOf;
      ext := 0;
      match ea {
        case Displaced(n, d16) =>
          base := T(10);
          AddressAt(Some(A(n)), base, d16, false);
          ext := ext + 1;
        case IndexedBy(n, words) =>
          base := T(10);
          ext := Mode6(I.Address, A(n), words, ext, base);
          Mode6Counts(A(n), words);
        case _ =>
          base := A(ea.n);
      }
    }

    // -------------------------------------------------------------- ADDQ and SUBQ

    /** The arithmetic on a data register. */
    method OnData(op: QOp, q: Word, size: Size, mask: Mask, rd: Reg)
      modifies this`code, this`hostFlags
      ensures code == old(code) + Q.OnData(op, q, size, mask, rd)
      ensures hostFlags == N.HostFlagsAfter(Q.OnData(op, q, size, mask, rd), old(hostFlags))
    {
      hide N.HostFlagsAfter, Q.InPlace, Q.InPlaceTest, Q.TopImmediate, Q.TopShift, Q.WidthOf, Q.FlagsOp, Q.PlainOp, Lsl, Bfxil, AddsReg, SubsReg, MovImmed;
      ghost var start, before := code, hostFlags;
      if size.Long? {
        Emit([if mask != 0 then Q.FlagsOp(op, rd, rd, q) else Q.PlainOp(op, rd, rd, q)]);
      } else if Q.InPlace(mask, size) {
        var sum := [Q.PlainOp(op, T(0), rd, q), Bfxil(rd, T(0), 0, Q.WidthOf(size))];
        Emit(sum);
        Emit(Q.InPlaceTest(mask, size, T(0)));
        Assoc(start, sum, Q.InPlaceTest(mask, size, T(0)));
        HostFlagsCompose(sum, Q.InPlaceTest(mask, size, T(0)), before);
      } else if op.ADDQ? {
        Emit([MovImmed(T(0), Q.TopImmediate(q, size), 1), AddsReg(T(0), T(0), rd, Q.TopShift(size)),
              Bfxil(rd, T(0), Q.TopShift(size), Q.WidthOf(size))]);
      } else {
        Emit([Lsl(T(1), rd, Q.TopShift(size)), MovImmed(T(0), Q.TopImmediate(q, size), 1),
              SubsReg(T(0), T(1), T(0), 0), Bfxil(rd, T(0), Q.TopShift(size), Q.WidthOf(size))]);
      }
    }

    /** The arithmetic on a loaded operand. */
    method OnLoaded(op: QOp, q: Word, size: Size, mask: Mask)
      modifies this`code, this`hostFlags
      ensures code == old(code) + Q.OnLoaded(op, q, size, mask)
      ensures hostFlags == N.HostFlagsAfter(Q.OnLoaded(op, q, size, mask), old(hostFlags))
    {
      hide N.HostFlagsAfter, Q.InPlace, Q.InPlaceTest, Q.TopImmediate, Q.TopShift, Q.FlagsOp, Q.PlainOp, Lsl, Lsr, AddsReg, SubsReg, MovImmed;
      ghost var start, before := code, hostFlags;
      if size.Long? {
        Emit([if mask != 0 then Q.FlagsOp(op, T(0), T(0), q) else Q.PlainOp(op, T(0), T(0), q)]);
      } else if Q.InPlace(mask, size) {
        var sum := [Q.PlainOp(op, T(0), T(0), q)];
        Emit(sum);
        Emit(Q.InPlaceTest(mask, size, T(0)));
        Assoc(start, sum, Q.InPlaceTest(mask, size, T(0)));
        HostFlagsCompose(sum, Q.InPlaceTest(mask, size, T(0)), before);
      } else if op.ADDQ? {
        Emit([MovImmed(T(1), Q.TopImmediate(q, size), 1), AddsReg(T(0), T(1), T(0), Q.TopShift(size)),
              Lsr(T(0), T(0), Q.TopShift(size))]);
      } else {
        Emit([Lsl(T(0), T(0), Q.TopShift(size)), MovImmed(T(1), Q.TopImmediate(q, size), 1),
              SubsReg(T(0), T(0), T(1), 0), Lsr(T(0), T(0), Q.TopShift(size))]);
      }
    }

    method ComputeInMemory(op: QOp, q: Word, size: Size, mask: Mask, ea: Ea) returns (ext: nat)
      requires InMemory(ea)
      modifies this`code, this`hostFlags
      ensures code == old(code) + EmitQuick.Compute(op, q, size, mask, ea)
      ensures hostFlags == N.HostFlagsAfter(EmitQuick.Compute(op, q, size, mask, ea), old(hostFlags))
      ensures ext == ExtensionWords(ea)
    {
      hide N.HostFlagsAfter, Q.OnData, Q.OnLoaded, Q.PlainOp, EaCode, LoadMode, StoreMode, EaBase, ExtensionWords;
      ghost var before := hostFlags;
      var base;
      base, ext := LoadAddress(ea);
      EmitQuiet([Ld(size, false, T(0), base, LoadMode(ea, size))]);
      OnLoaded(op, q, size, mask);
      EmitQuiet([St(size, T(0), base, StoreMode(ea, size))]);
      OnlyOnLoaded(op, q, size, mask, ea, before);
    }

    /** Operand, arithmetic and result; returns the number of extension words. */
    method Compute(op: QOp, q: Word, size: Size, mask: Mask, ea: Ea) returns (ext: nat)
      modifies this`code, this`hostFlags
      ensures code == old(code) + EmitQuick.Compute(op, q, size, mask, ea)
      ensures hostFlags == N.HostFlagsAfter(EmitQuick.Compute(op, q, size, mask, ea), old(hostFlags))
      ensures ext == ExtensionWords(ea)
    {
      hide N.HostFlagsAfter, Q.OnData, Q.PlainOp;
      if ea.DataReg? {
        OnData(op, q, size, mask, A64.D(ea.n));
        ext := 0;
      } else if ea.AddrReg? {
        Emit([Q.PlainOp(op, A(ea.n), A(ea.n), q)]);
        ext := 0;
      } else {
        hide EmitQuick.Compute, ExtensionWords;
        ext := ComputeInMemory(op, q, size, mask, ea);
      }
    }

    /** Z or N of a byte or word, when only that is wanted; what remains of the mask. */
    method InPlaceFlags(size: Size, mask: Mask) returns (left: Mask)
      modifies this`code, this`hostFlags
      ensures code == old(code) + EmitQuick.InPlaceFlags(size, mask).0 && hostFlags == old(hostFlags)
      ensures left == EmitQuick.InPlaceFlags(size, mask).1
    {
      hide F.ClearFlags, F.SetFlagsConditional;
      left := mask;
      if !size.Long? {
        if mask == SR_Z {
          ClearFlags(4);
          SetFlagsConditional(4, EQ);
          left := 0;
        } else if mask == SR_N {
          ClearFlags(8);
          SetFlagsConditional(8, NE);
          left := 0;
        }
      }
    }

    /** What remains of the flags, from the host's. */
    method UpdateCC(inverted: bool, mask: Mask)
      modifies this`code, this`hostFlags
      ensures code == old(code) + C.CaptureAll(inverted, mask)
      ensures hostFlags == if mask != 0 then C.CapturedHostFlags(inverted, mask) else old(hostFlags)
    {
      hide C.GetFlags, C.SetLeft, C.CapturedHostFlags;
      if mask != 0 {
        var left := GetFlags(HasX(mask), inverted, mask);
        SetLeft(inverted, left);
      }
    }

    /** EMIT_ADDQ and EMIT_SUBQ. */
    method ADDQ(op: QOp, q: Word, size: Size, mask: Mask, ea: Ea)
      modifies this`code, this`hostFlags, this`pending, this`ptr
      ensures code == old(code) + QuickCode(op, q, size, mask, ea, old(pending))
      ensures State() == QuickNext(op, q, size, mask, ea, old(State()))
    {
      hide N.HostFlagsAfter, EmitQuick.Compute, EmitQuick.InPlaceFlags, C.CaptureAll, C.CapturedHostFlags, O.AdvancePc, Length, ExtensionWords, Plus;
      var ext := Compute(op, q, size, mask, ea);
      var left := InPlaceFlags(size, mask);
      AdvancePC(Length(ext));
      ptr := Plus(ptr, Length(ext));
      if !ea.AddrReg? {
        UpdateCC(op.SUBQ?, left);
      }
      ghost var a, b := EmitQuick.Compute(op, q, size, mask, ea), EmitQuick.InPlaceFlags(size, mask).0;
      ghost var d := O.AdvancePc(old(pending), Length(ext)).0;
      ghost var e := if ea.AddrReg? then [] else C.CaptureAll(op.SUBQ?, left);
      assert code == old(code) + (a + (b + d + e));
    }

    // -------------------------------------------------------------- branches

    method AddOffset(rd: Reg, offset: Word, pos: bv32, neg: bv32, tmp: Reg)
      modifies this`code, this`hostFlags
      ensures code == old(code) + O.AddOffset(rd, offset, pos, neg, tmp) && hostFlags == old(hostFlags)
    {
      hide O.Below, Neg;
      if O.Below(offset, pos) {
        EmitQuiet([AddImmed(rd, PC, offset)]);
      } else if O.Below(Neg(offset), neg) {
        EmitQuiet([SubImmed(rd, PC, Neg(offset))]);
      } else if offset != W(0) {
        EmitQuiet([LoadImmediate(tmp, offset), AddReg(rd, PC, tmp, 0)]);
      }
    }

    /** What follows position `from` is an exit block: it leaves the buffer and is recorded with the
        branches that enter it. */
    method RecordExit(branches: seq<Branch>, from: nat)
      requires from <= |code|
      modifies this`code, this`fixups
      ensures code == old(code)[..from] && fixups == old(fixups) + [Fixup(branches, old(code)[from..])]
    {
      fixups := fixups + [Fixup(branches, code[from..])];
      code := code[..from];
    }

    /** Absorb the pending offset and jump out if a condition holds; the jump is to be patched. */
    method JumpOut(cond: CondCode, offset: Word) returns (off: Word, branch: Branch)
      requires !cond.M_T? && !cond.M_F?
      modifies this`code, this`hostFlags, this`pending
      ensures var (flush, _, o) := O.GetOffsetPc(old(pending), offset);
        var out := flush + N.JumpOnCondition(cond, old(hostFlags), 0);
        && off == o && pending == W(0)
        && code == old(code) + out && hostFlags == N.HostFlagsAfter(out, old(hostFlags))
        && Exits(out, |old(code)|) == [branch]
    {
      hide O.GetOffsetPc, Plus, N.JumpOnCondition, N.JumpPrefix, N.JumpBranch, N.HostFlagsAfter, Quiet, Jumps, Straight, Exits, KindOf;
      ghost var start, before := code, hostFlags;
      ghost var flush, jump := O.GetOffsetPc(pending, offset).0, N.JumpOnCondition(cond, hostFlags, 0);
      FlushQuiet(pending, offset);
      off := GetOffsetPC(offset);
      ResetOffsetPC();
      JumpExits(flush, cond, hostFlags, |start|);
      var at, kind := JumpOnCondition(cond);
      branch := Branch(at, kind);
      Assoc(start, flush, jump);
      HostFlagsCompose(flush, jump, before);
      QuietFront(flush, before);
    }

    /** The PC of one of the two ways of a conditional branch. */
    method GoTo(taken: bool, branchOffset: Word, nextOffset: Word)
      modifies this`code, this`hostFlags
      ensures code == old(code) + WayCode(taken, branchOffset, nextOffset) && hostFlags == old(hostFlags)
    {
      hide O.AddOffset;
      if !taken {
        AddOffset(PC, nextOffset, 255, 256, X0);
      } else {
        AddOffset(PC, branchOffset, 4096, 4096, X0);
      }
    }

    /** EMIT_Bcc, predicted taken or not. */
    method Bcc(cond: CondCode, form: Form, disp: Word, takeBranch: bool)
      requires !cond.M_T? && !cond.M_F?
      modifies this
      ensures var e := EmitBcc(cond, form, disp, takeBranch, old(State()));
        code == old(code) + e.main && State() == e.next && fixups == old(fixups) + FixupOf(e, |old(code)|)
    {
      NotTrueOrFalse(cond);
      BccParts(cond, form, disp, takeBranch, State());
      hide O.GetOffsetPc, O.AddOffset, Plus, Minus, FormLength, N.JumpOnCondition, N.HostFlagsAfter, Opposite, Quiet, Straight, Exits, WayCode, EmitBcc;
      ghost var start, before := code, State();
      var off, branch := JumpOut(if takeBranch then Opposite(cond) else cond, W(2));
      var branchOffset := Plus(disp, off);
      var nextOffset := Plus(Minus(off, W(2)), FormLength(form));
      ghost var out := O.GetOffsetPc(before.pending, W(2)).0
        + N.JumpOnCondition(if takeBranch then Opposite(cond) else cond, before.hostFlags, 0);
      ghost var way := WayCode(takeBranch, branchOffset, nextOffset);
      WayQuiet(takeBranch, branchOffset, nextOffset);
      QuietTail(out, way, before.hostFlags);
      ExitsThen(out, way, |start|);
      Assoc(start, out, way);
      GoTo(takeBranch, branchOffset, nextOffset);
      ptr := Plus(ptr, if takeBranch then Plus(W(2), disp) else FormLength(form));
      ghost var main := code;
      var mid := |code|;
      GoTo(!takeBranch, branchOffset, nextOffset);
      RecordExit([branch], mid);
      assert code == main;
    }

    /** EMIT_BRA and EMIT_BSR. */
    method BRA(bsr: bool, form: Form, disp: Word, inlined: bool)
      modifies this`code, this`hostFlags, this`pending, this`ptr
      ensures var e := EmitBra(bsr, form, disp, inlined, old(State()));
        code == old(code) + e.main && State() == e.next
    {
      hide O.GetOffsetPc, O.AddOffset, Plus, Minus, FormLength, N.HostFlagsAfter, Neg, Quiet;
      ghost var start, before := code, hostFlags;
      ghost var flush := O.GetOffsetPc(pending, W(2)).0;
      FlushQuiet(pending, W(2));
      var off := GetOffsetPC(W(2));
      ResetOffsetPC();
      if bsr {
        PushReturnAddress(form, off);
      }
      ghost var push := if bsr then PushReturn(form, off) else [];
      AddOffset(PC, Plus(off, disp), 4096, 4096, T(1));
      ptr := Plus(ptr, if inlined then Plus(W(2), disp) else FormLength(form));
      ghost var rest := O.AddOffset(PC, Plus(off, disp), 4096, 4096, T(1));
      QuietOffset(PC, Plus(off, disp), 4096, 4096, T(1));
      PushQuiet(form, off);
      MiddleFlags(flush, push, rest, before);
      QuietFront(push, before);
      Assoc3(start, flush, push, rest);
    }

    method PushReturnAddress(form: Form, off: Word)
      modifies this`code, this`hostFlags
      ensures code == old(code) + PushReturn(form, off) && hostFlags == old(hostFlags)
    {
      hide O.AddOffset, ReturnOffset, Neg;
      var ret := ReturnOffset(form, off);
      AddOffset(T(0), ret, 256, 256, T(0));
      if ret != W(0) {
        EmitQuiet([St(Long, T(0), A(7), PreIndex(Neg(W(4))))]);
      } else {
        EmitQuiet([St(Long, PC, A(7), PreIndex(Neg(W(4))))]);
      }
    }

    /** EMIT_DBcc. */
    method DBcc(cond: CondCode, n: nat, disp: Word)
      modifies this
      ensures var e := EmitDbcc(cond, n, disp, old(State()));
        code == old(code) + e.main && State() == e.next && fixups == old(fixups) + FixupOf(e, |old(code)|)
    {
      hide O.GetOffsetPc, O.AdvancePc, O.AddOffset, Plus, N.HostFlagsAfter, N.JumpOnCondition, Quiet, Straight, Exits, DbccTail, EmitDbcc;
      DbccParts(cond, n, disp, State(), |code|);
      if cond.M_T? {
        NopQuiet();
        EmitQuiet([Nop]);
        AdvancePC(W(4));
        ptr := Plus(ptr, W(4));
      } else {
        ghost var start, before := code, State();
        var off, exits;
        if cond.M_F? {
          FlushQuiet(pending, W(0));
          NoneYet(O.GetOffsetPc(pending, W(0)).0, |code|);
          off := GetOffsetPC(W(0));
          ResetOffsetPC();
          exits := [];
        } else {
          var branch;
          off, branch := JumpOut(cond, W(0));
          exits := [branch];
        }
        ghost var out := O.GetOffsetPc(before.pending, W(0)).0
          + if cond.M_F? then [] else N.JumpOnCondition(cond, before.hostFlags, 0);
        assert code == start + out && exits == Exits(out, |start|);
        var offset := Plus(Plus(W(2), disp), off);
        TailExits(out, n, offset, |start|);
        var second := CountAndBranch(n, offset);
        Assoc(start, out, DbccTail(n, offset));
        TailResets(out, n, offset, before.hostFlags);
        exits := exits + [Branch(second, FIXUP_BCC)];
        ptr := Plus(ptr, Plus(W(2), disp));
        ghost var main := code;
        var mid := |code|;
        ImmediateQuiet(Plus(W(4), off));
        EmitQuiet([AddImmed(PC, PC, Plus(W(4), off))]);
        RecordExit(exits, mid);
        assert code == main;
      }
    }

    /** Count the counter down, branch out if it was zero, and add the offset back. */
    method CountAndBranch(n: nat, offset: Word) returns (at: nat)
      modifies this`code, this`hostFlags
      ensures code == old(code) + DbccTail(n, offset) && hostFlags == 0
      ensures at == |old(code)| + 3
    {
      hide O.AddOffset, N.HostFlagsAfter, Uxth, Bfi, Quiet;
      CountResets(n, hostFlags);
      Emit(CountCode(n));
      at := |code|;
      BranchQuiet();
      EmitQuiet([BCond(MI, 0)]);
      AddOffset(PC, offset, 4096, 4096, T(0));
    }

    /** The byte of Scc. */
    method SccByte(cond: CondCode, rd: Reg)
      modifies this`code, this`hostFlags
      ensures code == old(code) + SccValue(cond, old(hostFlags), rd)
      ensures hostFlags == N.HostFlagsAfter(SccValue(cond, old(hostFlags), rd), old(hostFlags))
    {
      hide N.HostFlagsAfter, N.TestCondition, OrrImmed, BicImmed, MovImmed, Csetm, Bfi;
      ghost var start, before := code, hostFlags;
      if cond.M_T? {
        Emit([if rd.D? then OrrImmed(rd, rd, 8, 0) else MovImmed(rd, W(0xff), 0)]);
      } else if cond.M_F? {
        Emit([if rd.D? then BicImmed(rd, rd, 8, 0) else MovImmed(rd, W(0), 0)]);
      } else {
        ghost var test := N.TestCondition(cond, before).0;
        var success := TestCondition(cond);
        Emit([Csetm(T(1), success), Bfi(rd, T(1), 0, 8)]);
        Assoc(start, test, [Csetm(T(1), success), Bfi(rd, T(1), 0, 8)]);
        HostFlagsCompose(test, [Csetm(T(1), success), Bfi(rd, T(1), 0, 8)], before);
      }
    }

    /** EMIT_StoreToEffectiveAddress of a byte; returns the number of extension words. */
    method StoreByteTo(ea: Ea) returns (ext: nat)
      modifies this`code, this`hostFlags
      ensures code == old(code) + StoreByte(ea) && hostFlags == old(hostFlags)
      ensures ext == ExtensionWords(ea)
    {
      hide I.Mode6, D.StoreOffset, ExtensionOf, StepOf, Neg;
      ext := 0;
      if ea.Indirect? {
        StoreAt(Byte, Some(A(ea.n)), T(0), W(0), false);
      } else if ea.PostInc? {
        EmitQuiet([St(Byte, T(0), A(ea.n), PostIndex(StepOf(ea.n, Byte)))]);
      } else if ea.PreDec? {
        EmitQuiet([St(Byte, T(0), A(ea.n), PreIndex(Neg(StepOf(ea.n, Byte))))]);
      } else if ea.Displaced? {
        StoreAt(Byte, Some(A(ea.n)), T(0), ea.d16, false);
        ext := ext + 1;
      } else if ea.IndexedBy? {
        ext := Mode6(I.Put(Byte), A(ea.n), ea.words, ext, T(0));
        Mode6StoreCounts(A(ea.n), ea.words);
      }
    }

    /** EMIT_Scc. */
    method Scc(cond: CondCode, ea: Ea)
      modifies this`code, this`hostFlags, this`pending, this`ptr
      ensures var e := EmitScc(cond, ea, old(State()));
        code == old(code) + e.main && State() == e.next
    {
      hide SccValue, StoreByte, O.AdvancePc, Plus, Length, ExtensionWords, N.HostFlagsAfter;
      ghost var start := code;
      var rd := if ea.DataReg? then A64.D(ea.n) else T(0);
      ghost var value := SccValue(cond, hostFlags, rd);
      SccByte(cond, rd);
      var ext := StoreByteTo(ea);
      ghost var adv := O.AdvancePc(pending, Length(ext)).0;
      AdvancePC(Length(ext));
      ptr := Plus(ptr, Length(ext));
      Assoc3(start, value, StoreByte(ea), adv);
    }

    // -------------------------------------------------------------- one instruction, one unit

    /** The dispatch of EMIT_line5 and EMIT_line6. */
    method Instruction(i: Insn68, mask: Mask, choice: Choice)
      requires WellFormed(i)
      modifies this
      ensures var e := Unit.Emit(i, mask, choice, old(State()));
        code == old(code) + e.main && State() == e.next && fixups == old(fixups) + FixupOf(e, |old(code)|)
    {
      NoFixup(i, mask, choice, State(), |code|);
      hide EmitScc, EmitDbcc, EmitBcc, EmitBra, QuickCode, QuickNext, FixupOf;
      match i {
        case QuickOp(op, q, size, ea) => ADDQ(op, q, size, mask, ea);
        case Scc(cond, ea) => Scc(cond, ea);
        case DBcc(cond, n, disp) => DBcc(cond, n, disp);
        case Bcc(cond, form, disp) => Bcc(cond, form, disp, choice.takeBranch);
        case BRA(form, disp) => BRA(false, form, disp, choice.inlined);
        case BSR(form, disp) => BRA(true, form, disp, choice.inlined);
      }
    }

    /** One turn of the loop of M68K_Translate; tells whether translation goes on. */
    method Turn(prog: Program, masks: Word -> Mask, choice: Choice) returns (running: bool, ghost e: Emitted)
      requires Modelled(prog)
      modifies this
      ensures var before := old(State());
        && e == Unit.Emit(prog(before.ptr), masks(before.ptr), choice, before)
        && code == old(code) + e.main && State() == e.next && fixups == old(fixups) + FixupOf(e, |old(code)|)
        && running == !Stops(prog(before.ptr), choice)
    {
      hide Unit.Emit, Stops, WellFormed, Modelled, FixupOf;
      AllWellFormed(prog, ptr);
      e := Unit.Emit(prog(ptr), masks(ptr), choice, State());
      running := !Stops(prog(ptr), choice);
      Instruction(prog(ptr), masks(ptr), choice);
    }

    /** The loop of M68K_Translate: instruction after instruction along the path, until one ends the unit. */
    method TranslateUnit(prog: Program, masks: Word -> Mask, choices: seq<Choice>) returns (ghost fragments: seq<Emitted>)
      requires Modelled(prog)
      modifies this
      ensures fragments == Translate(prog, masks, choices, old(State()))
      ensures code == old(code) + Concatenated(fragments) && fixups == old(fixups) + Recorded(fragments, |old(code)|)
      ensures pending == EndPending(fragments, old(pending))
    {
      hide Unit.Emit, Stops, Modelled, Translate, Concatenated, Recorded, EndPending, FixupOf;
      fragments := [];
      NoFragments(prog, masks, State());
      var k := 0;
      var running := true;
      ghost var start, before, recorded := code, State(), fixups;
      assert choices[0..] == choices;
      NothingRecorded(|start|, pending);
      while running && k < |choices|
        invariant 0 <= k <= |choices|
        invariant code == start + Concatenated(fragments) && fixups == recorded + Recorded(fragments, |start|)
        invariant pending == EndPending(fragments, before.pending)
        invariant Translate(prog, masks, choices, before)
               == fragments + (if running then Translate(prog, masks, choices[k..], State()) else [])
        decreases |choices| - k
      {
        ghost var tr, front := State(), fragments;
        TranslateStep(prog, masks, choices, k, tr);
        ghost var e;
        running, e := Turn(prog, masks, choices[k]);
        FragmentAppended(start, recorded, front, e, before.pending);
        AssocF(front, [e], if running then Translate(prog, masks, choices[k + 1..], State()) else []);
        fragments := front + [e];
        k := k + 1;
      }
      if running {
        assert choices[k..] == [];
        NoFragments(prog, masks, State());
      }
    }

    // -------------------------------------------------------------- the finished buffer

    /** Append an exit block and its return, then give the branches into it their distances. */
    method AppendExit(buf: seq<Cell>, exit: Fixup) returns (out: seq<Cell>)
      ensures out == Patch(buf + Cells(exit.block) + [Ret], exit.branches, |buf|)
    {
      hide PatchOne;
      out := buf;
      for k := 0 to |exit.block|
        invariant out == buf + Cells(exit.block[..k])
      {
        assert exit.block[..k + 1] == exit.block[..k] + [exit.block[k]];
        out := out + [Op(exit.block[k])];
      }
      assert exit.block[..|exit.block|] == exit.block;
      out := out + [Ret];
      for k := 0 to |exit.branches|
        invariant Patch(out, exit.branches[k..], |buf|) == Patch(buf + Cells(exit.block) + [Ret], exit.branches, |buf|)
      {
        assert exit.branches[k..][1..] == exit.branches[k + 1..];
        out := PatchOne(out, exit.branches[k], |buf|);
      }
    }

    /** The end of M68K_Translate: write out what is pending, return (or first branch back to the start),
        and take the recorded exits one after the other. */
    method Finish(inner: bool) returns (buf: seq<Cell>)
      modifies this
      ensures buf == Linked(Cells(old(code)) + Tail(old(pending), inner), old(fixups)) && fixups == []
    {
      hide Patch, O.FlushPc;
      CellsAppend(code, O.FlushPc(pending));
      ghost var start := Cells(code) + Tail(pending, inner);
      FlushPC();
      buf := Cells(code) + if inner then [Again, Ret] else [Ret];
      assert buf == start;
      while fixups != []
        invariant Linked(buf, fixups) == Linked(start, old(fixups))
        decreases |fixups|
      {
        var exit := fixups[0];
        fixups := fixups[1..];
        buf := AppendExit(buf, exit);
      }
    }

    /** M68K_Translate, from an empty buffer.  For a path of at most 256 instructions, the most its loop allows,
        what it returns runs, from any state that represents the guest at its entry, to a return in a state that
        represents the guest some whole number of instructions later; if the path leads back to its start and
        the unit is closed with a branch there, after as many passes as that takes. */
    method M68kTranslate(prog: Program, masks: Word -> Mask, choices: seq<Choice>, inner: bool) returns (buf: seq<Cell>, ghost fragments: seq<Emitted>)
      requires Modelled(prog)
      requires code == [] && fixups == [] && hostFlags == 0 && pending == W(0)
      modifies this
      ensures fragments == Translate(prog, masks, choices, Entry(old(ptr))) && buf == LinkedUnit(fragments, W(0), inner)
      ensures |choices| <= 256 && (inner ==> Returns(prog, masks, choices, Entry(old(ptr)), old(ptr))) ==>
        forall live: Word -> Mask, c: Cpu, rounds: nat, s: Host
          | Sound(prog, live, masks) && c.pc == old(ptr) && Represents(c, Entry(c.pc), live(c.pc), s)
          :: Returned(prog, live, masks, choices, c, inner, rounds, s, Go(buf, 0, rounds, s))
    {
      hide Modelled, Translate, Concatenated, Recorded, EndPending, Linked, Cells, Tail, Near, Returns;
      fragments := TranslateUnit(prog, masks, choices);
      assert code == Concatenated(fragments) && fixups == Recorded(fragments, 0);
      buf := Finish(inner);
      LinkedUnitReturns(prog, masks, choices, inner, old(ptr));
    }
  }

  /** A return was reached, in the state that running the unit (once, or as often as its loop is passed) gives
      and that represents the guest after the instructions of that. */
  ghost predicate Returned(prog: Program, live: Word -> Mask, masks: Word -> Mask, choices: seq<Choice>, c: Cpu, inner: bool,
                           rounds: nat, s: Host, end: Option<Host>) {
    var plan := if inner then Repeat(choices, Passes(prog, masks, choices, rounds, s)) else [choices];
    var c' := Steps(prog, PlanSteps(prog, plan, c), c);
    end == Some(RunUnits(prog, masks, plan, s)) && Represents(c', Entry(c'.pc), live(c'.pc), end.value)
  }

  lemma OnePass(prog: Program, live: Word -> Mask, masks: Word -> Mask, choices: seq<Choice>, c: Cpu, s: Host)
    requires Represents(c, Entry(c.pc), live(c.pc), s)
    ensures RunUnits(prog, masks, [choices], s) == RunUnit(Translate(prog, masks, choices, Entry(c.pc)), W(0), s)
    ensures PlanSteps(prog, [choices], c) == UnitSteps(prog, choices, c)
  {
    EntryPtr(c, c.pc, live(c.pc), s);
    hide Represents, Translate, RunUnit, UnitSteps, Steps;
    assert [choices][1..] == [];
  }

  lemma LinkedUnitReturns(prog: Program, masks: Word -> Mask, choices: seq<Choice>, inner: bool, ptr: Word)
    requires Modelled(prog)
    ensures var fragments := Translate(prog, masks, choices, Entry(ptr));
      |choices| <= 256 && (inner ==> Returns(prog, masks, choices, Entry(ptr), ptr)) ==>
        forall live: Word -> Mask, c: Cpu, rounds: nat, s: Host
          | Sound(prog, live, masks) && c.pc == ptr && Represents(c, Entry(c.pc), live(c.pc), s)
          :: Returned(prog, live, masks, choices, c, inner, rounds, s, Go(LinkedUnit(fragments, W(0), inner), 0, rounds, s))
  {
    var fragments := Translate(prog, masks, choices, Entry(ptr));
    hide Modelled, Sound, Represents, Translate, Go, LinkedUnit, Steps, UnitSteps, RunUnit, Returns, RunUnits, PlanSteps, Repeat, Passes;
    if |choices| <= 256 && (inner ==> Returns(prog, masks, choices, Entry(ptr), ptr)) {
      forall live: Word -> Mask, c: Cpu, rounds: nat, s: Host
        | Sound(prog, live, masks) && c.pc == ptr && Represents(c, Entry(c.pc), live(c.pc), s)
        ensures Returned(prog, live, masks, choices, c, inner, rounds, s, Go(LinkedUnit(fragments, W(0), inner), 0, rounds, s))
      {
        if inner {
          LinkedLoopRuns(prog, live, masks, choices, c, rounds, s);
        } else {
          LinkedUnitRuns(prog, live, masks, choices, c, rounds, s);
          OnePass(prog, live, masks, choices, c, s);
        }
      }
    }
  }

  lemma FpuTestDecides(field: bv8)
    ensures forall s: Host :: P.Decides(P.TestFpuCondition(field).0, P.TestFpuCondition(field).1, field, s) <==> field & 15 != 0
  {
    hide P.Decides, P.TestFpuCondition;
    forall s: Host
      ensures P.Decides(P.TestFpuCondition(field).0, P.TestFpuCondition(field).1, field, s) <==> field & 15 != 0
    {
      P.TestFpuConditionDecidesIff(field, s);
    }
  }

  /** Every test but those of F and T sets the host flags, last. */
  lemma FpuTestResets(field: bv8, hostFlags: Mask)
    ensures N.HostFlagsAfter(P.TestFpuCondition(field).0, hostFlags)
         == if field & 15 != 0 && field & 15 != 15 then 0 else hostFlags
  {
    var cond := P.Selected(field);
    assert cond.F? <==> field & 15 == 0;
    assert cond.FT? <==> field & 15 == 15;
    var code := P.FpuTest(cond).0;
    LastResets(cond);
    NoReset(hostFlags);
    hide P.Selected, P.FpuTest, N.HostFlagsAfter, ResetsFlags;
    if !cond.F? && !cond.FT? {
      ResetAt(code, |code| - 1, hostFlags);
    }
  }

  lemma LastResets(cond: P.FpuCond)
    ensures cond.F? || cond.FT? ==> P.FpuTest(cond).0 == []
    ensures !cond.F? && !cond.FT? ==> var code := P.FpuTest(cond).0; |code| > 0 && ResetsFlags(code[|code| - 1])
  {
  }

  lemma FragmentAppended(start: seq<Insn>, recorded: seq<Fixup>, front: seq<Emitted>, e: Emitted, pending: Word)
    ensures start + Concatenated(front + [e]) == (start + Concatenated(front)) + e.main
    ensures recorded + Recorded(front + [e], |start|)
         == (recorded + Recorded(front, |start|)) + FixupOf(e, |start + Concatenated(front)|)
    ensures EndPending(front + [e], pending) == e.next.pending
  {
    hide Concatenated, Recorded, FixupOf, EndPending;
    ConcatenatedAppend(front, e);
    RecordedAppend(front, e, |start|);
    EndPendingAppend(front, e, pending);
  }

  lemma AssocF(a: seq<Emitted>, b: seq<Emitted>, c: seq<Emitted>)
    ensures (a + b) + c == a + (b + c) && a + [] == a
  {
  }

  lemma NoFragments(prog: Program, masks: Word -> Mask, tr: Tr)
    ensures Translate(prog, masks, [], tr) == [] && Concatenated([]) == []
  {
  }

  lemma TranslateStep(prog: Program, masks: Word -> Mask, choices: seq<Choice>, k: nat, tr: Tr)
    requires k < |choices|
    ensures var i := prog(tr.ptr);
      var e := Unit.Emit(i, masks(tr.ptr), choices[k], tr);
      Translate(prog, masks, choices[k..], tr)
      == [e] + (if Stops(i, choices[k]) then [] else Translate(prog, masks, choices[k + 1..], e.next))
  {
    hide Unit.Emit, Stops;
    assert choices[k..][1..] == choices[k + 1..];
  }

  lemma NothingRecorded(at: nat, pending: Word)
    ensures Recorded([], at) == [] && EndPending([], pending) == pending
  {
  }

  lemma NoFixup(i: Insn68, mask: Mask, choice: Choice, tr: Tr, at: nat)
    ensures !i.DBcc? && !i.Bcc? ==> FixupOf(Unit.Emit(i, mask, choice, tr), at) == []
  {
    hide QuickCode, QuickNext, N.HostFlagsAfter, PushReturn, O.AddOffset, O.GetOffsetPc, SccValue, StoreByte, O.AdvancePc;
  }

  lemma JumpKind(cond: CondCode, hostFlags: Mask)
    requires !cond.M_T? && !cond.M_F?
    ensures KindOf(N.JumpBranch(cond, hostFlags, 0))
         == if !cond.M_LS? && !cond.M_HI? && !N.OnHost(cond, hostFlags) && N.ByTest(cond) then FIXUP_TBZ else FIXUP_BCC
  {
    hide N.OnHost;
  }

  /** The exit a condition jumps through. */
  lemma JumpExits(flush: seq<Insn>, cond: CondCode, hostFlags: Mask, at: nat)
    requires !cond.M_T? && !cond.M_F? && Straight(flush)
    ensures Exits(flush + N.JumpOnCondition(cond, hostFlags, 0), at)
         == [Branch(at + |flush| + |N.JumpPrefix(cond, hostFlags)|, KindOf(N.JumpBranch(cond, hostFlags, 0)))]
  {
    N.JumpParts(cond, hostFlags, 0);
    PrefixStraight(cond, hostFlags);
    var prefix, branch := N.JumpPrefix(cond, hostFlags), N.JumpBranch(cond, hostFlags, 0);
    hide N.JumpOnCondition, N.JumpPrefix, N.JumpBranch;
    assert flush + (prefix + [branch]) == (flush + prefix) + [branch] + [];
    ExitAfter(flush + prefix, branch, [], at);
  }

  /** What a conditional branch adds to the PC on each of its ways. */
  function WayCode(taken: bool, branchOffset: Word, nextOffset: Word): seq<Insn> {
    if taken then O.AddOffset(PC, branchOffset, 4096, 4096, X0) else O.AddOffset(PC, nextOffset, 255, 256, X0)
  }

  lemma WayQuiet(taken: bool, branchOffset: Word, nextOffset: Word)
    ensures Quiet(WayCode(taken, branchOffset, nextOffset)) && Straight(WayCode(taken, branchOffset, nextOffset))
  {
    QuietOffset(PC, branchOffset, 4096, 4096, X0);
    QuietOffset(PC, nextOffset, 255, 256, X0);
    hide O.AddOffset;
  }

  lemma BccParts(cond: CondCode, form: Form, disp: Word, takeBranch: bool, tr: Tr)
    ensures var (flush, _, off) := O.GetOffsetPc(tr.pending, W(2));
      var branchOffset := Plus(disp, off);
      var nextOffset := Plus(Minus(off, W(2)), FormLength(form));
      var main := flush + N.JumpOnCondition(if takeBranch then Opposite(cond) else cond, tr.hostFlags, 0) + WayCode(takeBranch, branchOffset, nextOffset);
      EmitBcc(cond, form, disp, takeBranch, tr)
      == Emitted(main, true, WayCode(!takeBranch, branchOffset, nextOffset),
                 Tr(N.HostFlagsAfter(main, tr.hostFlags), W(0), Plus(tr.ptr, if takeBranch then Plus(W(2), disp) else FormLength(form))))
  {
    hide O.GetOffsetPc, O.AddOffset, Plus, Minus, FormLength, N.JumpOnCondition, N.HostFlagsAfter, Opposite;
  }

  lemma DbccParts(cond: CondCode, n: nat, disp: Word, tr: Tr, at: nat)
    ensures var e := EmitDbcc(cond, n, disp, tr);
      if cond.M_T? then
        var (code, p) := O.AdvancePc(tr.pending, W(4));
        e.main == [Nop] + code && e.next == Tr(tr.hostFlags, p, Plus(tr.ptr, W(4))) && FixupOf(e, at) == []
      else
        var (flush, _, off) := O.GetOffsetPc(tr.pending, W(0));
        var main := flush + (if cond.M_F? then [] else N.JumpOnCondition(cond, tr.hostFlags, 0))
          + DbccTail(n, Plus(Plus(W(2), disp), off));
        && e == Emitted(main, true, [AddImmed(PC, PC, Plus(W(4), off))],
                     Tr(N.HostFlagsAfter(main, tr.hostFlags), W(0), Plus(tr.ptr, Plus(W(2), disp))))
  {
    hide O.GetOffsetPc, O.AdvancePc, Plus, N.JumpOnCondition, N.HostFlagsAfter, DbccTail, Exits;
  }

  lemma PrefixStraight(cond: CondCode, hostFlags: Mask)
    ensures Straight(N.JumpPrefix(cond, hostFlags))
  {
    hide N.OnHost;
  }

  lemma ExitsThen(a: seq<Insn>, rest: seq<Insn>, at: nat)
    requires Straight(rest)
    ensures Exits(a + rest, at) == Exits(a, at)
  {
    ExitsAppend(a, rest, at);
    NoExits(rest, at + |a|);
  }

  lemma NoneYet(flush: seq<Insn>, at: nat)
    requires Straight(flush)
    ensures Exits(flush + [], at) == []
  {
    NoExits(flush, at);
    assert flush + [] == flush;
  }

  /** The exit of a counter that was zero. */
  lemma TailExits(a: seq<Insn>, n: nat, offset: Word, at: nat)
    ensures Exits(a + DbccTail(n, offset), at) == Exits(a, at) + [Branch(at + |a| + 3, FIXUP_BCC)]
  {
    QuietOffset(PC, offset, 4096, 4096, T(0));
    CountStraight(n);
    hide CountCode, O.AddOffset;
    var rest := O.AddOffset(PC, offset, 4096, 4096, T(0));
    ExitsAppend(a, DbccTail(n, offset), at);
    ExitAfter(CountCode(n), BCond(MI, 0), rest, at + |a|);
    NoExits(rest, at + |a| + 4);
  }

  lemma CountStraight(n: nat)
    ensures Straight(CountCode(n)) && |CountCode(n)| == 3
  {
  }

  lemma AllWellFormed(prog: Program, a: Word)
    requires Modelled(prog)
    ensures WellFormed(prog(a))
  {
    hide WellFormed;
  }

  lemma NopQuiet()
    ensures Quiet([Nop])
  {
  }

  lemma BranchQuiet()
    ensures Quiet([BCond(MI, 0)])
  {
  }

  lemma ImmediateQuiet(offset: Word)
    ensures Quiet([AddImmed(PC, PC, offset)])
  {
  }

  lemma CountResets(n: nat, hostFlags: Mask)
    ensures N.HostFlagsAfter(CountCode(n), hostFlags) == 0
  {
    ResetAt(CountCode(n), 1, hostFlags);
  }

  lemma Mode6StoreCounts(an: Reg, words: Stream)
    ensures I.Mode6(I.Put(Byte), an, words, 0, T(0)).1 == Mode6Words(ExtensionOf(words, 0))
  {
    hide ExtensionOf, DecodeExt, IsBrief, I.Brief, I.Full, BdCount, OdCount;
  }

  lemma FlushQuiet(pending: Word, offset: Word)
    ensures Quiet(O.GetOffsetPc(pending, offset).0) && Straight(O.GetOffsetPc(pending, offset).0)
  {
    hide Neg, O.Positive, O.Beyond, Plus;
  }

  lemma PushQuiet(form: Form, off: Word)
    ensures Quiet(PushReturn(form, off)) && Quiet([])
  {
    QuietOffset(T(0), ReturnOffset(form, off), 256, 256, T(0));
    hide O.AddOffset, ReturnOffset, Neg;
  }

  /** Between two quiet pieces. */
  lemma MiddleFlags(a: seq<Insn>, b: seq<Insn>, c: seq<Insn>, hostFlags: Mask)
    requires Quiet(a) && Quiet(c)
    ensures N.HostFlagsAfter(a + b + c, hostFlags) == N.HostFlagsAfter(b, hostFlags)
  {
    hide N.HostFlagsAfter;
    QuietTail(a + b, c, hostFlags);
    HostFlagsCompose(a, b, hostFlags);
    QuietFront(a, hostFlags);
  }

  lemma Assoc3(a: seq<Insn>, b: seq<Insn>, c: seq<Insn>, d: seq<Insn>)
    ensures a + b + c + d == a + (b + c + d)
  {
  }

  predicate HasX(mask: Mask) { mask & SR_X != 0 }

  /** Of the code on an operand in memory only the arithmetic can reset the host flags. */
  lemma OnlyOnLoaded(op: QOp, q: Word, size: Size, mask: Mask, ea: Ea, hostFlags: Mask)
    requires InMemory(ea)
    ensures N.HostFlagsAfter(EmitQuick.Compute(op, q, size, mask, ea), hostFlags)
         == N.HostFlagsAfter(Q.OnLoaded(op, q, size, mask), hostFlags)
  {
    hide N.HostFlagsAfter, Q.OnLoaded, LoadMode, StoreMode, EaBase, Quiet;
    var ld := [Ld(size, false, T(0), EaBase(ea), LoadMode(ea, size))];
    var st := [St(size, T(0), EaBase(ea), StoreMode(ea, size))];
    var front := EaCode(ea) + ld;
    assert Quiet(front) by { AddressQuiet(ea, ld[0]); }
    assert Quiet(st) by { QuietOne(st[0]); }
    QuietTail(front + Q.OnLoaded(op, q, size, mask), st, hostFlags);
    HostFlagsCompose(front, Q.OnLoaded(op, q, size, mask), hostFlags);
    QuietFront(front, hostFlags);
  }

  lemma QuietOne(i: Insn)
    requires !ResetsFlags(i)
    ensures Quiet([i])
  {
  }

  lemma QuietFront(code: seq<Insn>, hostFlags: Mask)
    requires Quiet(code)
    ensures N.HostFlagsAfter(code, hostFlags) == hostFlags
  {
    N.KeepsMarks(code, hostFlags);
  }

  lemma QuietJoin(a: seq<Insn>, b: seq<Insn>)
    requires Quiet(a) && Quiet(b)
    ensures Quiet(a + b)
  {
  }

  lemma AddressQuiet(ea: Ea, last: Insn)
    requires !ResetsFlags(last)
    ensures Quiet(EaCode(ea) + [last])
  {
    hide I.Mode6, D.AddressOffset;
    match ea
    case Displaced(n, d16) => QuietAddress(A(n), T(10), d16);
    case IndexedBy(n, words) => QuietMode6(I.Address, A(n), words, T(10));
    case _ =>
  }

  lemma QuietAddress(base: Reg, rt: Reg, offset: Word)
    ensures Quiet(D.AddressOffset(base, rt, offset, false))
  {
    hide D.Reachable, D.Ascending, O.Positive, Neg, Minus;
  }

  lemma QuietAccessFrom(acc: I.Access, base: Option<Reg>, rt: Reg, index: Option<Reg>, shift: bv8)
    ensures Quiet(I.LoadFrom(acc, base, rt, index, shift))
  {
  }

  lemma QuietMode6(acc: I.Access, an: Reg, words: Stream, rt: Reg)
    ensures Quiet(I.Mode6(acc, an, words, 0, rt).0)
  {
    hide ExtensionOf, DecodeExt, IsBrief, I.Brief, I.Full, BdCount, OdCount, Quiet;
    var w := ExtensionOf(words, 0);
    QuietBrief(acc, an, BriefDisplacement(w), IndexRegister(w), w & 0x0800 != 0, BriefScale(w), rt);
    QuietFull(acc, an, DecodeExt(w), words, 1, rt);
  }

  lemma QuietBrief(acc: I.Access, an: Reg, d8: Word, xn: Reg, long: bool, scale: bv8, rt: Reg)
    ensures Quiet(I.Brief(acc, an, d8, xn, long, scale, rt))
  {
    hide I.LoadFrom, D.Ascending, Neg;
    QuietAccessFrom(acc, Some(if d8 == W(0) then an else T(3)), rt, Some(I.IndexOf(xn, long)), scale);
  }

  lemma QuietFull(acc: I.Access, an: Reg, e: Ext, words: Stream, k: nat, rt: Reg)
    ensures Quiet(I.Full(acc, an, e, words, k, rt))
  {
    I.FullCode(acc, an, e, words, k, rt);
    hide I.Full, I.Prologue, I.Body;
    QuietPrologue(e, words, k);
    QuietBody(acc, an, e, rt);
  }

  lemma QuietPrologue(e: Ext, words: Stream, k: nat)
    ensures Quiet(I.Prologue(e, words, k))
  {
    hide Pair, Bit, Not;
  }

  lemma QuietBody(acc: I.Access, an: Reg, e: Ext, rt: Reg)
    ensures Quiet(I.Body(acc, an, e, rt))
  {
    hide I.Direct, I.Indirect, I.IndexReg, I.HasBd;
    var base := if e.noBase then None else Some(an);
    QuietDirect(acc, base, I.HasBd(e), I.IndexReg(e), e.scale, rt);
    QuietIndirect(acc, base, e, rt);
    QuietIndirect(acc, None, e, rt);
  }

  lemma QuietDirect(acc: I.Access, base: Option<Reg>, hasBd: bool, index: Option<Reg>, scale: bv8, rt: Reg)
    ensures Quiet(I.Direct(acc, base, hasBd, index, scale, rt))
  {
    hide I.LoadFrom;
    QuietAccessFrom(acc, Some(T(3)), rt, index, scale);
    QuietAccessFrom(acc, base, rt, index, scale);
  }

  lemma QuietPreFetch(put: bool, base: Option<Reg>, index: Option<Reg>, scale: bv8)
    ensures Quiet(I.PreFetch(put, base, index, scale))
  {
    hide I.LoadFrom;
    QuietAccessFrom(I.Data(Long, false), base, T(3), Some(T(3)), 0);
    QuietAccessFrom(I.Data(Long, false), Some(T(3)), T(3), index, scale);
  }

  lemma QuietOuter(acc: I.Access, hasOd: bool, index: Option<Reg>, scale: bv8, rt: Reg)
    ensures Quiet(I.AddOuter(hasOd) + I.LoadFrom(acc, Some(T(3)), rt, index, scale))
  {
    hide I.LoadFrom;
    QuietAccessFrom(acc, Some(T(3)), rt, index, scale);
  }

  /** The code of the indirect modes: a fetch of the pointer, then the outer displacement and the access. */
  lemma IndirectParts(acc: I.Access, base: Option<Reg>, e: Ext, rt: Reg)
    ensures I.Indirect(acc, base, e, rt) ==
      if e.post then
        [Ld(Long, false, T(3), T(3), if base.Some? then RegUxtw(base.value) else Scaled(W(0)))]
        + (I.AddOuter(I.HasOd(e)) + I.LoadFrom(acc, Some(T(3)), rt, I.IndexReg(e), e.scale))
      else
        I.PreFetch(acc.Put?, base, I.IndexReg(e), e.scale)
        + (I.AddOuter(I.HasOd(e)) + I.LoadFrom(acc, Some(T(3)), rt, None, 0))
  {
    hide I.LoadFrom, I.AddOuter, I.PreFetch, I.IndexReg, I.HasOd;
  }

  lemma QuietIndirect(acc: I.Access, base: Option<Reg>, e: Ext, rt: Reg)
    ensures Quiet(I.Indirect(acc, base, e, rt))
  {
    IndirectParts(acc, base, e, rt);
    hide I.Indirect, I.LoadFrom, I.AddOuter, I.PreFetch, I.IndexReg, I.HasOd, Quiet;
    if e.post {
      var first := Ld(Long, false, T(3), T(3), if base.Some? then RegUxtw(base.value) else Scaled(W(0)));
      QuietOne(first);
      QuietOuter(acc, I.HasOd(e), I.IndexReg(e), e.scale, rt);
      QuietJoin([first], I.AddOuter(I.HasOd(e)) + I.LoadFrom(acc, Some(T(3)), rt, I.IndexReg(e), e.scale));
    } else {
      QuietPreFetch(acc.Put?, base, I.IndexReg(e), e.scale);
      QuietOuter(acc, I.HasOd(e), None, 0, rt);
      QuietJoin(I.PreFetch(acc.Put?, base, I.IndexReg(e), e.scale), I.AddOuter(I.HasOd(e)) + I.LoadFrom(acc, Some(T(3)), rt, None, 0));
    }
  }

  lemma QuietS16(rd: Reg, w: Word)
    ensures Quiet([I.LoadS16(rd, w)])
  {
    hide Bit, Not;
  }

  lemma Mode6Counts(an: Reg, words: Stream)
    ensures I.Mode6(I.Address, an, words, 0, T(10)).1 == Mode6Words(ExtensionOf(words, 0))
  {
    hide ExtensionOf, DecodeExt, IsBrief, I.Brief, I.Full, BdCount, OdCount;
  }

  lemma SetLeftParts(inverted: bool, left: Mask)
    ensures C.SetLeft(inverted, left) ==
      (if left & SR_Z != 0 then F.SetFlagsConditional(4, EQ) else []) +
      (if left & SR_N != 0 then F.SetFlagsConditional(8, MI) else []) +
      (if left & SR_V != 0 then F.SetFlagsConditional(1, VS) else []) +
      (if left & 17 != 0 then
         F.SetFlagsConditional(if left & 17 == 16 then 16 else if left & 17 == 1 then 2 else 18, C.CarryCond(inverted))
       else [])
  {
    CarryBitsOf(left);
    hide F.SetFlagsConditional, C.CarryCond;
  }

  lemma CarryBitsOf(left: Mask)
    ensures left & 17 == 0 || left & 17 == 1 || left & 17 == 16 || left & 17 == 17
  {
  }

  lemma ConditionalQuiet(flags: bv8, cond: Cond, hostFlags: Mask)
    ensures N.HostFlagsAfter(F.SetFlagsConditional(flags, cond), hostFlags) == hostFlags
  {
    hide F.ConditionalRun;
    N.KeepsMarks(F.SetFlagsConditional(flags, cond), hostFlags);
  }

  lemma ClearQuiet(flags: bv8, hostFlags: Mask)
    ensures N.HostFlagsAfter(F.ClearFlags(flags), hostFlags) == hostFlags
  {
    hide F.RunOf;
    N.KeepsMarks(F.ClearFlags(flags), hostFlags);
  }

  lemma NoReset(hostFlags: Mask)
    ensures N.HostFlagsAfter([], hostFlags) == hostFlags
  {
  }

  /** Instructions that set no flags leave `host_flags` alone. */
  lemma QuietAccess(hostFlags: Mask)
    ensures forall i: Insn :: !ResetsFlags(i) ==> N.HostFlagsAfter([i], hostFlags) == hostFlags
  {
  }

  lemma QuietPair(a: Insn, b: Insn, hostFlags: Mask)
    requires !ResetsFlags(a) && !ResetsFlags(b)
    ensures N.HostFlagsAfter([a, b], hostFlags) == hostFlags
  {
    N.KeepsMarks([a, b], hostFlags);
  }

  lemma Assoc(a: seq<Insn>, b: seq<Insn>, c: seq<Insn>)
    ensures (a + b) + c == a + (b + c)
    ensures a + [] == a && b + [] == b
  {
  }

  lemma NothingToClear()
    ensures F.ClearFlags(C.SwapCV(0)) == []
  {
  }

  lemma OneOfFive(mask: Mask)
    requires C.Popcount(mask) == 1
    ensures mask <= 8 <==> mask == 1 || mask == 2 || mask == 4 || mask == 8
  {
  }

  lemma ResetsAlone(i: Insn, hostFlags: Mask)
    ensures N.HostFlagsAfter([i], hostFlags) == if ResetsFlags(i) then 0 else hostFlags
  {
    assert [i][0] == i;
  }

  lemma WriteOutQuiet(pending: Word, hostFlags: Mask)
    ensures N.HostFlagsAfter([AddImmed(PC, PC, pending)], hostFlags) == hostFlags
    ensures N.HostFlagsAfter([SubImmed(PC, PC, Neg(pending))], hostFlags) == hostFlags
    ensures N.HostFlagsAfter([], hostFlags) == hostFlags
  {
    hide Neg;
  }

  lemma PositiveNotZero(w: Word)
    ensures O.Positive(w) ==> w.b != 0
  {
  }
}
