/**
  Testing a floating-point condition: EMIT_TestFPUCondition (emu68/src/M68k_CC.c), against section
  3.6.2 of the M68000 Family Programmer's Reference Manual.  Some predicates are tested by a
  fragment that jumps over its own second half.
*/
module FpuConditions {
  import opened Words
  import opened A64
  import opened Conditions

  /** The floating-point condition code byte: bits 27 to 24 of FPSR. */
  datatype Fpcc = Fpcc(n: bool, z: bool, i: bool, nan: bool)

  function FpccOf(fpsr: Word): Fpcc {
    Fpcc(fpsr.b & 0x0800_0000 != 0, fpsr.b & 0x0400_0000 != 0,
         fpsr.b & 0x0200_0000 != 0, fpsr.b & 0x0100_0000 != 0)
  }

  datatype FpuCond = F | FEQ | OGT | OGE | OLT | OLE | OGL | OR | UN | UEQ | UGT | UGE | ULT | ULE | FNE | FT

  /** The condition a predicate field selects: bit 4 only says whether to signal. */
  function Selected(predicateField: bv8): FpuCond {
    match predicateField & 15
    case 0 => F case 1 => FEQ case 2 => OGT case 3 => OGE
    case 4 => OLT case 5 => OLE case 6 => OGL case 7 => OR
    case 8 => UN case 9 => UEQ case 10 => UGT case 11 => UGE
    case 12 => ULT case 13 => ULE case 14 => FNE case _ => FT
  }

  /** Section 3.6.2 of the manual. */
  predicate FpuTrue(cond: FpuCond, f: Fpcc) {
    match cond
    case F => false
    case FEQ => f.z
    case OGT => !(f.nan || f.z || f.n)
    case OGE => f.z || !(f.nan || f.n)
    case OLT => f.n && !(f.nan || f.z)
    case OLE => f.z || (f.n && !f.nan)
    case OGL => !(f.nan || f.z)
    case OR => !f.nan
    case UN => f.nan
    case UEQ => f.nan || f.z
    case UGT => f.nan || !(f.n || f.z)
    case UGE => f.nan || f.z || !f.n
    case ULT => f.nan || (f.n && !f.z)
    case ULE => f.nan || f.z || f.n
    case FNE => !f.z
    case FT => true
  }

  /** Code, and the host condition that then means "true". */
  function TestFpuCondition(predicateField: bv8): (seq<Insn>, Cond) {
    FpuTest(Selected(predicateField))
  }

  function FpuTest(cond: FpuCond): (seq<Insn>, Cond) {
    match cond
    case FEQ => ([TstImmed(FPSR, 1, 31 & (32 - 26))], NE)
    case FNE => ([TstImmed(FPSR, 1, 31 & (32 - 26))], EQ)
    case OGT => ([MovImmed(T(8), W(0x0d00), 1), TstReg(FPSR, T(8))], EQ)
    case ULE => ([MovImmed(T(8), W(0x0d00), 1), TstReg(FPSR, T(8))], NE)
    case OGE => ([TstImmed(FPSR, 1, 31 & (32 - 26)), BCond(NE, 4),
                  OrrReg(T(8), FPSR, FPSR, LSL, 3), EorImmed(T(8), T(8), 1, 31 & (32 - 27)),
                  TstImmed(T(8), 1, 31 & (32 - 27))], NE)
    case ULT => ([TstImmed(FPSR, 1, 31 & (32 - 24)), BCond(NE, 4),
                  EorImmed(T(8), FPSR, 1, 31 & (32 - 26)), AndReg(T(8), T(8), T(8), 1),
                  TstImmed(T(8), 1, 31 & (32 - 27))], NE)
    case OLT => ([BicImmed(T(8), FPSR, 1, 31 & (32 - 25)), OrrReg(T(8), T(8), T(8), LSL, 2),
                  EorImmed(T(8), T(8), 1, 31 & (32 - 27)), TstImmed(T(8), 2, 31 & (32 - 26))], EQ)
    case UGE => ([EorImmed(T(8), FPSR, 1, 31 & (32 - 27)), BicImmed(T(8), T(8), 1, 31 & (32 - 25)),
                  TstImmed(T(8), 4, 31 & (32 - 24))], NE)
    case OLE => ([TstImmed(FPSR, 1, 31 & (32 - 26)), BCond(NE, 4),
                  EorImmed(T(8), FPSR, 1, 31 & (32 - 24)), AndReg(T(8), T(8), T(8), 3),
                  TstImmed(T(8), 1, 31 & (32 - 27))], NE)
    case UGT => ([TstImmed(FPSR, 1, 31 & (32 - 24)), BCond(NE, 4),
                  OrrReg(T(8), FPSR, FPSR, LSR, 1), MvnReg(T(8), T(8)),
                  TstImmed(T(8), 1, 31 & (32 - 26))], NE)
    case OGL => ([MovImmed(T(8), W(0x0500), 1), TstReg(FPSR, T(8))], EQ)
    case UEQ => ([MovImmed(T(8), W(0x0500), 1), TstReg(FPSR, T(8))], NE)
    case OR => ([TstImmed(FPSR, 1, 31 & (32 - 24))], EQ)
    case UN => ([TstImmed(FPSR, 1, 31 & (32 - 24))], NE)
    case F => ([], NV)
    case FT => ([], AL)
  }

  /** The code falls through (its inner branch only skips ahead), keeps the guest state, and leaves
      Z set exactly if `zero`. */
  ghost predicate Tests(code: seq<Insn>, s: Host, zero: bool) {
    Run(code, s).Fall? && SameGuest(s, Run(code, s).s) && Run(code, s).s.z == zero
  }

  // ---------------------------------------------------------------- bits

  lemma FpsrBits(w: Word)
    ensures IsZero(And(w, LogicalImm(0, 6))) == (w.b & 0x0400_0000 == 0)
    ensures IsZero(And(w, LogicalImm(0, 8))) == (w.b & 0x0100_0000 == 0)
    ensures IsZero(And(w, LogicalImm(0, 5))) == (w.b & 0x0800_0000 == 0)
  {
  }

  lemma MaskBits(w: Word)
    ensures IsZero(And(w, ShiftL(ShiftL(Low16(W(0x0d00)), 16), 0)))
        == (w.b & 0x0400_0000 == 0 && w.b & 0x0800_0000 == 0 && w.b & 0x0100_0000 == 0)
    ensures IsZero(And(w, ShiftL(ShiftL(Low16(W(0x0500)), 16), 0)))
        == (w.b & 0x0400_0000 == 0 && w.b & 0x0100_0000 == 0)
  {
  }

  lemma OgeBits(w: Word)
    ensures IsZero(And(Xor(Or(w, ShiftL(w, 3)), LogicalImm(0, 5)), LogicalImm(0, 5)))
        == (w.b & 0x0800_0000 != 0 || w.b & 0x0100_0000 != 0)
  {
  }

  lemma UltBits(w: Word)
    ensures var x := Xor(w, LogicalImm(0, 6));
      IsZero(And(And(x, ShiftL(x, 1)), LogicalImm(0, 5))) == (w.b & 0x0800_0000 == 0 || w.b & 0x0400_0000 != 0)
  {
  }

  lemma OltBits(w: Word)
    ensures var x := And(w, LogicalImm(30, 6));
      var y := Or(x, ShiftL(x, 2));
      IsZero(And(Xor(y, LogicalImm(0, 5)), LogicalImm(1, 6)))
        == (w.b & 0x0800_0000 != 0 && w.b & 0x0400_0000 == 0 && w.b & 0x0100_0000 == 0)
  {
  }

  lemma UgeBits(w: Word)
    ensures IsZero(And(And(Xor(w, LogicalImm(0, 5)), LogicalImm(30, 6)), LogicalImm(3, 8)))
        == (w.b & 0x0800_0000 != 0 && w.b & 0x0400_0000 == 0 && w.b & 0x0100_0000 == 0)
  {
  }

  lemma OleBits(w: Word)
    ensures var x := Xor(w, LogicalImm(0, 8));
      IsZero(And(And(x, ShiftL(x, 3)), LogicalImm(0, 5))) == (w.b & 0x0800_0000 == 0 || w.b & 0x0100_0000 != 0)
  {
  }

  lemma UgtBits(w: Word)
    ensures IsZero(And(Or(W(0), Not(ShiftL(Or(w, ShiftR(w, 1)), 0))), LogicalImm(0, 6)))
        == (w.b & 0x0400_0000 != 0 || w.b & 0x0800_0000 != 0)
  {
  }

  lemma FpccBits(w: Word)
    ensures var f := FpccOf(w);
      && (w.b & 0x0800_0000 == 0) == !f.n && (w.b & 0x0400_0000 == 0) == !f.z
      && (w.b & 0x0100_0000 == 0) == !f.nan
  {
  }

  // ---------------------------------------------------------------- shapes of fragments

  lemma OneTest(width: bv8, rot: bv8, s: Host)
    ensures Tests([TstImmed(FPSR, width, rot)], s, IsZero(And(s.Get(FPSR), LogicalImm(width - 1, rot))))
  {
    hide LogicalImm, IsZero, Negative, And;
    Exec1(TstImmed(FPSR, width, rot), s);
    RunStraight([TstImmed(FPSR, width, rot)], [], s);
    hide Run, Straight;
  }

  lemma MaskTest(m: Word, s: Host)
    ensures Tests([MovImmed(T(8), m, 1), TstReg(FPSR, T(8))], s,
                  IsZero(And(s.Get(FPSR), ShiftL(ShiftL(Low16(m), 16), 0))))
  {
    hide ShiftL, Low16, IsZero, Negative, And;
    Exec2(MovImmed(T(8), m, 1), TstReg(FPSR, T(8)), s);
    RunStraight([MovImmed(T(8), m, 1), TstReg(FPSR, T(8))], [], s);
    hide Run, Straight;
  }

  /** A test, a branch over the next three instructions if it found a bit set, and those three. */
  lemma SkipAhead(test: Insn, a: Insn, b: Insn, c: Insn, s: Host)
    requires !Jumps(test) && !Jumps(a) && !Jumps(b) && !Jumps(c)
    ensures var t := Step(test, s);
      Run([test, BCond(NE, 4), a, b, c], s) == Fall(if t.z then Step(c, Step(b, Step(a, t))) else t)
  {
    hide Step;
    var t := Step(test, s);
    var code := [test, BCond(NE, 4), a, b, c];
    assert code[1..] == [BCond(NE, 4), a, b, c];
    assert code[1..][1..] == [a, b, c];
    assert code[1..][4..] == [];
    assert Run(code, s) == Run(code[1..], t);
    if t.z {
      Exec3(a, b, c, t);
      RunStraight([a, b, c], [], t);
    } else {
      assert Run(code[1..], t) == Run([], t);
    }
  }

  /** When the two instructions skipped over compute x and then y into the scratch register. */
  lemma SkipTests(r1: bv8, a: Insn, b: Insn, r2: bv8, x: Word, y: Word, s: Host)
    requires !Jumps(a) && !Jumps(b)
    requires forall t: Host :: t.Get(FPSR) == s.Get(FPSR) ==> Step(a, t) == t.Set(T(8), x)
    requires forall t: Host :: t.Get(FPSR) == s.Get(FPSR) && t.Get(T(8)) == x ==> Step(b, t) == t.Set(T(8), y)
    ensures Tests([TstImmed(FPSR, 1, r1), BCond(NE, 4), a, b, TstImmed(T(8), 1, r2)], s,
      IsZero(And(s.Get(FPSR), LogicalImm(0, r1))) && IsZero(And(y, LogicalImm(0, r2))))
  {
    hide LogicalImm, IsZero, Negative, And, Run;
    SkipAhead(TstImmed(FPSR, 1, r1), a, b, TstImmed(T(8), 1, r2), s);
    var t := Step(TstImmed(FPSR, 1, r1), s);
    assert t.Get(FPSR) == s.Get(FPSR);
    assert Step(a, t) == t.Set(T(8), x);
    assert Step(b, t.Set(T(8), x)) == t.Set(T(8), x).Set(T(8), y);
  }

  lemma OgeTest(s: Host)
    ensures Tests(FpuTest(OGE).0, s, !FpuTrue(OGE, FpccOf(s.Get(FPSR))))
  {
    hide Run, LogicalImm, And, Or, Xor, ShiftL, ShiftR, Not, IsZero, Negative, FpccOf, Tests;
    var w := s.Get(FPSR);
    var x := Or(w, ShiftL(w, 3));
    var y := Xor(x, LogicalImm(0, 5));
    SkipTests(6, OrrReg(T(8), FPSR, FPSR, LSL, 3), EorImmed(T(8), T(8), 1, 5), 5, x, y, s);
    FpsrBits(w);
    OgeBits(w);
    FpccBits(w);
    ShiftLZero(w);
    hide Step;
  }

  lemma UltTest(s: Host)
    ensures Tests(FpuTest(ULT).0, s, !FpuTrue(ULT, FpccOf(s.Get(FPSR))))
  {
    hide Run, LogicalImm, And, Or, Xor, ShiftL, ShiftR, Not, IsZero, Negative, FpccOf, Tests;
    var w := s.Get(FPSR);
    var x := Xor(w, LogicalImm(0, 6));
    var y := And(x, ShiftL(x, 1));
    SkipTests(8, EorImmed(T(8), FPSR, 1, 6), AndReg(T(8), T(8), T(8), 1), 5, x, y, s);
    FpsrBits(w);
    UltBits(w);
    FpccBits(w);
    ShiftLZero(w);
    hide Step;
  }

  lemma OleTest(s: Host)
    ensures Tests(FpuTest(OLE).0, s, !FpuTrue(OLE, FpccOf(s.Get(FPSR))))
  {
    hide Run, LogicalImm, And, Or, Xor, ShiftL, ShiftR, Not, IsZero, Negative, FpccOf, Tests;
    var w := s.Get(FPSR);
    var x := Xor(w, LogicalImm(0, 8));
    var y := And(x, ShiftL(x, 3));
    SkipTests(6, EorImmed(T(8), FPSR, 1, 8), AndReg(T(8), T(8), T(8), 3), 5, x, y, s);
    FpsrBits(w);
    OleBits(w);
    FpccBits(w);
    ShiftLZero(w);
    hide Step;
  }

  lemma UgtTest(s: Host)
    ensures Tests(FpuTest(UGT).0, s, !FpuTrue(UGT, FpccOf(s.Get(FPSR))))
  {
    hide Run, LogicalImm, And, Or, Xor, ShiftL, ShiftR, Not, IsZero, Negative, FpccOf, Tests;
    var w := s.Get(FPSR);
    var x := Or(w, ShiftR(w, 1));
    var y := Or(W(0), Not(ShiftL(x, 0)));
    SkipTests(8, OrrReg(T(8), FPSR, FPSR, LSR, 1), MvnReg(T(8), T(8)), 6, x, y, s);
    FpsrBits(w);
    UgtBits(w);
    FpccBits(w);
    ShiftLZero(w);
    hide Step;
  }

  lemma OltTest(s: Host)
    ensures Tests(FpuTest(OLT).0, s, FpuTrue(OLT, FpccOf(s.Get(FPSR))))
  {
    hide Run, LogicalImm, And, Or, Xor, ShiftL, ShiftR, Not, IsZero, Negative, FpccOf, Straight;
    var code := FpuTest(OLT).0;
    Exec4(code[0], code[1], code[2], code[3], s);
    RunStraight(code, [], s);
    OltBits(s.Get(FPSR));
    FpccBits(s.Get(FPSR));
  }

  lemma UgeTest(s: Host)
    ensures Tests(FpuTest(UGE).0, s, !FpuTrue(UGE, FpccOf(s.Get(FPSR))))
  {
    hide Run, LogicalImm, And, Or, Xor, ShiftL, ShiftR, Not, IsZero, Negative, FpccOf, Straight;
    var code := FpuTest(UGE).0;
    Exec3(code[0], code[1], code[2], s);
    RunStraight(code, [], s);
    UgeBits(s.Get(FPSR));
    FpccBits(s.Get(FPSR));
  }

  // ---------------------------------------------------------------- the whole function

  /** The fragment sets Z from the predicate, and the returned condition reads Z accordingly. */
  ghost predicate TestsRight(cond: FpuCond, s: Host) {
    var (code, c) := FpuTest(cond);
    Tests(code, s, (c == NE) != FpuTrue(cond, FpccOf(s.Get(FPSR)))) && (c == EQ || c == NE)
  }

  lemma OneTestDecides(c: FpuCond, s: Host)
    requires c.FEQ? || c.FNE? || c.OR? || c.UN?
    ensures TestsRight(c, s)
  {
    OneTest(1, 6, s);
    OneTest(1, 8, s);
    FpsrBits(s.Get(FPSR));
    FpccBits(s.Get(FPSR));
    hide LogicalImm, And, IsZero, FpccOf, Tests;
  }

  lemma MaskTestDecides(c: FpuCond, s: Host)
    requires c.OGT? || c.ULE? || c.OGL? || c.UEQ?
    ensures TestsRight(c, s)
  {
    MaskTest(W(0x0d00), s);
    MaskTest(W(0x0500), s);
    MaskBits(s.Get(FPSR));
    FpccBits(s.Get(FPSR));
    hide ShiftL, Low16, And, IsZero, FpccOf, Tests;
  }

  lemma LongTestDecides(c: FpuCond, s: Host)
    requires c.OGE? || c.ULT? || c.OLT? || c.UGE? || c.OLE? || c.UGT?
    ensures TestsRight(c, s)
  {
    hide FpccOf, Tests, FpuTrue;
    match c
    case OGE => OgeTest(s);
    case ULT => UltTest(s);
    case OLT => OltTest(s);
    case UGE => UgeTest(s);
    case OLE => OleTest(s);
    case UGT => UgtTest(s);
  }

  /** The code falls through with the guest state kept, and the host condition then holds exactly when the
      predicate does. */
  ghost predicate Decides(code: seq<Insn>, c: Cond, field: bv8, s: Host) {
    && Run(code, s).Fall? && SameGuest(s, Run(code, s).s)
    && Holds(c, Run(code, s).s) == FpuTrue(Selected(field), FpccOf(s.Get(FPSR)))
  }

  ghost predicate Decided(field: bv8, s: Host) {
    Decides(TestFpuCondition(field).0, TestFpuCondition(field).1, field, s)
  }

  lemma TestsDecide(field: bv8, s: Host)
    requires TestsRight(Selected(field), s)
    ensures Decided(field, s)
  {
    hide FpuTest, FpuTrue, Selected, FpccOf, Run;
  }

  lemma TestFpuConditionDecides(field: bv8, s: Host)
    requires !Selected(field).F?
    ensures Decided(field, s)
  {
    hide Selected, TestsRight;
    var c := Selected(field);
    if c.FT? {
      hide FpccOf, Run, SameGuest;
      NoCode(s);
    } else {
      hide Decided;
      if c.FEQ? || c.FNE? || c.OR? || c.UN? {
        OneTestDecides(c, s);
      } else if c.OGT? || c.ULE? || c.OGL? || c.UEQ? {
        MaskTestDecides(c, s);
      } else {
        LongTestDecides(c, s);
      }
      TestsDecide(field, s);
    }
  }

  lemma NoCode(s: Host)
    ensures Run([], s) == Fall(s) && SameGuest(s, s)
  {
  }

  lemma SelectsF(field: bv8)
    ensures Selected(field).F? <==> field & 15 == 0
  {
  }

  /** For every predicate field and every FPSR, the emitted code falls through with the guest state
      kept and the returned host condition holds exactly when the predicate does, if and only if the
      field does not select F or SF (for those the returned condition NV always holds). */
  lemma TestFpuConditionDecidesIff(field: bv8, s: Host)
    ensures Decided(field, s) <==> field & 15 != 0
  {
    SelectsF(field);
    NoCode(s);
    if Selected(field).F? {
      assert TestFpuCondition(field) == ([], NV);
    } else {
      TestFpuConditionDecides(field, s);
    }
    hide FpccOf, Selected, Run, SameGuest;
  }

  lemma ComplementCases(k: bv8, f: Fpcc)
    requires k < 16
    ensures FpuTrue(Selected(15 - k), f) == !FpuTrue(Selected(k), f)
       <==> !(f.z && f.nan && (k == 3 || k == 12 || k == 5 || k == 10))
  {
  }

  lemma FlippedField(field: bv8)
    ensures field & 15 < 16 && (field ^ 15) & 15 == 15 - (field & 15) && (15 - (field & 15)) & 15 == 15 - (field & 15)
    ensures (field & 15) & 15 == field & 15
  {
  }

  /** Fields that differ exactly in their four low bits select opposite predicates, if and only if the
      condition code byte does not have Z and NAN both set or the predicate is not one of OGE, ULT, OLE
      and UGT.  (No operation produces a byte with both set.) */
  lemma FpuComplementIff(field: bv8, f: Fpcc)
    ensures FpuTrue(Selected(field ^ 15), f) == !FpuTrue(Selected(field), f)
       <==> !(f.z && f.nan && (field & 15 == 3 || field & 15 == 12 || field & 15 == 5 || field & 15 == 10))
  {
    hide FpuTrue;
    FlippedField(field);
    ComplementCases(field & 15, f);
    assert Selected(field) == Selected(field & 15);
    assert Selected(field ^ 15) == Selected(15 - (field & 15));
    hide Selected;
  }

  /** What the test of a field says of a state. */
  function Verdict(field: bv8, s: Host): bool {
    Holds(TestFpuCondition(field).1, Run(TestFpuCondition(field).0, s).s)
  }

  lemma VerdictIs(field: bv8, s: Host)
    ensures field & 15 != 0 ==> Verdict(field, s) == FpuTrue(Selected(field), FpccOf(s.Get(FPSR)))
    ensures field & 15 == 0 || field & 15 == 15 ==> Verdict(field, s)
  {
    SelectsF(field);
    TestFpuConditionDecidesIff(field, s);
    if field & 15 == 0 {
      assert TestFpuCondition(field) == ([], NV);
    } else if field & 15 == 15 {
      assert Selected(field) == FT;
    }
    hide Run, FpccOf, Selected, SameGuest, FpuTest;
  }

  /** The emitted test by the number of its predicate and the bits N, Z and NAN of FPSR (section 3.6.2 of the manual;
      1 is EQ, 2 OGT, 3 OGE, 4 OLT, 5 OLE, 6 OGL, 7 OR, 8 UN, and 15 - k the opposite of k). */
  lemma VerdictByNumber(field: bv8, s: Host)
    ensures var k, w := field & 15, s.Get(FPSR).b;
      var n, z, nan := w & 0x0800_0000 != 0, w & 0x0400_0000 != 0, w & 0x0100_0000 != 0;
      && (k == 1 ==> Verdict(field, s) == z)
      && (k == 2 ==> Verdict(field, s) == (!nan && !z && !n))
      && (k == 3 ==> Verdict(field, s) == (z || (!nan && !n)))
      && (k == 4 ==> Verdict(field, s) == (n && !nan && !z))
      && (k == 5 ==> Verdict(field, s) == (z || (n && !nan)))
      && (k == 6 ==> Verdict(field, s) == (!nan && !z))
      && (k == 7 ==> Verdict(field, s) == !nan)
      && (k == 8 ==> Verdict(field, s) == nan)
      && (k == 9 ==> Verdict(field, s) == (nan || z))
      && (k == 10 ==> Verdict(field, s) == (nan || (!n && !z)))
      && (k == 11 ==> Verdict(field, s) == (nan || z || !n))
      && (k == 12 ==> Verdict(field, s) == (nan || (n && !z)))
      && (k == 13 ==> Verdict(field, s) == (nan || z || n))
      && (k == 14 ==> Verdict(field, s) == !z)
      && (k == 0 || k == 15 ==> Verdict(field, s))
  {
    VerdictIs(field, s);
    hide Verdict;
  }

  /** The emitted tests of two opposite fields answer oppositely, on every state, if and only if neither is F or
      T (whose host conditions both always hold) and the same holds of the manual's predicates. */
  lemma TestsComplementIff(field: bv8, s: Host)
    ensures Verdict(field ^ 15, s) == !Verdict(field, s) <==>
      && field & 15 != 0 && field & 15 != 15
      && !(FpccOf(s.Get(FPSR)).z && FpccOf(s.Get(FPSR)).nan
           && (field & 15 == 3 || field & 15 == 12 || field & 15 == 5 || field & 15 == 10))
  {
    VerdictIs(field, s);
    VerdictIs(field ^ 15, s);
    FpuComplementIff(field, FpccOf(s.Get(FPSR)));
    FlippedEnds(field);
    hide *;
  }

  lemma FlippedEnds(field: bv8)
    ensures (field ^ 15) & 15 == 0 <==> field & 15 == 15
    ensures (field ^ 15) & 15 == 15 <==> field & 15 == 0
  {
  }
}
