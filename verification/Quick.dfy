/**
  The arithmetic of ADDQ and SUBQ (emu68/src/M68k_LINE5.c): the computing part on a data register or
  on a value loaded from memory.  Bytes and words are added in the top bits of a 32-bit register, so
  that the host flags are those of the sized operation; if only Z or only N is wanted, the sum is
  formed in place and a TST examines its low part.
*/
module Quick {
  import opened Words
  import opened A64
  import opened M68k
  import opened Capture
  import opened Manual

  // ---------------------------------------------------------------- the emitters

  /** No flags, only Z, or only N of a byte or word: computed in place. */
  predicate InPlace(mask: Mask, size: Size) {
    !size.Long? && (mask == 0 || mask == SR_Z || mask == SR_N)
  }

  function PlainOp(op: QOp, rd: Reg, rn: Reg, q: Word): Insn {
    if op.ADDQ? then AddImmed(rd, rn, q) else SubImmed(rd, rn, q)
  }

  function FlagsOp(op: QOp, rd: Reg, rn: Reg, q: Word): Insn {
    if op.ADDQ? then AddsImmed(rd, rn, q) else SubsImmed(rd, rn, q)
  }

  function WidthOf(size: Size): bv8 {
    match size case Byte => 8 case Half => 16 case Long => 32
  }

  /** The TST that leaves Z clear if the wanted flag of the in-place result must be examined. */
  function InPlaceTest(mask: Mask, size: Size, r: Reg): seq<Insn> {
    if mask == SR_Z then [TstImmed(r, WidthOf(size), 0)]
    else if mask == SR_N then [TstImmed(r, 1, if size.Byte? then 32 - 7 else 32 - 15)]
    else []
  }

  /** The data, as MOVZ puts it in the upper half of a register. */
  function TopImmediate(q: Word, size: Size): Word {
    if size.Byte? then ShiftL(q, 8) else q
  }

  function TopShift(size: Size): bv8 {
    if size.Byte? then 24 else 16
  }

  function OnData(op: QOp, q: Word, size: Size, mask: Mask, rd: Reg): seq<Insn> {
    if size.Long? then
      [if mask != 0 then FlagsOp(op, rd, rd, q) else PlainOp(op, rd, rd, q)]
    else if InPlace(mask, size) then
      [PlainOp(op, T(0), rd, q), Bfxil(rd, T(0), 0, WidthOf(size))] + InPlaceTest(mask, size, T(0))
    else if op.ADDQ? then
      [MovImmed(T(0), TopImmediate(q, size), 1), AddsReg(T(0), T(0), rd, TopShift(size)),
       Bfxil(rd, T(0), TopShift(size), WidthOf(size))]
    else
      [Lsl(T(1), rd, TopShift(size)), MovImmed(T(0), TopImmediate(q, size), 1),
       SubsReg(T(0), T(1), T(0), 0), Bfxil(rd, T(0), TopShift(size), WidthOf(size))]
  }

  /** On a value in T(0), loaded from memory; the result stays there. */
  function OnLoaded(op: QOp, q: Word, size: Size, mask: Mask): seq<Insn> {
    if size.Long? then
      [if mask != 0 then FlagsOp(op, T(0), T(0), q) else PlainOp(op, T(0), T(0), q)]
    else if InPlace(mask, size) then
      [PlainOp(op, T(0), T(0), q)] + InPlaceTest(mask, size, T(0))
    else if op.ADDQ? then
      [MovImmed(T(1), TopImmediate(q, size), 1), AddsReg(T(0), T(1), T(0), TopShift(size)),
       Lsr(T(0), T(0), TopShift(size))]
    else
      [Lsl(T(0), T(0), TopShift(size)), MovImmed(T(1), TopImmediate(q, size), 1),
       SubsReg(T(0), T(0), T(1), 0), Lsr(T(0), T(0), TopShift(size))]
  }

  // ---------------------------------------------------------------- bits: the top-of-register form

  /** Data and operand moved to the top of a 32-bit word. */
  function TopData(q: Word, size: Size): Word { ShiftL(Low16(TopImmediate(q, size)), 16) }
  function TopOperand(d: Word, size: Size): Word { ShiftL(d, TopShift(size)) }

  lemma TopAddBits(q: Word, d: Word, size: Size)
    requires IsQuick(q) && !size.Long?
    ensures var x, y := TopData(q, size), TopOperand(d, size);
      && Negative(Plus(x, y)) == AddCcr(q, d, size).n
      && IsZero(Plus(x, y)) == AddCcr(q, d, size).z
      && Carry(x, y) == AddCcr(q, d, size).c
      && AddOverflow(x, y) == AddCcr(q, d, size).v
  {
  }

  lemma TopSubBits(q: Word, d: Word, size: Size)
    requires IsQuick(q) && !size.Long?
    ensures var x, y := TopData(q, size), TopOperand(d, size);
      && Negative(Minus(y, x)) == SubCcr(q, d, size).n
      && IsZero(Minus(y, x)) == SubCcr(q, d, size).z
      && NoBorrow(y, x) == !SubCcr(q, d, size).c
      && SubOverflow(y, x) == SubCcr(q, d, size).v
  {
  }

  lemma SmallData(q: Word)
    requires IsQuick(q)
    ensures Low12(q) == q
  {
    assert Low12(q).b == q.b;
  }

  lemma LongAddBits(q: Word, d: Word, size: Size)
    requires size.Long?
    ensures var r := Plus(d, q);
      && r.b == AddResult(q, d, size).b
      && Negative(r) == AddCcr(q, d, size).n
      && IsZero(r) == AddCcr(q, d, size).z
  {
  }

  lemma LongAddOverflow(q: Word, d: Word, size: Size)
    requires size.Long?
    ensures Carry(d, q) == AddCcr(q, d, size).c && AddOverflow(d, q) == AddCcr(q, d, size).v
  {
  }

  lemma LongSubBits(q: Word, d: Word, size: Size)
    requires size.Long?
    ensures var r := Minus(d, q);
      && r.b == SubResult(q, d, size).b
      && Negative(r) == SubCcr(q, d, size).n
      && IsZero(r) == SubCcr(q, d, size).z
  {
  }

  lemma LongSubOverflow(q: Word, d: Word, size: Size)
    requires size.Long?
    ensures NoBorrow(d, q) == !SubCcr(q, d, size).c && SubOverflow(d, q) == SubCcr(q, d, size).v
  {
  }

  // ---------------------------------------------------------------- bits: results

  /** A word moved to the top of a register. */
  function Up(w: Word, size: Size): Word {
    if size.Byte? then W(w.b << 24) else W(w.b << 16)
  }

  lemma TopShifts(q: Word, d: Word, size: Size)
    requires IsQuick(q) && !size.Long?
    ensures TopData(q, size).b == Up(q, size).b && TopOperand(d, size).b == Up(d, size).b
  {
  }

  lemma TopSumByte(q: Word, d: Word, size: Size)
    requires IsQuick(q) && size.Byte?
    ensures ShiftR(Plus(Up(q, size), Up(d, size)), TopShift(size)).b == And(Plus(d, q), W(SizeMask(size))).b
  {
  }

  lemma TopDifferenceByte(q: Word, d: Word, size: Size)
    requires IsQuick(q) && size.Byte?
    ensures ShiftR(Minus(Up(d, size), Up(q, size)), TopShift(size)).b == And(Minus(d, q), W(SizeMask(size))).b
  {
  }

  lemma TopSumWord(q: Word, d: Word, size: Size)
    requires IsQuick(q) && size.Half?
    ensures ShiftR(Plus(Up(q, size), Up(d, size)), TopShift(size)).b == And(Plus(d, q), W(SizeMask(size))).b
  {
  }

  lemma QuickCases(q: Word)
    requires IsQuick(q)
    ensures q == W(1) || q == W(2) || q == W(3) || q == W(4) || q == W(5) || q == W(6) || q == W(7) || q == W(8)
  {
  }

  lemma TopDifferenceWord(q: Word, d: Word, size: Size)
    requires size.Half?
    requires q == W(1) || q == W(2) || q == W(3) || q == W(4) || q == W(5) || q == W(6) || q == W(7) || q == W(8)
    ensures ShiftR(Minus(Up(d, size), Up(q, size)), TopShift(size)).b == And(Minus(d, q), W(SizeMask(size))).b
  {
  }

  /** Adding at the top of the register and moving the sum down is adding; so is subtracting. */
  lemma TopArithmetic(q: Word, d: Word, size: Size)
    requires IsQuick(q) && !size.Long?
    ensures ShiftR(Plus(TopData(q, size), TopOperand(d, size)), TopShift(size)) == AddResult(q, d, size)
    ensures ShiftR(Minus(TopOperand(d, size), TopData(q, size)), TopShift(size)) == SubResult(q, d, size)
  {
    hide TopData, TopOperand, ShiftR, Plus, Minus, And, Up, SizeMask, TopShift;
    TopShifts(q, d, size);
    SameBits(TopData(q, size), Up(q, size));
    SameBits(TopOperand(d, size), Up(d, size));
    if size.Byte? {
      TopSumByte(q, d, size);
      TopDifferenceByte(q, d, size);
    } else {
      TopSumWord(q, d, size);
      QuickCases(q);
      TopDifferenceWord(q, d, size);
    }
    SameBits(ShiftR(Plus(Up(q, size), Up(d, size)), TopShift(size)), AddResult(q, d, size));
    SameBits(ShiftR(Minus(Up(d, size), Up(q, size)), TopShift(size)), SubResult(q, d, size));
  }

  /** The three ways a sized result reaches its destination. */
  lemma Inserts(e: Word, w: Word, size: Size)
    requires !size.Long?
    ensures BfmValue(w, e, TopShift(size), 31).b == Merge(w, ShiftR(e, TopShift(size)), size).b
    ensures BfmValue(W(0), e, TopShift(size), 31).b == ShiftR(e, TopShift(size)).b
    ensures BfmValue(w, e, 0, WidthOf(size) - 1).b == Merge(w, And(e, W(SizeMask(size))), size).b
  {
  }

  /** A TST of the low part, or of its top bit, sees Z or N of the sized result. */
  lemma LowTests(e: Word, size: Size)
    requires !size.Long?
    ensures IsZero(And(e, LogicalImm(WidthOf(size) - 1, 0))) == IsZero(And(e, W(SizeMask(size))))
    ensures IsZero(And(e, LogicalImm(0, if size.Byte? then 25 else 17))) == !Msb(And(e, W(SizeMask(size))), size)
  {
  }

  // ---------------------------------------------------------------- running the code

  /** Only register rd, the two scratch registers and host flags differ. */
  ghost predicate OnlyReg(rd: Reg, s: Host, t: Host) {
    t.mem == s.mem && forall r: Reg :: r != T(0) && r != T(1) && r != rd ==> t.Get(r) == s.Get(r)
  }

  ghost predicate SameFlags(s: Host, t: Host) {
    t.n == s.n && t.z == s.z && t.c == s.c && t.v == s.v
  }

  /** The host flags as the rest of the emitter expects them: untouched if no flag is wanted; Z or
      (through "not zero") N if only that is wanted in place; otherwise all of them, carry inverted for
      a subtraction. */
  ghost predicate FlagsReady(op: QOp, mask: Mask, size: Size, f: Ccr, s: Host, t: Host) {
    if mask == 0 then SameFlags(s, t)
    else if InPlace(mask, size) then (if mask == SR_Z then t.z == f.z else t.z == !f.n)
    else HostCcr(t, op.SUBQ?) == f
  }

  lemma TopFlags(op: QOp, q: Word, d: Word, size: Size, t: Host)
    requires IsQuick(q) && !size.Long?
    requires var x, y := TopData(q, size), TopOperand(d, size);
      && t.n == Negative(if op.ADDQ? then Plus(x, y) else Minus(y, x))
      && t.z == IsZero(if op.ADDQ? then Plus(x, y) else Minus(y, x))
      && t.c == (if op.ADDQ? then Carry(x, y) else NoBorrow(y, x))
      && t.v == (if op.ADDQ? then AddOverflow(x, y) else SubOverflow(y, x))
    ensures HostCcr(t, op.SUBQ?) == QuickCcr(op, q, d, size)
  {
    TopAddBits(q, d, size);
    TopSubBits(q, d, size);
    SameCarryAndX(q, d, size);
    hide TopData, TopOperand, Plus, Minus, Negative, IsZero, Carry, NoBorrow, AddOverflow, SubOverflow, AddCcr, SubCcr;
  }

  lemma SameCarryAndX(q: Word, d: Word, size: Size)
    ensures AddCcr(q, d, size).x == AddCcr(q, d, size).c && SubCcr(q, d, size).x == SubCcr(q, d, size).c
  {
    hide Msb, AddResult, SubResult, IsZero;
  }

  lemma LongFlags(op: QOp, q: Word, d: Word, size: Size, t: Host)
    requires size.Long?
    requires t.n == Negative(if op.ADDQ? then Plus(d, q) else Minus(d, q))
    requires t.z == IsZero(if op.ADDQ? then Plus(d, q) else Minus(d, q))
    requires t.c == (if op.ADDQ? then Carry(d, q) else NoBorrow(d, q))
    requires t.v == (if op.ADDQ? then AddOverflow(d, q) else SubOverflow(d, q))
    ensures HostCcr(t, op.SUBQ?) == QuickCcr(op, q, d, size)
  {
    LongAddBits(q, d, size);
    LongAddOverflow(q, d, size);
    LongSubBits(q, d, size);
    LongSubOverflow(q, d, size);
    SameCarryAndX(q, d, size);
    hide Plus, Minus, Negative, IsZero, Carry, NoBorrow, AddOverflow, SubOverflow, AddCcr, SubCcr;
  }

  /** A long result replaces the register. */
  lemma LongResult(op: QOp, q: Word, d: Word, size: Size)
    requires size.Long?
    ensures (if op.ADDQ? then Plus(d, q) else Minus(d, q)) == QuickResult(op, q, d, size)
    ensures Merge(d, QuickResult(op, q, d, size), size) == QuickResult(op, q, d, size)
    ensures And(QuickResult(op, q, d, size), W(SizeMask(size))) == QuickResult(op, q, d, size)
  {
    LongAddBits(q, d, size);
    LongSubBits(q, d, size);
    SameBits(Plus(d, q), AddResult(q, d, size));
    SameBits(Minus(d, q), SubResult(q, d, size));
    var r := QuickResult(op, q, d, size);
    LongMerge(d, r, size);
    hide *;
    SameBits(Merge(d, r, size), r);
    SameBits(And(r, W(SizeMask(size))), r);
  }

  lemma LongMerge(d: Word, r: Word, size: Size)
    requires size.Long?
    ensures Merge(d, r, size).b == r.b && And(r, W(SizeMask(size))).b == r.b
  {
  }

  lemma LongOp(op: QOp, q: Word, size: Size, mask: Mask, rd: Reg, s: Host)
    requires IsQuick(q) && size.Long? && rd != ZR
    ensures var code := [if mask != 0 then FlagsOp(op, rd, rd, q) else PlainOp(op, rd, rd, q)];
      var t := End(code, s);
      && Straight(code) && OnlyReg(rd, s, t)
      && t.Get(rd) == QuickResult(op, q, s.Get(rd), size)
      && FlagsReady(op, mask, size, QuickCcr(op, q, s.Get(rd), size), s, t)
  {
    hide Plus, Minus, Low12, Negative, IsZero, Carry, NoBorrow, AddOverflow, SubOverflow, QuickCcr, QuickResult, HostCcr, IsQuick, Run, End, Straight;
    var i := if mask != 0 then FlagsOp(op, rd, rd, q) else PlainOp(op, rd, rd, q);
    Exec1(i, s);
    SmallData(q);
    LongResult(op, q, s.Get(rd), size);
    if mask != 0 {
      LongFlags(op, q, s.Get(rd), size, End([i], s));
    }
  }

  lemma FieldBounds(size: Size)
    requires !size.Long?
    ensures 0 + WidthOf(size) - 1 == WidthOf(size) - 1
    ensures TopShift(size) + WidthOf(size) - 1 == 31
    ensures 31 & (32 - TopShift(size)) == 32 - TopShift(size)
  {
  }

  lemma WideResult(op: QOp, q: Word, d: Word, w: Word, size: Size)
    requires !size.Long?
    ensures And(Wide(op, q, d), W(SizeMask(size))) == QuickResult(op, q, d, size)
    ensures BfmValue(w, Wide(op, q, d), 0, WidthOf(size) - 1) == Merge(w, QuickResult(op, q, d, size), size)
    ensures IsZero(And(Wide(op, q, d), LogicalImm(WidthOf(size) - 1, 0))) == QuickCcr(op, q, d, size).z
    ensures IsZero(And(Wide(op, q, d), LogicalImm(0, if size.Byte? then 25 else 17))) == !QuickCcr(op, q, d, size).n
  {
    hide Plus, Minus, BfmValue, Merge, IsZero, LogicalImm, Msb, SizeMask, WidthOf, And;
    var e := Wide(op, q, d);
    Inserts(e, w, size);
    LowTests(e, size);
    SameBits(BfmValue(w, e, 0, WidthOf(size) - 1), Merge(w, QuickResult(op, q, d, size), size));
  }

  lemma PlainStep(op: QOp, rd: Reg, rn: Reg, q: Word, s: Host)
    requires IsQuick(q)
    ensures Step(PlainOp(op, rd, rn, q), s) == s.Set(rd, Wide(op, q, s.Get(rn)))
  {
    SmallData(q);
    hide Plus, Minus, Low12, IsQuick;
  }

  /** After the in-place sum, the test finds the wanted flag. */
  lemma InPlaceTestEffect(op: QOp, q: Word, d: Word, mask: Mask, size: Size, r: Reg, s: Host)
    requires InPlace(mask, size) && r != ZR
    requires s.Get(r) == Wide(op, q, d)
    ensures Straight(InPlaceTest(mask, size, r))
    ensures var t := End(InPlaceTest(mask, size, r), s);
      && t.mem == s.mem && (forall p: Reg :: t.Get(p) == s.Get(p))
      && (mask == 0 ==> SameFlags(s, t))
      && (mask == SR_Z ==> t.z == QuickCcr(op, q, d, size).z)
      && (mask == SR_N ==> t.z == !QuickCcr(op, q, d, size).n)
  {
    hide And, IsZero, Negative, LogicalImm, WidthOf, QuickCcr, Wide, Run, End, Straight;
    WideResult(op, q, d, d, size);
    var code := InPlaceTest(mask, size, r);
    Exec0(s);
    if mask != 0 {
      Exec1(code[0], s);
    }
  }

  lemma InPlaceOnData(op: QOp, q: Word, size: Size, mask: Mask, rd: Reg, s: Host)
    requires IsQuick(q) && InPlace(mask, size) && rd.D?
    ensures var d := s.Get(rd);
      var t := End(OnData(op, q, size, mask, rd), s);
      && Straight(OnData(op, q, size, mask, rd)) && OnlyReg(rd, s, t)
      && t.Get(rd) == Merge(d, QuickResult(op, q, d, size), size)
      && FlagsReady(op, mask, size, QuickCcr(op, q, d, size), s, t)
  {
    hide BfmValue, WidthOf, QuickCcr, QuickResult, Wide, Merge, IsQuick, PlainOp, InPlaceTest, Run, End, Straight, HostCcr;
    var d := s.Get(rd);
    var a := [PlainOp(op, T(0), rd, q), Bfxil(rd, T(0), 0, WidthOf(size))];
    assert OnData(op, q, size, mask, rd) == a + InPlaceTest(mask, size, T(0));
    assert !Jumps(PlainOp(op, T(0), rd, q)) by { PlainJumps(op, T(0), rd, q); }
    Exec2(a[0], a[1], s);
    PlainStep(op, T(0), rd, q, s);
    FieldBounds(size);
    WideResult(op, q, d, d, size);
    var u := End(a, s);
    InPlaceTestEffect(op, q, d, mask, size, T(0), u);
    Then(a, InPlaceTest(mask, size, T(0)), s);
  }

  lemma PlainJumps(op: QOp, rd: Reg, rn: Reg, q: Word)
    ensures !Jumps(PlainOp(op, rd, rn, q))
  {
  }

  lemma InPlaceOnLoaded(op: QOp, q: Word, size: Size, mask: Mask, s: Host)
    requires IsQuick(q) && InPlace(mask, size)
    ensures var d := s.Get(T(0));
      var t := End(OnLoaded(op, q, size, mask), s);
      && Straight(OnLoaded(op, q, size, mask)) && OnlyReg(T(0), s, t)
      && And(t.Get(T(0)), W(SizeMask(size))) == QuickResult(op, q, d, size)
      && FlagsReady(op, mask, size, QuickCcr(op, q, d, size), s, t)
  {
    hide And, SizeMask, QuickCcr, QuickResult, Wide, IsQuick, PlainOp, InPlaceTest, Run, End, Straight, HostCcr;
    var d := s.Get(T(0));
    var a := [PlainOp(op, T(0), T(0), q)];
    PlainJumps(op, T(0), T(0), q);
    Exec1(a[0], s);
    PlainStep(op, T(0), T(0), q, s);
    WideResult(op, q, d, d, size);
    var u := End(a, s);
    InPlaceTestEffect(op, q, d, mask, size, T(0), u);
    Then(a, InPlaceTest(mask, size, T(0)), s);
  }

  lemma LslBits(d: Word, size: Size)
    requires !size.Long?
    ensures BfmValue(W(0), d, 31 & (32 - TopShift(size)), 31 - TopShift(size)).b == TopOperand(d, size).b
  {
  }

  lemma LslValue(d: Word, size: Size)
    requires !size.Long?
    ensures BfmValue(W(0), d, 31 & (32 - TopShift(size)), 31 - TopShift(size)) == TopOperand(d, size)
  {
    hide BfmValue, TopOperand, TopShift;
    LslBits(d, size);
    SameBits(BfmValue(W(0), d, 31 & (32 - TopShift(size)), 31 - TopShift(size)), TopOperand(d, size));
  }

  /** The sum or difference at the top of the registers. */
  function Upper32(op: QOp, q: Word, d: Word, size: Size): Word {
    if op.ADDQ? then Plus(TopData(q, size), TopOperand(d, size)) else Minus(TopOperand(d, size), TopData(q, size))
  }

  lemma TopResult(op: QOp, q: Word, d: Word, w: Word, size: Size)
    requires IsQuick(q) && !size.Long?
    ensures BfmValue(w, Upper32(op, q, d, size), TopShift(size), 31) == Merge(w, QuickResult(op, q, d, size), size)
    ensures BfmValue(W(0), Upper32(op, q, d, size), TopShift(size), 31) == QuickResult(op, q, d, size)
  {
    var e := Upper32(op, q, d, size);
    Inserts(e, w, size);
    TopArithmetic(q, d, size);
    hide *;
    assert ShiftR(e, TopShift(size)) == QuickResult(op, q, d, size);
    SameBits(BfmValue(w, e, TopShift(size), 31), Merge(w, ShiftR(e, TopShift(size)), size));
    SameBits(BfmValue(W(0), e, TopShift(size), 31), ShiftR(e, TopShift(size)));
  }

  lemma LoadTop(rd: Reg, q: Word, size: Size, s: Host)
    ensures Step(MovImmed(rd, TopImmediate(q, size), 1), s) == s.Set(rd, TopData(q, size))
  {
    hide ShiftL, Low16, TopImmediate;
  }

  lemma LslStep(rd: Reg, rn: Reg, size: Size, s: Host)
    requires !size.Long?
    ensures Step(Lsl(rd, rn, TopShift(size)), s) == s.Set(rd, TopOperand(s.Get(rn), size))
  {
    LslValue(s.Get(rn), size);
    hide BfmValue, TopOperand, TopShift;
  }

  /** SUBS of the two shifted operands. */
  lemma TopSubsStep(rd: Reg, rn: Reg, rm: Reg, q: Word, d: Word, size: Size, s: Host)
    requires s.Get(rn) == TopOperand(d, size) && s.Get(rm) == TopData(q, size) && rd != ZR
    requires IsQuick(q) && !size.Long?
    ensures var t := Step(SubsReg(rd, rn, rm, 0), s);
      && t == s.Set(rd, Upper32(SUBQ, q, d, size)).Flags(t.n, t.z, t.c, t.v)
      && HostCcr(t, true) == QuickCcr(SUBQ, q, d, size)
  {
    ShiftLZero(TopData(q, size));
    hide Minus, ShiftL, TopData, TopOperand, Negative, IsZero, NoBorrow, SubOverflow, QuickCcr, HostCcr;
    TopFlags(SUBQ, q, d, size, Step(SubsReg(rd, rn, rm, 0), s));
  }

  lemma ShapeOf(rd: Reg, rn: Reg, size: Size)
    ensures !Jumps(Lsl(rd, rn, TopShift(size)))
  {
  }

  lemma BfxilStep(rd: Reg, rn: Reg, lsb: bv8, width: bv8, s: Host)
    ensures Step(Bfxil(rd, rn, lsb, width), s) == s.Set(rd, BfmValue(s.Get(rd), s.Get(rn), lsb, lsb + width - 1))
  {
    hide BfmValue;
  }

  lemma LsrStep(rd: Reg, rn: Reg, lsb: bv8, s: Host)
    ensures Step(Lsr(rd, rn, lsb), s) == s.Set(rd, BfmValue(W(0), s.Get(rn), lsb, 31))
  {
    hide BfmValue;
  }

  lemma TopAddOnData(q: Word, size: Size, mask: Mask, rd: Reg, s: Host)
    requires IsQuick(q) && !size.Long? && !InPlace(mask, size) && rd.D?
    ensures var d := s.Get(rd);
      var code := OnData(ADDQ, q, size, mask, rd);
      var t := End(code, s);
      && Straight(code) && OnlyReg(rd, s, t)
      && t.Get(rd) == Merge(d, QuickResult(ADDQ, q, d, size), size)
      && HostCcr(t, false) == QuickCcr(ADDQ, q, d, size)
  {
    hide BfmValue, Plus, ShiftL, Low16, TopImmediate, TopShift, WidthOf, Negative, IsZero, Carry, AddOverflow, Merge, QuickResult, QuickCcr, HostCcr, InPlace, Run, End, Straight;
    var d := s.Get(rd);
    TopResult(ADDQ, q, d, d, size);
    FieldBounds(size);
    var code := OnData(ADDQ, q, size, mask, rd);
    Exec3(code[0], code[1], code[2], s);
    TopFlags(ADDQ, q, d, size, End(code, s));
  }

  lemma TopSubCode(q: Word, size: Size, mask: Mask, rd: Reg) returns (a: Insn, b: Insn, c: Insn, d: Insn)
    requires !size.Long? && !InPlace(mask, size)
    ensures a == Lsl(T(1), rd, TopShift(size)) && b == MovImmed(T(0), TopImmediate(q, size), 1)
    ensures c == SubsReg(T(0), T(1), T(0), 0) && d == Bfxil(rd, T(0), TopShift(size), WidthOf(size))
    ensures OnData(SUBQ, q, size, mask, rd) == [a, b, c, d]
    ensures !Jumps(a) && !Jumps(b) && !Jumps(c) && !Jumps(d)
  {
    a, b := Lsl(T(1), rd, TopShift(size)), MovImmed(T(0), TopImmediate(q, size), 1);
    c, d := SubsReg(T(0), T(1), T(0), 0), Bfxil(rd, T(0), TopShift(size), WidthOf(size));
    hide TopShift, TopImmediate, WidthOf, InPlace;
  }

  lemma SetKeepsFlags(rd: Reg, w: Word, s: Host)
    ensures HostCcr(s.Set(rd, w), true) == HostCcr(s, true)
  {
  }

  lemma TopSubOnData(q: Word, size: Size, mask: Mask, rd: Reg, s: Host)
    requires IsQuick(q) && !size.Long? && !InPlace(mask, size) && rd.D?
    ensures var d := s.Get(rd);
      var code := OnData(SUBQ, q, size, mask, rd);
      var t := End(code, s);
      && Straight(code) && OnlyReg(rd, s, t)
      && t.Get(rd) == Merge(d, QuickResult(SUBQ, q, d, size), size)
      && HostCcr(t, true) == QuickCcr(SUBQ, q, d, size)
  {
    hide BfmValue, TopData, TopOperand, TopImmediate, TopShift, WidthOf, Upper32, Merge, QuickResult, QuickCcr, IsQuick, InPlace;
    hide Run, End, Straight, Lsl, MovImmed, SubsReg, Bfxil, OnData, Step, Jumps, HostCcr;
    var d := s.Get(rd);
    TopResult(SUBQ, q, d, d, size);
    FieldBounds(size);
    var i0, i1, i2, i3 := TopSubCode(q, size, mask, rd);
    LslStep(T(1), rd, size, s);
    var u := s.Set(T(1), TopOperand(d, size));
    LoadTop(T(0), q, size, u);
    var v := u.Set(T(0), TopData(q, size));
    TopSubsStep(T(0), T(1), T(0), q, d, size, v);
    Exec4(i0, i1, i2, i3, s);
    var w := Step(i2, v);
    BfxilStep(rd, T(0), TopShift(size), WidthOf(size), w);
    SetKeepsFlags(rd, BfmValue(d, Upper32(SUBQ, q, d, size), TopShift(size), 31), w);
  }

  lemma TopAddOnLoaded(q: Word, size: Size, mask: Mask, s: Host)
    requires IsQuick(q) && !size.Long? && !InPlace(mask, size)
    ensures var d := s.Get(T(0));
      var code := OnLoaded(ADDQ, q, size, mask);
      var t := End(code, s);
      && Straight(code) && OnlyReg(T(0), s, t)
      && t.Get(T(0)) == QuickResult(ADDQ, q, d, size)
      && HostCcr(t, false) == QuickCcr(ADDQ, q, d, size)
  {
    hide BfmValue, Plus, ShiftL, Low16, TopImmediate, TopShift, WidthOf, Negative, IsZero, Carry, AddOverflow, Merge, QuickResult, QuickCcr, HostCcr, InPlace, Run, End, Straight;
    var d := s.Get(T(0));
    TopResult(ADDQ, q, d, d, size);
    FieldBounds(size);
    var code := OnLoaded(ADDQ, q, size, mask);
    Exec3(code[0], code[1], code[2], s);
    TopFlags(ADDQ, q, d, size, End(code, s));
  }

  lemma TopSubOnLoaded(q: Word, size: Size, mask: Mask, s: Host)
    requires IsQuick(q) && !size.Long? && !InPlace(mask, size)
    ensures var d := s.Get(T(0));
      var code := OnLoaded(SUBQ, q, size, mask);
      var t := End(code, s);
      && Straight(code) && OnlyReg(T(0), s, t)
      && t.Get(T(0)) == QuickResult(SUBQ, q, d, size)
      && HostCcr(t, true) == QuickCcr(SUBQ, q, d, size)
  {
    hide BfmValue, TopData, TopOperand, TopImmediate, TopShift, WidthOf, Upper32, Merge, QuickResult, QuickCcr, InPlace, Run, End, Straight, Lsl, Step;
    var d := s.Get(T(0));
    TopResult(SUBQ, q, d, d, size);
    var code := OnLoaded(SUBQ, q, size, mask);
    LslStep(T(0), T(0), size, s);
    var u := s.Set(T(0), TopOperand(d, size));
    LoadTop(T(1), q, size, u);
    var v := u.Set(T(1), TopData(q, size));
    TopSubsStep(T(0), T(0), T(1), q, d, size, v);
    var w := Step(code[2], v);
    ShapeOf(T(0), T(0), size);
    Exec4(code[0], code[1], code[2], code[3], s);
    LsrStep(T(0), T(0), TopShift(size), w);
  }

  lemma MaskedResult(op: QOp, q: Word, d: Word, size: Size)
    ensures And(QuickResult(op, q, d, size), W(SizeMask(size))) == QuickResult(op, q, d, size)
  {
    MaskTwice(Plus(d, q), size);
    MaskTwice(Minus(d, q), size);
    hide Plus, Minus, And, SizeMask;
  }

  lemma MaskTwice(w: Word, size: Size)
    ensures And(And(w, W(SizeMask(size))), W(SizeMask(size))) == And(w, W(SizeMask(size)))
  {
    MaskTwiceBits(w, size);
    hide And;
    SameBits(And(And(w, W(SizeMask(size))), W(SizeMask(size))), And(w, W(SizeMask(size))));
  }

  lemma MaskTwiceBits(w: Word, size: Size)
    ensures And(And(w, W(SizeMask(size))), W(SizeMask(size))).b == And(w, W(SizeMask(size))).b
  {
  }

  /** ADDQ and SUBQ on a data register, for every size and requested mask: the low part is the sized
      result, the bits above it and every other register are kept, and the flags are ready. */
  lemma OnDataEffect(op: QOp, q: Word, size: Size, mask: Mask, rd: Reg, s: Host)
    requires IsQuick(q) && rd.D?
    ensures var d := s.Get(rd);
      var code := OnData(op, q, size, mask, rd);
      var t := End(code, s);
      && Straight(code) && OnlyReg(rd, s, t)
      && t.Get(rd) == Merge(d, QuickResult(op, q, d, size), size)
      && FlagsReady(op, mask, size, QuickCcr(op, q, d, size), s, t)
  {
    if size.Long? {
      LongOp(op, q, size, mask, rd, s);
      LongResult(op, q, s.Get(rd), size);
    } else if InPlace(mask, size) {
      InPlaceOnData(op, q, size, mask, rd, s);
    } else if op.ADDQ? {
      TopAddOnData(q, size, mask, rd, s);
    } else {
      TopSubOnData(q, size, mask, rd, s);
    }
    hide Merge, QuickResult, QuickCcr, HostCcr, IsQuick, FlagsOp, PlainOp, SameFlags, Run, End, Straight, Bfxil, InPlaceTest, TopShift, WidthOf, TopImmediate, OnlyReg;
  }

  /** The same on a value loaded from memory: its low part becomes the sized result. */
  lemma OnLoadedEffect(op: QOp, q: Word, size: Size, mask: Mask, s: Host)
    requires IsQuick(q)
    ensures var d := s.Get(T(0));
      var code := OnLoaded(op, q, size, mask);
      var t := End(code, s);
      && Straight(code) && OnlyReg(T(0), s, t)
      && And(t.Get(T(0)), W(SizeMask(size))) == QuickResult(op, q, d, size)
      && FlagsReady(op, mask, size, QuickCcr(op, q, d, size), s, t)
  {
    MaskedResult(op, q, s.Get(T(0)), size);
    if size.Long? {
      LongOp(op, q, size, mask, T(0), s);
    } else if InPlace(mask, size) {
      InPlaceOnLoaded(op, q, size, mask, s);
    } else if op.ADDQ? {
      TopAddOnLoaded(q, size, mask, s);
    } else {
      TopSubOnLoaded(q, size, mask, s);
    }
    hide And, SizeMask, QuickResult, QuickCcr, HostCcr, IsQuick, FlagsOp, PlainOp, SameFlags, Run, End, Straight, InPlaceTest, TopShift, WidthOf, TopImmediate, OnlyReg;
  }
}
