/**
  EMIT_ADDQ and EMIT_SUBQ as a whole (emu68/src/M68k_LINE5.c): operand address, arithmetic, the part of
  the flags that is set in place, the advance of the PC, and the capture of the remaining flags.
*/
module EmitQuick {
  import opened Words
  import opened A64
  import opened M68k
  import opened Flags
  import opened Capture
  import opened Conditions
  import opened Quick
  import opened Pc
  import opened Displacement
  import opened Indexed
  import opened Manual
  import opened Guest

  /** What the translator knows between two instructions: the flags still valid in the host, the offset
      by which the PC register lags, and the address of the next m68k instruction. */
  datatype Tr = Tr(hostFlags: Mask, pending: Word, ptr: Word)

  // ---------------------------------------------------------------- the emitter

  /** Modes 2, 3 and 4 use the address register; modes 5 and 6 compute the address. */
  function EaBase(ea: Ea): Reg
    requires InMemory(ea)
  {
    if ea.Displaced? || ea.IndexedBy? then T(10) else A(ea.n)
  }

  function EaCode(ea: Ea): seq<Insn> {
    match ea
    case Displaced(n, d16) => AddressOffset(A(n), T(10), d16, false)
    case IndexedBy(n, words) => Mode6(Access.Address, A(n), words, 0, T(10)).0
    case _ => []
  }

  function LoadMode(ea: Ea, size: Size): Addressing {
    if ea.PreDec? then PreIndex(Neg(StepOf(ea.n, size))) else Scaled(W(0))
  }

  function StoreMode(ea: Ea, size: Size): Addressing {
    if ea.PostInc? then PostIndex(StepOf(ea.n, size)) else Scaled(W(0))
  }

  function Compute(op: QOp, q: Word, size: Size, mask: Mask, ea: Ea): seq<Insn> {
    match ea
    case DataReg(n) => OnData(op, q, size, mask, D(n))
    case AddrReg(n) => [PlainOp(op, A(n), A(n), q)]
    case _ =>
      EaCode(ea) + [Ld(size, false, T(0), EaBase(ea), LoadMode(ea, size))]
      + OnLoaded(op, q, size, mask) + [St(size, T(0), EaBase(ea), StoreMode(ea, size))]
  }

  /** Z or N of a byte or word, when only that is wanted: code and the flags that remain. */
  function InPlaceFlags(size: Size, mask: Mask): (seq<Insn>, Mask) {
    if !size.Long? && mask == SR_Z then (ClearFlags(4) + SetFlagsConditional(4, EQ), 0)
    else if !size.Long? && mask == SR_N then (ClearFlags(8) + SetFlagsConditional(8, NE), 0)
    else ([], mask)
  }

  /** Everything after the arithmetic. */
  function Finish(op: QOp, size: Size, mask: Mask, updateCc: bool, pending: Word, ext: nat): seq<Insn> {
    var (now, left) := InPlaceFlags(size, mask);
    now + AdvancePc(pending, Length(ext)).0 + (if updateCc then CaptureAll(op.SUBQ?, left) else [])
  }

  function QuickCode(op: QOp, q: Word, size: Size, mask: Mask, ea: Ea, pending: Word): seq<Insn> {
    Compute(op, q, size, mask, ea) + Finish(op, size, mask, !ea.AddrReg?, pending, ExtensionWords(ea))
  }

  /** `host_flags` afterwards: reset by the encoder of a flag-setting instruction, then set by the
      capture. */
  function QuickHostFlags(op: QOp, size: Size, mask: Mask, ea: Ea, code: seq<Insn>, hostFlags: Mask): Mask {
    var left := InPlaceFlags(size, mask).1;
    if !ea.AddrReg? && left != 0 then CapturedHostFlags(op.SUBQ?, left) else HostFlagsAfter(code, hostFlags)
  }

  function QuickNext(op: QOp, q: Word, size: Size, mask: Mask, ea: Ea, tr: Tr): Tr {
    Tr(QuickHostFlags(op, size, mask, ea, Compute(op, q, size, mask, ea), tr.hostFlags),
       AdvancePc(tr.pending, Length(ExtensionWords(ea))).1,
       Plus(tr.ptr, Length(ExtensionWords(ea))))
  }

  // ---------------------------------------------------------------- everything after the arithmetic

  /** Scratch registers aside, only the cached condition codes and the PC register differ. */
  ghost predicate OnlyCcPc(s: Host, t: Host) {
    && t.mem == s.mem && t.n == s.n && t.z == s.z && t.c == s.c && t.v == s.v
    && forall r: Reg :: r != CC && r != PC && !r.T? ==> t.Get(r) == s.Get(r)
  }

  lemma InPlaceFlagsEffect(op: QOp, size: Size, mask: Mask, f: Ccr, s: Host, t: Host)
    requires mask < 32 && FlagsReady(op, mask, size, f, s, t)
    ensures var (code, left) := InPlaceFlags(size, mask);
      var u := End(code, t);
      && Straight(code) && left < 32
      && OnlyCc(t, u) && Upper(u.Get(CC)) == Upper(t.Get(CC))
      && (left == mask ==> u == t)
      && (left != mask ==> left == 0 && Agree(mask, CcrOf(u.Get(CC)), f))
      && CcrOf(u.Get(CC)).x == CcrOf(t.Get(CC)).x
  {
    hide ClearFlags, SetFlagsConditional, Run, End, Straight, CcrOf, Upper, HostCcr, SameFlags;
    var (code, left) := InPlaceFlags(size, mask);
    if !size.Long? && mask == SR_Z {
      PutOne(4, EQ, t);
    } else if !size.Long? && mask == SR_N {
      PutOne(8, NE, t);
    } else {
      Exec0(t);
    }
  }

  /** Clear one flag, then set it under a condition. */
  lemma PutOne(m: bv8, cond: Cond, s: Host)
    requires m == 4 || m == 8
    ensures var code := ClearFlags(m) + SetFlagsConditional(m, cond);
      var f := CcrOf(s.Get(CC));
      Straight(code)
      && CcBecomes(s, End(code, s), if m == 4 then f.(z := Holds(cond, s)) else f.(n := Holds(cond, s)))
  {
    hide ClearFlags, SetFlagsConditional, Run, End, Straight, CcrOf, Upper, Holds;
    ClearFlagsCcr(m, s);
    var t := End(ClearFlags(m), s);
    HostCcrOnly(s, t, false);
    SetFlagsConditionalCcr(m, cond, t);
    CcThen(ClearFlags(m), SetFlagsConditional(m, cond), s, CcrOf(End(SetFlagsConditional(m, cond), t).Get(CC)));
  }

  /** The PC register and the cached condition codes after the part that follows the arithmetic, which
      started in t and had the sized flags f ready (s is the state before the arithmetic). */
  ghost predicate Finished(op: QOp, size: Size, mask: Mask, updateCc: bool, f: Ccr, pc: Word, pending: Word, t: Host, u: Host) {
    && OnlyCcPc(t, u)
    && Upper(u.Get(CC)) == Upper(t.Get(CC))
    && Plus(u.Get(PC), pending) == pc
    && (updateCc ==> Agree(mask, CcrOf(u.Get(CC)), f))
    && (mask == 0 || !updateCc ==> CcrOf(u.Get(CC)) == CcrOf(t.Get(CC)))
    && (updateCc && InPlaceFlags(size, mask).1 != 0 ==> Coherent(CapturedHostFlags(op.SUBQ?, mask), u))
  }

  lemma CapturedMarks(inverted: bool, mask: Mask, g: Ccr, s: Host)
    requires mask < 32 && Agree(mask, g, HostCcr(s, inverted))
    ensures Agree(CapturedHostFlags(inverted, mask) & 15, g, HostNzvc(s))
  {
  }

  lemma CaptureStep(op: QOp, mask: Mask, f: Ccr, s: Host)
    requires mask < 32 && (mask != 0 ==> HostCcr(s, op.SUBQ?) == f)
    ensures var code := CaptureAll(op.SUBQ?, mask);
      var u := End(code, s);
      && Straight(code) && OnlyCc(s, u) && Upper(u.Get(CC)) == Upper(s.Get(CC))
      && (mask != 0 ==> Agree(mask, CcrOf(u.Get(CC)), f) && Coherent(CapturedHostFlags(op.SUBQ?, mask), u))
      && (mask == 0 ==> u == s)
  {
    hide CaptureAll, Run, End, Straight, CcrOf, Upper, HostCcr, CapturedHostFlags, Agree;
    if mask == 0 {
      NoCapture(op.SUBQ?);
      Exec0(s);
    } else {
      CaptureAllEffect(op.SUBQ?, mask, s);
      var u := End(CaptureAll(op.SUBQ?, mask), s);
      HostCcrOnly(s, u, op.SUBQ?);
      CapturedMarks(op.SUBQ?, mask, CcrOf(u.Get(CC)), u);
    }
  }

  lemma NoCapture(inverted: bool)
    ensures CaptureAll(inverted, 0) == []
  {
  }

  /** The same before the capture: what is left to do is all or nothing. */
  ghost predicate Halfway(size: Size, mask: Mask, f: Ccr, pc: Word, pending: Word, t: Host, u: Host) {
    && OnlyCcPc(t, u)
    && Upper(u.Get(CC)) == Upper(t.Get(CC))
    && Plus(u.Get(PC), pending) == pc
    && (InPlaceFlags(size, mask).1 == mask ==> CcrOf(u.Get(CC)) == CcrOf(t.Get(CC)))
    && (InPlaceFlags(size, mask).1 != mask ==> InPlaceFlags(size, mask).1 == 0 && Agree(mask, CcrOf(u.Get(CC)), f))
  }

  lemma HalfwayEffect(op: QOp, size: Size, mask: Mask, f: Ccr, pending: Word, ext: nat, s: Host, t: Host)
    requires mask < 32 && FlagsReady(op, mask, size, f, s, t) && Pending(pending)
    ensures var code := InPlaceFlags(size, mask).0 + AdvancePc(pending, Length(ext)).0;
      var (_, p) := AdvancePc(pending, Length(ext));
      && Straight(code) && Pending(p)
      && Halfway(size, mask, f, Plus(Plus(t.Get(PC), pending), Length(ext)), p, t, End(code, t))
  {
    ShortLength(ext);
    InPlaceFlagsEffect(op, size, mask, f, s, t);
    var (now, left) := InPlaceFlags(size, mask);
    hide AdvancePc, InPlaceFlags, Run, End, Straight, CcrOf, Upper, Agree, FlagsReady, Pending, Plus, Length;
    var t2 := End(now, t);
    AdvanceEffect(pending, Length(ext), t2);
    var (adv, p) := AdvancePc(pending, Length(ext));
    Then(now, adv, t);
  }

  lemma HalfwayDone(op: QOp, size: Size, mask: Mask, updateCc: bool, f: Ccr, pc: Word, p: Word, t: Host, u: Host)
    requires Halfway(size, mask, f, pc, p, t, u)
    requires !updateCc || InPlaceFlags(size, mask).1 == 0
    requires !updateCc ==> mask == 0
    ensures Finished(op, size, mask, updateCc, f, pc, p, t, u)
  {
    NoFlags(size);
    hide InPlaceFlags, CcrOf, Upper, Agree, Plus, OnlyCcPc, Coherent;
    AgreeNothing(CcrOf(u.Get(CC)), f);
  }

  lemma HalfwayCaptured(op: QOp, size: Size, mask: Mask, f: Ccr, pc: Word, p: Word, t: Host, u: Host, v: Host)
    requires Halfway(size, mask, f, pc, p, t, u) && InPlaceFlags(size, mask).1 != 0
    requires OnlyCc(u, v) && Upper(v.Get(CC)) == Upper(u.Get(CC))
    requires var left := InPlaceFlags(size, mask).1;
      Agree(left, CcrOf(v.Get(CC)), f) && Coherent(CapturedHostFlags(op.SUBQ?, left), v)
    ensures Finished(op, size, mask, true, f, pc, p, t, v)
  {
    NoFlags(size);
    hide InPlaceFlags, CcrOf, Upper, Agree, Plus, Coherent, CapturedHostFlags;
  }

  /** Whatever the emitter does after the arithmetic, the requested flags end up in the cached register,
      and what `host_flags` then claims is true. */
  lemma FinishEffect(op: QOp, size: Size, mask: Mask, updateCc: bool, f: Ccr, pending: Word, ext: nat, s: Host, t: Host)
    requires mask < 32 && FlagsReady(op, mask, size, f, s, t)
    requires Pending(pending) && (!updateCc ==> mask == 0)
    ensures var code := Finish(op, size, mask, updateCc, pending, ext);
      var (_, p) := AdvancePc(pending, Length(ext));
      && Straight(code) && Pending(p)
      && Finished(op, size, mask, updateCc, f, Plus(Plus(t.Get(PC), pending), Length(ext)), p, t, End(code, t))
  {
    HalfwayEffect(op, size, mask, f, pending, ext, s, t);
    ReadyUnlessInPlace(op, size, mask, f, s, t);
    LeftSmall(size, mask);
    NoCapture(op.SUBQ?);
    var pc := Plus(Plus(t.Get(PC), pending), Length(ext));
    var (_, p) := AdvancePc(pending, Length(ext));
    var left := InPlaceFlags(size, mask).1;
    var half := InPlaceFlags(size, mask).0 + AdvancePc(pending, Length(ext)).0;
    var u := End(half, t);
    HalfwayFlags(op, size, mask, f, pc, p, t, u);
    hide CaptureAll, AdvancePc, InPlaceFlags, Run, End, Straight, CcrOf, Upper, HostCcr, CapturedHostFlags, Agree, Coherent, FlagsReady, Pending, Plus, Length, Halfway, Finished, OnlyCc;
    if updateCc && left != 0 {
      CaptureStep(op, left, f, u);
      Then(half, CaptureAll(op.SUBQ?, left), t);
      HalfwayCaptured(op, size, mask, f, pc, p, t, u, End(CaptureAll(op.SUBQ?, left), u));
    } else {
      assert Finish(op, size, mask, updateCc, pending, ext) == half;
      HalfwayDone(op, size, mask, updateCc, f, pc, p, t, u);
    }
  }

  lemma LeftSmall(size: Size, mask: Mask)
    requires mask < 32
    ensures InPlaceFlags(size, mask).1 < 32
  {
    hide ClearFlags, SetFlagsConditional;
  }

  lemma HalfwayFlags(op: QOp, size: Size, mask: Mask, f: Ccr, pc: Word, p: Word, t: Host, u: Host)
    requires Halfway(size, mask, f, pc, p, t, u)
    ensures HostCcr(u, op.SUBQ?) == HostCcr(t, op.SUBQ?)
  {
    hide InPlaceFlags, CcrOf, Upper, Agree, Plus;
  }

  lemma AgreeNothing(a: Ccr, b: Ccr)
    ensures Agree(0, a, b)
  {
  }

  lemma NoFlags(size: Size)
    ensures InPlaceFlags(size, 0) == ([], 0)
  {
    hide ClearFlags, SetFlagsConditional;
  }

  lemma ShortLength(ext: nat)
    ensures Length(ext).b <= 255
  {
  }

  lemma ReadyUnlessInPlace(op: QOp, size: Size, mask: Mask, f: Ccr, s: Host, t: Host)
    requires FlagsReady(op, mask, size, f, s, t)
    ensures InPlaceFlags(size, mask).1 != 0 ==> InPlaceFlags(size, mask).1 == mask && HostCcr(t, op.SUBQ?) == f
  {
    hide ClearFlags, SetFlagsConditional, HostCcr, SameFlags;
  }

  // ---------------------------------------------------------------- the operand in memory

  /** The host registers and memory are the guest's. */
  ghost predicate Matches(c: Cpu, s: Host) {
    s.mem == c.mem && forall r: Reg :: r.D? || r.A? ==> s.Get(r) == c.regs(r)
  }

  /** The program counter register, the cached condition codes and FPSR are as before. */
  ghost predicate SameRest(s: Host, t: Host) {
    t.Get(PC) == s.Get(PC) && t.Get(CC) == s.Get(CC) && t.Get(FPSR) == s.Get(FPSR)
  }

  lemma StepBits(n: nat, size: Size)
    ensures Sext9(StepOf(n, size)).b == StepOf(n, size).b
    ensures Sext9(Neg(StepOf(n, size))).b == Neg(StepOf(n, size)).b
  {
  }

  lemma StepValue(n: nat, size: Size)
    ensures Sext9(StepOf(n, size)) == StepOf(n, size) && Sext9(Neg(StepOf(n, size))) == Neg(StepOf(n, size))
  {
    hide Sext9, Neg, StepOf;
    StepBits(n, size);
    SameBits(Sext9(StepOf(n, size)), StepOf(n, size));
    SameBits(Sext9(Neg(StepOf(n, size))), Neg(StepOf(n, size)));
  }

  lemma Octet0Low(w: Word, size: Size)
    ensures Octet(And(w, W(SizeMask(size))), 0).b == Octet(w, 0).b
  {
  }

  lemma Octet1Low(w: Word, size: Size)
    requires !size.Byte?
    ensures Octet(And(w, W(SizeMask(size))), 1).b == Octet(w, 1).b
  {
  }

  lemma Octet2Low(w: Word, size: Size)
    requires size.Long?
    ensures Octet(And(w, W(SizeMask(size))), 2).b == Octet(w, 2).b
  {
  }

  lemma Octet3Low(w: Word, size: Size)
    requires size.Long?
    ensures Octet(And(w, W(SizeMask(size))), 3).b == Octet(w, 3).b
  {
  }

  lemma SameCells(x: ByteCell, y: ByteCell)
    requires x.b == y.b
    ensures x == y
  {
  }

  /** A store writes the low part only. */
  lemma StoreLow(m: Mem, a: Word, size: Size, w: Word)
    ensures Store(m, a, size, And(w, W(SizeMask(size)))) == Store(m, a, size, w)
  {
    hide Octet, And, SizeMask, Plus, WriteByte;
    var v := And(w, W(SizeMask(size)));
    Octet0Low(w, size);
    SameCells(Octet(v, 0), Octet(w, 0));
    if !size.Byte? {
      Octet1Low(w, size);
      SameCells(Octet(v, 1), Octet(w, 1));
    }
    if size.Long? {
      Octet2Low(w, size);
      Octet3Low(w, size);
      SameCells(Octet(v, 2), Octet(w, 2));
      SameCells(Octet(v, 3), Octet(w, 3));
    }
  }

  lemma SameIndex(c: Cpu, xn: Reg, long: bool, scale: bv8, s: Host)
    requires Matches(c, s) && IsGuest(xn)
    ensures ScaledIndex(AsHost(c), xn, long, scale) == ScaledIndex(s, xn, long, scale)
  {
    hide ShiftL, Sext16;
  }

  lemma SameBrief(c: Cpu, an: Reg, d8: Word, xn: Reg, long: bool, scale: bv8, s: Host)
    requires Matches(c, s) && IsGuest(an) && IsGuest(xn)
    ensures BriefAddress(AsHost(c), an, d8, xn, long, scale) == BriefAddress(s, an, d8, xn, long, scale)
  {
    hide Plus, ScaledIndex;
    SameIndex(c, xn, long, scale, s);
  }

  lemma SameFull(c: Cpu, an: Reg, e: Ext, words: Stream, k: nat, s: Host)
    requires Matches(c, s) && IsGuest(an) && IsGuest(e.xn)
    ensures FullAddress(AsHost(c), an, e, words, k) == FullAddress(s, an, e, words, k)
  {
    hide Plus, Load, ScaledIndex, BdValue, OdValue, BdCount;
    SameIndex(c, e.xn, e.long, e.scale, s);
  }

  lemma SameMode6(c: Cpu, an: Reg, words: Stream, s: Host)
    requires Matches(c, s) && IsGuest(an)
    ensures Mode6Address(AsHost(c), an, words, 0) == Mode6Address(s, an, words, 0)
  {
    var w := ExtensionOf(words, 0);
    IndexIsGuest(w);
    SameBrief(c, an, BriefDisplacement(w), IndexRegister(w), w & 0x0800 != 0, BriefScale(w), s);
    SameFull(c, an, DecodeExt(w), words, 1, s);
    hide IsBrief, BriefDisplacement, BriefScale, IndexRegister, ExtensionOf, DecodeExt, BriefAddress, FullAddress, Matches, AsHost;
  }

  lemma IndexIsGuest(w: bv16)
    ensures IsGuest(IndexRegister(w)) && DecodeExt(w).xn == IndexRegister(w)
  {
  }

  /** The address code leaves the operand's address in the base register (before a predecrement). */
  lemma EaEffect(ea: Ea, size: Size, c: Cpu, s: Host)
    requires InMemory(ea) && WellFormedEa(ea) && Matches(c, s)
    ensures Straight(EaCode(ea))
    ensures OnlyScratch(s, End(EaCode(ea), s))
    ensures End(EaCode(ea), s).Get(EaBase(ea)) == if ea.PreDec? then c.regs(A(ea.n)) else OperandAddress(c, ea, size)
  {
    hide Plus, Minus, Mode6, Mode6Address, AddressOffset, IsD16, Mode6Valid, ExtensionOf, Halfwords, StepOf, Run, End, Straight;
    match ea
    case Displaced(n, d16) => AddressOffsetEffect(A(n), T(10), d16, false, s);
    case IndexedBy(n, words) =>
      Mode6Effect(Access.Address, A(n), words, 0, 10, s);
      SameMode6(c, A(n), words, s);
    case _ => Exec0(s);
  }

  /** Load the operand into T(0), stepping the address register back first if the mode asks for it. */
  lemma LoadOperand(ea: Ea, size: Size, c: Cpu, s: Host)
    requires InMemory(ea) && Matches(c, s)
    requires s.Get(EaBase(ea)) == if ea.PreDec? then c.regs(A(ea.n)) else OperandAddress(c, ea, size)
    ensures var code := [Ld(size, false, T(0), EaBase(ea), LoadMode(ea, size))];
      var a := OperandAddress(c, ea, size);
      var t := End(code, s);
      && Straight(code) && SameRest(s, t) && SameFlags(s, t)
      && t.Get(T(0)) == Load(c.mem, a, size) && t.Get(EaBase(ea)) == a
      && Matches(if ea.PreDec? then c.With(A(ea.n), a) else c, t)
  {
    hide Plus, Minus, Neg, Load, Scale, Sext9, StepOf, Mode6Address, Run, End, Straight;
    Exec1(Ld(size, false, T(0), EaBase(ea), LoadMode(ea, size)), s);
    ScaleZero(size);
    PlusZero(s.Get(EaBase(ea)));
    if ea.PreDec? {
      StepValue(ea.n, size);
      MinusNeg(c.regs(A(ea.n)), StepOf(ea.n, size));
    }
  }

  lemma StoreExec(ea: Ea, size: Size, s: Host)
    requires InMemory(ea)
    ensures var code := [St(size, T(0), EaBase(ea), StoreMode(ea, size))];
      Straight(code) && End(code, s)
        == (if ea.PostInc? then s.Set(A(ea.n), Plus(s.Get(A(ea.n)), StepOf(ea.n, size))) else s)
             .(mem := Store(s.mem, s.Get(EaBase(ea)), size, s.Get(T(0))))
  {
    hide Plus, Neg, Store, Scale, Sext9, StepOf, Run, End, Straight;
    Exec1(St(size, T(0), EaBase(ea), StoreMode(ea, size)), s);
    ScaleZero(size);
    PlusZero(s.Get(EaBase(ea)));
    if ea.PostInc? {
      StepValue(ea.n, size);
    }
  }

  lemma StoreOperand(ea: Ea, size: Size, r: Word, c: Cpu, d: Cpu, s: Host)
    requires InMemory(ea)
    requires var a := OperandAddress(c, ea, size);
      && d == (if ea.PreDec? then c.With(A(ea.n), a) else c)
      && Matches(d, s) && s.Get(EaBase(ea)) == a && And(s.Get(T(0)), W(SizeMask(size))) == r
    ensures var code := [St(size, T(0), EaBase(ea), StoreMode(ea, size))];
      var t := End(code, s);
      && Straight(code) && SameRest(s, t) && SameFlags(s, t)
      && Matches(Stepped(c, ea, size).(mem := Store(c.mem, OperandAddress(c, ea, size), size, r)), t)
  {
    StoreLow(s.mem, OperandAddress(c, ea, size), size, s.Get(T(0)));
    StoreExec(ea, size, s);
    var a := OperandAddress(c, ea, size);
    var code := [St(size, T(0), EaBase(ea), StoreMode(ea, size))];
    hide Plus, Minus, Store, StepOf, And, SizeMask, OperandAddress, StoreMode, EaBase, Run, End, Straight;
    if ea.PostInc? {
      SteppedMatches(c, ea.n, Plus(c.regs(A(ea.n)), StepOf(ea.n, size)), Store(c.mem, a, size, r), s);
    } else {
      StoredMatches(d, Store(c.mem, a, size, r), s);
      PreDecStepped(c, ea, size);
    }
  }

  lemma PreDecStepped(c: Cpu, ea: Ea, size: Size)
    requires InMemory(ea) && !ea.PostInc?
    ensures Stepped(c, ea, size) == if ea.PreDec? then c.With(A(ea.n), OperandAddress(c, ea, size)) else c
  {
    hide Plus, Minus, StepOf, Mode6Address;
  }

  lemma StoredMatches(c: Cpu, m: Mem, s: Host)
    requires Matches(c, s)
    ensures Matches(c.(mem := m), s.(mem := m)) && SameRest(s, s.(mem := m)) && SameFlags(s, s.(mem := m))
  {
  }

  lemma SteppedMatches(c: Cpu, n: nat, w: Word, m: Mem, s: Host)
    requires Matches(c, s)
    ensures var t := s.Set(A(n), w).(mem := m);
      Matches(c.With(A(n), w).(mem := m), t) && SameRest(s, t) && SameFlags(s, t)
  {
  }

  lemma ReadyMoves(op: QOp, mask: Mask, size: Size, f: Ccr, s: Host, s': Host, t: Host, t': Host)
    requires FlagsReady(op, mask, size, f, s', t') && SameFlags(s, s') && SameFlags(t', t)
    ensures FlagsReady(op, mask, size, f, s, t)
  {
  }

  lemma MatchesKept(c: Cpu, base: Reg, s: Host, t: Host)
    requires Matches(c, s) && OnlyReg(T(0), s, t) && (base.A? || base == T(10))
    ensures Matches(c, t) && SameRest(s, t) && t.Get(base) == s.Get(base)
  {
  }

  lemma ScratchMatches(c: Cpu, s: Host, t: Host)
    requires Matches(c, s) && OnlyScratch(s, t)
    ensures Matches(c, t) && SameRest(s, t) && SameFlags(s, t)
  {
  }

  /** The guest state and the flags after the arithmetic. */
  ghost predicate Computed(op: QOp, q: Word, size: Size, mask: Mask, ea: Ea, c: Cpu, s: Host, t: Host) {
    && Matches(QuickOn(op, q, size, ea, c), t)
    && SameRest(s, t)
    && FlagsReady(op, mask, size, QuickOn(op, q, size, ea, c).f, s, t)
  }

  lemma ComputeInMemory(op: QOp, q: Word, size: Size, mask: Mask, ea: Ea, c: Cpu, s: Host)
    requires IsQuick(q) && InMemory(ea) && WellFormedEa(ea) && Matches(c, s)
    ensures Straight(Compute(op, q, size, mask, ea))
    ensures Computed(op, q, size, mask, ea, c, s, End(Compute(op, q, size, mask, ea), s))
  {
    hide Run, End, Straight, IsQuick, WellFormedEa, EaCode, OnLoaded, Store, Load, QuickResult, QuickCcr, Plus, Minus, And, SizeMask;
    hide FlagsReady, OperandAddress, StepOf, StoreMode, LoadMode, EaBase, Stepped, Matches, OnlyReg, OnlyScratch, SameFlags;
    var a := OperandAddress(c, ea, size);
    var d := Load(c.mem, a, size);
    EaEffect(ea, size, c, s);
    var s1 := End(EaCode(ea), s);
    ScratchMatches(c, s, s1);
    LoadOperand(ea, size, c, s1);
    var ld := [Ld(size, false, T(0), EaBase(ea), LoadMode(ea, size))];
    var s2 := End(ld, s1);
    Then(EaCode(ea), ld, s);
    var d2 := if ea.PreDec? then c.With(A(ea.n), a) else c;
    OnLoadedEffect(op, q, size, mask, s2);
    var s3 := End(OnLoaded(op, q, size, mask), s2);
    Then(EaCode(ea) + ld, OnLoaded(op, q, size, mask), s);
    BaseKind(ea);
    MatchesKept(d2, EaBase(ea), s2, s3);
    var r := QuickResult(op, q, d, size);
    StoreOperand(ea, size, r, c, d2, s3);
    var st := [St(size, T(0), EaBase(ea), StoreMode(ea, size))];
    Then(EaCode(ea) + ld + OnLoaded(op, q, size, mask), st, s);
    FlagsTogether(s, s1, s2);
    ReadyMoves(op, mask, size, QuickCcr(op, q, d, size), s, s2, End(st, s3), s3);
    MatchesIgnoresFlags(Stepped(c, ea, size).(mem := Store(c.mem, a, size, r)), QuickCcr(op, q, d, size), End(st, s3));
  }

  lemma BaseKind(ea: Ea)
    requires InMemory(ea)
    ensures EaBase(ea).A? || EaBase(ea) == T(10)
  {
  }

  lemma FlagsTogether(s: Host, t: Host, u: Host)
    requires SameFlags(s, t) && SameFlags(t, u)
    ensures SameFlags(s, u)
  {
  }

  lemma MatchesIgnoresFlags(c: Cpu, f: Ccr, s: Host)
    requires Matches(c, s)
    ensures Matches(c.(f := f), s)
  {
  }

  lemma ComputeOnAddress(op: QOp, q: Word, size: Size, n: nat, c: Cpu, s: Host)
    requires IsQuick(q) && Matches(c, s)
    ensures Straight(Compute(op, q, size, 0, AddrReg(n)))
    ensures Computed(op, q, size, 0, AddrReg(n), c, s, End(Compute(op, q, size, 0, AddrReg(n)), s))
  {
    hide Run, End, Straight, IsQuick, Wide, PlainOp, HostCcr;
    PlainJumps(op, A(n), A(n), q);
    Exec1(PlainOp(op, A(n), A(n), q), s);
    PlainStep(op, A(n), A(n), q, s);
  }

  lemma ComputeOnData(op: QOp, q: Word, size: Size, mask: Mask, n: nat, c: Cpu, s: Host)
    requires IsQuick(q) && Matches(c, s)
    ensures Straight(Compute(op, q, size, mask, DataReg(n)))
    ensures Computed(op, q, size, mask, DataReg(n), c, s, End(Compute(op, q, size, mask, DataReg(n)), s))
  {
    hide Run, End, Straight, IsQuick, OnData, QuickResult, QuickCcr, Merge, FlagsReady;
    OnDataEffect(op, q, size, mask, D(n), s);
  }

  /** The arithmetic of ADDQ and SUBQ for every operand, size and mask. */
  lemma ComputeEffect(op: QOp, q: Word, size: Size, mask: Mask, ea: Ea, c: Cpu, s: Host)
    requires IsQuick(q) && WellFormedEa(ea) && Matches(c, s)
    requires ea.AddrReg? ==> mask == 0
    ensures Straight(Compute(op, q, size, mask, ea))
    ensures Computed(op, q, size, mask, ea, c, s, End(Compute(op, q, size, mask, ea), s))
  {
    match ea
    case DataReg(n) => ComputeOnData(op, q, size, mask, n, c, s);
    case AddrReg(n) => ComputeOnAddress(op, q, size, n, c, s);
    case _ => ComputeInMemory(op, q, size, mask, ea, c, s);
  }

  // ---------------------------------------------------------------- refinement of one instruction

  /** The host state represents the guest state, between two instructions, as far as the live flags go. */
  ghost predicate Represents(c: Cpu, tr: Tr, live: Mask, s: Host) {
    && Matches(c, s)
    && Pending(tr.pending) && Plus(s.Get(PC), tr.pending) == c.pc
    && Agree(live, CcrOf(s.Get(CC)), c.f) && Upper(s.Get(CC)) == c.sys
    && Coherent(tr.hostFlags, s)
  }

  /** How liveness flows through an instruction emitted with an update mask: what it needs and what
      passes through is live before it, and what is live after it and set by it is in the mask. */
  predicate Flow(i: Insn68, mask: Mask, before: Mask, after: Mask) {
    && after < 32
    && NeedsOf(i) & !before == 0
    && after & !SetsOf(i) & !before == 0
    && after & SetsOf(i) & !mask == 0
    && mask & !SetsOf(i) == 0
  }

  lemma AgreeLess(less: Mask, more: Mask, a: Ccr, b: Ccr)
    requires less & !more == 0 && Agree(more, a, b)
    ensures Agree(less, a, b)
  {
  }

  lemma FlowBits(i: Insn68, mask: Mask, before: Mask, after: Mask)
    requires Flow(i, mask, before, after)
    ensures mask < 32 && NeedsOf(i) & !before == 0
    ensures SetsOf(i) == 0 ==> mask == 0 && after & !before == 0
    ensures SetsOf(i) == SR_CCR ==> after & !mask == 0
  {
    hide NeedsOf;
  }

  lemma SetsCases(i: Insn68)
    ensures SetsOf(i) == 0 || SetsOf(i) == SR_CCR
    ensures SetsOf(i) == 0 <==> !i.QuickOp? || i.ea.AddrReg?
  {
  }

  lemma ResetAt(code: seq<Insn>, k: nat, hostFlags: Mask)
    requires k < |code| && ResetsFlags(code[k])
    ensures HostFlagsAfter(code, hostFlags) == 0
  {
  }

  /** A TST in place makes the encoder forget the host flags. */
  lemma InPlaceResets(op: QOp, q: Word, size: Size, mask: Mask, ea: Ea, hostFlags: Mask)
    requires InPlace(mask, size) && mask != 0 && !ea.AddrReg?
    ensures HostFlagsAfter(Compute(op, q, size, mask, ea), hostFlags) == 0
  {
    hide WidthOf, EaCode, HostFlagsAfter, PlainOp, Bfxil, LoadMode, StoreMode, EaBase;
    var code := Compute(op, q, size, mask, ea);
    if ea.DataReg? {
      assert code[2] == InPlaceTest(mask, size, T(0))[0];
      ResetAt(code, 2, hostFlags);
    } else {
      var k := |EaCode(ea)| + 2;
      assert code[k] == InPlaceTest(mask, size, T(0))[0];
      ResetAt(code, k, hostFlags);
    }
  }

  lemma CoherentMoves(hostFlags: Mask, s: Host, t: Host)
    requires Coherent(hostFlags, s) && SameFlags(s, t) && CcrOf(t.Get(CC)) == CcrOf(s.Get(CC))
    ensures Coherent(hostFlags, t)
  {
    hide CcrOf;
  }

  lemma SameFlagsThrough(s: Host, t: Host, u: Host)
    requires SameFlags(s, t) && OnlyCcPc(t, u)
    ensures SameFlags(s, u)
  {
  }

  lemma CoherentAfter(op: QOp, q: Word, size: Size, mask: Mask, ea: Ea, hostFlags: Mask, f: Ccr, pc: Word, p: Word, s: Host, t: Host, u: Host)
    requires ea.AddrReg? ==> mask == 0
    requires Coherent(hostFlags, s) && t.Get(CC) == s.Get(CC)
    requires FlagsReady(op, mask, size, f, s, t)
    requires Finished(op, size, mask, !ea.AddrReg?, f, pc, p, t, u)
    ensures Coherent(QuickHostFlags(op, size, mask, ea, Compute(op, q, size, mask, ea), hostFlags), u)
  {
    ReadyUnlessInPlace(op, size, mask, f, s, t);
    NoFlags(size);
    NoneMarked(u);
    hide CcrOf, Upper, Agree, Coherent, CapturedHostFlags, HostFlagsAfter, Compute, HostCcr, Plus;
    if !ea.AddrReg? && InPlaceFlags(size, mask).1 != 0 {
    } else if mask == 0 {
      SameFlagsThrough(s, t, u);
      CoherentMoves(hostFlags, s, u);
      ResetOrNot(Compute(op, q, size, mask, ea), hostFlags);
    } else {
      LeftZero(size, mask);
      InPlaceResets(op, q, size, mask, ea, hostFlags);
    }
  }

  lemma ResetOrNot(code: seq<Insn>, hostFlags: Mask)
    ensures HostFlagsAfter(code, hostFlags) == 0 || HostFlagsAfter(code, hostFlags) == hostFlags
  {
  }

  lemma LeftZero(size: Size, mask: Mask)
    requires InPlaceFlags(size, mask).1 == 0
    ensures InPlace(mask, size) || mask == 0
  {
    hide ClearFlags, SetFlagsConditional;
  }

  /** ADDQ and SUBQ refine their m68k meaning: from any state that represents the guest, the emitted code
      ends in one that represents the guest after the instruction, for every operand, size, update mask
      that covers the live flags, pending offset and set of valid host flags. */
  lemma QuickRefines(op: QOp, q: Word, size: Size, mask: Mask, ea: Ea, c: Cpu, tr: Tr, before: Mask, after: Mask, s: Host)
    requires WellFormed(QuickOp(op, q, size, ea)) && Represents(c, tr, before, s)
    requires Flow(QuickOp(op, q, size, ea), mask, before, after)
    ensures Straight(QuickCode(op, q, size, mask, ea, tr.pending))
    ensures Represents(Exec68(QuickOp(op, q, size, ea), c), QuickNext(op, q, size, mask, ea, tr), after,
                       End(QuickCode(op, q, size, mask, ea, tr.pending), s))
  {
    hide Run, End, Straight, Compute, Finish, IsQuick, WellFormedEa, Pending, Plus, Length, ExtensionWords, AdvancePc, CcrOf, Upper, Agree, Coherent, Flow, QuickHostFlags, QuickOn, Matches, FlagsReady, OnlyCcPc, InPlaceFlags, CapturedHostFlags, SetsOf;
    var i := QuickOp(op, q, size, ea);
    FlowBits(i, mask, before, after);
    SetsCases(i);
    ComputeEffect(op, q, size, mask, ea, c, s);
    var code := Compute(op, q, size, mask, ea);
    var t := End(code, s);
    var c' := QuickOn(op, q, size, ea, c);
    KeepsPcAndSys(op, q, size, ea, c);
    FinishEffect(op, size, mask, !ea.AddrReg?, c'.f, tr.pending, ExtensionWords(ea), s, t);
    var rest := Finish(op, size, mask, !ea.AddrReg?, tr.pending, ExtensionWords(ea));
    var u := End(rest, t);
    Then(code, rest, s);
    var (_, p) := AdvancePc(tr.pending, Length(ExtensionWords(ea)));
    var pc := Plus(Plus(t.Get(PC), tr.pending), Length(ExtensionWords(ea)));
    CoherentAfter(op, q, size, mask, ea, tr.hostFlags, c'.f, pc, p, s, t, u);
    MatchesFinished(c', c'.pc, Length(ExtensionWords(ea)), t, u);
    if ea.AddrReg? {
      AgreeLess(after, before, CcrOf(s.Get(CC)), c.f);
    } else {
      AgreeLess(after, mask, CcrOf(u.Get(CC)), c'.f);
    }
  }

  lemma KeepsPcAndSys(op: QOp, q: Word, size: Size, ea: Ea, c: Cpu)
    ensures var c' := QuickOn(op, q, size, ea, c);
      c'.pc == c.pc && c'.sys == c.sys && (ea.AddrReg? ==> c'.f == c.f)
  {
    hide Merge, QuickResult, QuickCcr, Wide, OperandAddress, StepOf, Plus, Minus, Load, Store;
  }

  lemma MatchesFinished(c: Cpu, pc: Word, bytes: Word, t: Host, u: Host)
    requires Matches(c, t) && OnlyCcPc(t, u)
    ensures Matches(c.Skip(bytes), u)
  {
    hide Plus;
  }
}
