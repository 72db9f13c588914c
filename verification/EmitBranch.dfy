/**
  EMIT_Bcc, EMIT_BRA and EMIT_BSR (emu68/src/M68k_LINE6.c) and EMIT_Scc and EMIT_DBcc
  (emu68/src/M68k_LINE5.c).
  A conditional branch translates into the path predicted to be followed, with a host branch out of it
  to an exit block for the other path.
*/
module EmitBranch {
  import opened Words
  import opened A64
  import opened M68k
  import opened Capture
  import opened Conditions
  import opened Quick
  import opened Pc
  import opened Displacement
  import opened Indexed
  import opened Manual
  import opened Guest
  import opened EmitQuick

  /** The code of one instruction, its exit block if a branch leaves it, and what the translator knows on
      the path that falls through.  An exit block is entered with nothing pending, and leaves nothing
      pending. */
  datatype Emitted = Emitted(main: seq<Insn>, leaves: bool, exit: seq<Insn>, next: Tr)

  /** Every branch is one out of the fragment, and there is none unless the fragment has an exit block. */
  ghost predicate OnlyExits(e: Emitted) {
    forall i :: 0 <= i < |e.main| && Jumps(e.main[i]) ==> e.leaves && e.main[i].dist == 0
  }

  /** The state at the entry of a translation unit. */
  function Entry(ptr: Word): Tr { Tr(0, W(0), ptr) }

  // ---------------------------------------------------------------- the emitters

  function EmitBcc(cond: CondCode, form: Form, disp: Word, takeBranch: bool, tr: Tr): Emitted {
    var (flush, _, off) := GetOffsetPc(tr.pending, W(2));
    var branchOffset := Plus(disp, off);
    var nextOffset := Plus(Minus(off, W(2)), FormLength(form));
    var jump := JumpOnCondition(if takeBranch then Opposite(cond) else cond, tr.hostFlags, 0);
    var branchCode := AddOffset(PC, branchOffset, 4096, 4096, X0);
    var nextCode := AddOffset(PC, nextOffset, 255, 256, X0);
    var main := flush + jump + (if takeBranch then branchCode else nextCode);
    Emitted(main, true, if takeBranch then nextCode else branchCode,
            Tr(HostFlagsAfter(main, tr.hostFlags), W(0),
               Plus(tr.ptr, if takeBranch then Plus(W(2), disp) else FormLength(form))))
  }

  function ReturnOffset(form: Form, off: Word): Word { Plus(Minus(FormLength(form), W(2)), off) }

  function PushReturn(form: Form, off: Word): seq<Insn> {
    var ret := ReturnOffset(form, off);
    AddOffset(T(0), ret, 256, 256, T(0))
    + [St(Long, if ret != W(0) then T(0) else PC, A(7), PreIndex(Neg(W(4))))]
  }

  /** Translation goes on at the target if that is near enough (`inlined`), else the unit ends here. */
  function EmitBra(bsr: bool, form: Form, disp: Word, inlined: bool, tr: Tr): Emitted {
    var (flush, _, off) := GetOffsetPc(tr.pending, W(2));
    var main := flush + (if bsr then PushReturn(form, off) else []) + AddOffset(PC, Plus(off, disp), 4096, 4096, T(1));
    Emitted(main, false, [], Tr(HostFlagsAfter(main, tr.hostFlags), W(0), Plus(tr.ptr, if inlined then Plus(W(2), disp) else FormLength(form))))
  }

  function EmitDbcc(cond: CondCode, n: nat, disp: Word, tr: Tr): Emitted {
    if cond.M_T? then
      var (code, p) := AdvancePc(tr.pending, W(4));
      Emitted([Nop] + code, false, [], Tr(tr.hostFlags, p, Plus(tr.ptr, W(4))))
    else
      var (flush, _, off) := GetOffsetPc(tr.pending, W(0));
      var main := flush + (if cond.M_F? then [] else JumpOnCondition(cond, tr.hostFlags, 0))
        + DbccTail(n, Plus(Plus(W(2), disp), off));
      Emitted(main, true, [AddImmed(PC, PC, Plus(W(4), off))],
              Tr(HostFlagsAfter(main, tr.hostFlags), W(0), Plus(tr.ptr, Plus(W(2), disp))))
  }

  function CountCode(n: nat): seq<Insn> {
    [Uxth(T(0), D(n)), SubsImmed(T(0), T(0), W(1)), Bfi(D(n), T(0), 0, 16)]
  }

  /** The counting part with its exit, and the branch back. */
  function DbccTail(n: nat, offset: Word): seq<Insn> {
    CountCode(n) + [BCond(MI, 0)] + AddOffset(PC, offset, 4096, 4096, T(0))
  }

  /** The byte of Scc in T(0) (whose other bits are whatever they were), or merged into a data register. */
  function SccValue(cond: CondCode, hostFlags: Mask, rd: Reg): seq<Insn> {
    if cond.M_T? then [if rd.D? then OrrImmed(rd, rd, 8, 0) else MovImmed(rd, W(0xff), 0)]
    else if cond.M_F? then [if rd.D? then BicImmed(rd, rd, 8, 0) else MovImmed(rd, W(0), 0)]
    else
      var (code, c) := TestCondition(cond, hostFlags);
      code + [Csetm(T(1), c), Bfi(rd, T(1), 0, 8)]
  }

  /** EMIT_StoreToEffectiveAddress of a byte. */
  function StoreByte(ea: Ea): seq<Insn> {
    match ea
    case Indirect(n) => StoreOffset(Byte, A(n), T(0), W(0), false)
    case PostInc(n) => [St(Byte, T(0), A(n), PostIndex(StepOf(n, Byte)))]
    case PreDec(n) => [St(Byte, T(0), A(n), PreIndex(Neg(StepOf(n, Byte))))]
    case Displaced(n, d16) => StoreOffset(Byte, A(n), T(0), d16, false)
    case IndexedBy(n, words) => Mode6(Put(Byte), A(n), words, 0, T(0)).0
    case _ => []
  }

  function EmitScc(cond: CondCode, ea: Ea, tr: Tr): Emitted {
    var value := SccValue(cond, tr.hostFlags, if ea.DataReg? then D(ea.n) else T(0));
    var (adv, p) := AdvancePc(tr.pending, Length(ExtensionWords(ea)));
    Emitted(value + StoreByte(ea) + adv, false, [],
            Tr(HostFlagsAfter(value, tr.hostFlags), p, Plus(tr.ptr, Length(ExtensionWords(ea)))))
  }

  // ---------------------------------------------------------------- what correct means

  /** The emitted code takes a host state s to one that represents the guest state c: on the path that
      falls through, or, if `leaves`, at the end of the exit block. */
  ghost predicate Correct(e: Emitted, c: Cpu, live: Mask, leaves: bool, s: Host) {
    && OnlyExits(e)
    && match Run(e.main, s)
       case Fall(t) => !leaves && Represents(c, e.next, live, t)
       case Leave(t) => leaves && Straight(e.exit) && Represents(c, Entry(c.pc), live, End(e.exit, t))
  }

  /** The guest state, seen through the registers that hold it, is unchanged but for the PC. */
  ghost predicate SameButPc(s: Host, t: Host) {
    && t.mem == s.mem
    && forall r: Reg :: r.D? || r.A? || r == CC ==> t.Get(r) == s.Get(r)
  }

  /** A host state represents the guest once the PC register holds its PC. */
  lemma Arrives(c: Cpu, d: Cpu, before: Mask, after: Mask, tr: Tr, hostFlags: Mask, ptr: Word, s: Host, t: Host)
    requires Represents(c, tr, before, s) && SameButPc(s, t)
    requires d == c.(pc := t.Get(PC)) && after & !before == 0
    requires Coherent(hostFlags, t)
    ensures Represents(d, Tr(hostFlags, W(0), ptr), after, t)
  {
    AgreeLess(after, before, CcrOf(s.Get(CC)), c.f);
    PlusZero(t.Get(PC));
    NothingPending();
    hide CcrOf, Upper, Agree, Coherent, Plus, Pending;
  }

  lemma NothingPending()
    ensures Pending(W(0))
  {
  }

  // ---------------------------------------------------------------- branches out of a fragment

  /** Straight code, an exit branch, straight code. */
  lemma RunExit(prefix: seq<Insn>, branch: Insn, rest: seq<Insn>, s: Host)
    requires Straight(prefix) && Straight(rest) && Jumps(branch) && branch.dist == 0
    ensures var t := End(prefix, s);
      Run(prefix + [branch] + rest, s) == if Taken(branch, t) then Leave(t) else Fall(End(rest, t))
  {
    hide Step;
    var t := End(prefix, s);
    assert prefix + [branch] + rest == prefix + ([branch] + rest);
    RunStraight(prefix, [branch] + rest, s);
    assert ([branch] + rest)[1..] == rest;
    RunStraight(rest, [], t);
    assert rest + [] == rest;
  }

  /** No instruction of the fragment makes the encoder forget the host flags. */
  predicate Quiet(code: seq<Insn>) {
    forall i :: 0 <= i < |code| ==> !ResetsFlags(code[i])
  }

  lemma QuietTail(code: seq<Insn>, rest: seq<Insn>, hostFlags: Mask)
    requires Quiet(rest)
    ensures HostFlagsAfter(code + rest, hostFlags) == HostFlagsAfter(code, hostFlags)
  {
    var all := code + rest;
    forall i | 0 <= i < |code|
      ensures all[i] == code[i]
    {
    }
  }

  lemma QuietOffset(rd: Reg, offset: Word, pos: bv32, neg: bv32, tmp: Reg)
    ensures Quiet(AddOffset(rd, offset, pos, neg, tmp)) && Straight(AddOffset(rd, offset, pos, neg, tmp))
  {
    hide Below, Neg;
  }

  // ---------------------------------------------------------------- PC arithmetic

  lemma TargetPc(pc: Word, pending: Word, disp: Word)
    ensures Plus(pc, Plus(disp, Plus(pending, W(2)))) == Plus(Plus(pc, pending), Plus(W(2), disp))
    ensures Plus(pc, Plus(Plus(pending, W(2)), disp)) == Plus(Plus(pc, pending), Plus(W(2), disp))
  {
    PlusCommutes(disp, Plus(pending, W(2)));
    PlusAssoc(pending, W(2), disp);
    PlusAssoc(pc, pending, Plus(W(2), disp));
    hide Plus;
  }

  lemma NextPc(pc: Word, pending: Word, length: Word)
    ensures Plus(pc, Plus(Minus(Plus(pending, W(2)), W(2)), length)) == Plus(Plus(pc, pending), length)
  {
    MinusUndoesPlus(pending, W(2));
    PlusAssoc(pc, pending, length);
    hide Plus, Minus;
  }

  lemma Limits()
    ensures Encodable(4096) && Encodable(255) && Encodable(256)
  {
  }

  /** From a state with the guest's registers and coherent host flags, adding an offset to the PC
      register arrives at that PC. */
  lemma ArrivesBy(c: Cpu, before: Mask, after: Mask, tr: Tr, offset: Word, pos: bv32, neg: bv32, hostFlags: Mask, ptr: Word, s: Host, t: Host)
    requires Represents(c, tr, before, s) && SameGuest(s, t) && after & !before == 0
    requires Coherent(hostFlags, t) && Encodable(pos) && Encodable(neg)
    ensures var code := AddOffset(PC, offset, pos, neg, X0);
      Straight(code) && Represents(c.(pc := Plus(s.Get(PC), offset)), Tr(hostFlags, W(0), ptr), after, End(code, t))
  {
    hide Plus, AddOffset, Encodable, Run, End, Straight, CcrOf, Upper, Agree, Pending;
    AddOffsetEffect(PC, offset, pos, neg, X0, t);
    var u := End(AddOffset(PC, offset, pos, neg, X0), t);
    Arrives(c, c.(pc := Plus(s.Get(PC), offset)), before, after, tr, hostFlags, ptr, s, u);
  }

  lemma ExitsAround(e: Emitted, prefix: seq<Insn>, branch: Insn, rest: seq<Insn>)
    requires e.main == prefix + [branch] + rest && e.leaves
    requires Straight(prefix) && Jumps(branch) && branch.dist == 0
    requires forall i :: 0 <= i < |rest| && Jumps(rest[i]) ==> rest[i].dist == 0
    ensures OnlyExits(e)
  {
  }

  lemma ExitsOf(e: Emitted)
    requires OnlyExits(e)
    ensures forall i :: 0 <= i < |e.main| && Jumps(e.main[i]) ==> e.main[i].dist == 0
  {
  }

  lemma StraightExits(e: Emitted)
    requires Straight(e.main)
    ensures OnlyExits(e)
  {
  }

  /** A fragment with one way out is correct if both ways are. */
  lemma TwoWays(e: Emitted, prefix: seq<Insn>, branch: Insn, rest: seq<Insn>, d: Cpu, after: Mask, s: Host)
    requires e.main == prefix + [branch] + rest && e.leaves
    requires Straight(prefix) && Straight(rest) && Jumps(branch) && branch.dist == 0 && Straight(e.exit)
    requires var t := End(prefix, s);
      if Taken(branch, t) then Represents(d, Entry(d.pc), after, End(e.exit, t)) else Represents(d, e.next, after, End(rest, t))
    ensures Correct(e, d, after, Taken(branch, End(prefix, s)), s)
  {
    RunExit(prefix, branch, rest, s);
    ExitsAround(e, prefix, branch, rest);
    hide Run, End, Straight, Represents, Taken, OnlyExits;
  }

  /** The two constants a conditional branch may add to the PC register. */
  function BranchOffset(disp: Word, tr: Tr): Word { Plus(disp, Plus(tr.pending, W(2))) }
  function NextOffset(form: Form, tr: Tr): Word { Plus(Minus(Plus(tr.pending, W(2)), W(2)), FormLength(form)) }

  lemma BccShape(cond: CondCode, form: Form, disp: Word, takeBranch: bool, tr: Tr)
    requires WellFormed(Bcc(cond, form, disp)) && Pending(tr.pending)
    ensures var e := EmitBcc(cond, form, disp, takeBranch, tr);
      var cond' := if takeBranch then Opposite(cond) else cond;
      var branchCode := AddOffset(PC, BranchOffset(disp, tr), 4096, 4096, X0);
      var nextCode := AddOffset(PC, NextOffset(form, tr), 255, 256, X0);
      && e.main == JumpPrefix(cond', tr.hostFlags) + [JumpBranch(cond', tr.hostFlags, 0)] + (if takeBranch then branchCode else nextCode)
      && e.exit == (if takeBranch then nextCode else branchCode) && e.leaves
      && e.next.pending == W(0)
      && e.next.hostFlags == HostFlagsAfter(JumpPrefix(cond', tr.hostFlags), tr.hostFlags)
  {
    hide Plus, Minus, GetOffsetPc, JumpOnCondition, JumpPrefix, JumpBranch, AddOffset, Pending, HostFlagsAfter, FormLength, Opposite, Quiet;
    var cond' := if takeBranch then Opposite(cond) else cond;
    GetOffsetExact(tr.pending, W(2));
    NotTrueOrFalse(cond);
    JumpParts(cond', tr.hostFlags, 0);
    QuietOffset(PC, BranchOffset(disp, tr), 4096, 4096, X0);
    QuietOffset(PC, NextOffset(form, tr), 255, 256, X0);
    var prefix, branch := JumpPrefix(cond', tr.hostFlags), JumpBranch(cond', tr.hostFlags, 0);
    var rest := if takeBranch then AddOffset(PC, BranchOffset(disp, tr), 4096, 4096, X0) else AddOffset(PC, NextOffset(form, tr), 255, 256, X0);
    QuietExit(prefix, branch, rest, tr.hostFlags);
    assert EmitBcc(cond, form, disp, takeBranch, tr).main == prefix + [branch] + rest;
  }

  lemma NotTrueOrFalse(cond: CondCode)
    requires !cond.M_T? && !cond.M_F?
    ensures !Opposite(cond).M_T? && !Opposite(cond).M_F?
  {
  }

  lemma QuietExit(prefix: seq<Insn>, branch: Insn, rest: seq<Insn>, hostFlags: Mask)
    requires Jumps(branch) && Quiet(rest)
    ensures HostFlagsAfter(prefix + [branch] + rest, hostFlags) == HostFlagsAfter(prefix, hostFlags)
  {
    QuietBranch(branch, rest);
    QuietTail(prefix, [branch] + rest, hostFlags);
    assert prefix + [branch] + rest == prefix + ([branch] + rest);
  }

  lemma QuietBranch(branch: Insn, rest: seq<Insn>)
    requires Jumps(branch) && Quiet(rest)
    ensures Quiet([branch] + rest)
  {
  }

  /** The condition the emitted jump tests, taken on the guest's side. */
  function ExitCond(cond: CondCode, takeBranch: bool): CondCode { if takeBranch then Opposite(cond) else cond }

  /** The jump out is taken exactly when the path is not the one predicted. */
  lemma BccDecides(cond: CondCode, takeBranch: bool, c: Cpu, tr: Tr, before: Mask, s: Host)
    requires !cond.M_T? && !cond.M_F? && Represents(c, tr, before, s) && Needs(cond) & !before == 0
    ensures var prefix, branch := JumpPrefix(ExitCond(cond, takeBranch), tr.hostFlags), JumpBranch(ExitCond(cond, takeBranch), tr.hostFlags, 0);
      var t := End(prefix, s);
      && Straight(prefix) && Jumps(branch) && branch.dist == 0
      && SameGuest(s, t) && Coherent(HostFlagsAfter(prefix, tr.hostFlags), t)
      && Taken(branch, t) == (True68(cond, c.f) != takeBranch)
  {
    var cond' := ExitCond(cond, takeBranch);
    RepresentsPc(c, tr, before, s);
    RepresentsFlags(c, tr, before, s);
    ConditionPairs(cond, c.f);
    NotTrueOrFalse(cond);
    NeedsPairs(cond);
    hide Represents, Needs, Agree, CcrOf, True68, Opposite, JumpPrefix, JumpBranch, Coherent, HostFlagsAfter, SameGuest, Run, End, Straight, Taken, Pending, Plus;
    DecidedByLive(cond', before, CcrOf(s.Get(CC)), c.f);
    JumpDecides(cond', tr.hostFlags, 0, s);
  }

  lemma RepresentsFlags(c: Cpu, tr: Tr, live: Mask, s: Host)
    requires Represents(c, tr, live, s)
    ensures Agree(live, CcrOf(s.Get(CC)), c.f)
  {
  }

  /** Bcc, predicted either way: the code ends at the target if the condition holds and at the next
      instruction otherwise, one of them through the exit block. */
  lemma BccRefines(cond: CondCode, form: Form, disp: Word, takeBranch: bool, c: Cpu, tr: Tr, before: Mask, after: Mask, s: Host)
    requires WellFormed(Bcc(cond, form, disp)) && Represents(c, tr, before, s)
    requires Flow(Bcc(cond, form, disp), 0, before, after)
    ensures Correct(EmitBcc(cond, form, disp, takeBranch, tr), Exec68(Bcc(cond, form, disp), c), after,
                    True68(cond, c.f) != takeBranch, s)
  {
    FlowBits(Bcc(cond, form, disp), 0, before, after);
    Limits();
    RepresentsPc(c, tr, before, s);
    BccShape(cond, form, disp, takeBranch, tr);
    BccPc(cond, form, disp, c, tr, before, s);
    hide EmitBcc, Plus, AddOffset, JumpPrefix, JumpBranch, Encodable, Run, End, Straight, Agree, Pending, Coherent, True68, HostFlagsAfter, Opposite, Needs, Flow, Taken, SameGuest, FormLength, Represents, Exec68, Correct, BranchOffset, NextOffset;
    BccDecides(cond, takeBranch, c, tr, before, s);
    var cond' := ExitCond(cond, takeBranch);
    var prefix, branch := JumpPrefix(cond', tr.hostFlags), JumpBranch(cond', tr.hostFlags, 0);
    var t := End(prefix, s);
    NoneMarked(t);
    var e := EmitBcc(cond, form, disp, takeBranch, tr);
    var d := Exec68(Bcc(cond, form, disp), c);
    var leaves := Taken(branch, t);
    var hf := if leaves then 0 else e.next.hostFlags;
    var ptr := if leaves then d.pc else e.next.ptr;
    ArrivesBy(c, before, after, tr, BranchOffset(disp, tr), 4096, 4096, hf, ptr, s, t);
    ArrivesBy(c, before, after, tr, NextOffset(form, tr), 255, 256, hf, ptr, s, t);
    var rest := if takeBranch then AddOffset(PC, BranchOffset(disp, tr), 4096, 4096, X0) else AddOffset(PC, NextOffset(form, tr), 255, 256, X0);
    TwoWays(e, prefix, branch, rest, d, after, s);
  }

  lemma BccPc(cond: CondCode, form: Form, disp: Word, c: Cpu, tr: Tr, before: Mask, s: Host)
    requires Represents(c, tr, before, s)
    ensures Exec68(Bcc(cond, form, disp), c)
      == c.(pc := Plus(s.Get(PC), if True68(cond, c.f) then BranchOffset(disp, tr) else NextOffset(form, tr)))
  {
    TargetPc(s.Get(PC), tr.pending, disp);
    NextPc(s.Get(PC), tr.pending, FormLength(form));
    hide Plus, Minus, True68, Matches, Agree, Upper, CcrOf, Coherent, Pending, FormLength;
  }

  /** A condition has the same value on flags that agree where they are live. */
  lemma DecidedByLive(cond: CondCode, live: Mask, a: Ccr, b: Ccr)
    requires Agree(live, a, b) && (Needs(cond) & !live == 0 || Needs(Opposite(cond)) & !live == 0)
    ensures True68(cond, a) == True68(cond, b)
  {
    NeedsPairs(cond);
    AgreeLess(Needs(cond), live, a, b);
    NeedsSuffice(cond, a, b);
    hide Agree, True68;
  }

  lemma NeedsPairs(cond: CondCode)
    ensures Needs(Opposite(cond)) == Needs(cond) && Opposite(Opposite(cond)) == cond
  {
  }

  // ---------------------------------------------------------------- BRA and BSR

  lemma ReturnPc(pc: Word, pending: Word, form: Form)
    ensures Plus(pc, ReturnOffset(form, Plus(pending, W(2)))) == Plus(Plus(pc, pending), FormLength(form))
  {
    var k := Minus(FormLength(form), W(2));
    PlusCommutes(pending, W(2));
    PlusAssoc(k, W(2), pending);
    PlusUndoesMinus(FormLength(form), W(2));
    PlusCommutes(FormLength(form), pending);
    PlusAssoc(pc, pending, FormLength(form));
    hide Plus, Minus, FormLength;
  }

  lemma ReturnAddress(form: Form, off: Word, s: Host)
    ensures var ret := ReturnOffset(form, off);
      var code := AddOffset(T(0), ret, 256, 256, T(0));
      var t := End(code, s);
      && Straight(code) && OnlyRegs(T(0), T(0), s, t)
      && t.Get(if ret != W(0) then T(0) else PC) == Plus(s.Get(PC), ret)
  {
    Limits();
    var ret := ReturnOffset(form, off);
    if ret != W(0) {
      AddOffsetEffect(T(0), ret, 256, 256, T(0), s);
    } else {
      PlusZero(s.Get(PC));
      Exec0(s);
      NoOffset(T(0), 256, 256, T(0));
    }
    hide Plus, AddOffset, Run, End, Straight, Encodable, ReturnOffset;
  }

  lemma NoOffset(rd: Reg, pos: bv32, neg: bv32, tmp: Reg)
    ensures AddOffset(rd, W(0), pos, neg, tmp) == []
  {
    assert Neg(W(0)).b == 0;
  }

  /** The return address reaches the stack, through a predecrement. */
  ghost predicate Pushed(w: Word, s: Host, t: Host) {
    var sp := Minus(s.Get(A(7)), W(4));
    && t.mem == Store(s.mem, sp, Long, w) && t.Get(A(7)) == sp
    && t.n == s.n && t.z == s.z && t.c == s.c && t.v == s.v
    && forall r: Reg :: !r.T? && r != A(7) ==> t.Get(r) == s.Get(r)
  }

  lemma PushEffect(form: Form, off: Word, s: Host)
    ensures Straight(PushReturn(form, off))
    ensures Pushed(Plus(s.Get(PC), ReturnOffset(form, off)), s, End(PushReturn(form, off), s))
  {
    hide Plus, Minus, Neg, Sext9, Store, AddOffset, Run, End, Straight, ReturnOffset;
    ReturnAddress(form, off, s);
    var ret := ReturnOffset(form, off);
    var a := AddOffset(T(0), ret, 256, 256, T(0));
    var t := End(a, s);
    var st := St(Long, if ret != W(0) then T(0) else PC, A(7), PreIndex(Neg(W(4))));
    Exec1(st, t);
    StepValue(7, Long);
    MinusNeg(t.Get(A(7)), W(4));
    Then(a, [st], s);
  }

  lemma PushedMatches(c: Cpu, before: Mask, tr: Tr, w: Word, s: Host, t: Host)
    requires Represents(c, tr, before, s) && Pushed(w, s, t)
    ensures var sp := Minus(c.regs(A(7)), W(4));
      Represents(c.With(A(7), sp).(mem := Store(c.mem, sp, Long, w)), tr, before, t)
    ensures t.Get(PC) == s.Get(PC)
  {
    hide Plus, Minus, Store, CcrOf, Upper, Agree, Pending;
  }

  lemma SameGuestSelf(s: Host)
    ensures SameGuest(s, s)
  {
  }

  /** The jump at the end of BRA and BSR. */
  lemma JumpArrives(c: Cpu, before: Mask, after: Mask, tr: Tr, disp: Word, hostFlags: Mask, ptr: Word, s: Host)
    requires Represents(c, tr, before, s) && after & !before == 0 && Coherent(hostFlags, s)
    ensures var code := AddOffset(PC, Plus(Plus(tr.pending, W(2)), disp), 4096, 4096, T(1));
      Straight(code) && Represents(c.Skip(Plus(W(2), disp)), Tr(hostFlags, W(0), ptr), after, End(code, s))
  {
    Limits();
    var offset := Plus(Plus(tr.pending, W(2)), disp);
    TargetPc(s.Get(PC), tr.pending, disp);
    AddOffsetEffect(PC, offset, 4096, 4096, T(1), s);
    hide Plus, AddOffset, Encodable, Run, End, Straight, CcrOf, Upper, Agree, Pending;
    var t := End(AddOffset(PC, offset, 4096, 4096, T(1)), s);
    Arrives(c, c.Skip(Plus(W(2), disp)), before, after, tr, hostFlags, ptr, s, t);
  }

  function BraInsn(bsr: bool, form: Form, disp: Word): Insn68 {
    if bsr then BSR(form, disp) else BRA(form, disp)
  }

  lemma BraQuiet(bsr: bool, form: Form, disp: Word, inlined: bool, tr: Tr)
    requires Pending(tr.pending)
    ensures var e := EmitBra(bsr, form, disp, inlined, tr);
      var off := Plus(tr.pending, W(2));
      && e.main == (if bsr then PushReturn(form, off) else []) + AddOffset(PC, Plus(off, disp), 4096, 4096, T(1))
      && e.exit == [] && e.next.hostFlags == tr.hostFlags && e.next.pending == W(0)
  {
    hide Plus, GetOffsetPc, AddOffset, Pending, FormLength, ReturnOffset, HostFlagsAfter;
    var off := Plus(tr.pending, W(2));
    GetOffsetExact(tr.pending, W(2));
    QuietOffset(T(0), ReturnOffset(form, off), 256, 256, T(0));
    QuietOffset(PC, Plus(off, disp), 4096, 4096, T(1));
    var push := if bsr then PushReturn(form, off) else [];
    var main := push + AddOffset(PC, Plus(off, disp), 4096, 4096, T(1));
    assert Quiet(main);
    KeepsMarks(main, tr.hostFlags);
    assert EmitBra(bsr, form, disp, inlined, tr).main == main;
  }

  /** BRA and BSR arrive at the target; BSR has pushed the address of the next instruction. */
  lemma BraRefines(bsr: bool, form: Form, disp: Word, inlined: bool, c: Cpu, tr: Tr, before: Mask, after: Mask, s: Host)
    requires Represents(c, tr, before, s) && Flow(BraInsn(bsr, form, disp), 0, before, after)
    ensures Correct(EmitBra(bsr, form, disp, inlined, tr), Exec68(BraInsn(bsr, form, disp), c), after, false, s)
  {
    hide EmitBra, Plus, Minus, Store, AddOffset, PushReturn, ReturnOffset, Run, End, Straight, CcrOf, Upper, Agree, Pending, Coherent, Flow, FormLength, Represents;
    FlowBits(BraInsn(bsr, form, disp), 0, before, after);
    RepresentsPc(c, tr, before, s);
    BraQuiet(bsr, form, disp, inlined, tr);
    var off := Plus(tr.pending, W(2));
    var e := EmitBra(bsr, form, disp, inlined, tr);
    var jump := AddOffset(PC, Plus(off, disp), 4096, 4096, T(1));
    if bsr {
      PushEffect(form, off, s);
      var t := End(PushReturn(form, off), s);
      ReturnPc(s.Get(PC), tr.pending, form);
      PushedMatches(c, before, tr, Plus(s.Get(PC), ReturnOffset(form, off)), s, t);
      var sp := Minus(c.regs(A(7)), W(4));
      var c' := c.With(A(7), sp).(mem := Store(c.mem, sp, Long, Plus(c.pc, FormLength(form))));
      RepresentsPc(c', tr, before, t);
      JumpArrives(c', before, after, tr, disp, e.next.hostFlags, e.next.ptr, t);
      Then(PushReturn(form, off), jump, s);
    } else {
      JumpArrives(c, before, after, tr, disp, e.next.hostFlags, e.next.ptr, s);
      assert e.main == jump;
    }
    StraightFalls(e.main, s);
    StraightExits(e);
  }

  lemma RepresentsPc(c: Cpu, tr: Tr, live: Mask, s: Host)
    requires Represents(c, tr, live, s)
    ensures Plus(s.Get(PC), tr.pending) == c.pc && Coherent(tr.hostFlags, s) && Pending(tr.pending)
  {
  }

  lemma StraightFalls(code: seq<Insn>, s: Host)
    requires Straight(code)
    ensures Run(code, s) == Fall(End(code, s))
  {
    hide Step;
    RunStraight(code, [], s);
  }

  // ---------------------------------------------------------------- Scc

  lemma AdvanceRepresents(c: Cpu, tr: Tr, before: Mask, after: Mask, bytes: Word, ptr: Word, s: Host)
    requires Represents(c, tr, before, s) && bytes.b <= 255 && after & !before == 0
    ensures var (code, p) := AdvancePc(tr.pending, bytes);
      Straight(code) && Represents(c.Skip(bytes), Tr(tr.hostFlags, p, ptr), after, End(code, s))
  {
    hide Plus, AdvancePc, Run, End, Straight, CcrOf, Upper, Agree, Pending;
    AdvanceEffect(tr.pending, bytes, s);
    AgreeLess(after, before, CcrOf(s.Get(CC)), c.f);
  }

  lemma OnesBits(d: Word, size: Size)
    requires size.Byte?
    ensures Or(d, LogicalImm(7, 0)).b == Merge(d, W(0xff), size).b
  {
  }

  lemma ZerosBits(d: Word, size: Size)
    requires size.Byte?
    ensures And(d, W(!RotatedOnes(8, 0))).b == Merge(d, W(0), size).b
  {
  }

  lemma InsertBits(d: Word, x: Word, size: Size)
    requires size.Byte?
    ensures BfmValue(d, x, 0, 7).b == Merge(d, x, size).b
  {
  }

  lemma ByteValues(d: Word, x: Word, size: Size)
    requires size.Byte?
    ensures Or(d, LogicalImm(7, 0)) == Merge(d, W(0xff), size)
    ensures And(d, W(!RotatedOnes(8, 0))) == Merge(d, W(0), size)
    ensures BfmValue(d, x, 0, 7) == Merge(d, x, size)
  {
    OnesBits(d, size);
    ZerosBits(d, size);
    InsertBits(d, x, size);
    hide *;
    SameBits(Or(d, LogicalImm(7, 0)), Merge(d, W(0xff), size));
    SameBits(And(d, W(!RotatedOnes(8, 0))), Merge(d, W(0), size));
    SameBits(BfmValue(d, x, 0, 7), Merge(d, x, size));
  }

  lemma AllOrNothing(d: Word, size: Size)
    requires size.Byte?
    ensures Merge(d, Not(W(0)), size).b == Merge(d, W(0xff), size).b
    ensures And(Merge(d, W(0xff), size), W(0xff)).b == 0xff && And(Merge(d, W(0), size), W(0xff)).b == 0
    ensures And(W(0xff), W(0xff)).b == 0xff && And(W(0), W(0xff)).b == 0
    ensures Low16(W(0xff)).b == 0xff && Low16(W(0)).b == 0
  {
  }

  /** The byte of Scc: merged into a data register, or the low byte of the scratch register. */
  ghost predicate SccDone(cond: CondCode, f: Ccr, rd: Reg, s: Host, t: Host) {
    && t.mem == s.mem
    && (forall r: Reg :: !r.T? && r != rd ==> t.Get(r) == s.Get(r))
    && And(t.Get(rd), W(0xff)) == SccByte(cond, f)
    && (rd.D? ==> t.Get(rd) == Merge(s.Get(rd), SccByte(cond, f), Byte))
  }

  lemma SccConstant(cond: CondCode, f: Ccr, hostFlags: Mask, rd: Reg, s: Host)
    requires (cond.M_T? || cond.M_F?) && (rd.D? || rd == T(0))
    ensures Straight(SccValue(cond, hostFlags, rd))
    ensures SccDone(cond, f, rd, s, End(SccValue(cond, hostFlags, rd), s))
    ensures SameFlags(s, End(SccValue(cond, hostFlags, rd), s)) && Quiet(SccValue(cond, hostFlags, rd))
  {
    ByteValues(s.Get(rd), W(0), Byte);
    AllOrNothing(s.Get(rd), Byte);
    if rd.D? && cond.M_F? {
      BicClearsRotatedOnes(rd, rd, 8, 0, s);
    }
    hide LogicalImm, RotatedOnes, And, Or, Merge, Low16, Run, End, Straight;
    Exec1(SccValue(cond, hostFlags, rd)[0], s);
    var v := SccByte(cond, f);
    SameBits(And(Merge(s.Get(rd), v, Byte), W(0xff)), v);
    SameBits(And(v, W(0xff)), v);
    SameBits(Low16(v), v);
  }

  lemma TestNeverAlways(cond: CondCode, hostFlags: Mask)
    ensures var c := TestCondition(cond, hostFlags).1; c != AL && c != NV
  {
    hide OnHost;
  }

  /** Csetm and Bfi write the byte. */
  lemma SetByte(c: Cond, rd: Reg, s: Host)
    requires c != AL && c != NV && (rd.D? || rd == T(0))
    ensures var code := [Csetm(T(1), c), Bfi(rd, T(1), 0, 8)];
      var t := End(code, s);
      && Straight(code) && t.mem == s.mem && SameFlags(s, t)
      && (forall r: Reg :: !r.T? && r != rd ==> t.Get(r) == s.Get(r))
      && t.Get(rd) == Merge(s.Get(rd), if Holds(c, s) then W(0xff) else W(0), Byte)
  {
    HoldsInverted(c, s);
    var d := s.Get(rd);
    ByteValues(d, W(0), Byte);
    ByteValues(d, Not(W(0)), Byte);
    AllOrNothing(d, Byte);
    hide BfmValue, Merge, Not, And, Holds, Run, End, Straight;
    SameBits(Merge(d, Not(W(0)), Byte), Merge(d, W(0xff), Byte));
    Exec2(Csetm(T(1), c), Bfi(rd, T(1), 0, 8), s);
  }

  lemma SccTested(cond: CondCode, f: Ccr, hostFlags: Mask, rd: Reg, s: Host)
    requires !cond.M_T? && !cond.M_F? && (rd.D? || rd == T(0))
    requires Coherent(hostFlags, s) && True68(cond, f) == True68(cond, CcrOf(s.Get(CC)))
    ensures Straight(SccValue(cond, hostFlags, rd))
    ensures SccDone(cond, f, rd, s, End(SccValue(cond, hostFlags, rd), s))
    ensures Coherent(HostFlagsAfter(SccValue(cond, hostFlags, rd), hostFlags), End(SccValue(cond, hostFlags, rd), s))
  {
    hide TestCondition, Coherent, HostFlagsAfter, CcrOf, True68, And, Merge, Holds, Run, End, Straight, Csetm, Bfi;
    TestConditionDecides(cond, hostFlags, s);
    TestNeverAlways(cond, hostFlags);
    var (code, c) := TestCondition(cond, hostFlags);
    var t := End(code, s);
    var put := [Csetm(T(1), c), Bfi(rd, T(1), 0, 8)];
    SetByte(c, rd, t);
    Then(code, put, s);
    SccTail(c, rd, code, hostFlags);
    var v := SccByte(cond, f);
    AllOrNothing(t.Get(rd), Byte);
    SameBits(And(Merge(t.Get(rd), v, Byte), W(0xff)), v);
    CoherentKept(HostFlagsAfter(code, hostFlags), t, End(put, t));
  }

  lemma SccTail(c: Cond, rd: Reg, code: seq<Insn>, hostFlags: Mask)
    ensures HostFlagsAfter(code + [Csetm(T(1), c), Bfi(rd, T(1), 0, 8)], hostFlags) == HostFlagsAfter(code, hostFlags)
  {
    QuietTail(code, [Csetm(T(1), c), Bfi(rd, T(1), 0, 8)], hostFlags);
  }

  lemma CoherentKept(hostFlags: Mask, s: Host, t: Host)
    requires Coherent(hostFlags, s) && SameFlags(s, t) && t.Get(CC) == s.Get(CC)
    ensures Coherent(hostFlags, t)
  {
    hide CcrOf;
  }

  lemma SccValueEffect(cond: CondCode, f: Ccr, hostFlags: Mask, rd: Reg, s: Host)
    requires rd.D? || rd == T(0)
    requires Coherent(hostFlags, s) && True68(cond, f) == True68(cond, CcrOf(s.Get(CC)))
    ensures Straight(SccValue(cond, hostFlags, rd))
    ensures SccDone(cond, f, rd, s, End(SccValue(cond, hostFlags, rd), s))
    ensures Coherent(HostFlagsAfter(SccValue(cond, hostFlags, rd), hostFlags), End(SccValue(cond, hostFlags, rd), s))
  {
    if cond.M_T? || cond.M_F? {
      SccConstant(cond, f, hostFlags, rd, s);
      KeepsMarks(SccValue(cond, hostFlags, rd), hostFlags);
      CcKept(cond, f, rd, s, End(SccValue(cond, hostFlags, rd), s));
      CoherentKept(hostFlags, s, End(SccValue(cond, hostFlags, rd), s));
    } else {
      SccTested(cond, f, hostFlags, rd, s);
    }
    hide SccValue, Coherent, HostFlagsAfter, SccDone, Run, End, Straight, CcrOf, True68;
  }

  lemma CcKept(cond: CondCode, f: Ccr, rd: Reg, s: Host, t: Host)
    requires SccDone(cond, f, rd, s, t) && (rd.D? || rd == T(0))
    ensures t.Get(CC) == s.Get(CC)
  {
    hide And, Merge;
  }

  /** The byte operand stored. */
  function ByteStored(c: Cpu, ea: Ea, v: Word): Cpu {
    if InMemory(ea) then Stepped(c, ea, Byte).(mem := Store(c.mem, OperandAddress(c, ea, Byte), Byte, v)) else c
  }

  lemma SteppedStore(ea: Ea, c: Cpu, s: Host)
    requires Matches(c, s) && (ea.PostInc? || ea.PreDec?)
    ensures Straight(StoreByte(ea))
    ensures var t := End(StoreByte(ea), s);
      Matches(ByteStored(c, ea, s.Get(T(0))), t) && SameRest(s, t) && SameFlags(s, t)
  {
    StepValue(ea.n, Byte);
    MinusNeg(s.Get(A(ea.n)), StepOf(ea.n, Byte));
    hide Plus, Minus, Neg, Store, Sext9, StepOf, Run, End, Straight;
    Exec1(StoreByte(ea)[0], s);
  }

  lemma OffsetStore(n: nat, d16: Word, c: Cpu, s: Host)
    requires Matches(c, s) && IsD16(d16)
    ensures var code := StoreOffset(Byte, A(n), T(0), d16, false);
      var t := End(code, s);
      && Straight(code)
      && Matches(c.(mem := Store(c.mem, Plus(c.regs(A(n)), d16), Byte, s.Get(T(0)))), t) && SameRest(s, t) && SameFlags(s, t)
  {
    hide Plus, Store, StoreOffset, Run, End, Straight, IsD16;
    StoreOffsetEffect(Byte, A(n), T(0), d16, false, s);
  }

  lemma ZeroIsD16()
    ensures IsD16(W(0))
  {
  }

  lemma IndexedStore(n: nat, words: Stream, c: Cpu, s: Host)
    requires Matches(c, s) && Halfwords(words) && Mode6Valid(ExtensionOf(words, 0))
    ensures var code := Mode6(Put(Byte), A(n), words, 0, T(0)).0;
      var t := End(code, s);
      && Straight(code)
      && Matches(c.(mem := Store(c.mem, Mode6Address(AsHost(c), A(n), words, 0), Byte, s.Get(T(0)))), t)
      && SameRest(s, t) && SameFlags(s, t)
  {
    Mode6Effect(Put(Byte), A(n), words, 0, 0, s);
    SameMode6(c, A(n), words, s);
    hide Plus, Store, Mode6, Mode6Address, Halfwords, Mode6Valid, ExtensionOf, AsHost, Run, End, Straight;
  }

  lemma StoreByteEffect(ea: Ea, c: Cpu, s: Host)
    requires Matches(c, s) && WellFormedEa(ea)
    ensures Straight(StoreByte(ea))
    ensures var t := End(StoreByte(ea), s);
      Matches(ByteStored(c, ea, s.Get(T(0))), t) && SameRest(s, t) && SameFlags(s, t)
  {
    hide Plus, Minus, Store, StoreOffset, Mode6, Mode6Address, Halfwords, Mode6Valid, ExtensionOf, AsHost, Run, End, Straight, IsD16, Matches, StepOf;
    match ea
    case Indirect(n) =>
      ZeroIsD16();
      PlusZero(c.regs(A(n)));
      OffsetStore(n, W(0), c, s);
    case PostInc(n) => SteppedStore(ea, c, s);
    case PreDec(n) => SteppedStore(ea, c, s);
    case Displaced(n, d16) => OffsetStore(n, d16, c, s);
    case IndexedBy(n, words) => IndexedStore(n, words, c, s);
    case _ => Exec0(s);
  }

  /** Before the advance of the PC. */
  lemma SccStored(cond: CondCode, ea: Ea, c: Cpu, tr: Tr, before: Mask, s: Host)
    requires WellFormed(Scc(cond, ea)) && Represents(c, tr, before, s)
    requires True68(cond, c.f) == True68(cond, CcrOf(s.Get(CC)))
    ensures var value := SccValue(cond, tr.hostFlags, if ea.DataReg? then D(ea.n) else T(0));
      var code := value + StoreByte(ea);
      && Straight(code)
      && Represents(SccOn(cond, ea, c), tr.(hostFlags := HostFlagsAfter(value, tr.hostFlags)), before, End(code, s))
  {
    var rd := if ea.DataReg? then D(ea.n) else T(0);
    SccValueEffect(cond, c.f, tr.hostFlags, rd, s);
    var value := SccValue(cond, tr.hostFlags, rd);
    var t := End(value, s);
    CcKept(cond, c.f, rd, s, t);
    var c1 := if ea.DataReg? then c.With(D(ea.n), Merge(c.regs(D(ea.n)), SccByte(cond, c.f), Byte)) else c;
    SccMatches(cond, ea, c, s, t);
    hide SccValue, StoreByte, SccByte, Plus, Minus, And, Merge, Store, WellFormedEa, HostFlagsAfter, Coherent, CcrOf, Upper, Agree, Pending, True68, Run, End, Straight, Matches, OperandAddress, Stepped, SccDone;
    StoreByteEffect(ea, c1, t);
    var u := End(StoreByte(ea), t);
    Then(value, StoreByte(ea), s);
    CoherentKept(HostFlagsAfter(value, tr.hostFlags), t, u);
    SccMeaning(cond, ea, c, t.Get(T(0)));
    SteppedKeeps(c, ea);
    MatchesSame(SccOn(cond, ea, c), ByteStored(c1, ea, t.Get(T(0))), u);
  }

  lemma MatchesSame(c: Cpu, d: Cpu, s: Host)
    requires Matches(d, s) && c.regs == d.regs && c.mem == d.mem
    ensures Matches(c, s)
  {
  }

  lemma SccMatches(cond: CondCode, ea: Ea, c: Cpu, s: Host, t: Host)
    requires var rd := if ea.DataReg? then D(ea.n) else T(0); SccDone(cond, c.f, rd, s, t) && Matches(c, s)
    ensures Matches(if ea.DataReg? then c.With(D(ea.n), Merge(c.regs(D(ea.n)), SccByte(cond, c.f), Byte)) else c, t)
    ensures t.Get(PC) == s.Get(PC)
    ensures !ea.DataReg? ==> And(t.Get(T(0)), W(0xff)) == SccByte(cond, c.f)
  {
    hide And, Merge, SccByte;
  }

  lemma SteppedKeeps(c: Cpu, ea: Ea)
    ensures Stepped(c, ea, Byte).pc == c.pc && Stepped(c, ea, Byte).f == c.f && Stepped(c, ea, Byte).sys == c.sys
  {
    hide Plus, Minus, StepOf;
  }

  /** Storing a word whose low byte is the byte of Scc is what Scc means. */
  lemma SccMeaning(cond: CondCode, ea: Ea, c: Cpu, w: Word)
    requires !ea.AddrReg? && (!ea.DataReg? ==> And(w, W(0xff)) == SccByte(cond, c.f))
    ensures var c1 := if ea.DataReg? then c.With(D(ea.n), Merge(c.regs(D(ea.n)), SccByte(cond, c.f), Byte)) else c;
      var d := ByteStored(c1, ea, w);
      SccOn(cond, ea, c).regs == d.regs && SccOn(cond, ea, c).mem == d.mem
  {
    if InMemory(ea) {
      StoreLow(c.mem, OperandAddress(c, ea, Byte), Byte, w);
      assert SizeMask(Byte) == 0xff;
    }
    hide And, Merge, Store, SccByte, OperandAddress, Plus, Minus, StepOf;
  }

  /** Scc refines its m68k meaning for every condition and operand. */
  lemma SccRefines(cond: CondCode, ea: Ea, c: Cpu, tr: Tr, before: Mask, after: Mask, s: Host)
    requires WellFormed(Scc(cond, ea)) && Represents(c, tr, before, s)
    requires Flow(Scc(cond, ea), 0, before, after)
    ensures Correct(EmitScc(cond, ea, tr), Exec68(Scc(cond, ea), c), after, false, s)
  {
    FlowBits(Scc(cond, ea), 0, before, after);
    DecidedByLive(cond, before, CcrOf(s.Get(CC)), c.f);
    SccStored(cond, ea, c, tr, before, s);
    var value := SccValue(cond, tr.hostFlags, if ea.DataReg? then D(ea.n) else T(0));
    var code := value + StoreByte(ea);
    var tr1 := tr.(hostFlags := HostFlagsAfter(value, tr.hostFlags));
    var e := EmitScc(cond, ea, tr);
    var bytes := Length(ExtensionWords(ea));
    ShortLength(ExtensionWords(ea));
    hide SccValue, StoreByte, SccOn, WellFormedEa, HostFlagsAfter, CcrOf, True68, Run, End, Straight, Represents, Length, ExtensionWords, AdvancePc, Plus, Flow, Agree;
    AdvanceRepresents(SccOn(cond, ea, c), tr1, before, after, bytes, e.next.ptr, End(code, s));
    Then(code, AdvancePc(tr.pending, bytes).0, s);
    StraightFalls(e.main, s);
    StraightExits(e);
  }

  // ---------------------------------------------------------------- DBcc

  lemma CountBits(d: Word, size: Size)
    requires size.Half?
    ensures BfmValue(W(0), d, 0, 15).b == Low16(d).b
    ensures Negative(Minus(Low16(d), W(1))) == IsZero(Low16(d))
    ensures Low12(W(1)).b == 1
  {
  }

  lemma CountInsert(d: Word, x: Word, size: Size)
    requires size.Half?
    ensures BfmValue(d, x, 0, 15).b == Merge(d, x, size).b
  {
  }

  lemma CountValues(d: Word, x: Word)
    ensures BfmValue(W(0), d, 0, 15) == Low16(d) && Low12(W(1)) == W(1)
    ensures BfmValue(d, x, 0, 15) == Merge(d, x, Half)
    ensures Negative(Minus(Low16(d), W(1))) == IsZero(Low16(d))
  {
    CountBits(d, Half);
    CountInsert(d, x, Half);
    hide *;
    SameBits(BfmValue(W(0), d, 0, 15), Low16(d));
    SameBits(BfmValue(d, x, 0, 15), Merge(d, x, Half));
    SameBits(Low12(W(1)), W(1));
  }

  /** The counter goes down by one in its low word, and N says that it was zero. */
  lemma CountEffect(n: nat, s: Host)
    ensures Straight(CountCode(n))
    ensures var t := End(CountCode(n), s);
      && t.mem == s.mem && (forall r: Reg :: !r.T? && r != D(n) ==> t.Get(r) == s.Get(r))
      && t.Get(D(n)) == CountDown(s.Get(D(n)))
      && t.n == IsZero(Low16(s.Get(D(n))))
  {
    var d := s.Get(D(n));
    CountValues(d, Minus(Low16(d), W(1)));
    hide BfmValue, Low16, Low12, Merge, Minus, Negative, IsZero, NoBorrow, SubOverflow, Run, End, Straight;
    Exec3(Uxth(T(0), D(n)), SubsImmed(T(0), T(0), W(1)), Bfi(D(n), T(0), 0, 16), s);
  }

  /** The counter stepped down; the host flags no longer say anything. */
  lemma CountRepresents(n: nat, c: Cpu, tr: Tr, live: Mask, s: Host, t: Host)
    requires Represents(c, tr, live, s) && SameGuest(s, t)
    ensures Straight(CountCode(n))
    ensures var u := End(CountCode(n), t);
      && Represents(c.With(D(n), CountDown(c.regs(D(n)))), tr.(hostFlags := 0), live, u)
      && u.Get(PC) == s.Get(PC) && u.n == IsZero(Low16(c.regs(D(n))))
  {
    CountEffect(n, t);
    NoneMarked(End(CountCode(n), t));
    hide CountDown, IsZero, Low16, CountCode, Run, End, Straight, Plus, Pending, CcrOf, Upper, Agree;
  }

  function DbccOffset(disp: Word, tr: Tr): Word { Plus(Plus(W(2), disp), tr.pending) }

  lemma DbccPc(pc: Word, pending: Word, disp: Word)
    ensures Plus(pc, Plus(Plus(W(2), disp), pending)) == Plus(Plus(pc, pending), Plus(W(2), disp))
    ensures Plus(pc, Plus(W(4), pending)) == Plus(Plus(pc, pending), W(4))
  {
    PlusCommutes(Plus(W(2), disp), pending);
    PlusCommutes(W(4), pending);
    PlusAssoc(pc, pending, Plus(W(2), disp));
    PlusAssoc(pc, pending, W(4));
    hide Plus;
  }

  /** The exit block adds the pending offset and 4 by an immediate: right, since at most 120 is pending. */
  lemma DbccExit(c: Cpu, tr: Tr, before: Mask, after: Mask, s: Host)
    requires Represents(c, tr, before, s) && after & !before == 0
    ensures var code := [AddImmed(PC, PC, Plus(W(4), tr.pending))];
      Straight(code) && Represents(c.Skip(W(4)), Entry(c.Skip(W(4)).pc), after, End(code, s))
  {
    var offset := Plus(W(4), tr.pending);
    ExitReach(tr.pending);
    DbccPc(s.Get(PC), tr.pending, W(0));
    AddForm(PC, PC, offset, s);
    var t := End([AddImmed(PC, PC, offset)], s);
    NoneMarked(t);
    hide Plus, AddImmed, Run, End, Straight, CcrOf, Upper, Agree, Pending;
    Arrives(c, c.Skip(W(4)), before, after, tr, 0, c.Skip(W(4)).pc, s, t);
  }

  lemma ExitReach(pending: Word)
    requires Pending(pending)
    ensures Plus(W(4), pending).b < 4096
  {
  }

  /** In general the immediate is exact if and only if the sum is not negative (and below 4096). */
  lemma DbccExitExactIff(offset: Word, s: Host)
    ensures Step(AddImmed(PC, PC, offset), s).Get(PC) == Plus(s.Get(PC), offset) <==> offset.b < 4096
  {
    if offset.b < 4096 {
      AddForm(PC, PC, offset, s);
      Exec1(AddImmed(PC, PC, offset), s);
    } else {
      LowPart(offset);
      if Plus(s.Get(PC), Low12(offset)) == Plus(s.Get(PC), offset) {
        PlusCancels(s.Get(PC), Low12(offset), offset);
      }
      hide Plus, Low12;
    }
  }

  lemma LowPart(offset: Word)
    ensures Low12(offset).b < 4096
  {
  }

  /** Falling through the counting part: the branch back. */
  lemma DbccBack(c: Cpu, tr: Tr, before: Mask, after: Mask, disp: Word, ptr: Word, s: Host)
    requires Represents(c, tr.(hostFlags := 0), before, s) && after & !before == 0
    ensures var code := AddOffset(PC, DbccOffset(disp, tr), 4096, 4096, T(0));
      Straight(code) && Represents(c.Skip(Plus(W(2), disp)), Tr(0, W(0), ptr), after, End(code, s))
  {
    Limits();
    var offset := DbccOffset(disp, tr);
    DbccPc(s.Get(PC), tr.pending, disp);
    AddOffsetEffect(PC, offset, 4096, 4096, T(0), s);
    var t := End(AddOffset(PC, offset, 4096, 4096, T(0)), s);
    NoneMarked(t);
    hide Plus, AddOffset, Encodable, Run, End, Straight, CcrOf, Upper, Agree, Pending;
    Arrives(c, c.Skip(Plus(W(2), disp)), before, after, tr.(hostFlags := 0), 0, ptr, s, t);
  }

  function DbccEmitted(n: nat, disp: Word, tr: Tr, ptr: Word): Emitted {
    Emitted(DbccTail(n, DbccOffset(disp, tr)), true, [AddImmed(PC, PC, Plus(W(4), tr.pending))], Tr(0, W(0), ptr))
  }

  /** The guest after the counting part. */
  function Counted(n: nat, disp: Word, c: Cpu): Cpu {
    var d := c.With(D(n), CountDown(c.regs(D(n))));
    if IsZero(Low16(c.regs(D(n)))) then d.Skip(W(4)) else d.Skip(Plus(W(2), disp))
  }

  lemma TailCounts(n: nat, disp: Word, ptr: Word, c: Cpu, tr: Tr, before: Mask, after: Mask, s: Host, t: Host)
    requires Represents(c, tr, before, s) && SameGuest(s, t) && after & !before == 0
    ensures Correct(DbccEmitted(n, disp, tr, ptr), Counted(n, disp, c), after, IsZero(Low16(c.regs(D(n)))), t)
  {
    CountRepresents(n, c, tr, before, s, t);
    var u := End(CountCode(n), t);
    var d := c.With(D(n), CountDown(c.regs(D(n))));
    DbccExit(d, tr.(hostFlags := 0), before, after, u);
    DbccBack(d, tr, before, after, disp, ptr, u);
    hide CountCode, AddOffset, Plus, IsZero, Low16, CountDown, DbccOffset, Run, End, Straight, Represents;
    var e := DbccEmitted(n, disp, tr, ptr);
    TwoWays(e, CountCode(n), BCond(MI, 0), AddOffset(PC, DbccOffset(disp, tr), 4096, 4096, T(0)), Counted(n, disp, c), after, t);
  }

  lemma RunTo(prefix: seq<Insn>, branch: Insn, rest: seq<Insn>, s: Host)
    requires Straight(prefix) && Jumps(branch) && branch.dist == 0
    ensures var t := End(prefix, s);
      Run(prefix + [branch] + rest, s) == if Taken(branch, t) then Leave(t) else Run(rest, t)
  {
    hide Step;
    assert prefix + [branch] + rest == prefix + ([branch] + rest);
    RunStraight(prefix, [branch] + rest, s);
    assert ([branch] + rest)[1..] == rest;
  }

  lemma DbccShape(cond: CondCode, n: nat, disp: Word, tr: Tr)
    requires !cond.M_T? && Pending(tr.pending)
    ensures var e := EmitDbcc(cond, n, disp, tr);
      var f := DbccEmitted(n, disp, tr, e.next.ptr);
      && e.leaves && e.exit == f.exit && e.next == f.next
      && e.main == (if cond.M_F? then f.main else
           JumpPrefix(cond, tr.hostFlags) + [JumpBranch(cond, tr.hostFlags, 0)] + f.main)
  {
    hide Plus, GetOffsetPc, DbccTail, JumpOnCondition, JumpPrefix, JumpBranch, Pending, HostFlagsAfter, AddImmed;
    GetOffsetExact(tr.pending, W(0));
    PlusZero(tr.pending);
    if !cond.M_F? {
      JumpParts(cond, tr.hostFlags, 0);
    }
    var e := EmitDbcc(cond, n, disp, tr);
    var jump := if cond.M_F? then [] else JumpOnCondition(cond, tr.hostFlags, 0);
    assert e.main == jump + DbccTail(n, DbccOffset(disp, tr));
    TailResets(jump, n, DbccOffset(disp, tr), tr.hostFlags);
  }

  lemma TailResets(code: seq<Insn>, n: nat, offset: Word, hostFlags: Mask)
    ensures HostFlagsAfter(code + DbccTail(n, offset), hostFlags) == 0
  {
    hide AddOffset, HostFlagsAfter, Uxth, Bfi;
    var all := code + DbccTail(n, offset);
    assert all[|code| + 1] == SubsImmed(T(0), T(0), W(1));
    ResetAt(all, |code| + 1, hostFlags);
  }

  /** Whether DBcc ends the loop: its condition holds, or the counter was zero. */
  predicate DbccLeaves(cond: CondCode, n: nat, c: Cpu) {
    !cond.M_T? && (True68(cond, c.f) || IsZero(Low16(c.regs(D(n)))))
  }

  lemma DbccTrue(n: nat, disp: Word, c: Cpu, tr: Tr, before: Mask, after: Mask, s: Host)
    requires Represents(c, tr, before, s) && after & !before == 0
    ensures Correct(EmitDbcc(M_T, n, disp, tr), c.Skip(W(4)), after, false, s)
  {
    var e := EmitDbcc(M_T, n, disp, tr);
    Exec1(Nop, s);
    FourBytes();
    hide Plus, AdvancePc, Run, End, Straight, Represents;
    AdvanceRepresents(c, tr, before, after, W(4), e.next.ptr, s);
    Then([Nop], AdvancePc(tr.pending, W(4)).0, s);
    StraightFalls(e.main, s);
    StraightExits(e);
  }

  lemma FourBytes()
    ensures W(4).b <= 255
  {
  }

  lemma DbccTested(cond: CondCode, n: nat, disp: Word, c: Cpu, tr: Tr, before: Mask, after: Mask, s: Host)
    requires !cond.M_T? && !cond.M_F?
    requires Represents(c, tr, before, s) && after & !before == 0
    requires True68(cond, c.f) == True68(cond, CcrOf(s.Get(CC)))
    ensures Correct(EmitDbcc(cond, n, disp, tr), if True68(cond, c.f) then c.Skip(W(4)) else Counted(n, disp, c), after,
                    True68(cond, c.f) || IsZero(Low16(c.regs(D(n)))), s)
  {
    RepresentsPc(c, tr, before, s);
    DbccShape(cond, n, disp, tr);
    JumpDecides(cond, tr.hostFlags, 0, s);
    var e := EmitDbcc(cond, n, disp, tr);
    var prefix, branch := JumpPrefix(cond, tr.hostFlags), JumpBranch(cond, tr.hostFlags, 0);
    var t := End(prefix, s);
    var f := DbccEmitted(n, disp, tr, e.next.ptr);
    TailCounts(n, disp, e.next.ptr, c, tr, before, after, s, t);
    ForgetHost(c, tr, before, s, t);
    hide EmitDbcc, DbccTail, Counted, Coherent, OnlyExits, JumpPrefix, JumpBranch, HostFlagsAfter, AddImmed, Plus, True68, CcrOf, IsZero, Low16, Run, End, Straight, Represents, SameGuest, Pending, Taken;
    RunTo(prefix, branch, f.main, s);
    ExitsOf(f);
    ExitsAround(e, prefix, branch, f.main);
    DbccExit(c, tr.(hostFlags := 0), before, after, t);
  }

  lemma ForgetHost(c: Cpu, tr: Tr, live: Mask, s: Host, t: Host)
    requires Represents(c, tr, live, s) && SameGuest(s, t)
    ensures Represents(c, tr.(hostFlags := 0), live, t)
  {
    NoneMarked(t);
    hide Plus, Pending, CcrOf, Upper, Agree;
  }

  /** DBcc: a true condition leaves with the counter untouched; otherwise the low word of the counter
      goes down, and the code branches back unless it was zero. */
  lemma DbccRefines(cond: CondCode, n: nat, disp: Word, c: Cpu, tr: Tr, before: Mask, after: Mask, s: Host)
    requires Represents(c, tr, before, s) && Flow(DBcc(cond, n, disp), 0, before, after)
    ensures Correct(EmitDbcc(cond, n, disp, tr), Exec68(DBcc(cond, n, disp), c), after, DbccLeaves(cond, n, c), s)
  {
    hide EmitDbcc, Counted, Exec68, DbccLeaves, Coherent, Plus, CcrOf, True68, IsZero, Low16, Run, End, Straight, Represents, Agree, Pending, Correct, Flow, Needs;
    FlowBits(DBcc(cond, n, disp), 0, before, after);
    RepresentsPc(c, tr, before, s);
    RepresentsFlags(c, tr, before, s);
    DecidedByLive(cond, before, CcrOf(s.Get(CC)), c.f);
    DbccCases(cond, n, disp, c);
    if cond.M_T? {
      DbccTrue(n, disp, c, tr, before, after, s);
    } else if cond.M_F? {
      DbccFalse(n, disp, c, tr, before, after, s);
    } else {
      DbccTested(cond, n, disp, c, tr, before, after, s);
    }
  }

  lemma DbccFalse(n: nat, disp: Word, c: Cpu, tr: Tr, before: Mask, after: Mask, s: Host)
    requires Represents(c, tr, before, s) && after & !before == 0
    ensures Correct(EmitDbcc(M_F, n, disp, tr), Counted(n, disp, c), after, IsZero(Low16(c.regs(D(n)))), s)
  {
    hide EmitDbcc, DbccTail, Counted, Coherent, Plus, IsZero, Low16, Run, End, Straight, Represents, SameGuest, Pending, AddImmed;
    RepresentsPc(c, tr, before, s);
    DbccShape(M_F, n, disp, tr);
    SameGuestSelf(s);
    TailCounts(n, disp, EmitDbcc(M_F, n, disp, tr).next.ptr, c, tr, before, after, s, s);
  }

  lemma DbccCases(cond: CondCode, n: nat, disp: Word, c: Cpu)
    ensures Exec68(DBcc(cond, n, disp), c) == if True68(cond, c.f) then c.Skip(W(4)) else Counted(n, disp, c)
    ensures DbccLeaves(cond, n, c) == (!cond.M_T? && (True68(cond, c.f) || IsZero(Low16(c.regs(D(n))))))
    ensures cond.M_T? ==> True68(cond, c.f)
    ensures cond.M_F? ==> !True68(cond, c.f)
  {
    hide Plus, CountDown, IsZero, Low16;
  }
}
