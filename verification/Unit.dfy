/**
  Whole translation units and whole runs.  A unit is the translation of a path through the guest
  program; each conditional branch leaves it through an exit block when the other path is taken.
  Update masks come from a liveness analysis of the condition codes; here they are any masks that satisfy the
  data-flow inequalities, as those of M68K_GetSRMask do (module FlagScan).
*/
module Unit {
  import opened Words
  import opened A64
  import opened M68k
  import opened Capture
  import opened Conditions
  import opened Pc
  import opened Manual
  import opened Guest
  import opened EmitQuick
  import opened EmitBranch

  /** The translator's free choices at one instruction: the direction a branch is predicted to take,
      whether the target of BRA or BSR is inlined, and whether the unit ends here (it is long enough, or
      the loop limit is reached). */
  datatype Choice = Choice(takeBranch: bool, inlined: bool, stop: bool)

  function Emit(i: Insn68, mask: Mask, choice: Choice, tr: Tr): Emitted {
    match i
    case QuickOp(op, q, size, ea) => Emitted(QuickCode(op, q, size, mask, ea, tr.pending), false, [], QuickNext(op, q, size, mask, ea, tr))
    case Scc(cond, ea) => EmitScc(cond, ea, tr)
    case DBcc(cond, n, disp) => EmitDbcc(cond, n, disp, tr)
    case Bcc(cond, form, disp) => EmitBcc(cond, form, disp, choice.takeBranch, tr)
    case BRA(form, disp) => EmitBra(false, form, disp, choice.inlined, tr)
    case BSR(form, disp) => EmitBra(true, form, disp, choice.inlined, tr)
  }

  predicate Stops(i: Insn68, choice: Choice) {
    choice.stop || ((i.BRA? || i.BSR?) && !choice.inlined)
  }

  type Program = Word -> Insn68

  /** The translation of a path, one choice for each instruction. */
  function Translate(prog: Program, masks: Word -> Mask, choices: seq<Choice>, tr: Tr): seq<Emitted> {
    if choices == [] then []
    else
      var i := prog(tr.ptr);
      var e := Emit(i, masks(tr.ptr), choices[0], tr);
      [e] + (if Stops(i, choices[0]) then [] else Translate(prog, masks, choices[1..], e.next))
  }

  /** Running a unit: fragment after fragment, out through an exit block if a branch leaves, else to the
      end, where what is pending is written out. */
  function RunUnit(fragments: seq<Emitted>, pending: Word, s: Host): Host {
    if fragments == [] then End(FlushPc(pending), s)
    else
      match Run(fragments[0].main, s)
      case Leave(t) => End(fragments[0].exit, t)
      case Fall(t) => RunUnit(fragments[1..], fragments[0].next.pending, t)
  }

  // ---------------------------------------------------------------- the guest's side

  function Steps(prog: Program, k: nat, c: Cpu): Cpu {
    if k == 0 then c else Steps(prog, k - 1, Exec68(prog(c.pc), c))
  }

  /** Whether the guest takes the path a unit does not follow. */
  predicate Leaves(i: Insn68, choice: Choice, c: Cpu) {
    match i
    case Bcc(cond, _, _) => True68(cond, c.f) != choice.takeBranch
    case DBcc(cond, n, _) => DbccLeaves(cond, n, c)
    case _ => false
  }

  /** How many instructions the guest executes in a unit. */
  function UnitSteps(prog: Program, choices: seq<Choice>, c: Cpu): nat {
    if choices == [] then 0
    else
      var i := prog(c.pc);
      if Leaves(i, choices[0], c) || Stops(i, choices[0]) then 1
      else 1 + UnitSteps(prog, choices[1..], Exec68(i, c))
  }

  // ---------------------------------------------------------------- liveness

  predicate Successor(i: Insn68, a: Word, b: Word) {
    match i
    case QuickOp(_, _, _, ea) => b == Plus(a, Length(ExtensionWords(ea)))
    case Scc(_, ea) => b == Plus(a, Length(ExtensionWords(ea)))
    case DBcc(_, _, disp) => b == Plus(a, W(4)) || b == Plus(a, Plus(W(2), disp))
    case Bcc(_, form, disp) => b == Plus(a, FormLength(form)) || b == Plus(a, Plus(W(2), disp))
    case BRA(_, disp) => b == Plus(a, Plus(W(2), disp))
    case BSR(_, disp) => b == Plus(a, Plus(W(2), disp))
  }

  /** `live` is a solution of the data-flow inequalities of the program, and the masks cover it. */
  ghost predicate Sound(prog: Program, live: Word -> Mask, masks: Word -> Mask) {
    forall a: Word, b: Word :: Successor(prog(a), a, b) ==> Flow(prog(a), masks(a), live(a), live(b))
  }

  ghost predicate Modelled(prog: Program) {
    forall a: Word :: WellFormed(prog(a))
  }

  // ---------------------------------------------------------------- one instruction

  lemma MaskIsZero(i: Insn68, mask: Mask, before: Mask, after: Mask)
    requires Flow(i, mask, before, after) && !i.QuickOp?
    ensures Flow(i, 0, before, after)
  {
    FlowBits(i, mask, before, after);
    hide NeedsOf;
  }

  /** Every emitter refines its instruction. */
  lemma EmitRefines(i: Insn68, mask: Mask, choice: Choice, c: Cpu, tr: Tr, before: Mask, after: Mask, s: Host)
    requires WellFormed(i) && Represents(c, tr, before, s) && Flow(i, mask, before, after)
    ensures Correct(Emit(i, mask, choice, tr), Exec68(i, c), after, Leaves(i, choice, c), s)
  {
    hide Exec68, Represents, WellFormed, Flow, EmitScc, EmitDbcc, EmitBcc, EmitBra, True68, DbccLeaves, Run, End, Straight, QuickNext, QuickCode;
    if !i.QuickOp? {
      MaskIsZero(i, mask, before, after);
    }
    match i
    case QuickOp(op, q, size, ea) =>
      QuickRefines(op, q, size, mask, ea, c, tr, before, after, s);
      StraightFalls(QuickCode(op, q, size, mask, ea, tr.pending), s);
      StraightExits(Emit(i, mask, choice, tr));
    case Scc(cond, ea) =>
      hide Correct;
      SccRefines(cond, ea, c, tr, before, after, s);
    case DBcc(cond, n, disp) =>
      hide Correct;
      DbccRefines(cond, n, disp, c, tr, before, after, s);
    case Bcc(cond, form, disp) =>
      hide Correct;
      BccRefines(cond, form, disp, choice.takeBranch, c, tr, before, after, s);
    case BRA(form, disp) =>
      hide Correct;
      BraRefines(false, form, disp, choice.inlined, c, tr, before, after, s);
    case BSR(form, disp) =>
      hide Correct;
      BraRefines(true, form, disp, choice.inlined, c, tr, before, after, s);
  }

  /** Translation goes on where the guest does. */
  lemma NextIsGuest(i: Insn68, mask: Mask, choice: Choice, c: Cpu, tr: Tr)
    requires tr.ptr == c.pc && !Leaves(i, choice, c) && !Stops(i, choice)
    ensures Emit(i, mask, choice, tr).next.ptr == Exec68(i, c).pc
  {
    hide Plus, Minus, True68, QuickHostFlags, HostFlagsAfter, AdvancePc, GetOffsetPc, JumpOnCondition, SccValue, StoreByte, SccOn, QuickOn, AddOffset, PushReturn, DbccTail, CountDown, IsZero, Low16, Store, Length, ExtensionWords, Compute, QuickCode, BranchOffset, NextOffset;
    match i
    case QuickOp(op, q, size, ea) => KeepsPcAndSys(op, q, size, ea, c);
    case Scc(cond, ea) => SccKeepsPc(cond, ea, c);
    case DBcc(cond, n, disp) => TrueIsTrue(cond, c.f);
    case _ =>
  }

  lemma TrueIsTrue(cond: CondCode, f: Ccr)
    ensures cond.M_T? ==> True68(cond, f)
  {
  }

  lemma SccKeepsPc(cond: CondCode, ea: Ea, c: Cpu)
    ensures SccOn(cond, ea, c).pc == c.pc
  {
    SteppedKeeps(c, ea);
    hide Merge, SccByte, OperandAddress, Store, Stepped;
  }

  lemma ExecSuccessor(i: Insn68, c: Cpu)
    ensures Successor(i, c.pc, Exec68(i, c).pc)
  {
    hide Plus, Minus, True68, SccOn, QuickOn, CountDown, IsZero, Low16, Store, Length, ExtensionWords;
    match i
    case QuickOp(op, q, size, ea) => KeepsPcAndSys(op, q, size, ea, c);
    case Scc(cond, ea) => SccKeepsPc(cond, ea, c);
    case _ =>
  }

  // ---------------------------------------------------------------- whole units

  lemma FlushRepresents(c: Cpu, tr: Tr, live: Mask, s: Host)
    requires Represents(c, tr, live, s)
    ensures Straight(FlushPc(tr.pending))
    ensures Represents(c, Entry(c.pc), live, End(FlushPc(tr.pending), s))
  {
    PendingSmall(tr.pending);
    FlushEffect(tr.pending, s);
    var t := End(FlushPc(tr.pending), s);
    NoneMarked(t);
    NothingPending();
    PlusZero(t.Get(PC));
    hide Plus, FlushPc, Pending, Small, CcrOf, Upper, Agree, Run, End, Straight;
  }

  lemma PendingSmall(p: Word)
    requires Pending(p)
    ensures Small(p)
  {
  }

  /** A unit translated along any path, with any sound masks, takes a host state that represents the
      guest to one that represents the guest some whole number of instructions later. */
  lemma {:induction false} UnitRefines(prog: Program, live: Word -> Mask, masks: Word -> Mask, choices: seq<Choice>, c: Cpu, tr: Tr, s: Host)
    requires Modelled(prog) && Sound(prog, live, masks)
    requires Represents(c, tr, live(c.pc), s) && tr.ptr == c.pc
    ensures var c' := Steps(prog, UnitSteps(prog, choices, c), c);
      Represents(c', Entry(c'.pc), live(c'.pc), RunUnit(Translate(prog, masks, choices, tr), tr.pending, s))
    decreases |choices|
  {
    hide Exec68, Represents, WellFormed, Flow, Emit, Leaves, Stops, Run, End, Straight, Successor, FlushPc;
    if choices == [] {
      FlushRepresents(c, tr, live(c.pc), s);
    } else {
      var i := prog(c.pc);
      var e := Emit(i, masks(c.pc), choices[0], tr);
      var c' := Exec68(i, c);
      ExecSuccessor(i, c);
      EmitRefines(i, masks(c.pc), choices[0], c, tr, live(c.pc), live(c'.pc), s);
      assert Steps(prog, 1, c) == c';
      var fragments := Translate(prog, masks, choices, tr);
      assert fragments[0] == e;
      if Run(e.main, s).Fall? {
        var t := Run(e.main, s).s;
        if Stops(i, choices[0]) {
          assert fragments[1..] == [];
          FlushRepresents(c', e.next, live(c'.pc), t);
        } else {
          NextIsGuest(i, masks(c.pc), choices[0], c, tr);
          assert fragments[1..] == Translate(prog, masks, choices[1..], e.next);
          UnitRefines(prog, live, masks, choices[1..], c', e.next, t);
        }
      }
    }
  }

  // ---------------------------------------------------------------- every instruction boundary

  /** What the translator knows after a path. */
  function TrAfter(prog: Program, masks: Word -> Mask, choices: seq<Choice>, tr: Tr): Tr
    decreases |choices|
  {
    if choices == [] then tr
    else TrAfter(prog, masks, choices[1..], Emit(prog(tr.ptr), masks(tr.ptr), choices[0], tr).next)
  }

  /** The guest follows the path to its end. */
  predicate Stays(prog: Program, choices: seq<Choice>, c: Cpu)
    decreases |choices|
  {
    choices == []
    || (!Leaves(prog(c.pc), choices[0], c) && !Stops(prog(c.pc), choices[0]) && Stays(prog, choices[1..], Exec68(prog(c.pc), c)))
  }

  /** The host state after the fragments of a path, none of which is left. */
  function FallThrough(fragments: seq<Emitted>, s: Host): Host
    decreases |fragments|
  {
    if fragments == [] then s else FallThrough(fragments[1..], Run(fragments[0].main, s).s)
  }

  lemma {:induction false} BoundaryRepresents(prog: Program, live: Word -> Mask, masks: Word -> Mask, choices: seq<Choice>, c: Cpu, tr: Tr, s: Host)
    requires Modelled(prog) && Sound(prog, live, masks) && Stays(prog, choices, c)
    requires Represents(c, tr, live(c.pc), s) && tr.ptr == c.pc
    ensures var c' := Steps(prog, |choices|, c);
      Represents(c', TrAfter(prog, masks, choices, tr), live(c'.pc), FallThrough(Translate(prog, masks, choices, tr), s))
    decreases |choices|
  {
    hide Exec68, Represents, WellFormed, Flow, Emit, Leaves, Stops, End, Straight, Successor;
    if choices != [] {
      var i := prog(c.pc);
      var e := Emit(i, masks(c.pc), choices[0], tr);
      var c' := Exec68(i, c);
      ExecSuccessor(i, c);
      EmitRefines(i, masks(c.pc), choices[0], c, tr, live(c.pc), live(c'.pc), s);
      NextIsGuest(i, masks(c.pc), choices[0], c, tr);
      hide Run;
      var fragments := Translate(prog, masks, choices, tr);
      assert fragments[0] == e && fragments[1..] == Translate(prog, masks, choices[1..], e.next);
      BoundaryRepresents(prog, live, masks, choices[1..], c', e.next, Run(e.main, s).s);
    }
  }

  /** The invariant of `host_flags`: at every instruction boundary of every translated path, testing the host
      flags a condition may be tested on and testing the cached register decide alike. */
  lemma HostFlagsCoherent(prog: Program, live: Word -> Mask, masks: Word -> Mask, choices: seq<Choice>, cond: CondCode, c: Cpu, tr: Tr, s: Host)
    requires Modelled(prog) && Sound(prog, live, masks) && Stays(prog, choices, c)
    requires Represents(c, tr, live(c.pc), s) && tr.ptr == c.pc
    requires OnHost(cond, TrAfter(prog, masks, choices, tr).hostFlags)
    ensures var t := FallThrough(Translate(prog, masks, choices, tr), s);
      Holds(SameCond(cond), t) == True68(cond, CcrOf(t.Get(CC)))
  {
    BoundaryRepresents(prog, live, masks, choices, c, tr, s);
    var t := FallThrough(Translate(prog, masks, choices, tr), s);
    var hostFlags := TrAfter(prog, masks, choices, tr).hostFlags;
    assert Coherent(hostFlags, t);
    HostDecides(cond, hostFlags, t);
  }

  // ---------------------------------------------------------------- whole runs

  /** Unit after unit, each translated from the PC reached, with nothing pending and no host flag valid. */
  function RunUnits(prog: Program, masks: Word -> Mask, plan: seq<seq<Choice>>, s: Host): Host {
    if plan == [] then s
    else
      var tr := Entry(s.Get(PC));
      RunUnits(prog, masks, plan[1..], RunUnit(Translate(prog, masks, plan[0], tr), tr.pending, s))
  }

  function PlanSteps(prog: Program, plan: seq<seq<Choice>>, c: Cpu): nat {
    if plan == [] then 0
    else
      var k := UnitSteps(prog, plan[0], c);
      k + PlanSteps(prog, plan[1..], Steps(prog, k, c))
  }

  lemma {:induction false} StepsAdd(prog: Program, j: nat, k: nat, c: Cpu)
    ensures Steps(prog, j + k, c) == Steps(prog, k, Steps(prog, j, c))
    decreases j
  {
    hide Exec68;
    if j > 0 {
      StepsAdd(prog, j - 1, k, Exec68(prog(c.pc), c));
    }
  }

  lemma EntryPtr(c: Cpu, ptr: Word, live: Mask, s: Host)
    requires Represents(c, Entry(ptr), live, s)
    ensures s.Get(PC) == c.pc
  {
    PlusZero(s.Get(PC));
    hide Plus, CcrOf, Upper, Agree, Pending;
  }

  /** Any run of units, however the program is cut into them, refines the guest's run. */
  lemma {:induction false} RunRefines(prog: Program, live: Word -> Mask, masks: Word -> Mask, plan: seq<seq<Choice>>, c: Cpu, s: Host)
    requires Modelled(prog) && Sound(prog, live, masks) && Represents(c, Entry(c.pc), live(c.pc), s)
    ensures var c' := Steps(prog, PlanSteps(prog, plan, c), c);
      Represents(c', Entry(c'.pc), live(c'.pc), RunUnits(prog, masks, plan, s))
    decreases |plan|
  {
    hide Represents, Sound, Modelled, RunUnit, Translate, UnitSteps, Exec68;
    EntryPtr(c, c.pc, live(c.pc), s);
    if plan != [] {
      var k := UnitSteps(prog, plan[0], c);
      UnitRefines(prog, live, masks, plan[0], c, Entry(c.pc), s);
      var t := RunUnit(Translate(prog, masks, plan[0], Entry(c.pc)), Entry(c.pc).pending, s);
      RunRefines(prog, live, masks, plan[1..], Steps(prog, k, c), t);
      StepsAdd(prog, k, PlanSteps(prog, plan[1..], Steps(prog, k, c)), c);
    }
  }

  /** Registers, memory and PC. */
  ghost predicate SameProgramState(s: Host, t: Host) {
    s.mem == t.mem && s.Get(PC) == t.Get(PC) && forall r: Reg :: r.D? || r.A? ==> s.Get(r) == t.Get(r)
  }

  lemma SameGuestState(c: Cpu, live: Mask, live': Mask, s: Host, t: Host)
    requires Represents(c, Entry(c.pc), live, s) && Represents(c, Entry(c.pc), live', t)
    ensures SameProgramState(s, t)
  {
    EntryPtr(c, c.pc, live, s);
    EntryPtr(c, c.pc, live', t);
    hide Plus, CcrOf, Upper, Agree, Pending, Coherent;
  }

  /** Dead-flag elimination is invisible: with any two sound choices of update masks, for instance with
      all flags always computed, a run reaches the same registers, memory and PC. */
  lemma DeadFlagsInvisible(prog: Program, live: Word -> Mask, masks: Word -> Mask, live': Word -> Mask, masks': Word -> Mask,
                           plan: seq<seq<Choice>>, c: Cpu, s: Host)
    requires Modelled(prog) && Sound(prog, live, masks) && Sound(prog, live', masks')
    requires Represents(c, Entry(c.pc), SR_CCR, s) && live(c.pc) < 32 && live'(c.pc) < 32
    ensures SameProgramState(RunUnits(prog, masks, plan, s), RunUnits(prog, masks', plan, s))
  {
    Narrow(c, live(c.pc), s);
    Narrow(c, live'(c.pc), s);
    hide Represents, Sound, Modelled, RunUnits, PlanSteps, Steps, SameProgramState;
    RunRefines(prog, live, masks, plan, c, s);
    RunRefines(prog, live', masks', plan, c, s);
    var c' := Steps(prog, PlanSteps(prog, plan, c), c);
    SameGuestState(c', live(c'.pc), live'(c'.pc), RunUnits(prog, masks, plan, s), RunUnits(prog, masks', plan, s));
  }

  lemma Narrow(c: Cpu, live: Mask, s: Host)
    requires Represents(c, Entry(c.pc), SR_CCR, s) && live < 32
    ensures Represents(c, Entry(c.pc), live, s)
  {
    Below32(live);
    AgreeLess(live, SR_CCR, CcrOf(s.Get(CC)), c.f);
    hide Plus, CcrOf, Upper, Agree, Pending, Coherent;
  }

  lemma Below32(m: Mask)
    requires m < 32
    ensures m & !SR_CCR == 0
  {
  }

  /** Computing every flag is sound for every program. */
  lemma AllFlagsSound(prog: Program)
    ensures Sound(prog, a => SR_CCR, a => SetsOf(prog(a)))
  {
    forall a: Word, b: Word | Successor(prog(a), a, b)
      ensures Flow(prog(a), SetsOf(prog(a)), SR_CCR, SR_CCR)
    {
      AllFlow(prog(a));
    }
  }

  lemma AllFlow(i: Insn68)
    ensures Flow(i, SetsOf(i), SR_CCR, SR_CCR)
  {
    match i
    case QuickOp(_, _, _, _) =>
    case Scc(cond, _) => NeedsSmall(cond);
    case DBcc(cond, _, _) => NeedsSmall(cond);
    case Bcc(cond, _, _) => NeedsSmall(cond);
    case _ =>
  }

  lemma NeedsSmall(cond: CondCode)
    ensures Needs(cond) & !SR_CCR == 0
  {
  }

  /** A flag-setting instruction and the consumer after it: any mask that contains what the consumer
      declares gives the same registers, memory and PC as the full mask. */
  lemma PairSound(op: QOp, q: Word, size: Size, ea: Ea, mask: Mask, next: Insn68, choice: Choice, c: Cpu, tr: Tr, before: Mask, s: Host)
    requires WellFormed(QuickOp(op, q, size, ea)) && WellFormed(next) && !ea.AddrReg? && !next.QuickOp?
    requires Represents(c, tr, before, s)
    requires mask < 32 && NeedsOf(next) & !mask == 0
    ensures var first := QuickOp(op, q, size, ea);
      var c1 := Exec68(first, c);
      var e := Emit(first, mask, choice, tr);
      var t := End(e.main, s);
      Straight(e.main) && Correct(Emit(next, 0, choice, e.next), Exec68(next, c1), mask, Leaves(next, choice, c1), t)
  {
    hide Represents, Exec68, WellFormed, Correct, Flow, Run, End, Straight, QuickCode, QuickNext, Leaves;
    var first := QuickOp(op, q, size, ea);
    PairFlow(first, next, mask, before);
    var e := Emit(first, mask, choice, tr);
    QuickRefines(op, q, size, mask, ea, c, tr, before, mask, s);
    EmitRefines(next, 0, choice, Exec68(first, c), e.next, mask, mask, End(e.main, s));
  }

  lemma PairFlow(first: Insn68, next: Insn68, mask: Mask, before: Mask)
    requires first.QuickOp? && !first.ea.AddrReg? && !next.QuickOp?
    requires mask < 32 && NeedsOf(next) & !mask == 0
    ensures Flow(first, mask, before, mask) && Flow(next, 0, mask, mask)
  {
    SetsCases(first);
    SetsCases(next);
    MaskFlow(mask, before);
    hide NeedsOf, SetsOf;
    assert NeedsOf(first) == 0;
  }

  lemma MaskFlow(mask: Mask, before: Mask)
    requires mask < 32
    ensures mask & !SR_CCR & !before == 0 && mask & SR_CCR & !mask == 0 && mask & !SR_CCR == 0
    ensures mask & !0 & !mask == 0 && mask & 0 & !0 == 0 && (0 as Mask) & !0 == 0 && (0 as Mask) & !before == 0
  {
  }
}
