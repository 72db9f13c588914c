/**
  Testing an m68k integer condition: EMIT_JumpOnCondition and EMIT_TestCondition
  (emu68/src/M68k_CC.c).  Either may use the host flags instead of the cached register when
  `host_flags` says they are still valid.
*/
module Conditions {
  import opened Words
  import opened A64
  import opened M68k

  /** The host flags read as m68k flags, X aside. */
  function HostNzvc(s: Host): Ccr {
    Ccr(false, s.n, s.z, s.v, s.c)
  }

  /** The invariant of `host_flags`: every flag it marks has the same value in the host flags and in
      the cached register. */
  predicate Coherent(hostFlags: Mask, s: Host) {
    Agree(hostFlags & 15, CcrOf(s.Get(CC)), HostNzvc(s))
  }

  /** Only scratch registers and host flags differ. */
  ghost predicate SameGuest(s: Host, t: Host) {
    t.mem == s.mem && forall r: Reg :: !r.T? ==> t.Get(r) == s.Get(r)
  }

  // ---------------------------------------------------------------- the emitters

  /** The host flags that the host condition of the same name reads. */
  function HostNeeds(cond: CondCode): Mask {
    match cond
    case M_NE => SR_Z case M_EQ => SR_Z
    case M_CC => SR_C case M_CS => SR_C
    case M_VC => SR_V case M_VS => SR_V
    case M_PL => SR_N case M_MI => SR_N
    case M_GE => SR_N | SR_V case M_LT => SR_N | SR_V
    case M_GT => SR_N | SR_Z | SR_V case M_LE => SR_N | SR_Z | SR_V
    case _ => 0
  }

  /** Conditions on one flag, or on N and V (and Z), may be tested on the host flags. */
  predicate OnHost(cond: CondCode, hostFlags: Mask) {
    !cond.M_T? && !cond.M_F? && !cond.M_HI? && !cond.M_LS? && hostFlags & HostNeeds(cond) == HostNeeds(cond)
  }

  function SameCond(cond: CondCode): Cond {
    match cond
    case M_EQ => EQ case M_NE => NE
    case M_CS => CS case M_CC => CLR
    case M_PL => PL case M_MI => MI
    case M_VS => VS case M_VC => VC
    case M_GE => GE case M_LT => LT
    case M_GT => GT case M_LE => LE
    case M_HI => EQ case M_LS => NE
    case M_T => EQ case M_F => EQ
  }

  /** Move the four low bits of the cached register into the host flags. */
  function Reload(): seq<Insn> {
    [Ror(T(8), CC, 4), SetNzcv(T(8))]
  }

  function JumpOnCondition(cond: CondCode, hostFlags: Mask, dist: nat): seq<Insn> {
    match cond
    case M_T => [Udf]
    case M_F => [Udf]
    case M_LS => [TstImmed(CC, 2, 31), BCond(NE, dist)]
    case M_HI => [TstImmed(CC, 2, 31), BCond(EQ, dist)]
    case _ =>
      if OnHost(cond, hostFlags) then [BCond(SameCond(cond), dist)]
      else match cond
        case M_EQ => [TestBit(true, CC, 2, dist)]
        case M_NE => [TestBit(false, CC, 2, dist)]
        case M_CS => [TestBit(true, CC, 1, dist)]
        case M_CC => [TestBit(false, CC, 1, dist)]
        case M_PL => [TestBit(false, CC, 3, dist)]
        case M_MI => [TestBit(true, CC, 3, dist)]
        case M_VS => [TestBit(true, CC, 0, dist)]
        case M_VC => [TestBit(false, CC, 0, dist)]
        case _ => Reload() + [BCond(SameCond(cond), dist)]
  }

  /** Code, and the host condition that then means "true". */
  function TestCondition(cond: CondCode, hostFlags: Mask): (seq<Insn>, Cond) {
    match cond
    case M_T => ([Udf], EQ)
    case M_F => ([Udf], EQ)
    case M_LS => ([TstImmed(CC, 2, 31)], NE)
    case M_HI => ([TstImmed(CC, 2, 31)], EQ)
    case _ =>
      if OnHost(cond, hostFlags) then ([], SameCond(cond))
      else match cond
        case M_EQ => ([TstImmed(CC, 1, 30)], NE)
        case M_NE => ([TstImmed(CC, 1, 30)], EQ)
        case M_CS => ([TstImmed(CC, 1, 31)], NE)
        case M_CC => ([TstImmed(CC, 1, 31)], EQ)
        case M_PL => ([TstImmed(CC, 1, 29)], EQ)
        case M_MI => ([TstImmed(CC, 1, 29)], NE)
        case M_VS => ([TstImmed(CC, 1, 0)], NE)
        case M_VC => ([TstImmed(CC, 1, 0)], EQ)
        case _ => (Reload(), SameCond(cond))
  }

  /** `host_flags` after a fragment: an encoder that sets the host flags resets it. */
  function HostFlagsAfter(code: seq<Insn>, hostFlags: Mask): Mask {
    if exists i :: 0 <= i < |code| && ResetsFlags(code[i]) then 0 else hostFlags
  }

  // ---------------------------------------------------------------- bits of the cached register

  lemma CcBits(cc: Word)
    ensures Bit(cc, 0) == CcrOf(cc).v && Bit(cc, 1) == CcrOf(cc).c
    ensures Bit(cc, 2) == CcrOf(cc).z && Bit(cc, 3) == CcrOf(cc).n
  {
  }

  lemma ReloadBits(cc: Word)
    ensures var w := Or(ShiftR(cc, 4), ShiftL(cc, 28));
      && Bit(w, 31) == (cc.b & 8 != 0) && Bit(w, 30) == (cc.b & 4 != 0)
      && Bit(w, 29) == (cc.b & 2 != 0) && Bit(w, 28) == (cc.b & 1 != 0)
  {
  }

  /** Reloading makes the host flags those of the cached register. */
  lemma ReloadEffect(s: Host)
    ensures Straight(Reload())
    ensures var t := End(Reload(), s);
      && SameGuest(s, t)
      && t.n == CcrOf(s.Get(CC)).n && t.z == CcrOf(s.Get(CC)).z
      && t.c == CcrOf(s.Get(CC)).c && t.v == CcrOf(s.Get(CC)).v
  {
    hide Bit, Or, ShiftR, ShiftL, Run, End, Straight;
    ReloadBits(s.Get(CC));
    Exec2(Ror(T(8), CC, 4), SetNzcv(T(8)), s);
  }

  lemma TestedBits(cc: Word)
    ensures IsZero(And(cc, LogicalImm(0, 30))) == (cc.b & 4 == 0)
    ensures IsZero(And(cc, LogicalImm(0, 31))) == (cc.b & 2 == 0)
    ensures IsZero(And(cc, LogicalImm(0, 29))) == (cc.b & 8 == 0)
    ensures IsZero(And(cc, LogicalImm(0, 0))) == (cc.b & 1 == 0)
    ensures IsZero(And(cc, LogicalImm(1, 31))) == (cc.b & 2 == 0 && cc.b & 4 == 0)
  {
  }

  /** TST changes only host flags; Z says that none of the selected bits is set. */
  lemma TestEffect(width: bv8, rot: bv8, s: Host)
    ensures Straight([TstImmed(CC, width, rot)])
    ensures var t := End([TstImmed(CC, width, rot)], s);
      SameGuest(s, t) && t.z == IsZero(And(s.Get(CC), LogicalImm(width - 1, rot)))
  {
    hide LogicalImm, IsZero, Negative, And, Run, End, Straight;
    Exec1(TstImmed(CC, width, rot), s);
  }

  lemma HostMask(cond: CondCode, hostFlags: Mask)
    requires OnHost(cond, hostFlags)
    ensures HostNeeds(cond) == Needs(cond) || cond.M_T? || cond.M_F?
    ensures Needs(cond) & 1 != 0 ==> (hostFlags & 15) & 1 != 0
    ensures Needs(cond) & 2 != 0 ==> (hostFlags & 15) & 2 != 0
    ensures Needs(cond) & 4 != 0 ==> (hostFlags & 15) & 4 != 0
    ensures Needs(cond) & 8 != 0 ==> (hostFlags & 15) & 8 != 0
    ensures Needs(cond) & 16 == 0
  {
  }

  lemma HoldsAsM68k(cond: CondCode, s: Host)
    requires !cond.M_T? && !cond.M_F? && !cond.M_HI? && !cond.M_LS?
    ensures Holds(SameCond(cond), s) == True68(cond, HostNzvc(s))
  {
  }

  /** If the flags a condition needs are marked, the host condition of the same name decides it. */
  lemma HostDecides(cond: CondCode, hostFlags: Mask, s: Host)
    requires OnHost(cond, hostFlags) && Coherent(hostFlags, s)
    ensures Holds(SameCond(cond), s) == True68(cond, CcrOf(s.Get(CC)))
  {
    hide CcrOf, Holds, True68, HostNeeds, SameCond, Needs;
    HostMask(cond, hostFlags);
    HoldsAsM68k(cond, s);
    NeedsSuffice(cond, CcrOf(s.Get(CC)), HostNzvc(s));
  }

  lemma NoneMarked(s: Host)
    ensures Coherent(0, s)
  {
    hide CcrOf;
  }

  lemma AllMarked(hostFlags: Mask, s: Host)
    requires var f := CcrOf(s.Get(CC)); s.n == f.n && s.z == f.z && s.c == f.c && s.v == f.v
    ensures Coherent(hostFlags, s)
  {
    hide CcrOf;
    NotX(hostFlags);
  }

  lemma NotX(m: Mask)
    ensures (m & 15) & 16 == 0
  {
  }

  /** Setting bits of the host flags from the register keeps what host_flags marks. */
  lemma KeepsMarks(code: seq<Insn>, hostFlags: Mask)
    requires forall i :: 0 <= i < |code| ==> !ResetsFlags(code[i])
    ensures HostFlagsAfter(code, hostFlags) == hostFlags
  {
  }

  /** The code of EMIT_TestCondition decides the m68k condition, and `host_flags` stays right. */
  lemma TestConditionDecides(cond: CondCode, hostFlags: Mask, s: Host)
    requires !cond.M_T? && !cond.M_F?
    requires Coherent(hostFlags, s)
    ensures var (code, c) := TestCondition(cond, hostFlags);
      var t := End(code, s);
      && Straight(code) && SameGuest(s, t)
      && Holds(c, t) == True68(cond, CcrOf(s.Get(CC)))
      && Coherent(HostFlagsAfter(code, hostFlags), t)
  {
    var (code, c) := TestCondition(cond, hostFlags);
    if OnHost(cond, hostFlags) {
      HostDecides(cond, hostFlags, s);
      Exec0(s);
      KeepsMarks([], hostFlags);
      hide OnHost, Coherent, Holds, True68, Run, End, Straight, Step;
    } else if cond.M_GE? || cond.M_LT? || cond.M_GT? || cond.M_LE? {
      ReloadDecides(cond, hostFlags, s);
      hide OnHost, Coherent, Holds, True68, Run, End, Straight, Step, Reload, HostFlagsAfter;
    } else {
      TestDecides(cond, s);
      var i := TestOf(cond);
      assert code == [i] && ResetsFlags(code[0]);
      NoneMarked(End(code, s));
      hide OnHost, Coherent, Holds, True68, Run, End, Straight, Step;
    }
  }

  /** The bits of the cached register that one TST examines. */
  function TestOf(cond: CondCode): Insn {
    match cond
    case M_EQ => TstImmed(CC, 1, 30) case M_NE => TstImmed(CC, 1, 30)
    case M_CS => TstImmed(CC, 1, 31) case M_CC => TstImmed(CC, 1, 31)
    case M_PL => TstImmed(CC, 1, 29) case M_MI => TstImmed(CC, 1, 29)
    case M_VS => TstImmed(CC, 1, 0) case M_VC => TstImmed(CC, 1, 0)
    case _ => TstImmed(CC, 2, 31)
  }

  predicate ByTest(cond: CondCode) {
    cond.M_HI? || cond.M_LS? || cond.M_NE? || cond.M_EQ? || cond.M_CC? || cond.M_CS? || cond.M_VC? || cond.M_VS?
    || cond.M_PL? || cond.M_MI?
  }

  function TestMeans(cond: CondCode): Cond {
    match cond
    case M_EQ => NE case M_CS => NE case M_MI => NE case M_VS => NE case M_LS => NE
    case _ => EQ
  }

  lemma TestDecides(cond: CondCode, s: Host)
    requires ByTest(cond)
    ensures Straight([TestOf(cond)])
    ensures var t := End([TestOf(cond)], s);
      SameGuest(s, t) && Holds(TestMeans(cond), t) == True68(cond, CcrOf(s.Get(CC)))
  {
    TestedBits(s.Get(CC));
    TestEffect(1, 30, s);
    TestEffect(1, 31, s);
    TestEffect(1, 29, s);
    TestEffect(1, 0, s);
    TestEffect(2, 31, s);
    CcZero(s.Get(CC));
    hide LogicalImm, And, IsZero, CcrOf, Run, End, Straight, Step, SameGuest;
  }

  lemma CcZero(cc: Word)
    ensures (cc.b & 4 == 0) == !CcrOf(cc).z && (cc.b & 2 == 0) == !CcrOf(cc).c
    ensures (cc.b & 8 == 0) == !CcrOf(cc).n && (cc.b & 1 == 0) == !CcrOf(cc).v
  {
  }

  lemma ReloadDecides(cond: CondCode, hostFlags: Mask, s: Host)
    requires cond.M_GE? || cond.M_LT? || cond.M_GT? || cond.M_LE?
    ensures Straight(Reload())
    ensures var t := End(Reload(), s);
      && SameGuest(s, t)
      && Holds(SameCond(cond), t) == True68(cond, CcrOf(s.Get(CC)))
      && Coherent(HostFlagsAfter(Reload(), hostFlags), t)
  {
    ReloadEffect(s);
    var t := End(Reload(), s);
    hide CcrOf, Run, End, Straight, Step, Reload, HostFlagsAfter, Agree;
    assert t.Get(CC) == s.Get(CC);
    AllMarked(HostFlagsAfter(Reload(), hostFlags), t);
    ReloadMeans(cond, CcrOf(s.Get(CC)), t);
    hide Coherent, SameGuest, Holds, True68;
  }

  lemma ReloadMeans(cond: CondCode, f: Ccr, t: Host)
    requires cond.M_GE? || cond.M_LT? || cond.M_GT? || cond.M_LE?
    requires t.n == f.n && t.z == f.z && t.v == f.v
    ensures Holds(SameCond(cond), t) == True68(cond, f)
  {
  }

  // ---------------------------------------------------------------- the conditional branch

  /** What EMIT_JumpOnCondition emits before its branch. */
  function JumpPrefix(cond: CondCode, hostFlags: Mask): seq<Insn> {
    if OnHost(cond, hostFlags) then []
    else if cond.M_GE? || cond.M_LT? || cond.M_GT? || cond.M_LE? then Reload()
    else if cond.M_HI? || cond.M_LS? then [TestOf(cond)]
    else []
  }

  function JumpBranch(cond: CondCode, hostFlags: Mask, dist: nat): Insn {
    if OnHost(cond, hostFlags) || cond.M_GE? || cond.M_LT? || cond.M_GT? || cond.M_LE? then BCond(SameCond(cond), dist)
    else if cond.M_HI? || cond.M_LS? then BCond(TestMeans(cond), dist)
    else TestBit(TestMeans(cond) == NE, CC, FlagBit(cond), dist)
  }

  function FlagBit(cond: CondCode): bv8 {
    match cond
    case M_EQ => 2 case M_NE => 2
    case M_CS => 1 case M_CC => 1
    case M_PL => 3 case M_MI => 3
    case _ => 0
  }

  lemma JumpParts(cond: CondCode, hostFlags: Mask, dist: nat)
    requires !cond.M_T? && !cond.M_F?
    ensures JumpOnCondition(cond, hostFlags, dist) == JumpPrefix(cond, hostFlags) + [JumpBranch(cond, hostFlags, dist)]
    ensures Jumps(JumpBranch(cond, hostFlags, dist)) && JumpBranch(cond, hostFlags, dist).dist == dist
  {
    hide HostNeeds;
  }

  lemma BitDecides(cond: CondCode, dist: nat, s: Host)
    requires ByTest(cond) && !cond.M_HI? && !cond.M_LS?
    ensures Taken(TestBit(TestMeans(cond) == NE, CC, FlagBit(cond), dist), s) == True68(cond, CcrOf(s.Get(CC)))
  {
    CcBits(s.Get(CC));
    hide Bit, CcrOf;
  }

  /** The branch EMIT_JumpOnCondition emits is taken exactly when the m68k condition holds, whatever
      `host_flags` allows it to use; the guest state is untouched and `host_flags` stays right. */
  lemma JumpDecides(cond: CondCode, hostFlags: Mask, dist: nat, s: Host)
    requires !cond.M_T? && !cond.M_F?
    requires Coherent(hostFlags, s)
    ensures Straight(JumpPrefix(cond, hostFlags))
    ensures Jumps(JumpBranch(cond, hostFlags, dist)) && JumpBranch(cond, hostFlags, dist).dist == dist
    ensures var t := End(JumpPrefix(cond, hostFlags), s);
      && SameGuest(s, t)
      && Taken(JumpBranch(cond, hostFlags, dist), t) == True68(cond, CcrOf(s.Get(CC)))
      && Coherent(HostFlagsAfter(JumpPrefix(cond, hostFlags), hostFlags), t)
  {
    if OnHost(cond, hostFlags) {
      HostDecides(cond, hostFlags, s);
      Exec0(s);
      KeepsMarks([], hostFlags);
      hide OnHost, Coherent, Holds, True68, Run, End, Straight, Step;
    } else if cond.M_GE? || cond.M_LT? || cond.M_GT? || cond.M_LE? {
      ReloadDecides(cond, hostFlags, s);
      hide OnHost, Coherent, Holds, True68, Run, End, Straight, Step, Reload, HostFlagsAfter;
    } else if cond.M_HI? || cond.M_LS? {
      TestDecides(cond, s);
      assert ResetsFlags([TestOf(cond)][0]);
      NoneMarked(End([TestOf(cond)], s));
      hide OnHost, Coherent, Holds, True68, Run, End, Straight, Step;
    } else {
      BitDecides(cond, dist, s);
      Exec0(s);
      KeepsMarks([], hostFlags);
      hide OnHost, Coherent, Holds, True68, Run, End, Straight, Step, Bit;
    }
  }
}
