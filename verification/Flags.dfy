/**
  Flag helpers of the encoder header: clearing and setting bits of the cached condition-code
  register, and capturing the host flags into it (emu68/include/A64.h).
  Flags are masks of the cached register, where bit 0 is V and bit 1 is C.
*/
module Flags {
  import opened Words
  import opened A64

  /** Everything but the cached condition codes and scratch registers is as before. */
  ghost predicate OnlyCc(s: Host, t: Host) {
    && t.mem == s.mem
    && t.n == s.n && t.z == s.z && t.c == s.c && t.v == s.v
    && forall r: Reg :: r != CC && !r.T? ==> t.Get(r) == s.Get(r)
  }

  /** Width and rotation of the 5-bit masks that are one run of ones; 0 width if the mask is not one. */
  function RunOf(flags: bv8): (bv8, bv8) {
    match flags
    case 1 => (1, 0)
    case 3 => (2, 0)
    case 7 => (3, 0)
    case 15 => (4, 0)
    case 31 => (5, 0)
    case 2 => (1, 31)
    case 6 => (2, 31)
    case 14 => (3, 31)
    case 30 => (4, 31)
    case 4 => (1, 30)
    case 12 => (2, 30)
    case 28 => (3, 30)
    case 8 => (1, 29)
    case 24 => (2, 29)
    case 16 => (1, 28)
    case _ => (0, 0)
  }

  function ClearFlags(flags: bv8): seq<Insn> {
    var (w, r) := RunOf(flags);
    if flags == 0 then []
    else if w != 0 then [BicImmed(CC, CC, w, r)]
    else [MovImmed(T(9), W(flags as bv32), 0), BicReg(CC, CC, T(9))]
  }

  function SetFlags(flags: bv8): seq<Insn> {
    var (w, r) := RunOf(flags);
    if flags == 0 then []
    else if w != 0 then [OrrImmed(CC, CC, w, r)]
    else [MovImmed(T(9), W(flags as bv32), 0), OrrReg(CC, CC, T(9), LSL, 0)]
  }

  lemma RunIsMask(flags: bv8)
    ensures var (w, r) := RunOf(flags); w != 0 ==> 1 <= w <= 5 && RotatedOnes(w, r) == flags as bv32
    ensures var (w, r) := RunOf(flags); w != 0 ==> LogicalImm(w - 1, r) == W(flags as bv32)
  {
  }

  lemma ClearRun(w: bv8, r: bv8, m: bv32, s: Host)
    requires 1 <= w <= 31 && RotatedOnes(w, r) == m
    ensures Straight([BicImmed(CC, CC, w, r)])
    ensures var o := End([BicImmed(CC, CC, w, r)], s);
      OnlyCc(s, o) && o.Get(CC) == And(s.Get(CC), W(!m))
  {
    hide LogicalImm, RotatedOnes, And, Run, End, Straight;
    Exec1(BicImmed(CC, CC, w, r), s);
    BicClearsRotatedOnes(CC, CC, w, r, s);
  }

  lemma NotBits(m: bv32)
    ensures Not(W(m)) == W(!m)
  {
  }

  lemma ClearWord(flags: bv8, s: Host)
    ensures Straight([MovImmed(T(9), W(flags as bv32), 0), BicReg(CC, CC, T(9))])
    ensures var o := End([MovImmed(T(9), W(flags as bv32), 0), BicReg(CC, CC, T(9))], s);
      OnlyCc(s, o) && o.Get(CC) == And(s.Get(CC), W(!(flags as bv32)))
  {
    hide Run, End, Straight, And, Not, Low16, ShiftL;
    var m := W(flags as bv32);
    Low16Small(m);
    ShiftLZero(m);
    NotBits(flags as bv32);
    Exec2(MovImmed(T(9), m, 0), BicReg(CC, CC, T(9)), s);
  }

  lemma AndOnes(x: Word)
    ensures And(x, W(0xffff_ffff)) == x
  {
    assert And(x, W(0xffff_ffff)).b == x.b;
  }

  /** For every mask, `ClearFlags` clears exactly its bits. */
  lemma ClearFlagsExact(flags: bv8, s: Host)
    ensures Straight(ClearFlags(flags))
    ensures var o := End(ClearFlags(flags), s);
      OnlyCc(s, o) && o.Get(CC) == And(s.Get(CC), W(!(flags as bv32)))
  {
    var (w, r) := RunOf(flags);
    RunIsMask(flags);
    Exec0(s);
    AndOnes(s.Get(CC));
    hide RunOf, RotatedOnes, Step, Run, End, Straight, And;
    if flags == 0 {
      assert W(!(flags as bv32)) == W(0xffff_ffff);
    } else if w != 0 {
      ClearRun(w, r, flags as bv32, s);
    } else {
      ClearWord(flags, s);
    }
  }

  lemma SetRun(w: bv8, r: bv8, m: Word, s: Host)
    requires LogicalImm(w - 1, r) == m
    ensures Straight([OrrImmed(CC, CC, w, r)])
    ensures var o := End([OrrImmed(CC, CC, w, r)], s);
      OnlyCc(s, o) && o.Get(CC) == Or(s.Get(CC), m)
  {
    hide LogicalImm, Or, Run, End, Straight;
    Exec1(OrrImmed(CC, CC, w, r), s);
  }

  lemma SetWord(flags: bv8, s: Host)
    ensures Straight([MovImmed(T(9), W(flags as bv32), 0), OrrReg(CC, CC, T(9), LSL, 0)])
    ensures var o := End([MovImmed(T(9), W(flags as bv32), 0), OrrReg(CC, CC, T(9), LSL, 0)], s);
      OnlyCc(s, o) && o.Get(CC) == Or(s.Get(CC), W(flags as bv32))
  {
    hide Run, End, Straight, Or, Low16, ShiftL;
    var m := W(flags as bv32);
    Low16Small(m);
    ShiftLZero(m);
    Exec2(MovImmed(T(9), m, 0), OrrReg(CC, CC, T(9), LSL, 0), s);
  }

  /** For every mask, `SetFlags` sets exactly its bits. */
  lemma SetFlagsExact(flags: bv8, s: Host)
    ensures Straight(SetFlags(flags))
    ensures var o := End(SetFlags(flags), s);
      OnlyCc(s, o) && o.Get(CC) == Or(s.Get(CC), W(flags as bv32))
  {
    var (w, r) := RunOf(flags);
    RunIsMask(flags);
    Exec0(s);
    OrZero(s.Get(CC));
    hide RunOf, LogicalImm, Step, Run, End, Straight, Or;
    if flags == 0 {
      assert W(flags as bv32) == W(0);
    } else if w != 0 {
      SetRun(w, r, W(flags as bv32), s);
    } else {
      SetWord(flags, s);
    }
  }

  // ---------------------------------------------------------------- conditional setting

  /** The source emits a run of four ones for the mask 31. */
  function ConditionalRun(flags: bv8): (bv8, bv8) {
    if flags == 31 then (4, 0) else RunOf(flags)
  }

  function SetFlagsConditional(flags: bv8, cond: Cond): seq<Insn> {
    var (w, r) := ConditionalRun(flags);
    if flags == 0 then []
    else if w != 0 then [OrrImmed(T(9), CC, w, r), Csel(CC, T(9), CC, cond)]
    else [MovImmed(T(9), W(flags as bv32), 0), Csel(T(9), T(9), ZR, cond), OrrReg(CC, CC, T(9), LSL, 0)]
  }

  lemma SetRunConditional(w: bv8, r: bv8, m: Word, cond: Cond, s: Host)
    requires LogicalImm(w - 1, r) == m
    ensures Straight([OrrImmed(T(9), CC, w, r), Csel(CC, T(9), CC, cond)])
    ensures var o := End([OrrImmed(T(9), CC, w, r), Csel(CC, T(9), CC, cond)], s);
      OnlyCc(s, o) && o.Get(CC) == if Holds(cond, s) then Or(s.Get(CC), m) else s.Get(CC)
  {
    hide LogicalImm, Or, Holds, Run, End, Straight;
    Exec2(OrrImmed(T(9), CC, w, r), Csel(CC, T(9), CC, cond), s);
    HoldsReadsFlags(cond, s, Step(OrrImmed(T(9), CC, w, r), s));
  }

  /** Conditions read nothing but the host flags. */
  lemma HoldsReadsFlags(cond: Cond, s: Host, t: Host)
    requires s.n == t.n && s.z == t.z && s.c == t.c && s.v == t.v
    ensures Holds(cond, s) == Holds(cond, t)
  {
  }

  lemma SetWordConditional(flags: bv8, cond: Cond, s: Host)
    ensures Straight([MovImmed(T(9), W(flags as bv32), 0), Csel(T(9), T(9), ZR, cond), OrrReg(CC, CC, T(9), LSL, 0)])
    ensures var o := End([MovImmed(T(9), W(flags as bv32), 0), Csel(T(9), T(9), ZR, cond), OrrReg(CC, CC, T(9), LSL, 0)], s);
      OnlyCc(s, o)
      && o.Get(CC) == if Holds(cond, s) then Or(s.Get(CC), W(flags as bv32)) else s.Get(CC)
  {
    hide Holds, Run, End, Straight, Or, Low16, ShiftL;
    var m := W(flags as bv32);
    Low16Small(m);
    ShiftLZero(m);
    ShiftLZero(W(0));
    OrZero(s.Get(CC));
    Exec3(MovImmed(T(9), m, 0), Csel(T(9), T(9), ZR, cond), OrrReg(CC, CC, T(9), LSL, 0), s);
    HoldsReadsFlags(cond, s, Step(MovImmed(T(9), m, 0), s));
  }

  /** The bits `SetFlagsConditional` really sets: X is missing from the full mask. */
  function ConditionalMask(flags: bv8): Word {
    W(if flags == 31 then 15 else flags as bv32)
  }

  lemma ConditionalRunIsMask(flags: bv8)
    ensures var (w, r) := ConditionalRun(flags); w != 0 ==> LogicalImm(w - 1, r) == ConditionalMask(flags)
    ensures var (w, r) := ConditionalRun(flags); w == 0 ==> ConditionalMask(flags) == W(flags as bv32)
  {
    RunIsMask(flags);
  }

  lemma SetFlagsConditionalEffect(flags: bv8, cond: Cond, s: Host)
    ensures Straight(SetFlagsConditional(flags, cond))
    ensures var o := End(SetFlagsConditional(flags, cond), s);
      OnlyCc(s, o)
      && o.Get(CC) == if Holds(cond, s) then Or(s.Get(CC), ConditionalMask(flags)) else s.Get(CC)
  {
    var (w, r) := ConditionalRun(flags);
    ConditionalRunIsMask(flags);
    Exec0(s);
    OrZero(s.Get(CC));
    hide ConditionalRun, LogicalImm, Step, Holds, Or, Run, End, Straight;
    if flags == 0 {
      assert ConditionalMask(flags) == W(0);
    } else if w != 0 {
      SetRunConditional(w, r, ConditionalMask(flags), cond, s);
    } else {
      SetWordConditional(flags, cond, s);
    }
  }

  /** A state with nothing in its registers in which a condition holds. */
  function Holding(cond: Cond): (s: Host)
    ensures Holds(cond, s) && s.Get(CC) == W(0)
  {
    Host(r => W(0), cond.MI? || cond.LT? || cond.LE?, cond.EQ?, cond.CS? || cond.HI?, cond.VS?, a => ByteCell(0))
  }

  /** For every condition: on every state exactly the mask is set when the condition holds, and nothing
      otherwise, if and only if the mask is not the full one. */
  lemma SetFlagsConditionalExactIff(flags: bv8, cond: Cond)
    ensures (forall s: Host :: End(SetFlagsConditional(flags, cond), s).Get(CC)
                            == if Holds(cond, s) then Or(s.Get(CC), W(flags as bv32)) else s.Get(CC))
       <==> flags != 31
  {
    var h := Holding(cond);
    FullMaskShort(flags);
    hide SetFlagsConditional, End, Or, Holds, ConditionalMask;
    forall s: Host
      ensures End(SetFlagsConditional(flags, cond), s).Get(CC)
           == if Holds(cond, s) then Or(s.Get(CC), ConditionalMask(flags)) else s.Get(CC)
    {
      SetFlagsConditionalEffect(flags, cond, s);
    }
    assert End(SetFlagsConditional(flags, cond), h).Get(CC) == Or(W(0), ConditionalMask(flags));
  }

  lemma FullMaskShort(flags: bv8)
    ensures flags != 31 ==> ConditionalMask(flags) == W(flags as bv32)
    ensures flags == 31 ==> Or(W(0), ConditionalMask(flags)) != Or(W(0), W(flags as bv32))
  {
    assert Or(W(0), W(15)).b == 15 && Or(W(0), W(31)).b == 31;
  }
}
