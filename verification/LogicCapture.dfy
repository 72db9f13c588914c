/**
  Capturing N and Z after a logical instruction: EMIT_GetNZ00, which also clears V and C, and
  EMIT_GetNZxx, which leaves them (emu68/include/A64.h).  Both write N and Z together with two
  conditional increments, which is right for some host flags only.
*/
module LogicCapture {
  import opened Words
  import opened A64
  import opened M68k
  import opened Flags
  import opened Capture

  /** Two conditional increments make 2 N + Z, inserted at bit 2. */
  function DoubleIncrement(): seq<Insn> {
    [Cinc(T(0), ZR, LE), Cinc(T(0), T(0), MI), Bfi(CC, T(0), 2, 2)]
  }

  /** EMIT_GetNZ00: the code and the flags left to do. */
  function GetNZ00(mask: Mask): (seq<Insn>, Mask) {
    if mask == 0 then ([], 0)
    else if Popcount(mask) == 1 then
      if mask == 1 then ([BicImmed(CC, CC, 1, 31)], 0)
      else if mask == 2 then ([BicImmed(CC, CC, 1, 0)], 0)
      else if mask == 4 then (PutBit(EQ, 2), 0)
      else if mask == 8 then (PutBit(MI, 3), 0)
      else ([], mask)
    else if mask & 12 == 12 then
      ((if mask & 3 != 0 then [BicImmed(CC, CC, 4, 0)] else []) + DoubleIncrement(), mask & 16)
    else if mask & 12 == 4 then
      ([BicImmed(CC, CC, 4, 0)] + [OrrImmed(T(9), CC, 1, 30), Csel(CC, T(9), CC, EQ)], mask & 16)
    else if mask & 12 == 8 then
      ([BicImmed(CC, CC, 4, 0)] + [OrrImmed(T(9), CC, 1, 29), Csel(CC, T(9), CC, MI)], mask & 16)
    else ([], mask & 16)
  }

  /** EMIT_GetNZxx: the code and the flags left to do. */
  function GetNZxx(mask: Mask): (seq<Insn>, Mask) {
    if mask == 0 then ([], 0)
    else if Popcount(mask) == 1 then
      if mask == 4 then (PutBit(EQ, 2), 0)
      else if mask == 8 then (PutBit(MI, 3), 0)
      else ([], mask)
    else (DoubleIncrement(), mask & 19)
  }

  /** What a logical operation leaves in the condition codes. */
  function LogicCcr(s: Host): Ccr {
    Ccr(false, s.n, s.z, false, false)
  }

  /** The host flags a logical instruction can leave. */
  predicate AfterLogic(s: Host) {
    !s.v && !(s.n && s.z)
  }

  // ---------------------------------------------------------------- the double increment

  function PutNZ(cc: Word, n: bool, z: bool): Word {
    W((cc.b & !12) | (if n then 8 else 0) | (if z then 4 else 0))
  }

  lemma InsertNZBits(cc: Word, n: bool, z: bool)
    requires !(n && z)
    ensures BfmValue(cc, W(if n then 2 else if z then 1 else 0), 30, 1).b == PutNZ(cc, n, z).b
  {
  }

  lemma PutsNZBits(cc: Word, n: bool, z: bool)
    ensures var p := PutNZ(cc, n, z);
      p.b & 1 == cc.b & 1 && p.b & 2 == cc.b & 2 && p.b & 16 == cc.b & 16 && p.b & !31 == cc.b & !31
      && (p.b & 4 != 0) == z && (p.b & 8 != 0) == n
  {
  }

  lemma SmallSums()
    ensures Plus(W(0), W(1)) == W(1) && Plus(W(1), W(1)) == W(2)
  {
  }

  /** The pair the two increments really write. */
  function IncrementN(s: Host): bool { s.n && Holds(LE, s) }
  function IncrementZ(s: Host): bool { s.n != Holds(LE, s) }

  lemma DoubleIncrementValue(s: Host)
    ensures Straight(DoubleIncrement())
    ensures var o := End(DoubleIncrement(), s);
      OnlyCc(s, o) && o.Get(CC) == PutNZ(s.Get(CC), IncrementN(s), IncrementZ(s))
  {
    hide Plus, BfmValue, PutNZ, Run, End, Straight;
    SmallSums();
    var cc := s.Get(CC);
    InsertNZBits(cc, IncrementN(s), IncrementZ(s));
    SameBits(BfmValue(cc, W(if IncrementN(s) then 2 else if IncrementZ(s) then 1 else 0), 30, 1), PutNZ(cc, IncrementN(s), IncrementZ(s)));
    Exec3(Cinc(T(0), ZR, LE), Cinc(T(0), T(0), MI), Bfi(CC, T(0), 2, 2), s);
  }

  lemma DoubleIncrementEffect(s: Host)
    ensures Straight(DoubleIncrement())
    ensures CcBecomes(s, End(DoubleIncrement(), s), CcrOf(s.Get(CC)).(n := IncrementN(s), z := IncrementZ(s)))
  {
    hide PutNZ, IncrementN, IncrementZ, DoubleIncrement, Run, Step, End, Straight;
    DoubleIncrementValue(s);
    PutsNZBits(s.Get(CC), IncrementN(s), IncrementZ(s));
  }

  /** The increments write N and Z right exactly when N and Z are not both set and, if V is set,
      Z is set as well (and N clear); after a logical instruction that is always so. */
  lemma DoubleIncrementExactIff(s: Host)
    ensures (CcrOf(End(DoubleIncrement(), s).Get(CC)).n == s.n && CcrOf(End(DoubleIncrement(), s).Get(CC)).z == s.z)
       <==> !(s.n && s.z) && (s.v ==> s.z && !s.n)
    ensures AfterLogic(s) ==> !(s.n && s.z) && (s.v ==> s.z && !s.n)
  {
    hide CcrOf, Run, End, Straight, DoubleIncrement, Step, Upper;
    DoubleIncrementEffect(s);
  }

  // ---------------------------------------------------------------- the two functions

  lemma ClearThenSetOne(f: bv8, cf: Cond, s: Host)
    requires f < 31
    ensures var code := ClearFlags(15) + SetFlagsConditional(f, cf);
      var f0 := MaskOff(CcrOf(s.Get(CC)), 15);
      Straight(code) && CcBecomes(s, End(code, s), if Holds(cf, s) then MaskOn(f0, f as bv32) else f0)
  {
    hide ClearFlags, SetFlagsConditional, Run, End, Straight, Step, CcrOf, Upper, MaskOn, MaskOff, Holds;
    ClearFlagsCcr(15, s);
    var t := End(ClearFlags(15), s);
    HostCcrOnly(s, t, false);
    SetFlagsConditionalCcr(f, cf, t);
    CcThen(ClearFlags(15), SetFlagsConditional(f, cf), s, CcrOf(End(SetFlagsConditional(f, cf), t).Get(CC)));
  }

  lemma ClearThenIncrement(s: Host)
    ensures var code := ClearFlags(15) + DoubleIncrement();
      Straight(code) && CcBecomes(s, End(code, s),
        Ccr(CcrOf(s.Get(CC)).x, IncrementN(s), IncrementZ(s), false, false))
  {
    hide ClearFlags, DoubleIncrement, Run, End, Straight, Step, CcrOf, Upper, Holds;
    ClearFlagsCcr(15, s);
    var t := End(ClearFlags(15), s);
    HostCcrOnly(s, t, false);
    DoubleIncrementEffect(t);
    CcThen(ClearFlags(15), DoubleIncrement(), s, CcrOf(End(DoubleIncrement(), t).Get(CC)));
  }

  /** The functions that emit nothing for a mask with several flags but neither N nor Z still report
      V and C as done. */
  predicate Forgotten(mask: Mask) {
    mask & 12 == 0 && Popcount(mask) > 1
  }

  lemma MaskFacts(mask: Mask)
    requires mask < 32
    ensures mask & 12 == 0 || mask & 12 == 4 || mask & 12 == 8 || mask & 12 == 12
    ensures Popcount(mask) == 0 <==> mask == 0
    ensures Popcount(mask) == 1 <==> Single(mask)
    ensures mask & 16 == 0 || mask & 16 == 16
  {
  }

  /** What EMIT_GetNZ00 promises on one state: flags no longer in the mask are those of a logical
      operation, X and the upper bits are kept, and only the condition codes change. */
  ghost predicate LogicCaptured(done: Mask, s: Host, t: Host) {
    && OnlyCc(s, t)
    && Upper(t.Get(CC)) == Upper(s.Get(CC))
    && CcrOf(t.Get(CC)).x == CcrOf(s.Get(CC)).x
    && Agree(done & 15, CcrOf(t.Get(CC)), LogicCcr(s))
  }

  lemma GetNZ00Code(mask: Mask)
    requires mask < 32
    ensures GetNZ00(mask).0 ==
      if mask == 0 || mask == 16 || Forgotten(mask) then []
      else if mask == 1 then ClearFlags(2)
      else if mask == 2 then ClearFlags(1)
      else if Single(mask) then CaptureOne(mask, false)
      else if mask & 12 == 12 then (if mask & 3 != 0 then ClearFlags(15) else []) + DoubleIncrement()
      else if mask & 12 == 4 then ClearFlags(15) + SetFlagsConditional(4, EQ)
      else ClearFlags(15) + SetFlagsConditional(8, MI)
    ensures GetNZ00(mask).1 == mask & 16
  {
    MaskFacts(mask);
    hide Popcount, DoubleIncrement;
  }

  /** The flags after GetNZ00, by class of mask. */
  function LogicOutcome(mask: Mask, f: Ccr, s: Host): Ccr {
    if mask == 0 || mask == 16 || Forgotten(mask) then f
    else if mask == 1 then f.(c := false)
    else if mask == 2 then f.(v := false)
    else if mask == 4 then f.(z := s.z)
    else if mask == 8 then f.(n := s.n)
    else if mask & 12 == 12 then
      if mask & 3 != 0 then Ccr(f.x, s.n, s.z, false, false) else f.(n := s.n, z := s.z)
    else if mask & 12 == 4 then Ccr(f.x, false, s.z, false, false)
    else Ccr(f.x, s.n, false, false, false)
  }

  lemma OutcomeAgrees(mask: Mask, f: Ccr, s: Host)
    requires mask < 32 && !Forgotten(mask)
    ensures Agree((mask & !(mask & 16)) & 15, LogicOutcome(mask, f, s), LogicCcr(s)) && LogicOutcome(mask, f, s).x == f.x
  {
    MaskFacts(mask);
    hide Popcount;
  }

  lemma ClearsC(s: Host)
    ensures Straight(ClearFlags(2)) && CcBecomes(s, End(ClearFlags(2), s), CcrOf(s.Get(CC)).(c := false))
  {
    hide Run, End, Straight, Step, ClearFlags, CcrOf, Upper, OnlyCc;
    ClearFlagsCcr(2, s);
  }

  lemma ClearsV(s: Host)
    ensures Straight(ClearFlags(1)) && CcBecomes(s, End(ClearFlags(1), s), CcrOf(s.Get(CC)).(v := false))
  {
    hide Run, End, Straight, Step, ClearFlags, CcrOf, Upper, OnlyCc;
    ClearFlagsCcr(1, s);
  }

  lemma TakesZ(s: Host)
    ensures var code := ClearFlags(15) + SetFlagsConditional(4, EQ);
      Straight(code) && CcBecomes(s, End(code, s), Ccr(CcrOf(s.Get(CC)).x, false, s.z, false, false))
  {
    hide Run, End, Straight, Step, ClearFlags, SetFlagsConditional, CcrOf, Upper, OnlyCc;
    ClearThenSetOne(4, EQ, s);
  }

  lemma TakesN(s: Host)
    ensures var code := ClearFlags(15) + SetFlagsConditional(8, MI);
      Straight(code) && CcBecomes(s, End(code, s), Ccr(CcrOf(s.Get(CC)).x, s.n, false, false, false))
  {
    hide Run, End, Straight, Step, ClearFlags, SetFlagsConditional, CcrOf, Upper, OnlyCc;
    ClearThenSetOne(8, MI, s);
  }

  lemma TakesBoth(s: Host)
    requires AfterLogic(s)
    ensures var f := CcrOf(s.Get(CC)).(n := s.n, z := s.z);
      CcBecomes(s, End(DoubleIncrement(), s), f)
      && CcBecomes(s, End(ClearFlags(15) + DoubleIncrement(), s), f.(v := false, c := false))
    ensures Straight(DoubleIncrement()) && Straight(ClearFlags(15) + DoubleIncrement())
  {
    hide Run, End, Straight, Step, ClearFlags, DoubleIncrement, CcrOf, Upper, OnlyCc;
    DoubleIncrementEffect(s);
    ClearThenIncrement(s);
  }

  lemma GetNZ00Outcome(mask: Mask, s: Host)
    requires mask < 32 && AfterLogic(s)
    ensures Straight(GetNZ00(mask).0)
    ensures CcBecomes(s, End(GetNZ00(mask).0, s), LogicOutcome(mask, CcrOf(s.Get(CC)), s))
  {
    hide GetNZ00, Popcount, Run, End, Straight, Step, ClearFlags, CaptureOne, DoubleIncrement, SetFlagsConditional, CcBecomes, CcrOf, Forgotten;
    GetNZ00Code(mask);
    MaskFacts(mask);
    Unchanged(s);
    ClearsC(s);
    ClearsV(s);
    TakesBoth(s);
    TakesZ(s);
    TakesN(s);
    NothingBefore(DoubleIncrement());
    if Single(mask) {
      CaptureOneEffect(mask, false, s);
    }
  }

  lemma Unchanged(s: Host)
    ensures Straight([]) && CcBecomes(s, End([], s), CcrOf(s.Get(CC)))
  {
    hide CcrOf, Upper, Run, Straight, Step, End;
    Exec0(s);
  }

  /** A host state with given flags and every condition code set. */
  function AllSet(n: bool, z: bool): Host {
    Host(r => W(31), n, z, false, false, a => ByteCell(0))
  }

  lemma AllSetFlags(n: bool, z: bool)
    ensures CcrOf(AllSet(n, z).Get(CC)) == Ccr(true, true, true, true, true)
  {
    assert AllSet(n, z).Get(CC) == W(31);
    BitsDecide(W(31), Ccr(true, true, true, true, true));
  }

  lemma ForgottenDiffers(mask: Mask, f: Ccr, s: Host)
    requires mask < 32 && Forgotten(mask) && f.v && f.c
    ensures !Agree((mask & !(mask & 16)) & 15, f, LogicCcr(s))
  {
  }

  /** EMIT_GetNZ00 captures every flag it reports as done, after every logical instruction, if and only
      if the mask is not one of those with several flags but neither N nor Z. */
  lemma GetNZ00ExactIff(mask: Mask)
    requires mask < 32
    ensures (forall s: Host :: AfterLogic(s) ==> LogicCaptured(mask & !GetNZ00(mask).1, s, End(GetNZ00(mask).0, s)))
       <==> !Forgotten(mask)
  {
    GetNZ00Code(mask);
    hide GetNZ00, Forgotten, Run, End, Straight, Step, CcrOf, Upper, OnlyCc, Agree, LogicOutcome;
    forall s: Host | AfterLogic(s)
      ensures CcBecomes(s, End(GetNZ00(mask).0, s), LogicOutcome(mask, CcrOf(s.Get(CC)), s))
    {
      GetNZ00Outcome(mask, s);
    }
    if Forgotten(mask) {
      var s := AllSet(false, false);
      AllSetFlags(false, false);
      ForgottenDiffers(mask, CcrOf(s.Get(CC)), s);
      ForgottenOutcome(mask, CcrOf(s.Get(CC)), s);
    } else {
      forall s: Host
        ensures Agree((mask & !(mask & 16)) & 15, LogicOutcome(mask, CcrOf(s.Get(CC)), s), LogicCcr(s))
        ensures LogicOutcome(mask, CcrOf(s.Get(CC)), s).x == CcrOf(s.Get(CC)).x
      {
        OutcomeAgrees(mask, CcrOf(s.Get(CC)), s);
      }
    }
  }

  lemma ForgottenOutcome(mask: Mask, f: Ccr, s: Host)
    requires Forgotten(mask)
    ensures LogicOutcome(mask, f, s) == f
  {
  }

  lemma GetNZxxCode(mask: Mask)
    requires mask < 32
    ensures GetNZxx(mask).0 ==
      if mask == 0 || mask == 1 || mask == 2 || mask == 16 then []
      else if Single(mask) then CaptureOne(mask, false)
      else DoubleIncrement()
    ensures GetNZxx(mask).1 & 12 == 0 && GetNZxx(mask).1 & 19 == mask & 19
  {
    MaskFacts(mask);
    hide Popcount, DoubleIncrement;
  }

  /** EMIT_GetNZxx captures N and Z for every mask after every logical instruction, and leaves X, V
      and C as they were, still to be done if they were requested. */
  lemma GetNZxxExact(mask: Mask, s: Host)
    requires mask < 32 && AfterLogic(s)
    ensures Straight(GetNZxx(mask).0)
    ensures GetNZxx(mask).1 & 12 == 0 && GetNZxx(mask).1 & 19 == mask & 19
    ensures var t := End(GetNZxx(mask).0, s);
      && OnlyCc(s, t) && Upper(t.Get(CC)) == Upper(s.Get(CC))
      && Agree(mask & 12, CcrOf(t.Get(CC)), LogicCcr(s))
      && Agree(19, CcrOf(t.Get(CC)), CcrOf(s.Get(CC)))
  {
    GetNZxxCode(mask);
    Unchanged(s);
    TakesBoth(s);
    if mask == 4 || mask == 8 {
      CaptureOneEffect(mask, false, s);
    }
    NoNorZ(mask);
    hide GetNZxx, Popcount, Run, End, Straight, Step, ClearFlags, CaptureOne, DoubleIncrement, OnlyCc, CcrOf, Upper;
  }

  lemma NoNorZ(mask: Mask)
    requires mask < 32
    ensures (mask & 12) & 1 == 0 && (mask & 12) & 2 == 0 && (mask & 12) & 16 == 0
    ensures mask == 0 || mask == 1 || mask == 2 || mask == 16 ==> mask & 12 == 0
  {
  }
}
