/**
  Capturing the host flags into the cached condition codes: the EMIT_GetNZ* family of the encoder
  header (emu68/include/A64.h) and the tail that ADDQ and SUBQ emit after it.
  The four functions that also capture carry differ in two ways only, which are parameters here:
  whether X is handled, and whether carry is inverted (a subtraction borrows when the host carry is clear).
*/
module Capture {
  import opened Words
  import opened A64
  import opened M68k
  import opened Flags

  function Popcount(m: Mask): bv8 {
    (m & 1) + ((m >> 1) & 1) + ((m >> 2) & 1) + ((m >> 3) & 1) +
    ((m >> 4) & 1) + ((m >> 5) & 1) + ((m >> 6) & 1) + ((m >> 7) & 1)
  }

  /** The host condition that says "carry" (or "borrow"). */
  function CarryCond(inverted: bool): Cond {
    if inverted then CLR else CS
  }

  /** The m68k flags the host flags stand for. */
  function HostCcr(s: Host, inverted: bool): Ccr {
    var carry := s.c != inverted;
    Ccr(carry, s.n, s.z, s.v, carry)
  }

  /** Flag masks order C before V, the cached register orders V before C. */
  function SwapCV(m: Mask): Mask {
    if m & 3 != 0 && m & 3 < 3 then m ^ 3 else m
  }

  function PutBit(cond: Cond, bit: bv8): seq<Insn> {
    [Cset(T(0), cond), Bfi(CC, T(0), bit, 1)]
  }

  function CaptureOne(mask: Mask, inverted: bool): seq<Insn> {
    if mask == 1 then PutBit(CarryCond(inverted), 1)
    else if mask == 2 then PutBit(VS, 0)
    else if mask == 4 then PutBit(EQ, 2)
    else if mask == 8 then PutBit(MI, 3)
    else PutBit(CarryCond(inverted), 4)
  }

  /** Copy N Z C V in one move, with carry inverted if asked. */
  function CaptureNibble(flipCarry: bool): seq<Insn> {
    if flipCarry then [GetNzcv(T(0)), EorImmed(T(0), T(0), 1, 3), Bfxil(CC, T(0), 28, 4)]
    else [GetNzcv(T(0)), Bfxil(CC, T(0), 28, 4)]
  }

  /** First half of EMIT_GetNZCV, GetNZCVX, GetNZnCV, GetNZnCVX: code and the flags left to do. */
  function Capture(withX: bool, inverted: bool, mask: Mask): (seq<Insn>, Mask) {
    if mask == 0 then ([], 0)
    else if Popcount(mask) == 1 then
      if mask <= 8 || (withX && mask == 16) then (CaptureOne(mask, inverted), 0) else ([], mask)
    else if !withX then
      (CaptureNibble(inverted && mask & 1 != 0), mask & 16)
    else if Popcount(mask) > 2 then
      (CaptureNibble(inverted && mask & 17 != 0)
       + (if mask & 16 != 0 then PutBit(CarryCond(inverted), 4) else []), 0)
    else ([], mask)
  }

  /** The whole function: what is left to do is cleared for the caller to set. */
  function GetFlags(withX: bool, inverted: bool, mask: Mask): (seq<Insn>, Mask) {
    var (code, left) := Capture(withX, inverted, mask);
    (code + ClearFlags(SwapCV(left)), left)
  }

  /** What these functions store in `host_flags`: an inverted carry is not in the host flag. */
  function CapturedHostFlags(inverted: bool, mask: Mask): Mask {
    mask & (if inverted then SR_N | SR_Z | SR_V else SR_NZVC)
  }

  /** Afterwards N, Z and V are marked as valid in the host exactly if captured, C only if it is not inverted, and X
      never. */
  lemma MarkedFlags(inverted: bool, mask: Mask)
    ensures var h := CapturedHostFlags(inverted, mask);
      && (h & 8 != 0 <==> mask & 8 != 0) && (h & 4 != 0 <==> mask & 4 != 0) && (h & 2 != 0 <==> mask & 2 != 0)
      && (h & 1 != 0 <==> mask & 1 != 0 && !inverted) && h < 16
  {
  }

  /** The conditional settings ADDQ and SUBQ emit for the flags that are left. */
  function SetLeft(inverted: bool, left: Mask): seq<Insn> {
    (if left & SR_Z != 0 then SetFlagsConditional(4, EQ) else []) +
    (if left & SR_N != 0 then SetFlagsConditional(8, MI) else []) +
    (if left & SR_V != 0 then SetFlagsConditional(1, VS) else []) +
    (if left & 17 == 16 then SetFlagsConditional(16, CarryCond(inverted))
     else if left & 17 == 1 then SetFlagsConditional(2, CarryCond(inverted))
     else if left & 17 == 17 then SetFlagsConditional(18, CarryCond(inverted))
     else [])
  }

  function CaptureAll(inverted: bool, mask: Mask): seq<Insn> {
    if mask == 0 then [] else
    var (code, left) := GetFlags(mask & SR_X != 0, inverted, mask);
    code + SetLeft(inverted, left)
  }

  // ---------------------------------------------------------------- effect on the cached register

  // One flag of the cached register set to b.
  function PutV(cc: Word, b: bool): Word { W((cc.b & !1) | (if b then 1 else 0)) }
  function PutC(cc: Word, b: bool): Word { W((cc.b & !2) | (if b then 2 else 0)) }
  function PutZ(cc: Word, b: bool): Word { W((cc.b & !4) | (if b then 4 else 0)) }
  function PutN(cc: Word, b: bool): Word { W((cc.b & !8) | (if b then 8 else 0)) }
  function PutX(cc: Word, b: bool): Word { W((cc.b & !16) | (if b then 16 else 0)) }

  lemma PutBitEffect(cond: Cond, bit: bv8, immr: bv8, on: Word, off: Word, s: Host)
    requires cond != AL && cond != NV && immr == 31 & (32 - bit)
    requires BfmValue(s.Get(CC), W(1), immr, 0).b == on.b && BfmValue(s.Get(CC), W(0), immr, 0).b == off.b
    ensures Straight(PutBit(cond, bit))
    ensures var o := End(PutBit(cond, bit), s);
      OnlyCc(s, o) && o.Get(CC) == if Holds(cond, s) then on else off
  {
    hide Holds, BfmValue, Plus, Run, End, Straight;
    SameBits(BfmValue(s.Get(CC), W(1), immr, 0), on);
    SameBits(BfmValue(s.Get(CC), W(0), immr, 0), off);
    Exec2(Cset(T(0), cond), Bfi(CC, T(0), bit, 1), s);
    HoldsInverted(cond, s);
    PlusOne();
  }

  lemma HoldsInverted(cond: Cond, s: Host)
    requires cond != AL && cond != NV
    ensures Holds(Flip(cond), s) == !Holds(cond, s)
  {
  }

  lemma InsertVBits(cc: Word, b: bool)
    ensures BfmValue(cc, W(if b then 1 else 0), 0, 0).b == PutV(cc, b).b
  {
  }

  lemma InsertCBits(cc: Word, b: bool)
    ensures BfmValue(cc, W(if b then 1 else 0), 31, 0).b == PutC(cc, b).b
  {
  }

  lemma InsertZBits(cc: Word, b: bool)
    ensures BfmValue(cc, W(if b then 1 else 0), 30, 0).b == PutZ(cc, b).b
  {
  }

  lemma InsertNBits(cc: Word, b: bool)
    ensures BfmValue(cc, W(if b then 1 else 0), 29, 0).b == PutN(cc, b).b
  {
  }

  lemma InsertXBits(cc: Word, b: bool)
    ensures BfmValue(cc, W(if b then 1 else 0), 28, 0).b == PutX(cc, b).b
  {
  }

  lemma PlusOne()
    ensures Plus(W(0), W(1)) == W(1)
  {
  }

  /** The system byte and everything else above the condition codes. */
  function Upper(cc: Word): Word {
    W(cc.b & !31)
  }

  function Nibble(n: bool, z: bool, c: bool, v: bool): bv32 {
    (if n then 8 else 0) | (if z then 4 else 0) | (if c then 2 else 0) | (if v then 1 else 0)
  }

  function PutNibble(cc: Word, n: bool, z: bool, c: bool, v: bool): Word {
    W((cc.b & !15) | Nibble(n, z, c, v))
  }

  lemma PutsVBits(cc: Word, b: bool)
    ensures var p := PutV(cc, b);
      p.b & 2 == cc.b & 2 && p.b & 4 == cc.b & 4 && p.b & 8 == cc.b & 8 && p.b & 16 == cc.b & 16 && (p.b & 1 != 0) == b && p.b & !31 == cc.b & !31
  {
  }

  lemma PutsCBits(cc: Word, b: bool)
    ensures var p := PutC(cc, b);
      p.b & 1 == cc.b & 1 && p.b & 4 == cc.b & 4 && p.b & 8 == cc.b & 8 && p.b & 16 == cc.b & 16 && (p.b & 2 != 0) == b && p.b & !31 == cc.b & !31
  {
  }

  lemma PutsZBits(cc: Word, b: bool)
    ensures var p := PutZ(cc, b);
      p.b & 1 == cc.b & 1 && p.b & 2 == cc.b & 2 && p.b & 8 == cc.b & 8 && p.b & 16 == cc.b & 16 && (p.b & 4 != 0) == b && p.b & !31 == cc.b & !31
  {
  }

  lemma PutsNBits(cc: Word, b: bool)
    ensures var p := PutN(cc, b);
      p.b & 1 == cc.b & 1 && p.b & 2 == cc.b & 2 && p.b & 4 == cc.b & 4 && p.b & 16 == cc.b & 16 && (p.b & 8 != 0) == b && p.b & !31 == cc.b & !31
  {
  }

  lemma PutsXBits(cc: Word, b: bool)
    ensures var p := PutX(cc, b);
      p.b & 1 == cc.b & 1 && p.b & 2 == cc.b & 2 && p.b & 4 == cc.b & 4 && p.b & 8 == cc.b & 8 && (p.b & 16 != 0) == b && p.b & !31 == cc.b & !31
  {
  }

  lemma PutsNibbleBits(cc: Word, n: bool, z: bool, c: bool, v: bool)
    ensures var p := PutNibble(cc, n, z, c, v);
      (p.b & 8 != 0) == n && (p.b & 4 != 0) == z && (p.b & 2 != 0) == c && (p.b & 1 != 0) == v
      && p.b & 16 == cc.b & 16 && p.b & !31 == cc.b & !31
  {
  }

  lemma NibbleBits(cc: Word, n: bool, z: bool, c: bool, v: bool)
    ensures BfmValue(cc, NzcvWord(n, z, c, v), 28, 31).b == PutNibble(cc, n, z, c, v).b
  {
  }

  lemma FlipBits(n: bool, z: bool, c: bool, v: bool)
    ensures Xor(NzcvWord(n, z, c, v), LogicalImm(0, 3)).b == NzcvWord(n, z, !c, v).b
  {
  }

  /** The state t differs from s in the cached condition codes only, which are now f. */
  ghost predicate CcBecomes(s: Host, t: Host, f: Ccr) {
    OnlyCc(s, t) && Upper(t.Get(CC)) == Upper(s.Get(CC)) && CcrOf(t.Get(CC)) == f
  }

  lemma CaptureNibbleValue(flip: bool, s: Host)
    ensures Straight(CaptureNibble(flip))
    ensures var o := End(CaptureNibble(flip), s);
      OnlyCc(s, o) && o.Get(CC) == PutNibble(s.Get(CC), s.n, s.z, s.c != flip, s.v)
  {
    hide BfmValue, PutNibble, NzcvWord, Xor, LogicalImm, Run, End, Straight;
    NibbleBits(s.Get(CC), s.n, s.z, s.c != flip, s.v);
    SameBits(BfmValue(s.Get(CC), NzcvWord(s.n, s.z, s.c != flip, s.v), 28, 31), PutNibble(s.Get(CC), s.n, s.z, s.c != flip, s.v));
    if flip {
      FlipBits(s.n, s.z, s.c, s.v);
      SameBits(Xor(NzcvWord(s.n, s.z, s.c, s.v), LogicalImm(0, 3)), NzcvWord(s.n, s.z, !s.c, s.v));
      Exec3(GetNzcv(T(0)), EorImmed(T(0), T(0), 1, 3), Bfxil(CC, T(0), 28, 4), s);
    } else {
      Exec2(GetNzcv(T(0)), Bfxil(CC, T(0), 28, 4), s);
    }
  }

  lemma CaptureNibbleEffect(flip: bool, s: Host)
    ensures Straight(CaptureNibble(flip))
    ensures CcBecomes(s, End(CaptureNibble(flip), s), Ccr(CcrOf(s.Get(CC)).x, s.n, s.z, s.v, s.c != flip))
  {
    hide CaptureNibble, PutNibble, Run, Step, End, Straight;
    CaptureNibbleValue(flip, s);
    PutsNibbleBits(s.Get(CC), s.n, s.z, s.c != flip, s.v);
  }

  /** f with one flag replaced by the host's. */
  function TakeOne(mask: Mask, f: Ccr, h: Ccr): Ccr {
    if mask == 1 then f.(c := h.c)
    else if mask == 2 then f.(v := h.v)
    else if mask == 4 then f.(z := h.z)
    else if mask == 8 then f.(n := h.n)
    else f.(x := h.x)
  }

  lemma CaptureC(inverted: bool, s: Host)
    ensures Straight(PutBit(CarryCond(inverted), 1))
    ensures CcBecomes(s, End(PutBit(CarryCond(inverted), 1), s), CcrOf(s.Get(CC)).(c := HostCcr(s, inverted).c))
  {
    hide BfmValue, PutC, PutBit, Run, Step, End, Straight;
    var cc := s.Get(CC);
    InsertCBits(cc, true);
    InsertCBits(cc, false);
    PutBitEffect(CarryCond(inverted), 1, 31, PutC(cc, true), PutC(cc, false), s);
    PutsCBits(cc, Holds(CarryCond(inverted), s));
  }

  lemma CaptureV(inverted: bool, s: Host)
    ensures Straight(PutBit(VS, 0))
    ensures CcBecomes(s, End(PutBit(VS, 0), s), CcrOf(s.Get(CC)).(v := HostCcr(s, inverted).v))
  {
    hide BfmValue, PutV, PutBit, Run, Step, End, Straight;
    var cc := s.Get(CC);
    InsertVBits(cc, true);
    InsertVBits(cc, false);
    PutBitEffect(VS, 0, 0, PutV(cc, true), PutV(cc, false), s);
    PutsVBits(cc, Holds(VS, s));
  }

  lemma CaptureZ(inverted: bool, s: Host)
    ensures Straight(PutBit(EQ, 2))
    ensures CcBecomes(s, End(PutBit(EQ, 2), s), CcrOf(s.Get(CC)).(z := HostCcr(s, inverted).z))
  {
    hide BfmValue, PutZ, PutBit, Run, Step, End, Straight;
    var cc := s.Get(CC);
    InsertZBits(cc, true);
    InsertZBits(cc, false);
    PutBitEffect(EQ, 2, 30, PutZ(cc, true), PutZ(cc, false), s);
    PutsZBits(cc, Holds(EQ, s));
  }

  lemma CaptureN(inverted: bool, s: Host)
    ensures Straight(PutBit(MI, 3))
    ensures CcBecomes(s, End(PutBit(MI, 3), s), CcrOf(s.Get(CC)).(n := HostCcr(s, inverted).n))
  {
    hide BfmValue, PutN, PutBit, Run, Step, End, Straight;
    var cc := s.Get(CC);
    InsertNBits(cc, true);
    InsertNBits(cc, false);
    PutBitEffect(MI, 3, 29, PutN(cc, true), PutN(cc, false), s);
    PutsNBits(cc, Holds(MI, s));
  }

  lemma CaptureX(inverted: bool, s: Host)
    ensures Straight(PutBit(CarryCond(inverted), 4))
    ensures CcBecomes(s, End(PutBit(CarryCond(inverted), 4), s), CcrOf(s.Get(CC)).(x := HostCcr(s, inverted).x))
  {
    hide BfmValue, PutX, PutBit, Run, Step, End, Straight;
    var cc := s.Get(CC);
    InsertXBits(cc, true);
    InsertXBits(cc, false);
    PutBitEffect(CarryCond(inverted), 4, 28, PutX(cc, true), PutX(cc, false), s);
    PutsXBits(cc, Holds(CarryCond(inverted), s));
  }

  lemma CaptureOneEffect(mask: Mask, inverted: bool, s: Host)
    requires mask == 1 || mask == 2 || mask == 4 || mask == 8 || mask == 16
    ensures Straight(CaptureOne(mask, inverted))
    ensures CcBecomes(s, End(CaptureOne(mask, inverted), s), TakeOne(mask, CcrOf(s.Get(CC)), HostCcr(s, inverted)))
  {
    CaptureC(inverted, s);
    CaptureV(inverted, s);
    CaptureZ(inverted, s);
    CaptureN(inverted, s);
    CaptureX(inverted, s);
    hide PutBit, CarryCond, CcBecomes, CcrOf, HostCcr, Run, Step, End, Straight;
  }

  // ---------------------------------------------------------------- masks and flags

  /** The flags after clearing the bits m of the cached register. */
  function MaskOff(f: Ccr, m: bv32): Ccr {
    Ccr(f.x && m & 16 == 0, f.n && m & 8 == 0, f.z && m & 4 == 0, f.v && m & 1 == 0, f.c && m & 2 == 0)
  }

  /** The flags after setting the bits m of the cached register. */
  function MaskOn(f: Ccr, m: bv32): Ccr {
    Ccr(f.x || m & 16 != 0, f.n || m & 8 != 0, f.z || m & 4 != 0, f.v || m & 1 != 0, f.c || m & 2 != 0)
  }

  lemma ClearedBits(cc: Word, m: bv32)
    requires m < 32
    ensures var p := And(cc, W(!m));
      && ((p.b & 16 != 0) <==> (cc.b & 16 != 0 && m & 16 == 0))
      && ((p.b & 8 != 0) <==> (cc.b & 8 != 0 && m & 8 == 0))
      && ((p.b & 4 != 0) <==> (cc.b & 4 != 0 && m & 4 == 0))
      && ((p.b & 2 != 0) <==> (cc.b & 2 != 0 && m & 2 == 0))
      && ((p.b & 1 != 0) <==> (cc.b & 1 != 0 && m & 1 == 0))
      && p.b & !31 == cc.b & !31
  {
  }

  lemma SetBits(cc: Word, m: bv32)
    requires m < 32
    ensures var p := Or(cc, W(m));
      && ((p.b & 16 == 0) <==> (cc.b & 16 == 0 && m & 16 == 0))
      && ((p.b & 8 == 0) <==> (cc.b & 8 == 0 && m & 8 == 0))
      && ((p.b & 4 == 0) <==> (cc.b & 4 == 0 && m & 4 == 0))
      && ((p.b & 2 == 0) <==> (cc.b & 2 == 0 && m & 2 == 0))
      && ((p.b & 1 == 0) <==> (cc.b & 1 == 0 && m & 1 == 0))
  {
  }

  lemma SetKeepsUpper(cc: Word, m: bv32)
    requires m < 32
    ensures Or(cc, W(m)).b & !31 == cc.b & !31
  {
  }

  lemma BitsDecide(p: Word, f: Ccr)
    requires (p.b & 16 != 0) == f.x && (p.b & 8 != 0) == f.n && (p.b & 4 != 0) == f.z
    requires (p.b & 1 != 0) == f.v && (p.b & 2 != 0) == f.c
    ensures CcrOf(p) == f
  {
  }

  lemma OffBits(p: Word, cc: Word, m: bv32)
    requires (p.b & 16 != 0) <==> (cc.b & 16 != 0 && m & 16 == 0)
    requires (p.b & 8 != 0) <==> (cc.b & 8 != 0 && m & 8 == 0)
    requires (p.b & 4 != 0) <==> (cc.b & 4 != 0 && m & 4 == 0)
    requires (p.b & 2 != 0) <==> (cc.b & 2 != 0 && m & 2 == 0)
    requires (p.b & 1 != 0) <==> (cc.b & 1 != 0 && m & 1 == 0)
    ensures CcrOf(p) == MaskOff(CcrOf(cc), m)
  {
  }

  lemma OnBits(p: Word, cc: Word, m: bv32)
    requires (p.b & 16 == 0) <==> (cc.b & 16 == 0 && m & 16 == 0)
    requires (p.b & 8 == 0) <==> (cc.b & 8 == 0 && m & 8 == 0)
    requires (p.b & 4 == 0) <==> (cc.b & 4 == 0 && m & 4 == 0)
    requires (p.b & 2 == 0) <==> (cc.b & 2 == 0 && m & 2 == 0)
    requires (p.b & 1 == 0) <==> (cc.b & 1 == 0 && m & 1 == 0)
    ensures CcrOf(p) == MaskOn(CcrOf(cc), m)
  {
  }

  lemma SameUpper(p: Word, cc: Word)
    requires p.b & !31 == cc.b & !31
    ensures Upper(p) == Upper(cc)
  {
  }

  lemma ClearedBecomes(s: Host, t: Host, m: bv32)
    requires OnlyCc(s, t) && m < 32 && t.Get(CC) == And(s.Get(CC), W(!m))
    ensures CcBecomes(s, t, MaskOff(CcrOf(s.Get(CC)), m))
  {
    hide And, CcrOf, MaskOff, Upper, OnlyCc;
    var cc, p := s.Get(CC), t.Get(CC);
    ClearedBits(cc, m);
    OffBits(p, cc, m);
    SameUpper(p, cc);
  }

  lemma SetBecomes(s: Host, t: Host, m: bv32)
    requires OnlyCc(s, t) && m < 32 && t.Get(CC) == Or(s.Get(CC), W(m))
    ensures CcBecomes(s, t, MaskOn(CcrOf(s.Get(CC)), m))
  {
    hide Or, CcrOf, MaskOn, Upper, OnlyCc;
    var cc, p := s.Get(CC), t.Get(CC);
    assert CcrOf(p) == MaskOn(CcrOf(cc), m) by {
      SetBits(cc, m);
      OnBits(p, cc, m);
    }
    SetKeepsUpper(cc, m);
    SameUpper(p, cc);
  }

  lemma ClearFlagsCcr(flags: bv8, s: Host)
    requires flags < 32
    ensures Straight(ClearFlags(flags))
    ensures CcBecomes(s, End(ClearFlags(flags), s), MaskOff(CcrOf(s.Get(CC)), flags as bv32))
  {
    hide ClearFlags, Run, End, Straight, Step, And, CcrOf, MaskOff, CcBecomes, OnlyCc;
    ClearFlagsExact(flags, s);
    WideMask(flags);
    ClearedBecomes(s, End(ClearFlags(flags), s), flags as bv32);
  }

  lemma WideMask(flags: bv8)
    requires flags < 32
    ensures (flags as bv32) < 32
  {
  }

  lemma SetFlagsConditionalCcr(flags: bv8, cond: Cond, s: Host)
    requires flags < 31
    ensures Straight(SetFlagsConditional(flags, cond))
    ensures CcBecomes(s, End(SetFlagsConditional(flags, cond), s),
      if Holds(cond, s) then MaskOn(CcrOf(s.Get(CC)), flags as bv32) else CcrOf(s.Get(CC)))
  {
    hide SetFlagsConditional, Run, End, Straight, Step, Or, Holds, CcrOf, MaskOn;
    SetFlagsConditionalEffect(flags, cond, s);
    if Holds(cond, s) {
      WideMask(flags);
      SetBecomes(s, End(SetFlagsConditional(flags, cond), s), flags as bv32);
    }
  }

  /** Two changes of the condition codes in a row. */
  lemma CcThen(a: seq<Insn>, b: seq<Insn>, s: Host, g: Ccr)
    requires Straight(a) && Straight(b)
    requires OnlyCc(s, End(a, s)) && Upper(End(a, s).Get(CC)) == Upper(s.Get(CC))
    requires CcBecomes(End(a, s), End(b, End(a, s)), g)
    ensures Straight(a + b) && CcBecomes(s, End(a + b, s), g)
  {
    hide Run, End, Straight, Step, CcrOf, Upper;
    Then(a, b, s);
  }

  // ---------------------------------------------------------------- the whole capture

  /** Requested flags are the host's, X is kept unless requested, nothing else changes. */
  ghost predicate Captured(mask: Mask, inverted: bool, s: Host, t: Host) {
    && OnlyCc(s, t)
    && Upper(t.Get(CC)) == Upper(s.Get(CC))
    && Agree(mask, CcrOf(t.Get(CC)), HostCcr(s, inverted))
    && (mask & SR_X == 0 ==> CcrOf(t.Get(CC)).x == CcrOf(s.Get(CC)).x)
  }

  predicate Single(mask: Mask) {
    mask == 1 || mask == 2 || mask == 4 || mask == 8 || mask == 16
  }

  lemma PopcountCases(mask: Mask)
    requires mask < 32
    ensures Popcount(mask) == 0 <==> mask == 0
    ensures Popcount(mask) == 1 <==> Single(mask)
    ensures mask & 16 != 0 && Popcount(mask) == 2 ==> mask == 17 || mask == 18 || mask == 20 || mask == 24
  {
  }

  lemma SingleCaptured(mask: Mask, inverted: bool, s: Host)
    requires Single(mask)
    ensures Straight(CaptureOne(mask, inverted))
    ensures Captured(mask, inverted, s, End(CaptureOne(mask, inverted), s))
  {
    hide CaptureOne, Run, End, Straight, Step, CcrOf, Upper, OnlyCc;
    CaptureOneEffect(mask, inverted, s);
  }

  lemma NibbleCaptured(mask: Mask, inverted: bool, s: Host)
    requires mask & SR_X == 0
    ensures Straight(CaptureNibble(inverted && mask & 1 != 0))
    ensures Captured(mask, inverted, s, End(CaptureNibble(inverted && mask & 1 != 0), s))
  {
    hide CaptureNibble, Run, End, Straight, Step, CcrOf, Upper, OnlyCc, PutNibble;
    var flip := inverted && mask & 1 != 0;
    CaptureNibbleEffect(flip, s);
  }

  lemma HostCcrOnly(s: Host, t: Host, inverted: bool)
    requires OnlyCc(s, t)
    ensures HostCcr(t, inverted) == HostCcr(s, inverted)
    ensures forall c: Cond :: Holds(c, t) == Holds(c, s)
  {
  }

  lemma NibbleAndXCaptured(mask: Mask, inverted: bool, s: Host)
    requires mask & SR_X != 0
    ensures var code := CaptureNibble(inverted) + PutBit(CarryCond(inverted), 4);
      Straight(code) && Captured(mask, inverted, s, End(code, s))
  {
    hide CaptureNibble, PutBit, Run, End, Straight, Step, CcrOf, Upper, PutNibble;
    CaptureNibbleEffect(inverted, s);
    var t := End(CaptureNibble(inverted), s);
    CaptureOneEffect(16, inverted, t);
    HostCcrOnly(s, t, inverted);
    CcThen(CaptureNibble(inverted), CaptureOne(16, inverted), s,
           TakeOne(16, CcrOf(t.Get(CC)), HostCcr(t, inverted)));
  }

  /** Clear two flags, then set each of them under its own condition. */
  lemma ClearThenSet(m: bv8, f: bv8, cf: Cond, g: bv8, cg: Cond, s: Host)
    requires m < 32 && f < 31 && g < 31
    ensures var code := ClearFlags(m) + (SetFlagsConditional(f, cf) + SetFlagsConditional(g, cg));
      var f0 := MaskOff(CcrOf(s.Get(CC)), m as bv32);
      var f1 := if Holds(cf, s) then MaskOn(f0, f as bv32) else f0;
      Straight(code) && CcBecomes(s, End(code, s), if Holds(cg, s) then MaskOn(f1, g as bv32) else f1)
  {
    hide ClearFlags, SetFlagsConditional, Run, End, Straight, Step, CcrOf, Upper, MaskOn, MaskOff, Holds;
    ClearFlagsCcr(m, s);
    var t := End(ClearFlags(m), s);
    HostCcrOnly(s, t, false);
    SetFlagsConditionalCcr(f, cf, t);
    var u := End(SetFlagsConditional(f, cf), t);
    HostCcrOnly(t, u, false);
    SetFlagsConditionalCcr(g, cg, u);
    CcThen(SetFlagsConditional(f, cf), SetFlagsConditional(g, cg), t, CcrOf(End(SetFlagsConditional(g, cg), u).Get(CC)));
    CcThen(ClearFlags(m), SetFlagsConditional(f, cf) + SetFlagsConditional(g, cg), s,
           CcrOf(End(SetFlagsConditional(g, cg), u).Get(CC)));
  }

  /** What remains to be set for the four masks that pair X with another flag. */
  function PairSettings(mask: Mask, inverted: bool): (bv8, Cond, bv8, Cond) {
    if mask == 17 then (0, EQ, 18, CarryCond(inverted))
    else if mask == 18 then (1, VS, 16, CarryCond(inverted))
    else if mask == 20 then (4, EQ, 16, CarryCond(inverted))
    else (8, MI, 16, CarryCond(inverted))
  }

  lemma PairCode(mask: Mask, inverted: bool)
    requires mask == 17 || mask == 18 || mask == 20 || mask == 24
    ensures var (f, cf, g, cg) := PairSettings(mask, inverted);
      ClearFlags(SwapCV(mask)) + SetLeft(inverted, mask)
      == ClearFlags(SwapCV(mask)) + (SetFlagsConditional(f, cf) + SetFlagsConditional(g, cg))
  {
    hide ClearFlags, ConditionalRun;
  }

  lemma PairCaptured(mask: Mask, inverted: bool, s: Host)
    requires mask == 17 || mask == 18 || mask == 20 || mask == 24
    ensures var code := ClearFlags(SwapCV(mask)) + SetLeft(inverted, mask);
      Straight(code) && Captured(mask, inverted, s, End(code, s))
  {
    hide ClearFlags, SetFlagsConditional, SetLeft, Run, End, Straight, Step, CcrOf, Upper;
    PairCode(mask, inverted);
    var (f, cf, g, cg) := PairSettings(mask, inverted);
    ClearThenSet(SwapCV(mask), f, cf, g, cg, s);
  }

  lemma NothingLeft(code: seq<Insn>, inverted: bool)
    ensures code + ClearFlags(SwapCV(0)) + SetLeft(inverted, 0) == code
  {
    hide ConditionalRun, RunOf;
  }

  /** The code by class of mask: one flag, no X, X with at least two others, X with one other. */
  function CaptureByClass(inverted: bool, mask: Mask): seq<Insn> {
    if mask == 0 then []
    else if Single(mask) then CaptureOne(mask, inverted)
    else if mask & SR_X == 0 then CaptureNibble(inverted && mask & 1 != 0)
    else if Popcount(mask) > 2 then CaptureNibble(inverted) + PutBit(CarryCond(inverted), 4)
    else ClearFlags(SwapCV(mask)) + SetLeft(inverted, mask)
  }

  lemma CaptureAllCode(inverted: bool, mask: Mask)
    requires mask < 32
    ensures CaptureAll(inverted, mask) == CaptureByClass(inverted, mask)
  {
    CaptureCode(inverted, mask);
    var (code, left) := Capture(mask & SR_X != 0, inverted, mask);
    NothingLeft(code, inverted);
    NothingBefore(ClearFlags(SwapCV(mask)));
    hide Popcount, CaptureOne, CaptureNibble, PutBit, ClearFlags, SetLeft, SwapCV, Capture, Single;
  }

  lemma NothingBefore(code: seq<Insn>)
    ensures [] + code == code
  {
  }

  lemma CaptureCode(inverted: bool, mask: Mask)
    requires mask < 32
    ensures Capture(mask & SR_X != 0, inverted, mask) ==
      if mask == 0 then ([], 0)
      else if Single(mask) then (CaptureOne(mask, inverted), 0)
      else if mask & SR_X == 0 then (CaptureNibble(inverted && mask & 1 != 0), 0)
      else if Popcount(mask) > 2 then (CaptureNibble(inverted) + PutBit(CarryCond(inverted), 4), 0)
      else ([], mask)
  {
    PopcountCases(mask);
    MaskParts(mask);
    hide Popcount, CaptureOne, CaptureNibble, PutBit;
  }

  lemma MaskParts(mask: Mask)
    requires mask < 32
    ensures mask & 16 == 0 ==> mask < 16
    ensures mask & 16 == 0 || mask & 16 == 16
    ensures mask & 17 == 0 ==> mask & 16 == 0
  {
  }

  /** Every mask is captured right: each requested flag is the host's (carry and X inverted for a
      subtraction), X survives unless requested, and nothing but the condition codes changes. */
  lemma CaptureAllEffect(inverted: bool, mask: Mask, s: Host)
    requires mask < 32
    ensures Straight(CaptureAll(inverted, mask))
    ensures Captured(mask, inverted, s, End(CaptureAll(inverted, mask), s))
  {
    CaptureAllCode(inverted, mask);
    PopcountCases(mask);
    if mask == 0 {
      Exec0(s);
    } else if Single(mask) {
      SingleCaptured(mask, inverted, s);
    } else if mask & SR_X == 0 {
      NibbleCaptured(mask, inverted, s);
    } else if Popcount(mask) > 2 {
      NibbleAndXCaptured(mask, inverted, s);
    } else {
      PairCaptured(mask, inverted, s);
    }
    hide *;
  }
}
