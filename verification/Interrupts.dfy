/**
  Interrupt and exception entry: the interrupt block of MainLoop (emu68/src/ExecutionLoop.c, lines 319 to
  434) and M68K_Exception (emu68/src/M68k_ExceptionEntry.c).  Both push the same four-word frame; the
  status register is kept with C and V exchanged and stored in the frame in the architecture's order.
  Addresses are numbers; a stack that wraps around address 0 is not considered.
*/
module Interrupts {
  import opened Memory

  // ---------------------------------------------------------------- the status register

  datatype Sr = Sr(t1: bool, t0: bool, s: bool, m: bool, ipl: nat, x: bool, n: bool, z: bool, v: bool, c: bool)

  predicate SrOk(sr: Sr) { sr.ipl <= 7 }

  function Flag(b: bool, w: nat): nat { if b then w else 0 }

  /** Trace, supervisor and master bits: 15 to 12. */
  function ModeBits(sr: Sr): (w: nat)
    ensures w < 16
  {
    Flag(sr.t1, 8) + Flag(sr.t0, 4) + Flag(sr.s, 2) + Flag(sr.m, 1)
  }

  /** Extend, negative and zero: bits 4 to 2. */
  function ArithmeticBits(sr: Sr): (w: nat)
    ensures w < 8
  {
    Flag(sr.x, 4) + Flag(sr.n, 2) + Flag(sr.z, 1)
  }

  /** All but the two lowest bits. */
  function HighBits(sr: Sr): nat {
    0x1000 * ModeBits(sr) + 0x100 * sr.ipl + 4 * ArithmeticBits(sr)
  }

  /** The word held in the register, with C and V exchanged, and the architecture's word. */
  function RegisterWord(sr: Sr): nat { HighBits(sr) + Flag(sr.c, 2) + Flag(sr.v, 1) }
  function FrameWord(sr: Sr): nat { HighBits(sr) + Flag(sr.v, 2) + Flag(sr.c, 1) }

  /** `if ((w & 3) != 0 && (w & 3) != 3) w ^= 3` */
  function SwapCV(w: nat): nat {
    if w % 4 == 1 then w + 1 else if w % 4 == 2 then w - 1 else w
  }

  lemma HighBitsAligned(sr: Sr)
    ensures HighBits(sr) % 4 == 0
    ensures SrOk(sr) ==> HighBits(sr) < 0x1_0000 - 3
  {
    hide ModeBits, ArithmeticBits;
  }

  /** The swap turns the register's word into the architecture's, and undoes itself. */
  lemma SwapIsFrame(sr: Sr)
    ensures SwapCV(RegisterWord(sr)) == FrameWord(sr) && SwapCV(FrameWord(sr)) == RegisterWord(sr)
  {
    HighBitsAligned(sr);
    hide HighBits;
  }

  /** The register a word of the architecture stands for. */
  function Decode(w: nat): Sr {
    var mode, low := w / 0x1000, w % 32;
    Sr(mode / 8 % 2 == 1, mode / 4 % 2 == 1, mode / 2 % 2 == 1, mode % 2 == 1, w / 0x100 % 16,
       low / 16 == 1, low / 8 % 2 == 1, low / 4 % 2 == 1, low / 2 % 2 == 1, low % 2 == 1)
  }

  lemma Digits(mode: nat, ipl: nat, low: nat)
    requires mode < 16 && ipl < 8 && low < 32
    ensures var w := 0x1000 * mode + 0x100 * ipl + low;
      w / 0x1000 == mode && w / 0x100 % 16 == ipl && w % 32 == low
  {
  }

  lemma ModeDigits(sr: Sr)
    ensures var w := ModeBits(sr);
      (w / 8 % 2 == 1) == sr.t1 && (w / 4 % 2 == 1) == sr.t0 && (w / 2 % 2 == 1) == sr.s && (w % 2 == 1) == sr.m
  {
  }

  lemma LowDigits(sr: Sr)
    ensures var w := 4 * ArithmeticBits(sr) + Flag(sr.v, 2) + Flag(sr.c, 1);
      && w < 32 && (w / 16 == 1) == sr.x && (w / 8 % 2 == 1) == sr.n && (w / 4 % 2 == 1) == sr.z
      && (w / 2 % 2 == 1) == sr.v && (w % 2 == 1) == sr.c
  {
  }

  /** The architecture's word determines the register. */
  lemma DecodeFrame(sr: Sr)
    requires SrOk(sr)
    ensures Decode(FrameWord(sr)) == sr
  {
    hide Decode, ModeBits, ArithmeticBits, Flag;
    var low := 4 * ArithmeticBits(sr) + Flag(sr.v, 2) + Flag(sr.c, 1);
    LowDigits(sr);
    ModeDigits(sr);
    Digits(ModeBits(sr), sr.ipl, low);
    DecodeDigits(FrameWord(sr), sr, ModeBits(sr), low);
  }

  lemma DecodeDigits(w: nat, sr: Sr, mode: nat, low: nat)
    requires w / 0x1000 == mode && w / 0x100 % 16 == sr.ipl && w % 32 == low
    requires (mode / 8 % 2 == 1) == sr.t1 && (mode / 4 % 2 == 1) == sr.t0 && (mode / 2 % 2 == 1) == sr.s && (mode % 2 == 1) == sr.m
    requires (low / 16 == 1) == sr.x && (low / 8 % 2 == 1) == sr.n && (low / 4 % 2 == 1) == sr.z
    requires (low / 2 % 2 == 1) == sr.v && (low % 2 == 1) == sr.c
    ensures Decode(w) == sr
  {
  }

  // ---------------------------------------------------------------- entry

  datatype Cpu = Cpu(sr: Sr, pc: int, a7: int, usp: int, isp: int, msp: int, vbr: int, mem: Bytes)

  /** Requests: an ARM error beats everything, then ARM asks for 6 and PPC for 2, and a higher external level
      wins over either. */
  function Requested(armError: bool, arm: bool, ppc: bool, external: nat): nat {
    if armError then 7
    else
      var level := if arm then 6 else if ppc then 2 else 0;
      if external > level then external else level
  }

  predicate Accepted(level: nat, ipl: nat) { level == 7 || level > ipl }

  /** The stack the frame goes to, and USP if user mode is left. */
  function ToSupervisor(c: Cpu): Cpu {
    if c.sr.s then c else c.(usp := c.a7, a7 := if c.sr.m then c.msp else c.isp)
  }

  function PushFrame(m: Bytes, a: int, sr: Sr, pc: int, vector: int): Bytes {
    WriteHalf(WriteLong(WriteHalf(m, a, FrameWord(sr)), a + 2, pc), a + 6, vector)
  }

  function VectorOf(level: nat): nat { 0x60 + 4 * level }

  function Enter(c: Cpu, level: nat): Cpu {
    var d := ToSupervisor(c);
    var a := d.a7 - 8;
    var m := PushFrame(d.mem, a, c.sr, c.pc, VectorOf(level));
    d.(sr := c.sr.(s := true, t0 := false, t1 := false, ipl := level),
       a7 := a, mem := m, pc := ReadLong(m, c.vbr + VectorOf(level)))
  }

  /** M68K_Exception: formats 2 and 3 push the effective address below the frame's place, format 4 the fault
      and the effective address. */
  function Exception(c: Cpu, typeAndFormat: nat, ea: int, fault: int): Cpu {
    var d := ToSupervisor(c);
    var format := typeAndFormat / 0x1000 % 16;
    var top := if format == 2 || format == 3 then d.a7 - 4 else if format == 4 then d.a7 - 8 else d.a7;
    var m0 := if format == 2 || format == 3 then WriteLong(d.mem, top, ea)
              else if format == 4 then WriteLong(WriteLong(d.mem, top, fault), top + 4, ea)
              else d.mem;
    var m := PushFrame(m0, top - 8, c.sr, c.pc, typeAndFormat);
    d.(sr := c.sr.(s := true, t0 := false, t1 := false), a7 := top - 8, mem := m,
       pc := ReadLong(m, c.vbr + typeAndFormat % 0x1000))
  }

  /** Exceptions of format 0 build the same frame as interrupts, and differ from them only in the mask. */
  lemma SameFrame(c: Cpu, level: nat)
    requires level <= 7
    ensures var e := Exception(c, VectorOf(level), 0, 0);
      Enter(c, level) == e.(sr := e.sr.(ipl := level))
  {
    hide PushFrame, ReadLong;
  }

  // ---------------------------------------------------------------- frames

  /** A frame at address a holds this status register and PC. */
  ghost predicate Frame(m: Bytes, a: int, sr: Sr, pc: int) {
    ReadHalf(m, a) == FrameWord(sr) && ReadLong(m, a + 2) == pc
  }

  lemma FrameWordRange(sr: Sr)
    requires SrOk(sr)
    ensures 0 <= FrameWord(sr) < 0x1_0000
  {
    HighBitsAligned(sr);
    hide HighBits;
  }

  lemma FramePushed(m: Bytes, a: int, sr: Sr, pc: int, vector: int)
    requires SrOk(sr) && 0 <= pc < 0x1_0000_0000 && 0 <= vector < 0x1_0000
    ensures var m' := PushFrame(m, a, sr, pc, vector);
      && Frame(m', a, sr, pc) && ReadHalf(m', a + 6) == vector
      && forall q :: q < a || a + 8 <= q ==> m'(q) == m(q)
  {
    FrameWordRange(sr);
    var w := FrameWord(sr);
    var m1 := WriteHalf(m, a, w);
    var m2 := WriteHalf(m1, a + 2, pc / 0x1_0000);
    var m3 := WriteHalf(m2, a + 4, pc % 0x1_0000);
    HalfWritten(m, a, w);
    HalfWritten(m1, a + 2, pc / 0x1_0000);
    HalfWritten(m2, a + 4, pc % 0x1_0000);
    HalfWritten(m3, a + 6, vector);
    HalfElsewhere(m1, a + 2, pc / 0x1_0000, a);
    HalfElsewhere(m2, a + 4, pc % 0x1_0000, a);
    HalfElsewhere(m2, a + 4, pc % 0x1_0000, a + 2);
    HalfElsewhere(m3, a + 6, vector, a);
    HalfElsewhere(m3, a + 6, vector, a + 2);
    HalfElsewhere(m3, a + 6, vector, a + 4);
    HalvesFrame(m, a, w, m1);
    HalvesFrame(m1, a + 2, pc / 0x1_0000, m2);
    HalvesFrame(m2, a + 4, pc % 0x1_0000, m3);
    HalvesFrame(m3, a + 6, vector, WriteHalf(m3, a + 6, vector));
    hide ReadHalf, WriteHalf, FrameWord;
  }

  lemma HalvesFrame(m: Bytes, a: int, v: int, m': Bytes)
    requires m' == WriteHalf(m, a, v)
    ensures forall q :: q < a || a + 2 <= q ==> m'(q) == m(q)
  {
  }

  /** Values a guest can hold. */
  predicate CpuOk(c: Cpu) { SrOk(c.sr) && 0 <= c.pc < 0x1_0000_0000 }

  function FormatOf(vector: nat): nat { vector / 0x1000 % 16 }

  /** What an exception leaves on the stack: its frame and, above that, the words of its format. */
  lemma ExceptionEffect(c: Cpu, typeAndFormat: nat, ea: int, fault: int)
    requires CpuOk(c) && typeAndFormat < 0x1_0000 && 0 <= ea < 0x1_0000_0000 && 0 <= fault < 0x1_0000_0000
    ensures var d := Exception(c, typeAndFormat, ea, fault);
      var format, top := FormatOf(typeAndFormat), ToSupervisor(c).a7;
      && Frame(d.mem, d.a7, c.sr, c.pc) && ReadHalf(d.mem, d.a7 + 6) == typeAndFormat
      && (format == 2 || format == 3 ==> d.a7 == top - 12 && ReadLong(d.mem, d.a7 + 8) == ea)
      && (format == 4 ==> d.a7 == top - 16 && ReadLong(d.mem, d.a7 + 8) == fault && ReadLong(d.mem, d.a7 + 12) == ea)
      && (format != 2 && format != 3 && format != 4 ==> d.a7 == top - 8)
      && d.pc == ReadLong(d.mem, c.vbr + typeAndFormat % 0x1000)
      && d.sr == c.sr.(s := true, t0 := false, t1 := false)
      && forall q :: q < d.a7 || top <= q ==> d.mem(q) == c.mem(q)
  {
    var d := ToSupervisor(c);
    var format := FormatOf(typeAndFormat);
    var e := Exception(c, typeAndFormat, ea, fault);
    var t := e.a7 + 8;
    var m0 := if format == 2 || format == 3 then WriteLong(d.mem, t, ea)
              else if format == 4 then WriteLong(WriteLong(d.mem, t, fault), t + 4, ea) else d.mem;
    hide ReadHalf, ReadLong, WriteLong, PushFrame, Frame, SrOk;
    LongWritten(d.mem, t, ea);
    LongWritten(d.mem, t, fault);
    LongWritten(WriteLong(d.mem, t, fault), t + 4, ea);
    LongElsewhere(WriteLong(d.mem, t, fault), t + 4, ea, t);
    FramePushed(m0, t - 8, c.sr, c.pc, typeAndFormat);
    LongKept(m0, e.mem, t);
    LongKept(m0, e.mem, t + 4);
  }

  // ---------------------------------------------------------------- leaving

  const PrivilegeViolation := 0x020
  const FormatError := 0x038

  /** A halfword, as the number it is. */
  function HalfAt(m: Bytes, a: int): nat { if ReadHalf(m, a) < 0 then 0 else ReadHalf(m, a) }

  predicate Returnable(format: nat) { format == 0 || format == 2 }

  /** RTE: it takes frames of format 0 and 2, pops them, and changes stacks if S or M changes. */
  function Rte(c: Cpu): Cpu {
    var format := FormatOf(HalfAt(c.mem, c.a7 + 6));
    if !c.sr.s then Exception(c, PrivilegeViolation, 0, 0)
    else if !Returnable(format) then Exception(c, FormatError, 0, 0)
    else Pop(c, Decode(HalfAt(c.mem, c.a7)), ReadLong(c.mem, c.a7 + 2), if format == 2 then 12 else 8)
  }

  function Pop(c: Cpu, sr: Sr, pc: int, bytes: int): Cpu {
    var d := c.(sr := sr, pc := pc, a7 := c.a7 + bytes);
    if sr.s == c.sr.s && sr.m == c.sr.m then d
    else
      var e := if c.sr.m then d.(msp := d.a7) else d.(isp := d.a7);
      e.(a7 := if !sr.s then e.usp else if sr.m then e.msp else e.isp)
  }

  lemma RteFrame(c: Cpu, sr: Sr, pc: int, vector: nat)
    requires c.sr.s && SrOk(sr) && Frame(c.mem, c.a7, sr, pc) && ReadHalf(c.mem, c.a7 + 6) == vector
    ensures Rte(c) == if Returnable(FormatOf(vector)) then Pop(c, sr, pc, if FormatOf(vector) == 2 then 12 else 8)
                      else Exception(c, FormatError, 0, 0)
  {
    hide Decode, FrameWord, ReadLong, ReadHalf, SrOk, Exception, Pop, FormatOf;
    DecodeFrame(sr);
    FrameWordRange(sr);
  }

  /** An exception is handled in supervisor mode, on a stack eight bytes or more down. */
  lemma ExceptionStack(c: Cpu, typeAndFormat: nat, ea: int, fault: int)
    ensures var e := Exception(c, typeAndFormat, ea, fault);
      e.sr.s && e.sr.m == c.sr.m && e.a7 <= ToSupervisor(c).a7 - 8
      && e.usp == ToSupervisor(c).usp && e.isp == c.isp && e.msp == c.msp && e.vbr == c.vbr
  {
    hide PushFrame, WriteLong, ReadLong;
  }

  /** RTE in user mode is a privilege violation, handled from vbr + 0x20; in supervisor mode a frame whose format is
      not 0 or 2 is a format error, handled from vbr + 0x38. */
  lemma RteTraps(c: Cpu)
    requires CpuOk(c) && 0 <= ReadHalf(c.mem, c.a7 + 6)
    ensures var d := Rte(c);
      var format := ReadHalf(c.mem, c.a7 + 6) / 0x1000 % 16;
      var offset := if c.sr.s then 0x38 else 0x20;
      !c.sr.s || (format != 0 && format != 2) ==>
        d.pc == ReadLong(d.mem, c.vbr + offset) && d.sr.s && ReadHalf(d.mem, d.a7 + 6) == offset
        && ReadHalf(d.mem, d.a7) == FrameWord(c.sr) && ReadLong(d.mem, d.a7 + 2) == c.pc
  {
    hide Exception, ReadLong, ReadHalf, FrameWord, Pop, Decode, SrOk;
    ExceptionEffect(c, PrivilegeViolation, 0, 0);
    ExceptionEffect(c, FormatError, 0, 0);
  }

  /** RTE right after an exception returns to where that came from if and only if the frame is of format 0 or
      2: it takes no other, though exceptions push formats 3 and 4 as well. */
  lemma RteUndoesIff(c: Cpu, typeAndFormat: nat, ea: int, fault: int)
    requires CpuOk(c) && typeAndFormat < 0x1_0000 && 0 <= ea < 0x1_0000_0000 && 0 <= fault < 0x1_0000_0000
    ensures var e := Exception(c, typeAndFormat, ea, fault);
      Rte(e) == c.(mem := e.mem, usp := ToSupervisor(c).usp) <==> Returnable(FormatOf(typeAndFormat))
  {
    var e := Exception(c, typeAndFormat, ea, fault);
    hide Rte, FormatOf, SrOk, Frame, ReadLong, ReadHalf, Exception;
    ExceptionEffect(c, typeAndFormat, ea, fault);
    ExceptionStack(c, typeAndFormat, ea, fault);
    ExceptionStack(e, FormatError, 0, 0);
    RteFrame(e, c.sr, c.pc, typeAndFormat);
  }

  // ---------------------------------------------------------------- nested interrupts

  /** What guest code between two interrupts may do: it does not lower the mask or leave supervisor mode, and
      leaves what lies at and above the stack pointer it was entered with alone. */
  ghost predicate GuestRuns(c: Cpu, d: Cpu) {
    && CpuOk(d) && d.sr.ipl >= c.sr.ipl && d.sr.s && d.usp == c.usp && d.a7 <= c.a7
    && forall q :: c.a7 <= q ==> d.mem(q) == c.mem(q)
  }

  /** One accepted interrupt: the state before it and its level. */
  datatype Arrival = Arrival(before: Cpu, level: nat)

  function After(a: Arrival): Cpu { Enter(a.before, a.level) }

  function FrameAddress(a: Arrival): int { After(a).a7 }

  /** Interrupts accepted one after the other, while guest code does not lower the mask. */
  ghost predicate MaskKept(run: seq<Arrival>) {
    && (forall k :: 0 <= k < |run| ==> run[k].level <= 7 && Accepted(run[k].level, run[k].before.sr.ipl))
    && (forall k :: 0 <= k < |run| - 1 ==> run[k + 1].before.sr.ipl >= After(run[k]).sr.ipl)
  }

  ghost predicate Nested(run: seq<Arrival>) {
    && (forall k :: 0 <= k < |run| ==> CpuOk(run[k].before) && 1 <= run[k].level <= 7 && Accepted(run[k].level, run[k].before.sr.ipl))
    && (forall k :: 0 <= k < |run| - 1 ==> GuestRuns(After(run[k]), run[k + 1].before))
  }

  /** The word of the frame and the word in the register, bit by bit. */
  lemma StatusWords(sr: Sr)
    ensures var high := (if sr.t1 then 0x8000 else 0) + (if sr.t0 then 0x4000 else 0) + (if sr.s then 0x2000 else 0) + (if sr.m then 0x1000 else 0)
        + 0x100 * sr.ipl + (if sr.x then 0x10 else 0) + (if sr.n then 8 else 0) + (if sr.z then 4 else 0);
      && FrameWord(sr) == high + (if sr.v then 2 else 0) + (if sr.c then 1 else 0)
      && RegisterWord(sr) == high + (if sr.c then 2 else 0) + (if sr.v then 1 else 0)
  {
  }

  /** An accepted interrupt, in numbers: eight bytes of frame below the supervisor's stack pointer hold the status
      register, the PC and the vector offset 0x60 + 4 * level, and the PC is loaded from there. */
  ghost predicate Interrupted(c: Cpu, level: nat, d: Cpu) {
    var top := if c.sr.s then c.a7 else if c.sr.m then c.msp else c.isp;
    var status := (if c.sr.t1 then 0x8000 else 0) + (if c.sr.t0 then 0x4000 else 0) + (if c.sr.s then 0x2000 else 0) + (if c.sr.m then 0x1000 else 0)
        + 0x100 * c.sr.ipl + (if c.sr.x then 0x10 else 0) + (if c.sr.n then 8 else 0) + (if c.sr.z then 4 else 0)
        + (if c.sr.v then 2 else 0) + (if c.sr.c then 1 else 0);
    && d.a7 == top - 8
    && ReadHalf(d.mem, top - 8) == status && ReadLong(d.mem, top - 6) == c.pc && ReadHalf(d.mem, top - 2) == 0x60 + 4 * level
    && (forall q :: q < top - 8 || top <= q ==> d.mem(q) == c.mem(q))
    && d.pc == ReadLong(d.mem, c.vbr + 0x60 + 4 * level)
    && d.sr == c.sr.(s := true, t0 := false, t1 := false, ipl := level)
    && d.usp == (if c.sr.s then c.usp else c.a7) && d.isp == c.isp && d.msp == c.msp && d.vbr == c.vbr
  }

  lemma EnterInNumbers(c: Cpu, level: nat)
    requires CpuOk(c) && level <= 7
    ensures Interrupted(c, level, Enter(c, level))
  {
    hide PushFrame, ReadLong, ReadHalf, FrameWord, RegisterWord, SrOk;
    var d := ToSupervisor(c);
    FramePushed(d.mem, d.a7 - 8, c.sr, c.pc, VectorOf(level));
    StatusWords(c.sr);
  }

  lemma EnterEffect(c: Cpu, level: nat)
    requires CpuOk(c) && 1 <= level <= 7
    ensures var d := Enter(c, level);
      && Frame(d.mem, d.a7, c.sr, c.pc) && ReadHalf(d.mem, d.a7 + 6) == VectorOf(level)
      && d.a7 == ToSupervisor(c).a7 - 8 && d.sr.s && d.sr.ipl == level && d.usp == ToSupervisor(c).usp
      && forall q :: q < d.a7 || d.a7 + 8 <= q ==> d.mem(q) == c.mem(q)
  {
    var d := ToSupervisor(c);
    FramePushed(d.mem, d.a7 - 8, c.sr, c.pc, VectorOf(level));
    hide PushFrame, ReadLong, ReadHalf, Frame;
  }

  lemma FrameKept(m: Bytes, m': Bytes, a: int, sr: Sr, pc: int)
    requires Frame(m, a, sr, pc) && forall q :: a <= q < a + 8 ==> m'(q) == m(q)
    ensures Frame(m', a, sr, pc)
  {
  }

  /** Without a lowered mask, levels rise strictly until they reach 7. */
  lemma LevelsRise(run: seq<Arrival>, k: nat)
    requires MaskKept(run) && k + 1 < |run|
    ensures run[k].level < run[k + 1].level || run[k + 1].level == 7
  {
    assert run[k + 1].before.sr.ipl >= After(run[k]).sr.ipl;
    hide ToSupervisor, PushFrame, ReadLong;
  }

  lemma {:induction false} LevelAtLeast(run: seq<Arrival>, k: nat)
    requires MaskKept(run) && k < |run|
    ensures run[k].level >= k + 1 || run[k].level == 7
    decreases k
  {
    if k > 0 {
      LevelsRise(run, k - 1);
      LevelAtLeast(run, k - 1);
    }
  }

  /** At most six entries are below level 7: from the seventh on, all are. */
  lemma AtMostSixMaskable(run: seq<Arrival>, k: nat)
    requires MaskKept(run) && 6 <= k < |run|
    ensures run[k].level == 7
  {
    LevelAtLeast(run, k);
  }

  /** Later frames lie below earlier ones, and earlier memory is kept. */
  lemma {:induction false} LaterFrames(run: seq<Arrival>, k: nat, j: nat)
    requires Nested(run) && k < j < |run|
    ensures FrameAddress(run[j]) + 8 <= FrameAddress(run[k])
    ensures forall q :: FrameAddress(run[k]) <= q ==> After(run[j]).mem(q) == After(run[k]).mem(q)
    decreases j
  {
    hide Enter, Frame, ReadHalf;
    EnterEffect(run[j].before, run[j].level);
    assert GuestRuns(After(run[j - 1]), run[j].before);
    InSupervisor(run, j);
    if k < j - 1 {
      LaterFrames(run, k, j - 1);
    }
  }

  lemma InSupervisor(run: seq<Arrival>, j: nat)
    requires Nested(run) && 0 < j < |run|
    ensures ToSupervisor(run[j].before) == run[j].before
  {
    assert GuestRuns(After(run[j - 1]), run[j].before);
  }

  /** Unwinding: after any run of nested interrupts every frame still holds, at its own address, the PC and
      status register that were interrupted; reading the frames in reverse order returns through all of them. */
  lemma FramesRecover(run: seq<Arrival>, k: nat)
    requires Nested(run) && k < |run|
    ensures var m := After(run[|run| - 1]).mem;
      var a := FrameAddress(run[k]);
      && ReadHalf(m, a) == FrameWord(run[k].before.sr)
      && Decode(ReadHalf(m, a)) == run[k].before.sr
      && SwapCV(ReadHalf(m, a)) == RegisterWord(run[k].before.sr)
      && ReadLong(m, a + 2) == run[k].before.pc
  {
    hide Enter, ReadHalf, ReadLong, Decode, FrameWord, RegisterWord, SwapCV;
    EnterEffect(run[k].before, run[k].level);
    DecodeFrame(run[k].before.sr);
    SwapIsFrame(run[k].before.sr);
    var m := After(run[|run| - 1]).mem;
    var a := FrameAddress(run[k]);
    if k < |run| - 1 {
      LaterFrames(run, k, |run| - 1);
    }
    FrameKept(After(run[k]).mem, m, a, run[k].before.sr, run[k].before.pc);
  }

  /** The user's stack pointer: if the first interrupt left user mode, USP holds it throughout. */
  lemma {:induction false} UserStackKept(run: seq<Arrival>, k: nat)
    requires Nested(run) && k < |run| && !run[0].before.sr.s
    ensures After(run[k]).usp == run[0].before.a7
    decreases k
  {
    hide Enter, Frame, ReadHalf;
    EnterEffect(run[k].before, run[k].level);
    if k > 0 {
      UserStackKept(run, k - 1);
      InSupervisor(run, k);
      assert GuestRuns(After(run[k - 1]), run[k].before);
    }
  }

  // ---------------------------------------------------------------- unwinding

  /** A handler may do what it likes, as long as it comes to its RTE with the stack pointer on its frame, in the
      mode it was entered in, and leaves the frame and what lies above it, and the other stack pointers, alone. */
  ghost predicate Handles(x: Cpu, y: Cpu, at: int) {
    && y.a7 == at && y.sr.s && y.sr.m == x.sr.m && y.usp == x.usp && y.isp == x.isp && y.msp == x.msp
    && forall q :: at <= q ==> y.mem(q) == x.mem(q)
  }

  /** The handlers of a run of nested interrupts end in turn: done[k] is the state in which the handler of
      interrupt k comes to its RTE, the last of them first. */
  ghost predicate Unwinds(run: seq<Arrival>, done: seq<Cpu>) {
    && Nested(run) && |done| == |run|
    && (forall k :: 0 <= k < |run| - 1 ==> SameStacks(After(run[k]), run[k + 1].before))
    && (forall k :: 0 <= k < |run| ==> Handles(Resumed(run, done, k), done[k], FrameAddress(run[k])))
  }

  predicate SameStacks(c: Cpu, d: Cpu) { d.sr.m == c.sr.m && d.isp == c.isp && d.msp == c.msp }

  /** Where handler k goes on: after the last interrupt, or after the return from the one that came next. */
  function Resumed(run: seq<Arrival>, done: seq<Cpu>, k: nat): Cpu
    requires k < |run| == |done|
  {
    if k == |run| - 1 then After(run[k]) else Rte(done[k + 1])
  }

  /** Status register, PC and stack pointers are those of c, and so is the memory from an address up. */
  ghost predicate BackIn(c: Cpu, d: Cpu, from: int) {
    && d.sr == c.sr && d.pc == c.pc && d.a7 == c.a7 && d.usp == ToSupervisor(c).usp && d.isp == c.isp && d.msp == c.msp
    && forall q :: from <= q ==> d.mem(q) == c.mem(q)
  }

  /** RTE on a frame pushed by an interrupt. */
  lemma RteReturns(a: Arrival, y: Cpu)
    requires CpuOk(a.before) && 1 <= a.level <= 7 && Handles(After(a), y, FrameAddress(a))
    ensures BackIn(a.before, Rte(y), FrameAddress(a) + 8)
  {
    var c := a.before;
    hide Rte, FormatOf, SrOk, ReadLong, ReadHalf, Frame, PushFrame;
    EnterEffect(c, a.level);
    FrameKept(After(a).mem, y.mem, y.a7, c.sr, c.pc);
    HalfKept(After(a).mem, y.mem, y.a7 + 6);
    RteFrame(y, c.sr, c.pc, VectorOf(a.level));
    FormatZero(a.level);
  }

  lemma HalfKept(m: Bytes, m': Bytes, a: int)
    requires m'(a) == m(a) && m'(a + 1) == m(a + 1)
    ensures ReadHalf(m', a) == ReadHalf(m, a)
  {
  }

  lemma FormatZero(level: nat)
    requires level <= 7
    ensures FormatOf(VectorOf(level)) == 0
  {
  }

  /** However the handlers of nested interrupts interleave, each RTE returns to the status register, PC, stack
      pointers and stack contents that its interrupt found. */
  lemma {:induction false} UnwindsAll(run: seq<Arrival>, done: seq<Cpu>, k: nat)
    requires Unwinds(run, done) && k < |run|
    ensures BackIn(run[k].before, Rte(done[k]), FrameAddress(run[k]) + 8)
    decreases |run| - k
  {
    hide Enter, Rte, ToSupervisor, SrOk;
    assert Handles(Resumed(run, done, k), done[k], FrameAddress(run[k]));
    if k < |run| - 1 {
      UnwindsAll(run, done, k + 1);
      ResumesHandler(run, done, k);
    }
    RteReturns(run[k], done[k]);
  }

  lemma ResumesHandler(run: seq<Arrival>, done: seq<Cpu>, k: nat)
    requires Unwinds(run, done) && k + 1 < |run|
    requires BackIn(run[k + 1].before, Rte(done[k + 1]), FrameAddress(run[k + 1]) + 8)
    ensures Handles(After(run[k]), done[k], FrameAddress(run[k]))
  {
    hide Rte, SrOk, Frame, ReadHalf, ReadLong, PushFrame;
    assert GuestRuns(After(run[k]), run[k + 1].before) && SameStacks(After(run[k]), run[k + 1].before);
    assert Handles(Resumed(run, done, k), done[k], FrameAddress(run[k]));
    InSupervisor(run, k + 1);
    EnterEffect(run[k + 1].before, run[k + 1].level);
  }

  // ---------------------------------------------------------------- the code

  class Core {
    var sr: Sr
    var pc: int
    var a7: int
    var usp: int
    const isp: int
    const msp: int
    const vbr: int
    var mem: Bytes
    var armError: bool
    var arm: bool
    var ppc: bool
    var ipl: nat

    /** The m68k state. */
    ghost function State(): Cpu
      reads this
    {
      Cpu(sr, pc, a7, usp, isp, msp, vbr, mem)
    }

    /** Store A7 in USP and take the supervisor's stack, if user mode is left. */
    method SwapStacks()
      modifies this`usp, this`a7
      ensures State() == ToSupervisor(old(State()))
    {
      if !sr.s {
        usp := a7;
        if sr.m {
          a7 := msp;
        } else {
          a7 := isp;
        }
      }
    }

    /** The three stores of a frame; C and V are exchanged in a copy of the register's word. */
    method PushFrameWords(vector: int)
      modifies this`a7, this`mem
      ensures a7 == old(a7) - 8 && mem == PushFrame(old(mem), old(a7) - 8, sr, pc, vector)
    {
      var copy := RegisterWord(sr);
      SwapIsFrame(sr);
      if copy % 4 == 1 {
        copy := copy + 1;
      } else if copy % 4 == 2 {
        copy := copy - 1;
      }
      hide RegisterWord, FrameWord, WriteHalf;
      a7 := a7 - 8;
      mem := WriteHalf(mem, a7, copy);
      mem := WriteLong(mem, a7 + 2, pc);
      mem := WriteHalf(mem, a7 + 6, vector);
    }

    /** The requested level; an ARM error is acknowledged. */
    method ChooseLevel() returns (level: nat)
      modifies this`armError
      ensures level == Requested(old(armError), arm, ppc, ipl) && !armError
    {
      level := 0;
      if armError {
        level := 7;
        armError := false;
      } else {
        if arm {
          level := 6;
        } else if ppc {
          level := 2;
        }
        if ipl > level {
          level := ipl;
        }
      }
    }

    method EnterInterrupt(level: nat)
      modifies this`sr, this`pc, this`a7, this`usp, this`mem
      ensures State() == Enter(old(State()), level)
    {
      hide PushFrame, ReadLong;
      SwapStacks();
      var vector := 0x60 + 4 * level;
      PushFrameWords(vector);
      sr := sr.(s := true);
      sr := sr.(t0 := false, t1 := false);
      sr := sr.(ipl := level);
      pc := ReadLong(mem, vbr + vector);
    }

    /** The interrupt block of MainLoop: choose the level, and enter if it is not masked. */
    method InterruptBlock() returns (level: nat)
      modifies this`sr, this`pc, this`a7, this`usp, this`mem, this`armError
      ensures level == Requested(old(armError), arm, ppc, ipl) && !armError
      ensures State() == if Accepted(level, old(sr).ipl) then Enter(old(State()), level) else old(State())
      ensures var asked := if arm then 6 else if ppc then 2 else 0;
        level == if old(armError) then 7 else if ipl > asked then ipl else asked
      ensures CpuOk(old(State())) && level <= 7 ==>
        if level == 7 || level > old(sr).ipl then Interrupted(old(State()), level, State()) else State() == old(State())
    {
      hide Enter, Interrupted, CpuOk;
      level := ChooseLevel();
      if CpuOk(State()) && level <= 7 {
        EnterInNumbers(State(), level);
      }
      if level == 7 || level > sr.ipl {
        EnterInterrupt(level);
      }
    }

    /** M68K_Exception. */
    method TakeException(typeAndFormat: nat, ea: int, fault: int)
      modifies this`sr, this`pc, this`a7, this`usp, this`mem
      ensures State() == Exception(old(State()), typeAndFormat, ea, fault)
    {
      hide PushFrame, ReadLong, WriteHalf;
      SwapStacks();
      var format := typeAndFormat / 0x1000 % 16;
      if format == 2 || format == 3 {
        a7 := a7 - 4;
        mem := WriteLong(mem, a7, ea);
      } else if format == 4 {
        a7 := a7 - 8;
        mem := WriteLong(mem, a7, fault);
        mem := WriteLong(mem, a7 + 4, ea);
      }
      PushFrameWords(typeAndFormat);
      sr := sr.(s := true, t0 := false, t1 := false);
      pc := ReadLong(mem, vbr + typeAndFormat % 0x1000);
    }
  }
}
