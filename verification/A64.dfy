/**
  The part of AArch64 that the translator emits: 32-bit registers, the NZCV flags,
  byte-addressed big-endian memory, and one constructor per emitted instruction.
  Instructions are data; the fields they carry are those of the encoding, so that the
  arithmetic done by the encoder aliases (section "aliases" below) is part of the model.
  Semantics follow section C6.2 of the Arm Architecture Reference Manual.
*/
module A64 {
  import opened Words

  /** Registers by the role the register allocator gives them.  The allocator hands out
      distinct registers for distinct roles, so the constructors are pairwise distinct. */
  datatype Reg = D(n: nat) | A(n: nat) | PC | CC | FPSR | X0 | T(k: nat) | ZR

  /** Condition codes in the order of their numbers 0 to 15. */
  datatype Cond = EQ | NE | CS | CLR | MI | PL | VS | VC | HI | LS | GE | LT | GT | LE | AL | NV

  /** Flipping bit 0 of the number (`cond ^ 1`). */
  function Flip(c: Cond): Cond {
    match c
    case EQ => NE case NE => EQ
    case CS => CLR case CLR => CS
    case MI => PL case PL => MI
    case VS => VC case VC => VS
    case HI => LS case LS => HI
    case GE => LT case LT => GE
    case GT => LE case LE => GT
    case AL => NV case NV => AL
  }

  datatype Size = Byte | Half | Long

  datatype ByteCell = ByteCell(b: bv8)

  type RegFile = Reg -> Word
  type Mem = Word -> ByteCell

  function WriteReg(f: RegFile, r: Reg, w: Word): RegFile {
    q => if q == r then w else f(q)
  }

  function WriteByte(m: Mem, a: Word, b: ByteCell): Mem {
    q => if q == a then b else m(q)
  }

  datatype Host = Host(x: RegFile, n: bool, z: bool, c: bool, v: bool, mem: Mem)
  {
    function Get(r: Reg): Word {
      if r.ZR? then W(0) else x(r)
    }

    function Set(r: Reg, w: Word): Host {
      if r.ZR? then this else this.(x := WriteReg(x, r, w))
    }

    function Flags(nn: bool, zz: bool, cc: bool, vv: bool): Host {
      this.(n := nn, z := zz, c := cc, v := vv)
    }
  }

  // ---------------------------------------------------------------- memory, most significant byte first

  function Load(m: Mem, a: Word, size: Size): Word {
    match size
    case Byte => W(m(a).b as bv32)
    case Half => W(((m(a).b as bv32) << 8) | (m(Plus(a, W(1))).b as bv32))
    case Long => W(((m(a).b as bv32) << 24) | ((m(Plus(a, W(1))).b as bv32) << 16)
                 | ((m(Plus(a, W(2))).b as bv32) << 8) | (m(Plus(a, W(3))).b as bv32))
  }

  /** Octet k of a word, counted from the least significant one. */
  function Octet(w: Word, k: bv8): ByteCell {
    ByteCell(((w.b >> (8 * (k & 3))) & 0xff) as bv8)
  }

  function Store(m: Mem, a: Word, size: Size, w: Word): Mem {
    match size
    case Byte => WriteByte(m, a, Octet(w, 0))
    case Half => WriteByte(WriteByte(m, a, Octet(w, 1)), Plus(a, W(1)), Octet(w, 0))
    case Long =>
      WriteByte(WriteByte(WriteByte(WriteByte(m, a, Octet(w, 3)), Plus(a, W(1)), Octet(w, 2)),
                          Plus(a, W(2)), Octet(w, 1)), Plus(a, W(3)), Octet(w, 0))
  }

  // ---------------------------------------------------------------- instructions

  datatype Shift = LSL | LSR

  datatype ArithOp = Add | Sub
  datatype ArithSrc = Imm12(imm: Word) | Shifted12(rm: Reg, amount: bv8)

  datatype LogicOp = AND | ORR | EOR | BIC | ORN
  datatype LogicSrc = BitMask(imms: bv8, immr: bv8) | ShiftedReg(rm: Reg, shift: Shift, amount: bv8)

  datatype MoveKind = MOVZ(imm16: Word, hw: bv8) | MOVN(imm16: Word) | LOADIMM(imm: Word) | COPY(rm: Reg)

  datatype FieldOp = BFM | UBFM | SXTH
  datatype SelectOp = CSEL | CSINC | CSINV

  /** Addressing of a load or store: scaled unsigned offset, unscaled 9-bit offset, the two
      write-back forms, and a zero-extended 32-bit register offset. */
  datatype Addressing =
    | Scaled(imm12: Word)
    | Unscaled(imm9: Word)
    | PreIndex(imm9: Word)
    | PostIndex(imm9: Word)
    | RegUxtw(rm: Reg)

  datatype Insn =
    | Arith(aop: ArithOp, setsFlags: bool, rd: Reg, rn: Reg, asrc: ArithSrc)
    | Logic(lop: LogicOp, setsFlags: bool, rd: Reg, rn: Reg, lsrc: LogicSrc)
    | Move(rd: Reg, kind: MoveKind)
    | Field(fop: FieldOp, rd: Reg, rn: Reg, immr: bv8, imms: bv8)
    | Extr(rd: Reg, rn: Reg, rm: Reg, lsb: bv8)
    | Select(sop: SelectOp, rd: Reg, rn: Reg, rm: Reg, cond: Cond)
    | GetNzcv(rd: Reg)
    | SetNzcv(rn: Reg)
    | Ld(size: Size, signed: bool, rt: Reg, rn: Reg, mode: Addressing)
    | St(size: Size, rt: Reg, rn: Reg, mode: Addressing)
    | BCond(cond: Cond, dist: nat)
    | TestBit(ifSet: bool, rt: Reg, bit: bv8, dist: nat)
    | Nop
    | Udf

  predicate Jumps(i: Insn) {
    i.BCond? || i.TestBit?
  }

  /** Encoders that set the host flags reset `host_flags` as a side effect of encoding. */
  predicate ResetsFlags(i: Insn) {
    (i.Arith? || i.Logic?) && i.setsFlags
  }

  /** ConditionHolds; both AL and NV always hold. */
  predicate Holds(c: Cond, s: Host) {
    match c
    case EQ => s.z case NE => !s.z
    case CS => s.c case CLR => !s.c
    case MI => s.n case PL => !s.n
    case VS => s.v case VC => !s.v
    case HI => s.c && !s.z case LS => !(s.c && !s.z)
    case GE => s.n == s.v case LT => s.n != s.v
    case GT => s.n == s.v && !s.z case LE => !(s.n == s.v && !s.z)
    case AL => true case NV => true
  }

  function AddFlags(s: Host, rd: Reg, x: Word, y: Word): Host {
    s.Set(rd, Plus(x, y)).Flags(Negative(Plus(x, y)), IsZero(Plus(x, y)), Carry(x, y), AddOverflow(x, y))
  }

  function SubFlags(s: Host, rd: Reg, x: Word, y: Word): Host {
    s.Set(rd, Minus(x, y)).Flags(Negative(Minus(x, y)), IsZero(Minus(x, y)), NoBorrow(x, y), SubOverflow(x, y))
  }

  function AndFlags(s: Host, rd: Reg, r: Word): Host {
    s.Set(rd, r).Flags(Negative(r), IsZero(r), false, false)
  }

  function NzcvWord(n: bool, z: bool, c: bool, v: bool): Word {
    W((if n then 0x8000_0000 else 0) | (if z then 0x4000_0000 else 0) |
      (if c then 0x2000_0000 else 0) | (if v then 0x1000_0000 else 0))
  }

  /** The scaled offset field, in bytes. */
  function Scale(imm: Word, size: Size): Word {
    match size
    case Byte => Low12(imm)
    case Half => ShiftL(Low12(imm), 1)
    case Long => ShiftL(Low12(imm), 2)
  }

  function Address(s: Host, size: Size, rn: Reg, mode: Addressing): Word {
    match mode
    case Scaled(imm) => Plus(s.Get(rn), Scale(imm, size))
    case Unscaled(imm) => Plus(s.Get(rn), Sext9(imm))
    case PreIndex(imm) => Plus(s.Get(rn), Sext9(imm))
    case PostIndex(imm) => s.Get(rn)
    case RegUxtw(rm) => Plus(s.Get(rn), s.Get(rm))
  }

  function WriteBack(s: Host, rn: Reg, mode: Addressing): Host {
    match mode
    case PreIndex(imm) => s.Set(rn, Plus(s.Get(rn), Sext9(imm)))
    case PostIndex(imm) => s.Set(rn, Plus(s.Get(rn), Sext9(imm)))
    case _ => s
  }

  function Extend(size: Size, signed: bool, w: Word): Word {
    if !signed then w else
    match size
    case Byte => Sext8(w)
    case Half => Sext16(w)
    case Long => w
  }

  // One function per instruction class; `Step` only dispatches.
  function ArithOperand(s: Host, src: ArithSrc): Word {
    match src
    case Imm12(imm) => Low12(imm)
    case Shifted12(rm, k) => ShiftL(s.Get(rm), k)
  }

  function StepArith(s: Host, op: ArithOp, setsFlags: bool, rd: Reg, rn: Reg, src: ArithSrc): Host {
    var x, y := s.Get(rn), ArithOperand(s, src);
    match op
    case Add => if setsFlags then AddFlags(s, rd, x, y) else s.Set(rd, Plus(x, y))
    case Sub => if setsFlags then SubFlags(s, rd, x, y) else s.Set(rd, Minus(x, y))
  }

  function LogicOperand(s: Host, src: LogicSrc): Word {
    match src
    case BitMask(imms, immr) => LogicalImm(imms, immr)
    case ShiftedReg(rm, shift, k) => if shift.LSL? then ShiftL(s.Get(rm), k) else ShiftR(s.Get(rm), k)
  }

  function LogicValue(op: LogicOp, x: Word, y: Word): Word {
    match op
    case AND => And(x, y)
    case ORR => Or(x, y)
    case EOR => Xor(x, y)
    case BIC => And(x, Not(y))
    case ORN => Or(x, Not(y))
  }

  function StepLogic(s: Host, op: LogicOp, setsFlags: bool, rd: Reg, rn: Reg, src: LogicSrc): Host {
    var r := LogicValue(op, s.Get(rn), LogicOperand(s, src));
    if setsFlags then AndFlags(s, rd, r) else s.Set(rd, r)
  }

  function MoveValue(s: Host, kind: MoveKind): Word {
    match kind
    case MOVZ(imm, hw) => if hw == 0 then Low16(imm) else ShiftL(Low16(imm), 16)
    case MOVN(imm) => Not(Low16(imm))
    case LOADIMM(imm) => imm
    case COPY(rm) => s.Get(rm)
  }

  function FieldValue(op: FieldOp, d: Word, x: Word, immr: bv8, imms: bv8): Word {
    match op
    case BFM => BfmValue(d, x, immr, imms)
    case UBFM => BfmValue(W(0), x, immr, imms)
    case SXTH => Sext16(x)
  }

  function SelectValue(op: SelectOp, x: Word, y: Word, holds: bool): Word {
    if holds then x else
    match op
    case CSEL => y
    case CSINC => Plus(y, W(1))
    case CSINV => Not(y)
  }

  function StepLd(s: Host, size: Size, signed: bool, rt: Reg, rn: Reg, mode: Addressing): Host {
    WriteBack(s, rn, mode).Set(rt, Extend(size, signed, Load(s.mem, Address(s, size, rn, mode), size)))
  }

  function StepSt(s: Host, size: Size, rt: Reg, rn: Reg, mode: Addressing): Host {
    WriteBack(s, rn, mode).(mem := Store(s.mem, Address(s, size, rn, mode), size, s.Get(rt)))
  }

  function StepSetNzcv(s: Host, w: Word): Host {
    s.Flags(Bit(w, 31), Bit(w, 30), Bit(w, 29), Bit(w, 28))
  }

  function Step(i: Insn, s: Host): Host {
    match i
    case Arith(op, setsFlags, rd, rn, src) => StepArith(s, op, setsFlags, rd, rn, src)
    case Logic(op, setsFlags, rd, rn, src) => StepLogic(s, op, setsFlags, rd, rn, src)
    case Move(rd, kind) => s.Set(rd, MoveValue(s, kind))
    case Field(op, rd, rn, immr, imms) => s.Set(rd, FieldValue(op, s.Get(rd), s.Get(rn), immr, imms))
    case Extr(rd, rn, rm, lsb) => s.Set(rd, Or(ShiftR(s.Get(rm), lsb), ShiftL(s.Get(rn), 32 - lsb)))
    case Select(op, rd, rn, rm, c) => s.Set(rd, SelectValue(op, s.Get(rn), s.Get(rm), Holds(c, s)))
    case GetNzcv(rd) => s.Set(rd, NzcvWord(s.n, s.z, s.c, s.v))
    case SetNzcv(rn) => StepSetNzcv(s, s.Get(rn))
    case Ld(size, signed, rt, rn, mode) => StepLd(s, size, signed, rt, rn, mode)
    case St(size, rt, rn, mode) => StepSt(s, size, rt, rn, mode)
    case _ => s
  }

  // ---------------------------------------------------------------- running a fragment

  /** A fragment either falls through its end, or leaves through a branch whose distance is
      still 0: such a branch is recorded in a fix-up and later made to enter an exit block. */
  datatype Outcome = Fall(s: Host) | Leave(s: Host)

  predicate Taken(i: Insn, s: Host)
    requires Jumps(i)
  {
    match i
    case BCond(c, _) => Holds(c, s)
    case TestBit(ifSet, r, b, _) => Bit(s.Get(r), b) == ifSet
  }

  /** Branches only go forward: by `dist` instructions, or out of the fragment if `dist` is 0. */
  function Run(code: seq<Insn>, s: Host): Outcome
    decreases |code|
  {
    if code == [] then Fall(s)
    else if !Jumps(code[0]) then Run(code[1..], Step(code[0], s))
    else if !Taken(code[0], s) then Run(code[1..], s)
    else if code[0].dist == 0 then Leave(s)
    else if code[0].dist <= |code| then Run(code[code[0].dist..], s)
    else Fall(s)
  }

  predicate Straight(code: seq<Insn>) {
    forall i :: 0 <= i < |code| ==> !Jumps(code[i])
  }

  lemma {:induction false} RunStraight(a: seq<Insn>, b: seq<Insn>, s: Host)
    requires Straight(a)
    ensures Run(a, s).Fall?
    ensures Run(a + b, s) == Run(b, Run(a, s).s)
    decreases |a|
  {
    if a == [] {
      assert a + b == b;
    } else {
      assert (a + b)[1..] == a[1..] + b;
      RunStraight(a[1..], b, Step(a[0], s));
    }
  }

  /** The end state of a fragment without branches. */
  function End(code: seq<Insn>, s: Host): Host {
    Run(code, s).s
  }

  /** Fragments without branches compose. */
  lemma Then(a: seq<Insn>, b: seq<Insn>, s: Host)
    requires Straight(a) && Straight(b)
    ensures Straight(a + b)
    ensures End(a + b, s) == End(b, End(a, s))
  {
    hide Step;
    RunStraight(a, b, s);
  }

  lemma Exec0(s: Host)
    ensures Straight([]) && End([], s) == s
  {
    hide Step;
  }

  lemma Exec1(a: Insn, s: Host)
    requires !Jumps(a)
    ensures Straight([a]) && End([a], s) == Step(a, s)
  {
    hide Step;
    assert [a][1..] == [];
    assert Run([a], s) == Run([], Step(a, s));
  }

  lemma Exec2(a: Insn, b: Insn, s: Host)
    requires !Jumps(a) && !Jumps(b)
    ensures Straight([a, b]) && End([a, b], s) == Step(b, Step(a, s))
  {
    hide Step;
    assert [a, b][1..] == [b];
    Exec1(b, Step(a, s));
  }

  lemma Exec3(a: Insn, b: Insn, c: Insn, s: Host)
    requires !Jumps(a) && !Jumps(b) && !Jumps(c)
    ensures Straight([a, b, c]) && End([a, b, c], s) == Step(c, Step(b, Step(a, s)))
  {
    hide Step;
    assert [a, b, c][1..] == [b, c];
    Exec2(b, c, Step(a, s));
  }

  lemma Exec4(a: Insn, b: Insn, c: Insn, d: Insn, s: Host)
    requires !Jumps(a) && !Jumps(b) && !Jumps(c) && !Jumps(d)
    ensures Straight([a, b, c, d]) && End([a, b, c, d], s) == Step(d, Step(c, Step(b, Step(a, s))))
  {
    hide Step;
    assert [a, b, c, d][1..] == [b, c, d];
    Exec3(b, c, d, Step(a, s));
  }

  // ---------------------------------------------------------------- encoder aliases

  function AddImmed(rd: Reg, rn: Reg, imm: Word): Insn { Arith(Add, false, rd, rn, Imm12(imm)) }
  function SubImmed(rd: Reg, rn: Reg, imm: Word): Insn { Arith(Sub, false, rd, rn, Imm12(imm)) }
  function AddsImmed(rd: Reg, rn: Reg, imm: Word): Insn { Arith(Add, true, rd, rn, Imm12(imm)) }
  function SubsImmed(rd: Reg, rn: Reg, imm: Word): Insn { Arith(Sub, true, rd, rn, Imm12(imm)) }
  function AddReg(rd: Reg, rn: Reg, rm: Reg, k: bv8): Insn { Arith(Add, false, rd, rn, Shifted12(rm, k)) }
  function AddsReg(rd: Reg, rn: Reg, rm: Reg, k: bv8): Insn { Arith(Add, true, rd, rn, Shifted12(rm, k)) }
  function SubsReg(rd: Reg, rn: Reg, rm: Reg, k: bv8): Insn { Arith(Sub, true, rd, rn, Shifted12(rm, k)) }

  function AndImmed(rd: Reg, rn: Reg, width: bv8, rot: bv8): Insn { Logic(AND, false, rd, rn, BitMask(width - 1, rot)) }
  function BicImmed(rd: Reg, rn: Reg, width: bv8, rot: bv8): Insn { AndImmed(rd, rn, 32 - width, rot - width) }
  function AndsImmed(rd: Reg, rn: Reg, width: bv8, rot: bv8): Insn { Logic(AND, true, rd, rn, BitMask(width - 1, rot)) }
  function OrrImmed(rd: Reg, rn: Reg, width: bv8, rot: bv8): Insn { Logic(ORR, false, rd, rn, BitMask(width - 1, rot)) }
  function EorImmed(rd: Reg, rn: Reg, width: bv8, rot: bv8): Insn { Logic(EOR, false, rd, rn, BitMask(width - 1, rot)) }
  function TstImmed(rn: Reg, width: bv8, rot: bv8): Insn { AndsImmed(ZR, rn, width, rot) }
  function AndReg(rd: Reg, rn: Reg, rm: Reg, k: bv8): Insn { Logic(AND, false, rd, rn, ShiftedReg(rm, LSL, k)) }
  function TstReg(rn: Reg, rm: Reg): Insn { Logic(AND, true, ZR, rn, ShiftedReg(rm, LSL, 0)) }
  function BicReg(rd: Reg, rn: Reg, rm: Reg): Insn { Logic(BIC, false, rd, rn, ShiftedReg(rm, LSL, 0)) }
  function OrrReg(rd: Reg, rn: Reg, rm: Reg, shift: Shift, k: bv8): Insn { Logic(ORR, false, rd, rn, ShiftedReg(rm, shift, k)) }
  function MvnReg(rd: Reg, rm: Reg): Insn { Logic(ORN, false, rd, ZR, ShiftedReg(rm, LSL, 0)) }

  function MovReg(rd: Reg, rm: Reg): Insn { Move(rd, COPY(rm)) }
  function MovImmed(rd: Reg, imm: Word, hw: bv8): Insn { Move(rd, MOVZ(imm, hw)) }
  function MovnImmed(rd: Reg, imm: Word): Insn { Move(rd, MOVN(imm)) }
  function LoadImmediate(rd: Reg, imm: Word): Insn { Move(rd, LOADIMM(imm)) }

  function Bfi(rd: Reg, rn: Reg, lsb: bv8, width: bv8): Insn { Field(BFM, rd, rn, 31 & (32 - lsb), width - 1) }
  function Bfxil(rd: Reg, rn: Reg, lsb: bv8, width: bv8): Insn { Field(BFM, rd, rn, lsb, lsb + width - 1) }
  function Lsl(rd: Reg, rn: Reg, lsb: bv8): Insn { Field(UBFM, rd, rn, 31 & (32 - lsb), 31 - lsb) }
  function Lsr(rd: Reg, rn: Reg, lsb: bv8): Insn { Field(UBFM, rd, rn, lsb, 31) }
  function Uxth(rd: Reg, rn: Reg): Insn { Field(UBFM, rd, rn, 0, 15) }
  function Sxth(rd: Reg, rn: Reg): Insn { Field(SXTH, rd, rn, 0, 15) }
  function Ror(rd: Reg, rn: Reg, lsb: bv8): Insn { Extr(rd, rn, rn, lsb) }

  function Csel(rd: Reg, rn: Reg, rm: Reg, cond: Cond): Insn { Select(CSEL, rd, rn, rm, cond) }
  function Cset(rd: Reg, cond: Cond): Insn { Select(CSINC, rd, ZR, ZR, Flip(cond)) }
  function Csetm(rd: Reg, cond: Cond): Insn { Select(CSINV, rd, ZR, ZR, Flip(cond)) }
  function Cinc(rd: Reg, rn: Reg, cond: Cond): Insn { Select(CSINC, rd, rn, rn, Flip(cond)) }

  /** `BicImmed`, encoded as an AND with 32-width ones rotated by rot-width, clears exactly the
      `width` ones rotated right by `rot`. */
  lemma BicClearsRotatedOnes(rd: Reg, rn: Reg, width: bv8, rot: bv8, s: Host)
    requires 1 <= width <= 31
    requires rd != ZR
    ensures Step(BicImmed(rd, rn, width, rot), s).Get(rd) == And(s.Get(rn), W(!RotatedOnes(width, rot)))
  {
    LogicalComplement(width, rot);
    hide LogicalImm, RotatedOnes;
  }
}
