/**
  The m68k machine and the instructions modelled here, written from section 4 of the M68000 Family
  Programmer's Reference Manual (ADDQ, SUBQ, Scc, DBcc, Bcc, BRA, BSR) and section 2.2 (operand
  addresses).  Registers are D(n) and A(n); `sys` stands for the system byte of the status register.
*/
module Guest {
  import opened Words
  import opened A64
  import opened M68k
  import opened Manual

  datatype Cpu = Cpu(regs: RegFile, mem: Mem, pc: Word, f: Ccr, sys: Word)
  {
    function With(r: Reg, w: Word): Cpu { this.(regs := WriteReg(regs, r, w)) }
    function Skip(bytes: Word): Cpu { this.(pc := Plus(pc, bytes)) }
  }

  /** The registers and memory of the guest, for the address functions. */
  function AsHost(c: Cpu): Host { Host(c.regs, false, false, false, false, c.mem) }

  datatype Ea =
    | DataReg(n: nat) | AddrReg(n: nat)
    | Indirect(n: nat) | PostInc(n: nat) | PreDec(n: nat)
    | Displaced(n: nat, d16: Word)
    | IndexedBy(n: nat, words: Stream)

  predicate InMemory(ea: Ea) { !ea.DataReg? && !ea.AddrReg? }

  function ExtensionWords(ea: Ea): nat {
    match ea
    case Displaced(_, _) => 1
    case IndexedBy(_, words) => Mode6Words(ExtensionOf(words, 0))
    case _ => 0
  }

  /** Bytes to the next instruction: opcode and at most five extension words. */
  function Length(ext: nat): Word {
    match ext
    case 0 => W(2) case 1 => W(4) case 2 => W(6) case 3 => W(8) case 4 => W(10) case _ => W(12)
  }

  /** A byte step on the stack pointer is two. */
  function StepOf(n: nat, size: Size): Word {
    match size
    case Byte => if n == 7 then W(2) else W(1)
    case Half => W(2)
    case Long => W(4)
  }

  function OperandAddress(c: Cpu, ea: Ea, size: Size): Word
    requires InMemory(ea)
  {
    match ea
    case Indirect(n) => c.regs(A(n))
    case PostInc(n) => c.regs(A(n))
    case PreDec(n) => Minus(c.regs(A(n)), StepOf(n, size))
    case Displaced(n, d16) => Plus(c.regs(A(n)), d16)
    case IndexedBy(n, words) => Mode6Address(AsHost(c), A(n), words, 0)
  }

  function Stepped(c: Cpu, ea: Ea, size: Size): Cpu {
    match ea
    case PostInc(n) => c.With(A(n), Plus(c.regs(A(n)), StepOf(n, size)))
    case PreDec(n) => c.With(A(n), Minus(c.regs(A(n)), StepOf(n, size)))
    case _ => c
  }

  datatype Form = Short | Word16 | Long32

  /** Bytes of a branch instruction. */
  function FormLength(form: Form): Word {
    match form case Short => W(2) case Word16 => W(4) case Long32 => W(6)
  }

  datatype Insn68 =
    | QuickOp(op: QOp, q: Word, size: Size, ea: Ea)
    | Scc(cond: CondCode, ea: Ea)
    | DBcc(cond: CondCode, n: nat, disp: Word)
    | Bcc(cond: CondCode, form: Form, disp: Word)
    | BRA(form: Form, disp: Word)
    | BSR(form: Form, disp: Word)

  /** The encodings the instruction tables route to the modelled emitters: no byte operation on an
      address register, no Scc on one, conditions T and F of Bcc taken over by BRA and BSR. */
  ghost predicate WellFormed(i: Insn68) {
    match i
    case QuickOp(_, q, size, ea) => IsQuick(q) && (ea.AddrReg? ==> !size.Byte?) && WellFormedEa(ea)
    case Scc(_, ea) => !ea.AddrReg? && WellFormedEa(ea)
    case Bcc(cond, _, _) => !cond.M_T? && !cond.M_F?
    case _ => true
  }

  ghost predicate WellFormedEa(ea: Ea) {
    match ea
    case Displaced(_, d16) => IsD16(d16)
    case IndexedBy(_, words) => Halfwords(words) && Mode6Valid(ExtensionOf(words, 0))
    case _ => true
  }

  /** Flags an instruction sets, and flags it needs, as the translator declares them. */
  function SetsOf(i: Insn68): Mask {
    if i.QuickOp? && !i.ea.AddrReg? then SR_CCR else 0
  }

  function NeedsOf(i: Insn68): Mask {
    match i
    case Scc(cond, _) => Needs(cond)
    case DBcc(cond, _, _) => Needs(cond)
    case Bcc(cond, _, _) => Needs(cond)
    case _ => 0
  }

  function QuickOn(op: QOp, q: Word, size: Size, ea: Ea, c: Cpu): Cpu {
    match ea
    case DataReg(n) =>
      var d := c.regs(D(n));
      c.With(D(n), Merge(d, QuickResult(op, q, d, size), size)).(f := QuickCcr(op, q, d, size))
    case AddrReg(n) => c.With(A(n), Wide(op, q, c.regs(A(n))))
    case _ =>
      var a := OperandAddress(c, ea, size);
      var d := Load(c.mem, a, size);
      Stepped(c, ea, size).(mem := Store(c.mem, a, size, QuickResult(op, q, d, size)), f := QuickCcr(op, q, d, size))
  }

  function SccByte(cond: CondCode, f: Ccr): Word {
    if True68(cond, f) then W(0xff) else W(0)
  }

  function SccOn(cond: CondCode, ea: Ea, c: Cpu): Cpu {
    match ea
    case DataReg(n) => c.With(D(n), Merge(c.regs(D(n)), SccByte(cond, c.f), Byte))
    case AddrReg(n) => c
    case _ => Stepped(c, ea, Byte).(mem := Store(c.mem, OperandAddress(c, ea, Byte), Byte, SccByte(cond, c.f)))
  }

  /** The low word of a counter less one, the high word kept. */
  function CountDown(w: Word): Word {
    Merge(w, Minus(Low16(w), W(1)), Half)
  }

  function Exec68(i: Insn68, c: Cpu): Cpu {
    match i
    case QuickOp(op, q, size, ea) => QuickOn(op, q, size, ea, c).Skip(Length(ExtensionWords(ea)))
    case Scc(cond, ea) => SccOn(cond, ea, c).Skip(Length(ExtensionWords(ea)))
    case DBcc(cond, n, disp) =>
      if True68(cond, c.f) then c.Skip(W(4))
      else
        var d := c.With(D(n), CountDown(c.regs(D(n))));
        if IsZero(Low16(c.regs(D(n)))) then d.Skip(W(4)) else d.Skip(Plus(W(2), disp))
    case Bcc(cond, form, disp) => if True68(cond, c.f) then c.Skip(Plus(W(2), disp)) else c.Skip(FormLength(form))
    case BRA(form, disp) => c.Skip(Plus(W(2), disp))
    case BSR(form, disp) =>
      var sp := Minus(c.regs(A(7)), W(4));
      c.With(A(7), sp).(mem := Store(c.mem, sp, Long, Plus(c.pc, FormLength(form)))).Skip(Plus(W(2), disp))
  }
}
