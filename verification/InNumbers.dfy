/**
  What the code of each instruction does, in numbers: by how much the address registers, the counter and the
  program counter move, and which bytes change.  The theorems before this module compare emitted code with
  the guest's meaning of the instruction; both are written with the same step sizes, lengths and field
  positions.  Here those are spelled out again, as the constants of emu68/src/M68k_LINE5.c,
  emu68/src/M68k_LINE6.c and emu68/src/M68k_EA.c.
*/
module InNumbers {
  import opened Words
  import opened A64
  import opened M68k
  import opened Capture
  import opened Conditions
  import opened Pc
  import opened Indexed
  import opened Manual
  import opened Guest
  import opened EmitQuick
  import opened EmitBranch

  // ---------------------------------------------------------------- lengths and steps

  lemma BytesOfExtension(words: Stream, w: bv16)
    requires w == ExtensionOf(words, 0) && words(0).b < 0x1_0000
    ensures var x := words(0).b;
      Length(Mode6Words(w)).b == if x & 0x100 == 0 then 4 else
        4 + (if x & 0x30 == 0x20 then 2 else if x & 0x30 == 0x30 then 4 else 0) + (if x & 3 == 2 then 2 else if x & 3 == 3 then 4 else 0)
  {
  }

  /** Two bytes for the opcode, two for a displacement or an index word, and in the full format two or four
      for each displacement that follows it. */
  lemma BytesOf(ea: Ea)
    requires WellFormedEa(ea)
    ensures ea.Displaced? ==> Length(ExtensionWords(ea)) == W(4)
    ensures !ea.Displaced? && !ea.IndexedBy? ==> Length(ExtensionWords(ea)) == W(2)
    ensures ea.IndexedBy? ==>
      var x := ea.words(0).b;
      Length(ExtensionWords(ea)).b == if x & 0x100 == 0 then 4 else
        4 + (if x & 0x30 == 0x20 then 2 else if x & 0x30 == 0x30 then 4 else 0) + (if x & 3 == 2 then 2 else if x & 3 == 3 then 4 else 0)
  {
    if ea.IndexedBy? {
      hide Mode6Words, Mode6Valid, Length, ExtensionOf;
      BytesOfExtension(ea.words, ExtensionOf(ea.words, 0));
    }
  }

  /** The step of postincrement and predecrement: the size of the operand, but two for a byte through A7. */
  lemma Steps(n: nat, size: Size)
    ensures StepOf(n, size) == if size.Long? then W(4) else if size.Half? || n == 7 then W(2) else W(1)
  {
  }

  /** The address register of a stepping operand. */
  lemma SteppedBy(c: Cpu, ea: Ea, size: Size)
    requires ea.PostInc? || ea.PreDec?
    ensures var step := if size.Long? then W(4) else if size.Half? || ea.n == 7 then W(2) else W(1);
      Stepped(c, ea, size).regs(A(ea.n)) == if ea.PostInc? then Plus(c.regs(A(ea.n)), step) else Minus(c.regs(A(ea.n)), step)
  {
    Steps(ea.n, size);
    hide StepOf, Plus, Minus;
  }

  // ---------------------------------------------------------------- ADDQ, SUBQ and Scc

  lemma Seen(c: Cpu, tr: Tr, live: Mask, s: Host)
    requires Represents(c, tr, live, s)
    ensures Plus(s.Get(PC), tr.pending) == c.pc && s.mem == c.mem && forall r: Reg :: r.D? || r.A? ==> s.Get(r) == c.regs(r)
  {
    hide Plus, CcrOf, Upper, Agree, Coherent, Pending;
  }

  lemma QuickInNumbers(op: QOp, q: Word, size: Size, mask: Mask, ea: Ea, c: Cpu, tr: Tr, before: Mask, after: Mask, s: Host)
    requires WellFormed(QuickOp(op, q, size, ea)) && Represents(c, tr, before, s)
    requires Flow(QuickOp(op, q, size, ea), mask, before, after)
    ensures var t, next := End(QuickCode(op, q, size, mask, ea, tr.pending), s), QuickNext(op, q, size, mask, ea, tr);
      var step := if size.Long? then W(4) else if size.Half? || ((ea.PostInc? || ea.PreDec?) && ea.n == 7) then W(2) else W(1);
      var x := if ea.IndexedBy? then ea.words(0).b else 0;
      var bytes := if ea.Displaced? then 4 else if !ea.IndexedBy? then 2 else if x & 0x100 == 0 then 4 else
        4 + (if x & 0x30 == 0x20 then 2 else if x & 0x30 == 0x30 then 4 else 0) + (if x & 3 == 2 then 2 else if x & 3 == 3 then 4 else 0);
      && (ea.PostInc? ==> t.Get(A(ea.n)) == Plus(s.Get(A(ea.n)), step))
      && (ea.PreDec? ==> t.Get(A(ea.n)) == Minus(s.Get(A(ea.n)), step))
      && Plus(t.Get(PC), next.pending) == Plus(Plus(s.Get(PC), tr.pending), W(bytes))
      && next.ptr == Plus(tr.ptr, W(bytes))
  {
    hide QuickCode, QuickNext, End, QuickOn, Length, ExtensionWords;
    hide Represents, Flow, IsQuick, WellFormedEa, Plus, Minus, Stepped;
    QuickRefines(op, q, size, mask, ea, c, tr, before, after, s);
    BytesOf(ea);
    var d := Exec68(QuickOp(op, q, size, ea), c);
    Seen(c, tr, before, s);
    Seen(d, QuickNext(op, q, size, mask, ea, tr), after, End(QuickCode(op, q, size, mask, ea, tr.pending), s));
    KeepsPcAndSys(op, q, size, ea, c);
    QuickNextPtr(op, q, size, mask, ea, tr);
    if ea.PostInc? || ea.PreDec? {
      SteppedBy(c, ea, size);
      QuickSteps(op, q, size, ea, c);
    }
  }

  lemma QuickNextPtr(op: QOp, q: Word, size: Size, mask: Mask, ea: Ea, tr: Tr)
    ensures QuickNext(op, q, size, mask, ea, tr).ptr == Plus(tr.ptr, Length(ExtensionWords(ea)))
  {
    hide QuickHostFlags, Length, ExtensionWords, AdvancePc, Compute, Plus;
  }

  lemma QuickSteps(op: QOp, q: Word, size: Size, ea: Ea, c: Cpu)
    requires InMemory(ea)
    ensures QuickOn(op, q, size, ea, c).regs == Stepped(c, ea, size).regs
  {
    hide QuickResult, QuickCcr, OperandAddress, Stepped, Load, Store;
  }

  lemma SccInNumbers(cond: CondCode, ea: Ea, c: Cpu, tr: Tr, before: Mask, after: Mask, s: Host)
    requires WellFormed(Scc(cond, ea)) && Represents(c, tr, before, s)
    requires Flow(Scc(cond, ea), 0, before, after)
    ensures var e := EmitScc(cond, ea, tr);
      var t := End(e.main, s);
      var step := if (ea.PostInc? || ea.PreDec?) && ea.n == 7 then W(2) else W(1);
      var x := if ea.IndexedBy? then ea.words(0).b else 0;
      var bytes := if ea.Displaced? then 4 else if !ea.IndexedBy? then 2 else if x & 0x100 == 0 then 4 else
        4 + (if x & 0x30 == 0x20 then 2 else if x & 0x30 == 0x30 then 4 else 0) + (if x & 3 == 2 then 2 else if x & 3 == 3 then 4 else 0);
      && Run(e.main, s) == Fall(t)
      && (ea.PostInc? ==> t.Get(A(ea.n)) == Plus(s.Get(A(ea.n)), step))
      && (ea.PreDec? ==> t.Get(A(ea.n)) == Minus(s.Get(A(ea.n)), step))
      && Plus(t.Get(PC), e.next.pending) == Plus(Plus(s.Get(PC), tr.pending), W(bytes))
      && e.next.ptr == Plus(tr.ptr, W(bytes))
  {
    hide EmitScc, End, Run, SccOn, Length, ExtensionWords, Represents, Flow, WellFormedEa, Plus, Minus, Stepped, Correct;
    SccRefines(cond, ea, c, tr, before, after, s);
    BytesOf(ea);
    SccSteps(cond, ea, c);
    var e := EmitScc(cond, ea, tr);
    var d := Exec68(Scc(cond, ea), c);
    FallOf(e, d, after, s);
    Seen(c, tr, before, s);
    Seen(d, e.next, after, End(e.main, s));
    SccNextPtr(cond, ea, tr);
    if ea.PostInc? || ea.PreDec? {
      SteppedBy(c, ea, Byte);
    }
  }

  /** Code that falls through as it should. */
  lemma FallOf(e: Emitted, d: Cpu, live: Mask, s: Host)
    requires Correct(e, d, live, false, s)
    ensures Run(e.main, s) == Fall(End(e.main, s)) && Represents(d, e.next, live, End(e.main, s))
  {
    hide Run, Represents;
  }

  lemma SccNextPtr(cond: CondCode, ea: Ea, tr: Tr)
    ensures EmitScc(cond, ea, tr).next.ptr == Plus(tr.ptr, Length(ExtensionWords(ea)))
  {
    hide SccValue, Length, ExtensionWords, AdvancePc, StoreByte, HostFlagsAfter, Plus;
  }

  lemma SccSteps(cond: CondCode, ea: Ea, c: Cpu)
    ensures SccOn(cond, ea, c).pc == c.pc
    ensures ea.PostInc? || ea.PreDec? ==> SccOn(cond, ea, c).regs == Stepped(c, ea, Byte).regs
  {
    hide OperandAddress, Store, Plus, Minus, StepOf, Merge, SccByte;
  }

  // ---------------------------------------------------------------- branches

  /** Where an instruction ends, by either path, and what is pending there. */
  function After(e: Emitted, s: Host): (Host, Word) {
    match Run(e.main, s)
    case Fall(t) => (t, e.next.pending)
    case Leave(t) => (End(e.exit, t), W(0))
  }

  lemma AfterSeen(e: Emitted, d: Cpu, live: Mask, leaves: bool, s: Host)
    requires Correct(e, d, live, leaves, s)
    ensures var (t, p) := After(e, s);
      Run(e.main, s).Leave? == leaves && Plus(t.Get(PC), p) == d.pc && t.mem == d.mem
      && forall r: Reg :: r.D? || r.A? ==> t.Get(r) == d.regs(r)
  {
    hide Run, End, Straight, OnlyExits, Represents, Plus;
    if leaves {
      Seen(d, Entry(d.pc), live, After(e, s).0);
    } else {
      Seen(d, e.next, live, After(e, s).0);
    }
  }

  /** Bytes of a branch: its displacement is in the opcode, or in one or two words after it. */
  lemma BranchLength(form: Form)
    ensures FormLength(form) == if form.Short? then W(2) else if form.Word16? then W(4) else W(6)
  {
  }

  /** Bcc: the program counter after it is 2 + disp on if the condition holds, else 2, 4 or 6 on; the unit
      goes on where the predicted path does. */
  lemma BccInNumbers(cond: CondCode, form: Form, disp: Word, takeBranch: bool, c: Cpu, tr: Tr, before: Mask, after: Mask, s: Host)
    requires WellFormed(Bcc(cond, form, disp)) && Represents(c, tr, before, s)
    requires Flow(Bcc(cond, form, disp), 0, before, after)
    ensures var e := EmitBcc(cond, form, disp, takeBranch, tr);
      var (t, p) := After(e, s);
      var next := if form.Short? then W(2) else if form.Word16? then W(4) else W(6);
      && (Run(e.main, s).Leave? <==> True68(cond, c.f) != takeBranch)
      && Plus(t.Get(PC), p) == Plus(Plus(s.Get(PC), tr.pending), if True68(cond, c.f) then Plus(W(2), disp) else next)
      && e.next.ptr == Plus(tr.ptr, if takeBranch then Plus(W(2), disp) else next)
  {
    hide EmitBcc, True68, Represents, Flow, Correct, After, Run, Plus, FormLength;
    BccRefines(cond, form, disp, takeBranch, c, tr, before, after, s);
    AfterSeen(EmitBcc(cond, form, disp, takeBranch, tr), Exec68(Bcc(cond, form, disp), c), after, True68(cond, c.f) != takeBranch, s);
    Seen(c, tr, before, s);
    BccNextPtr(cond, form, disp, takeBranch, tr);
    BranchLength(form);
  }

  lemma BccNextPtr(cond: CondCode, form: Form, disp: Word, takeBranch: bool, tr: Tr)
    ensures EmitBcc(cond, form, disp, takeBranch, tr).next.ptr == Plus(tr.ptr, if takeBranch then Plus(W(2), disp) else FormLength(form))
  {
    hide GetOffsetPc, JumpOnCondition, AddOffset, HostFlagsAfter, Plus, Minus, Opposite, FormLength;
  }

  /** BRA and BSR: the program counter goes 2 + disp on.  BSR leaves the address of the next instruction, 2, 4
      or 6 on, in the four bytes below the old A7, the most significant first, and no other byte changes. */
  lemma BraInNumbers(bsr: bool, form: Form, disp: Word, inlined: bool, c: Cpu, tr: Tr, before: Mask, after: Mask, s: Host)
    requires Represents(c, tr, before, s) && Flow(BraInsn(bsr, form, disp), 0, before, after)
    ensures var e := EmitBra(bsr, form, disp, inlined, tr);
      var t := End(e.main, s);
      var next := if form.Short? then W(2) else if form.Word16? then W(4) else W(6);
      && Run(e.main, s) == Fall(t)
      && Plus(t.Get(PC), e.next.pending) == Plus(Plus(s.Get(PC), tr.pending), Plus(W(2), disp))
      && e.next.ptr == Plus(tr.ptr, if inlined then Plus(W(2), disp) else next)
      && (!bsr ==> t.mem == s.mem && t.Get(A(7)) == s.Get(A(7)))
      && (bsr ==>
            var sp := Minus(s.Get(A(7)), W(4));
            t.Get(A(7)) == sp && LongAt(t.mem, sp, Plus(Plus(s.Get(PC), tr.pending), next))
            && forall a: Word :: a != sp && a != Plus(sp, W(1)) && a != Plus(sp, W(2)) && a != Plus(sp, W(3)) ==> t.mem(a) == s.mem(a))
  {
    hide EmitBra, Represents, Flow, Correct, Run, End, Plus, Minus, FormLength, LongAt, Store;
    BraRefines(bsr, form, disp, inlined, c, tr, before, after, s);
    var e := EmitBra(bsr, form, disp, inlined, tr);
    var d := Exec68(BraInsn(bsr, form, disp), c);
    FallOf(e, d, after, s);
    Seen(c, tr, before, s);
    Seen(d, e.next, after, End(e.main, s));
    BraNextPtr(bsr, form, disp, inlined, tr);
    BranchLength(form);
    LongStored(c.mem, Minus(c.regs(A(7)), W(4)), Plus(c.pc, FormLength(form)));
  }

  lemma BraNextPtr(bsr: bool, form: Form, disp: Word, inlined: bool, tr: Tr)
    ensures EmitBra(bsr, form, disp, inlined, tr).next.ptr == Plus(tr.ptr, if inlined then Plus(W(2), disp) else FormLength(form))
  {
    hide GetOffsetPc, AddOffset, HostFlagsAfter, Plus, Minus, PushReturn, FormLength;
  }

  // ---------------------------------------------------------------- bytes

  /** The four bytes from a on are those of w, the most significant first. */
  predicate LongAt(m: Mem, a: Word, w: Word) {
    && m(a).b == (w.b >> 24) as bv8
    && m(Plus(a, W(1))).b == ((w.b >> 16) & 0xff) as bv8
    && m(Plus(a, W(2))).b == ((w.b >> 8) & 0xff) as bv8
    && m(Plus(a, W(3))).b == (w.b & 0xff) as bv8
  }

  /** Four addresses in a row are four addresses. */
  lemma Apart(a: Word)
    ensures a != Plus(a, W(1)) && a != Plus(a, W(2)) && a != Plus(a, W(3))
    ensures Plus(a, W(1)) != Plus(a, W(2)) && Plus(a, W(1)) != Plus(a, W(3)) && Plus(a, W(2)) != Plus(a, W(3))
  {
    hide Sum;
    PlusZero(a);
    Different(a.b);
  }

  lemma Different(a: bv32)
    ensures a != Sum(a, 1) && a != Sum(a, 2) && a != Sum(a, 3)
    ensures Sum(a, 1) != Sum(a, 2) && Sum(a, 1) != Sum(a, 3) && Sum(a, 2) != Sum(a, 3)
  {
  }

  lemma OctetBits(w: Word)
    ensures Octet(w, 3).b == (w.b >> 24) as bv8
    ensures Octet(w, 2).b == ((w.b >> 16) & 0xff) as bv8
    ensures Octet(w, 1).b == ((w.b >> 8) & 0xff) as bv8
    ensures Octet(w, 0).b == (w.b & 0xff) as bv8
  {
  }

  lemma LongStored(m: Mem, a: Word, w: Word)
    ensures LongAt(Store(m, a, Long, w), a, w)
    ensures forall x: Word :: x != a && x != Plus(a, W(1)) && x != Plus(a, W(2)) && x != Plus(a, W(3)) ==> Store(m, a, Long, w)(x) == m(x)
  {
    Apart(a);
    OctetBits(w);
    hide Plus, Octet;
  }

  // ---------------------------------------------------------------- mode 6

  lemma FieldsOf(w: bv16)
    ensures var e := DecodeExt(w);
      && e.xn == (if w & 0x8000 != 0 then A(((w >> 12) & 7) as nat) else D(((w >> 12) & 7) as nat))
      && e.long == (w & 0x800 != 0) && e.scale == ((w >> 9) & 3) as bv8
      && e.noBase == (w & 0x80 != 0) && e.noIndex == (w & 0x40 != 0)
      && (e.bd.BdWord? <==> w & 0x30 == 0x20) && (e.bd.BdLong? <==> w & 0x30 == 0x30) && (e.bd.BdNull? <==> w & 0x30 == 0x10)
      && e.reserved == (w & 8 != 0) && e.post == (w & 4 != 0)
      && (e.od.NoIndirection? <==> w & 3 == 0) && (e.od.OdWord? <==> w & 3 == 2) && (e.od.OdLong? <==> w & 3 == 3)
  {
  }

  lemma BriefFields(w: bv16)
    ensures IsBrief(w) == (w & 0x100 == 0)
    ensures IndexRegister(w) == if w & 0x8000 != 0 then A(((w >> 12) & 7) as nat) else D(((w >> 12) & 7) as nat)
    ensures BriefDisplacement(w) == Sext8(W((w & 0xff) as bv32)) && BriefScale(w) == ((w >> 9) & 3) as bv8
  {
  }

  /** The address of mode 6, for every brief extension word and every full one that is not reserved, from the
      bits of the word: 0x8000 selects an address register as index and 0x7000 its number, 0x800 all 32 bits of
      it, 0x600 the scale, 0x100 the full format; there 0x80 and 0x40 suppress base and index, 0x30 is the size
      of the base displacement, and 7 the kind of indirection and the size of the outer displacement. */
  lemma Mode6InNumbers(acc: Access, an: Reg, words: Stream, k: nat, i: nat, s: Host)
    requires (an.D? || an.A?) && (i < 2 || i > 9) && forall j: nat :: words(j).b < 0x1_0000
    requires var w := words(k).b;
      w & 0x100 == 0 || (w & 8 == 0 && w & 0x30 != 0 && (w & 4 != 0 ==> w & 0x40 == 0 && w & 3 != 0))
    ensures var w := (words(k).b & 0xffff) as bv16;
      var n := ((w >> 12) & 7) as nat;
      var x := s.Get(if w & 0x8000 != 0 then A(n) else D(n));
      var scaled := ShiftL(if w & 0x800 != 0 then x else Sext16(x), ((w >> 9) & 3) as bv8);
      var base := if w & 0x100 != 0 && w & 0x80 != 0 then W(0) else s.Get(an);
      var index := if w & 0x100 != 0 && w & 0x40 != 0 then W(0) else scaled;
      var bd := if w & 0x30 == 0x20 then Sext16(words(k + 1)) else if w & 0x30 == 0x30 then Or(ShiftL(words(k + 1), 16), words(k + 2)) else W(0);
      var j := if w & 0x30 == 0x20 then k + 2 else if w & 0x30 == 0x30 then k + 3 else k + 1;
      var od := if w & 3 == 2 then Sext16(words(j)) else if w & 3 == 3 then Or(ShiftL(words(j), 16), words(j + 1)) else W(0);
      var a := if w & 0x100 == 0 then Plus(Plus(base, Sext8(W((w & 0xff) as bv32))), index)
        else if w & 3 == 0 then Plus(Plus(base, bd), index)
        else if w & 4 != 0 then Plus(Plus(Load(s.mem, Plus(base, bd), Long), index), od)
        else Plus(Load(s.mem, Plus(Plus(base, bd), index), Long), od);
      var code := Mode6(acc, an, words, k, T(i)).0;
      Straight(code) && Accessed(acc, i, a, s, End(code, s))
  {
    hide Plus, Load, ShiftL, Or, Sext16, Sext8, Mode6, Accessed;
    hide Run, End, Straight, Mode6Valid, DecodeExt, IndexRegister, IsBrief, BriefDisplacement, BriefScale;
    var w := ExtensionOf(words, k);
    ValidWords(words, k);
    FieldsOf(w);
    BriefFields(w);
    Mode6Effect(acc, an, words, k, i, s);
  }

  // ---------------------------------------------------------------- results

  /** The bytes of an operand of each size, the most significant first; w counts modulo the size. */
  predicate OperandIs(m: Mem, a: Word, size: Size, w: Word) {
    match size
    case Byte => m(a).b == (w.b & 0xff) as bv8
    case Half => m(a).b == ((w.b >> 8) & 0xff) as bv8 && m(Plus(a, W(1))).b == (w.b & 0xff) as bv8
    case Long => LongAt(m, a, w)
  }

  lemma ByteRead(m: Mem, a: Word, w: Word)
    requires OperandIs(m, a, Byte, w)
    ensures Load(m, a, Byte).b == w.b & 0xff
  {
  }

  lemma HalfRead(m: Mem, a: Word, w: Word)
    requires OperandIs(m, a, Half, w)
    ensures Load(m, a, Half).b == w.b & 0xffff
  {
    hide Plus;
  }

  lemma LongRead(m: Mem, a: Word, w: Word)
    requires OperandIs(m, a, Long, w)
    ensures Load(m, a, Long).b == w.b
  {
    hide Plus;
  }

  lemma OperandStored(m: Mem, a: Word, size: Size, w: Word)
    ensures OperandIs(Store(m, a, size, w), a, size, w) && Elsewhere(m, Store(m, a, size, w), a, size)
  {
    hide Plus, Octet, LongAt;
    if size.Long? {
      LongStored(m, a, w);
    } else {
      Apart(a);
      OctetBits(w);
    }
  }

  /** The other bytes are unchanged. */
  ghost predicate Elsewhere(m: Mem, m': Mem, a: Word, size: Size) {
    forall x: Word :: x != a && (size.Byte? || x != Plus(a, W(1))) && (!size.Long? || (x != Plus(a, W(2)) && x != Plus(a, W(3)))) ==> m'(x) == m(x)
  }

  /** A number of the operand's size. */
  predicate Sized(w: Word, size: Size) {
    w.b <= (if size.Long? then 0xffff_ffff else if size.Half? then 0xffff else 0xff)
  }

  lemma OperandRead(m: Mem, a: Word, size: Size, w: Word)
    requires OperandIs(m, a, size, w) && Sized(w, size)
    ensures Load(m, a, size) == w
  {
    match size
    case Byte => ByteRead(m, a, w); LowByte(w);
    case Half => HalfRead(m, a, w); LowHalf(w);
    case Long => LongRead(m, a, w);
    hide *;
    SameBits(Load(m, a, size), w);
  }

  lemma LowByte(w: Word)
    requires w.b <= 0xff
    ensures w.b & 0xff == w.b
  {
  }

  lemma LowHalf(w: Word)
    requires w.b <= 0xffff
    ensures w.b & 0xffff == w.b
  {
  }

  lemma MergedByte(d: Word, r: Word, size: Size)
    requires size.Byte?
    ensures Merge(d, And(r, W(SizeMask(size))), size).b == (d.b & 0xffff_ff00) | (r.b & 0xff)
  {
  }

  lemma MergedHalf(d: Word, r: Word, size: Size)
    requires size.Half?
    ensures Merge(d, And(r, W(SizeMask(size))), size).b == (d.b & 0xffff_0000) | (r.b & 0xffff)
  {
  }

  lemma MergedLong(d: Word, r: Word, size: Size)
    requires size.Long?
    ensures Merge(d, And(r, W(SizeMask(size))), size).b == r.b
  {
  }

  lemma QuickSum(op: QOp, q: Word, d: Word, size: Size)
    ensures QuickResult(op, q, d, size) == And(Wide(op, q, d), W(SizeMask(size)))
  {
    hide Plus, Minus, And;
  }

  /** What ADDQ and SUBQ leave: the low part of a data register, a whole address register, or the bytes of an
      operand in memory goes up or down by q, and the rest of the register or of memory stays. */
  lemma QuickLeaves(op: QOp, q: Word, size: Size, mask: Mask, ea: Ea, c: Cpu, tr: Tr, before: Mask, after: Mask, s: Host, w: Word)
    requires WellFormed(QuickOp(op, q, size, ea)) && Represents(c, tr, before, s)
    requires Flow(QuickOp(op, q, size, ea), mask, before, after)
    ensures var t := End(QuickCode(op, q, size, mask, ea, tr.pending), s);
      var step := if size.Long? then W(4) else if size.Half? || (ea.PreDec? && ea.n == 7) then W(2) else W(1);
      var was := s.Get(if ea.DataReg? then D(ea.n) else A(ea.n));
      var r := if op.ADDQ? then Plus(was, q) else Minus(was, q);
      var a := if ea.PreDec? then Minus(was, step) else if ea.Displaced? then Plus(was, ea.d16)
        else if ea.IndexedBy? then Mode6Address(s, A(ea.n), ea.words, 0) else was;
      && (ea.DataReg? ==> t.mem == s.mem)
      && (ea.DataReg? && size.Byte? ==> t.Get(D(ea.n)).b == (was.b & 0xffff_ff00) | (r.b & 0xff))
      && (ea.DataReg? && size.Half? ==> t.Get(D(ea.n)).b == (was.b & 0xffff_0000) | (r.b & 0xffff))
      && (ea.DataReg? && size.Long? ==> t.Get(D(ea.n)) == r)
      && (ea.AddrReg? ==> t.mem == s.mem && t.Get(A(ea.n)) == r)
      && (InMemory(ea) ==> Elsewhere(s.mem, t.mem, a, size))
      && (InMemory(ea) && OperandIs(s.mem, a, size, w) && Sized(w, size) ==> OperandIs(t.mem, a, size, if op.ADDQ? then Plus(w, q) else Minus(w, q)))
  {
    hide QuickCode, QuickNext, End, Length, ExtensionWords, Represents, Flow, IsQuick, WellFormedEa, Plus, Minus, And;
    hide Stepped, SizeMask, Merge, Elsewhere, OperandIs, Sized, Mode6Address, Load, Store, QuickResult, QuickCcr, Wide, StepOf;
    QuickRefines(op, q, size, mask, ea, c, tr, before, after, s);
    var d := Exec68(QuickOp(op, q, size, ea), c);
    Seen(c, tr, before, s);
    Seen(d, QuickNext(op, q, size, mask, ea, tr), after, End(QuickCode(op, q, size, mask, ea, tr.pending), s));
    var was := s.Get(if ea.DataReg? then D(ea.n) else A(ea.n));
    SumIs(op, was, q);
    SumIs(op, w, q);
    if ea.DataReg? {
      QuickSum(op, q, was, size);
      match size {
        case Byte => MergedByte(was, Wide(op, q, was), size);
        case Half => MergedHalf(was, Wide(op, q, was), size);
        case Long => MergedLong(was, Wide(op, q, was), size); SameBits(Merge(was, And(Wide(op, q, was), W(SizeMask(size))), size), Wide(op, q, was));
      }
    } else if InMemory(ea) {
      var a := OperandAddress(c, ea, size);
      OperandSum(op, q, size, c.mem, a, w);
      Steps(ea.n, size);
      MatchedIndex(ea, c, tr, before, s);
    }
  }

  lemma SumIs(op: QOp, d: Word, q: Word)
    ensures Wide(op, q, d) == if op.ADDQ? then Plus(d, q) else Minus(d, q)
  {
    hide Plus, Minus;
  }

  lemma MatchedIndex(ea: Ea, c: Cpu, tr: Tr, live: Mask, s: Host)
    requires Represents(c, tr, live, s)
    ensures ea.IndexedBy? ==> Mode6Address(AsHost(c), A(ea.n), ea.words, 0) == Mode6Address(s, A(ea.n), ea.words, 0)
  {
    hide Plus, CcrOf, Upper, Agree, Coherent, Pending, Mode6Address;
    if ea.IndexedBy? {
      SameMode6(c, A(ea.n), ea.words, s);
    }
  }

  lemma OperandSum(op: QOp, q: Word, size: Size, m: Mem, a: Word, w: Word)
    ensures var m' := Store(m, a, size, QuickResult(op, q, Load(m, a, size), size));
      Elsewhere(m, m', a, size) && (OperandIs(m, a, size, w) && Sized(w, size) ==> OperandIs(m', a, size, Wide(op, q, w)))
  {
    hide Store, Load, QuickResult, OperandIs, Sized, Elsewhere, Wide, And, SizeMask;
    OperandStored(m, a, size, QuickResult(op, q, Load(m, a, size), size));
    if OperandIs(m, a, size, w) && Sized(w, size) {
      OperandRead(m, a, size, w);
      QuickSum(op, q, w, size);
      StoreLow(m, a, size, Wide(op, q, w));
      OperandStored(m, a, size, Wide(op, q, w));
    }
  }

  // ---------------------------------------------------------------- flags

  /** The condition codes of ADDQ and SUBQ, in numbers, for an operand of a size that counts up to max and half of whose
      numbers are negative.  For ADDQ: carry and X if the operand exceeds max less q, zero if it is one more than that,
      negative if the sum is at least half without a carry, and overflow if it passes half.  For SUBQ: carry and X if the
      operand is less than q, zero if it is q, negative if it is less or the difference is at least half, and overflow if
      it falls below half. */
  ghost predicate Coded(op: QOp, q: Word, d: Word, size: Size, f: Ccr) {
    if size.Byte? then CodedByte(op, q, d, f) else if size.Half? then CodedHalf(op, q, d, f) else CodedLong(op, q, d, f)
  }

  ghost predicate CodedByte(op: QOp, q: Word, d: Word, f: Ccr) {
    var w := d.b & 0xff;
    && f.x == f.c
    && f.c == (if op.ADDQ? then w > 0xff - q.b else w < q.b)
    && f.z == (if op.ADDQ? then w == 0xff - q.b + 1 else w == q.b)
    && f.n == (if op.ADDQ? then w <= 0xff - q.b && 0x80 <= w + q.b else w < q.b || 0x80 <= w - q.b)
    && f.v == (if op.ADDQ? then w < 0x80 <= w + q.b else w - q.b < 0x80 <= w)
  }

  ghost predicate CodedHalf(op: QOp, q: Word, d: Word, f: Ccr) {
    var w := d.b & 0xffff;
    && f.x == f.c
    && f.c == (if op.ADDQ? then w > 0xffff - q.b else w < q.b)
    && f.z == (if op.ADDQ? then w == 0xffff - q.b + 1 else w == q.b)
    && f.n == (if op.ADDQ? then w <= 0xffff - q.b && 0x8000 <= w + q.b else w < q.b || 0x8000 <= w - q.b)
    && f.v == (if op.ADDQ? then w < 0x8000 <= w + q.b else w - q.b < 0x8000 <= w)
  }

  ghost predicate CodedLong(op: QOp, q: Word, d: Word, f: Ccr) {
    var w := d.b;
    && f.x == f.c
    && f.c == (if op.ADDQ? then w > 0xffff_ffff - q.b else w < q.b)
    && f.z == (if op.ADDQ? then w == 0xffff_ffff - q.b + 1 else w == q.b)
    && f.n == (if op.ADDQ? then w <= 0xffff_ffff - q.b && 0x8000_0000 <= w + q.b else w < q.b || 0x8000_0000 <= w - q.b)
    && f.v == (if op.ADDQ? then w < 0x8000_0000 <= w + q.b else w - q.b < 0x8000_0000 <= w)
  }

  lemma AddByteFlags(q: Word, d: Word, size: Size)
    requires size.Byte? && 1 <= q.b <= 8
    ensures CodedByte(ADDQ, q, d, AddCcr(q, d, size))
  {
  }

  lemma SubByteFlags(q: Word, d: Word, size: Size)
    requires size.Byte? && 1 <= q.b <= 8
    ensures CodedByte(SUBQ, q, d, SubCcr(q, d, size))
  {
  }

  lemma AddHalfFlags(q: Word, d: Word, size: Size)
    requires size.Half? && 1 <= q.b <= 8
    ensures CodedHalf(ADDQ, q, d, AddCcr(q, d, size))
  {
  }

  lemma SubHalfFlags(q: Word, d: Word, size: Size)
    requires size.Half? && 1 <= q.b <= 8
    ensures CodedHalf(SUBQ, q, d, SubCcr(q, d, size))
  {
  }

  lemma AddLongFlags(q: Word, d: Word, size: Size)
    requires size.Long? && 1 <= q.b <= 8
    ensures CodedLong(ADDQ, q, d, AddCcr(q, d, size))
  {
  }

  lemma SubLongFlags(q: Word, d: Word, size: Size)
    requires size.Long? && 1 <= q.b <= 8
    ensures CodedLong(SUBQ, q, d, SubCcr(q, d, size))
  {
  }

  lemma CodedAdd(q: Word, d: Word, size: Size)
    requires 1 <= q.b <= 8
    ensures Coded(ADDQ, q, d, size, AddCcr(q, d, size))
  {
    hide AddCcr, CodedByte, CodedHalf, CodedLong;
    match size
    case Byte => AddByteFlags(q, d, size);
    case Half => AddHalfFlags(q, d, size);
    case Long => AddLongFlags(q, d, size);
  }

  lemma CodedSub(q: Word, d: Word, size: Size)
    requires 1 <= q.b <= 8
    ensures Coded(SUBQ, q, d, size, SubCcr(q, d, size))
  {
    hide SubCcr, CodedByte, CodedHalf, CodedLong;
    match size
    case Byte => SubByteFlags(q, d, size);
    case Half => SubHalfFlags(q, d, size);
    case Long => SubLongFlags(q, d, size);
  }

  /** After ADDQ and SUBQ each live flag in the cached status register, where C and V are exchanged, is the one the
      numbers give for the operand: a data register, or what is in memory.  The system byte is kept. */
  lemma QuickCodes(op: QOp, q: Word, size: Size, mask: Mask, ea: Ea, c: Cpu, tr: Tr, before: Mask, after: Mask, s: Host, f: Ccr)
    requires WellFormed(QuickOp(op, q, size, ea)) && !ea.AddrReg? && Represents(c, tr, before, s)
    requires Flow(QuickOp(op, q, size, ea), mask, before, after)
    requires Coded(op, q, if ea.DataReg? then s.Get(D(ea.n)) else Load(s.mem, OperandAddress(c, ea, size), size), size, f)
    ensures SystemByte(End(QuickCode(op, q, size, mask, ea, tr.pending), s).Get(CC)) == SystemByte(s.Get(CC))
    ensures var cc := End(QuickCode(op, q, size, mask, ea, tr.pending), s).Get(CC).b;
      && (after & 16 != 0 ==> (cc & 16 != 0) == f.x)
      && (after & 8 != 0 ==> (cc & 8 != 0) == f.n)
      && (after & 4 != 0 ==> (cc & 4 != 0) == f.z)
      && (after & 2 != 0 ==> (cc & 1 != 0) == f.v)
      && (after & 1 != 0 ==> (cc & 2 != 0) == f.c)
  {
    hide QuickCode, QuickNext, End, Represents, Flow, WellFormedEa, OperandAddress, Load, Store, AddCcr;
    hide SubCcr, Coded, Merge, Plus, Minus, Stepped, QuickResult, Length, ExtensionWords, SystemByte;
    QuickRefines(op, q, size, mask, ea, c, tr, before, after, s);
    Seen(c, tr, before, s);
    var d := if ea.DataReg? then s.Get(D(ea.n)) else Load(s.mem, OperandAddress(c, ea, size), size);
    CodedAdd(q, d, size);
    CodedSub(q, d, size);
    CodedOnce(op, q, d, size, f, QuickCcr(op, q, d, size));
    KeepsPcAndSys(op, q, size, ea, c);
    SystemKept(c, tr, before, s);
    SystemKept(Exec68(QuickOp(op, q, size, ea), c), QuickNext(op, q, size, mask, ea, tr), after, End(QuickCode(op, q, size, mask, ea, tr.pending), s));
    RepresentsFlags(Exec68(QuickOp(op, q, size, ea), c), QuickNext(op, q, size, mask, ea, tr), after, End(QuickCode(op, q, size, mask, ea, tr.pending), s));
  }

  function SystemByte(cc: Word): Word { W(cc.b & 0xffff_ffe0) }

  lemma SystemKept(c: Cpu, tr: Tr, live: Mask, s: Host)
    requires Represents(c, tr, live, s)
    ensures SystemByte(s.Get(CC)) == c.sys
  {
    UpperBits(s.Get(CC));
    hide Plus, CcrOf, Agree, Coherent, Pending, Upper, SystemByte, Matches;
    SameBits(SystemByte(s.Get(CC)), Upper(s.Get(CC)));
  }

  lemma UpperBits(w: Word)
    ensures Upper(w).b == SystemByte(w).b
  {
  }

  lemma CodedOnce(op: QOp, q: Word, d: Word, size: Size, f: Ccr, g: Ccr)
    requires Coded(op, q, d, size, f) && Coded(op, q, d, size, g)
    ensures f == g
  {
  }

  lemma ByteMerged(d: Word, size: Size)
    requires size.Byte?
    ensures Merge(d, W(0xff), size).b == d.b | 0xff && Merge(d, W(0), size).b == d.b & 0xffff_ff00
  {
  }

  lemma SccBytes(cond: CondCode, f: Ccr)
    ensures SccByte(cond, f) == if True68(cond, f) then W(0xff) else W(0)
    ensures (W(0xff).b & 0xff) as bv8 == 0xff && (W(0).b & 0xff) as bv8 == 0
  {
    hide True68;
  }

  /** What Scc leaves: ones or zeros in the low byte of a data register or in one byte of memory. */
  lemma SccLeaves(cond: CondCode, ea: Ea, c: Cpu, tr: Tr, before: Mask, after: Mask, s: Host)
    requires WellFormed(Scc(cond, ea)) && Represents(c, tr, before, s)
    requires Flow(Scc(cond, ea), 0, before, after)
    ensures var t := End(EmitScc(cond, ea, tr).main, s);
      var step := if ea.PreDec? && ea.n == 7 then W(2) else W(1);
      var was := s.Get(if ea.DataReg? then D(ea.n) else A(ea.n));
      var a := if ea.PreDec? then Minus(was, step) else if ea.Displaced? then Plus(was, ea.d16)
        else if ea.IndexedBy? then Mode6Address(s, A(ea.n), ea.words, 0) else was;
      && (ea.DataReg? ==> t.mem == s.mem && t.Get(D(ea.n)).b == if True68(cond, c.f) then was.b | 0xff else was.b & 0xffff_ff00)
      && (InMemory(ea) ==> t.mem(a).b == (if True68(cond, c.f) then 0xff else 0) && forall x: Word :: x != a ==> t.mem(x) == s.mem(x))
  {
    hide EmitScc, End, Run, Length, ExtensionWords, Represents, Flow, WellFormedEa, Plus;
    hide Minus, Stepped, Correct, Merge, SccByte, True68, Store, StepOf, Mode6Address;
    SccRefines(cond, ea, c, tr, before, after, s);
    var e := EmitScc(cond, ea, tr);
    var d := Exec68(Scc(cond, ea), c);
    FallOf(e, d, after, s);
    Seen(c, tr, before, s);
    Seen(d, e.next, after, End(e.main, s));
    SccBytes(cond, c.f);
    if ea.DataReg? {
      ByteMerged(c.regs(D(ea.n)), Byte);
    } else {
      OperandStored(c.mem, OperandAddress(c, ea, Byte), Byte, SccByte(cond, c.f));
      Steps(ea.n, Byte);
      MatchedIndex(ea, c, tr, before, s);
    }
  }

  lemma CountDownBits(d: Word)
    ensures CountDown(d).b == (d.b & 0xffff_0000) | ((d.b - 1) & 0xffff)
    ensures IsZero(Low16(d)) == (d.b & 0xffff == 0)
  {
  }

  lemma DbccMeaning(cond: CondCode, n: nat, disp: Word, c: Cpu, w: Word)
    requires w == c.regs(D(n))
    ensures var d, was := Exec68(DBcc(cond, n, disp), c), w.b;
      var ends := True68(cond, c.f) || was & 0xffff == 0;
      && d.mem == c.mem && d.pc == Plus(c.pc, if ends then W(4) else Plus(W(2), disp))
      && d.regs(D(n)).b == (if True68(cond, c.f) then was else (was & 0xffff_0000) | ((was - 1) & 0xffff))
      && (forall r: Reg :: r != D(n) ==> d.regs(r) == c.regs(r))
      && DbccLeaves(cond, n, c) == (!cond.M_T? && ends)
  {
    hide True68, Plus, CountDown, IsZero, Low16;
    CountDownBits(w);
  }

  /** DBcc: a true condition leaves the counter alone and goes 4 on; otherwise the low sixteen bits of the counter
      go down by one, and the program counter goes 2 + disp on unless they were zero, then 4. */
  lemma DbccInNumbers(cond: CondCode, n: nat, disp: Word, c: Cpu, tr: Tr, before: Mask, after: Mask, s: Host, w: Word)
    requires Represents(c, tr, before, s) && Flow(DBcc(cond, n, disp), 0, before, after)
    requires w == s.Get(D(n))
    ensures var e := EmitDbcc(cond, n, disp, tr);
      var (t, p) := After(e, s);
      var was := w.b;
      var ends := True68(cond, c.f) || was & 0xffff == 0;
      && (Run(e.main, s).Leave? <==> !cond.M_T? && ends)
      && t.mem == s.mem && Plus(t.Get(PC), p) == Plus(Plus(s.Get(PC), tr.pending), if ends then W(4) else Plus(W(2), disp))
      && t.Get(D(n)).b == (if True68(cond, c.f) then was else (was & 0xffff_0000) | ((was - 1) & 0xffff))
      && forall r: Reg :: (r.D? || r.A?) && r != D(n) ==> t.Get(r) == s.Get(r)
  {
    hide EmitDbcc, Exec68, True68, Represents, Flow, Correct, DbccLeaves, After, Run, Plus, CountDown, IsZero, Low16;
    DbccRefines(cond, n, disp, c, tr, before, after, s);
    AfterSeen(EmitDbcc(cond, n, disp, tr), Exec68(DBcc(cond, n, disp), c), after, DbccLeaves(cond, n, c), s);
    Seen(c, tr, before, s);
    DbccMeaning(cond, n, disp, c, w);
  }

  // ---------------------------------------------------------------- what is covered

  /** The encodings covered: quick values 1 to 8 (ADDQ and SUBQ), no byte operation on an address register, no Scc on one,
      conditional branches on conditions, 16-bit displacements, and extension words that are brief or not reserved. */
  lemma CoveredIff(i: Insn68)
    ensures WellFormed(i) <==>
      && (i.QuickOp? ==> 1 <= i.q.b <= 8 && !(i.ea.AddrReg? && i.size.Byte?))
      && (i.Scc? ==> !i.ea.AddrReg?)
      && (i.Bcc? ==> i.cond != M_T && i.cond != M_F)
      && ((i.QuickOp? || i.Scc?) && i.ea.Displaced? ==> i.ea.d16.b < 0x8000 || i.ea.d16.b >= 0xffff_8000)
      && ((i.QuickOp? || i.Scc?) && i.ea.IndexedBy? ==> Indexes(i.ea.words))
  {
    hide ExtensionOf, Mode6Valid;
    if (i.QuickOp? || i.Scc?) && i.ea.IndexedBy? && Halfwords(i.ea.words) {
      ValidWords(i.ea.words, 0);
    }
  }

  /** Words of sixteen bits, of which the first is a brief extension word or a full one that is not reserved. */
  ghost predicate Indexes(words: Stream) {
    && (forall j: nat :: words(j).b < 0x1_0000)
    && var w := words(0).b;
       w & 0x100 == 0 || (w & 8 == 0 && w & 0x30 != 0 && (w & 4 != 0 ==> w & 0x40 == 0 && w & 3 != 0))
  }

  lemma ValidWords(words: Stream, k: nat)
    requires words(k).b < 0x1_0000
    ensures var w := words(k).b;
      Mode6Valid(ExtensionOf(words, k))
      <==> w & 0x100 == 0 || (w & 8 == 0 && w & 0x30 != 0 && (w & 4 != 0 ==> w & 0x40 == 0 && w & 3 != 0))
  {
  }

  /** A host state that holds a guest state. */
  function HostOf(c: Cpu): Host {
    Host((r: Reg) => if r.PC? then c.pc else if r.CC? then CachedWord(c.sys, c.f) else if r.D? || r.A? then c.regs(r) else W(0),
         false, false, false, false, c.mem)
  }

  /** The status register as it is cached: C and V exchanged. */
  function CachedWord(sys: Word, f: Ccr): Word {
    W(sys.b | (if f.x then 16 else 0) | (if f.n then 8 else 0) | (if f.z then 4 else 0) | (if f.c then 2 else 0) | (if f.v then 1 else 0))
  }

  lemma CachedBits(sys: Word, f: Ccr)
    requires sys.b & 31 == 0
    ensures Upper(CachedWord(sys, f)).b == sys.b && CcrOf(CachedWord(sys, f)) == f
  {
  }

  /** Every guest state is represented by a host state, and every host state represents a guest state, with nothing
      pending and every flag cached. */
  lemma EveryGuestIsRepresented(c: Cpu)
    requires c.sys.b & 31 == 0
    ensures Represents(c, Entry(c.pc), SR_CCR, HostOf(c))
  {
    hide Plus, Upper, CcrOf, CachedWord, Coherent;
    CachedBits(c.sys, c.f);
    SameBits(Upper(CachedWord(c.sys, c.f)), c.sys);
    PlusZero(c.pc);
    NothingPending();
    NoneMarked(HostOf(c));
  }

  lemma EveryHostRepresents(s: Host)
    ensures Represents(Cpu(s.x, s.mem, s.Get(PC), CcrOf(s.Get(CC)), Upper(s.Get(CC))), Entry(s.Get(PC)), SR_CCR, s)
  {
    hide Plus, Upper, CcrOf, Coherent;
    PlusZero(s.Get(PC));
    NothingPending();
    NoneMarked(s);
  }
}
