/**
  Consequences for single constructs over whole runs: a DBcc loop counts its counter's low word down to
  0xffff, and the prediction of a conditional branch does not show.
*/
module Loops {
  import opened Words
  import opened A64
  import opened M68k
  import opened Capture
  import opened Conditions
  import opened Pc
  import opened Guest
  import opened EmitQuick
  import opened EmitBranch
  import opened Unit

  /** A 16-bit value as a number: how often one can be taken from it. */
  function Number(x: bv16): nat
    decreases x
  {
    if x == 0 then 0 else 1 + Number(x - 1)
  }

  function LowWord(w: Word): bv16 { (w.b & 0xffff) as bv16 }
  function HighWord(w: Word): bv16 { (w.b >> 16) as bv16 }

  lemma CountDownWords(w: Word)
    ensures LowWord(CountDown(w)) == LowWord(w) - 1 && HighWord(CountDown(w)) == HighWord(w)
  {
  }

  lemma CounterZero(w: Word)
    ensures IsZero(Low16(w)) == (LowWord(w) == 0)
  {
  }

  /** The guest before the (j+1)-st execution of a DBcc, when `body` is what happens between one execution
      and the next. */
  function Round(cond: CondCode, n: nat, disp: Word, body: Cpu -> Cpu, j: nat, c: Cpu): Cpu {
    if j == 0 then c else body(Exec68(DBcc(cond, n, disp), Round(cond, n, disp, body, j - 1, c)))
  }

  /** The loop lasts for j rounds: in each of them the condition is false, and what happens up to the next
      DBcc keeps the counter. */
  ghost predicate Lasts(cond: CondCode, n: nat, disp: Word, body: Cpu -> Cpu, j: nat, c: Cpu) {
    forall i: nat :: i < j ==>
      && !True68(cond, Round(cond, n, disp, body, i, c).f)
      && Round(cond, n, disp, body, i + 1, c).regs(D(n)) == Exec68(DBcc(cond, n, disp), Round(cond, n, disp, body, i, c)).regs(D(n))
  }

  lemma LastsLess(cond: CondCode, n: nat, disp: Word, body: Cpu -> Cpu, i: nat, j: nat, c: Cpu)
    requires Lasts(cond, n, disp, body, j, c) && i <= j
    ensures Lasts(cond, n, disp, body, i, c)
  {
    hide Round, Exec68, True68;
  }

  lemma FalseIsNotTrue(cond: CondCode, f: Ccr)
    requires !True68(cond, f)
    ensures !cond.M_T?
  {
  }

  lemma CountsOnce(cond: CondCode, n: nat, disp: Word, c: Cpu)
    requires !True68(cond, c.f)
    ensures Exec68(DBcc(cond, n, disp), c).regs(D(n)) == CountDown(c.regs(D(n)))
    ensures DbccLeaves(cond, n, c) <==> LowWord(c.regs(D(n))) == 0
    ensures Exec68(DBcc(cond, n, disp), c).pc == Plus(c.pc, if LowWord(c.regs(D(n))) == 0 then W(4) else Plus(W(2), disp))
  {
    FalseIsNotTrue(cond, c.f);
    CounterZero(c.regs(D(n)));
    hide Plus, CountDown, IsZero, Low16, True68, LowWord;
  }

  /** After j rounds, as long as the counter lasts, it has gone down by j. */
  lemma {:induction false} CounterAfter(cond: CondCode, n: nat, disp: Word, body: Cpu -> Cpu, j: nat, c: Cpu)
    requires Lasts(cond, n, disp, body, j, c) && j <= Number(LowWord(c.regs(D(n))))
    ensures var w := Round(cond, n, disp, body, j, c).regs(D(n));
      && Number(LowWord(w)) == Number(LowWord(c.regs(D(n)))) - j
      && HighWord(w) == HighWord(c.regs(D(n)))
    decreases j
  {
    hide *;
    RoundParts(cond, n, disp, body, j, c);
    if j > 0 {
      LastsLess(cond, n, disp, body, j - 1, j, c);
      LastRound(cond, n, disp, body, j - 1, c);
      var d := Round(cond, n, disp, body, j - 1, c);
      CounterAfter(cond, n, disp, body, j - 1, c);
      CountsOnce(cond, n, disp, d);
      CountDownWords(d.regs(D(n)));
      OneLess(LowWord(d.regs(D(n))));
    }
  }

  lemma RoundParts(cond: CondCode, n: nat, disp: Word, body: Cpu -> Cpu, j: nat, c: Cpu)
    ensures Round(cond, n, disp, body, 0, c) == c
    ensures j > 0 ==> Round(cond, n, disp, body, j, c) == body(Exec68(DBcc(cond, n, disp), Round(cond, n, disp, body, j - 1, c)))
  {
    hide Exec68;
  }

  lemma LastRound(cond: CondCode, n: nat, disp: Word, body: Cpu -> Cpu, i: nat, c: Cpu)
    requires Lasts(cond, n, disp, body, i + 1, c)
    ensures var d := Round(cond, n, disp, body, i, c);
      !True68(cond, d.f) && Round(cond, n, disp, body, i + 1, c).regs(D(n)) == Exec68(DBcc(cond, n, disp), d).regs(D(n))
  {
    hide Round, Exec68, True68;
  }

  lemma OneLess(x: bv16)
    requires Number(x) > 0
    ensures Number(x - 1) == Number(x) - 1
  {
  }

  /** A body that keeps flags and counter lets the loop last for as many rounds as one likes. */
  lemma {:induction false} IdleLasts(cond: CondCode, n: nat, disp: Word, body: Cpu -> Cpu, j: nat, c: Cpu)
    requires !True68(cond, c.f) && forall d: Cpu :: body(d).f == d.f && body(d).regs(D(n)) == d.regs(D(n))
    ensures Lasts(cond, n, disp, body, j, c) && Round(cond, n, disp, body, j, c).f == c.f
    decreases j
  {
    hide Round, Exec68, True68;
    RoundParts(cond, n, disp, body, j, c);
    if j > 0 {
      IdleLasts(cond, n, disp, body, j - 1, c);
      var i := j - 1;
      var d := Round(cond, n, disp, body, i, c);
      FlagsKept(cond, n, disp, d);
      assert Round(cond, n, disp, body, i + 1, c) == body(Exec68(DBcc(cond, n, disp), d));
    }
  }

  lemma FlagsKept(cond: CondCode, n: nat, disp: Word, c: Cpu)
    ensures Exec68(DBcc(cond, n, disp), c).f == c.f
  {
    hide True68, CountDown, IsZero, Low16, Plus;
  }

  lemma NumberZero(x: bv16)
    ensures Number(x) == 0 <==> x == 0
  {
  }

  lemma AlwaysLeaves(cond: CondCode, n: nat, c: Cpu)
    ensures DbccLeaves(cond, n, c) <==> !cond.M_T? && (True68(cond, c.f) || LowWord(c.regs(D(n))) == 0)
  {
    CounterZero(c.regs(D(n)));
    hide True68, IsZero, Low16, LowWord;
  }

  /** A round that is reached ends the loop if and only if its condition is true or the counter has run out,
      which it has after as many rounds as its low word says. */
  lemma RoundLeaves(cond: CondCode, n: nat, disp: Word, body: Cpu -> Cpu, j: nat, c: Cpu)
    requires Lasts(cond, n, disp, body, j, c) && j <= Number(LowWord(c.regs(D(n))))
    ensures DbccLeaves(cond, n, Round(cond, n, disp, body, j, c))
      <==> !cond.M_T? && (True68(cond, Round(cond, n, disp, body, j, c).f) || j == Number(LowWord(c.regs(D(n)))))
  {
    hide Exec68, True68, LowWord, HighWord, Round, Number, DbccLeaves, Lasts;
    CounterAfter(cond, n, disp, body, j, c);
    AlwaysLeaves(cond, n, Round(cond, n, disp, body, j, c));
    NumberZero(LowWord(Round(cond, n, disp, body, j, c).regs(D(n))));
  }

  /** How a DBcc loop ends, whatever its body does to the flags: it goes on through every round before the m-th
      and ends there exactly if the condition has become true or the counter, less one in each round, has run
      out. */
  lemma DbccEnds(cond: CondCode, n: nat, disp: Word, body: Cpu -> Cpu, m: nat, c: Cpu)
    requires Lasts(cond, n, disp, body, m, c) && m <= Number(LowWord(c.regs(D(n)))) && !cond.M_T?
    ensures var k := Number(LowWord(c.regs(D(n))));
      var d := Round(cond, n, disp, body, m, c);
      && (forall j: nat :: j < m ==> !DbccLeaves(cond, n, Round(cond, n, disp, body, j, c)))
      && (DbccLeaves(cond, n, d) <==> True68(cond, d.f) || m == k)
      && Number(LowWord(d.regs(D(n)))) == k - m && HighWord(d.regs(D(n))) == HighWord(c.regs(D(n)))
  {
    forall j: nat | j < m
      ensures !DbccLeaves(cond, n, Round(cond, n, disp, body, j, c))
    {
      LastsLess(cond, n, disp, body, j, m, c);
      RoundLeaves(cond, n, disp, body, j, c);
    }
    RoundLeaves(cond, n, disp, body, m, c);
    CounterAfter(cond, n, disp, body, m, c);
    hide Exec68, True68, LowWord, HighWord, Round, Number, DbccLeaves;
  }

  /** While its condition stays false, a DBcc whose counter holds k in its low word branches back exactly
      k times and then falls through; the low word ends as 0xffff and the high word is kept. */
  lemma DbccLoop(cond: CondCode, n: nat, disp: Word, body: Cpu -> Cpu, c: Cpu)
    requires var k := Number(LowWord(c.regs(D(n))));
      Lasts(cond, n, disp, body, k, c) && !True68(cond, Round(cond, n, disp, body, k, c).f)
    ensures var k := Number(LowWord(c.regs(D(n))));
      && (forall j: nat :: j <= k ==> (DbccLeaves(cond, n, Round(cond, n, disp, body, j, c)) <==> j == k))
      && var last := Exec68(DBcc(cond, n, disp), Round(cond, n, disp, body, k, c));
         && last.pc == Plus(Round(cond, n, disp, body, k, c).pc, W(4))
         && LowWord(last.regs(D(n))) == 0xffff
         && HighWord(last.regs(D(n))) == HighWord(c.regs(D(n)))
  {
    hide Exec68, True68, CountDown, LowWord, HighWord, Round, Number, DbccLeaves, Plus, Lasts;
    var k := Number(LowWord(c.regs(D(n))));
    var d := Round(cond, n, disp, body, k, c);
    FalseIsNotTrue(cond, d.f);
    DbccEnds(cond, n, disp, body, k, c);
    CountsOnce(cond, n, disp, d);
    NumberZero(LowWord(d.regs(D(n))));
    CountDownWords(d.regs(D(n)));
    LastCount();
  }

  lemma LastCount()
    ensures (0 as bv16) - 1 == 0xffff
  {
  }

  /** The emitted block does the same: in a round that is reached it goes on (branching back) or leaves exactly
      as above, from any host state that represents the guest. */
  lemma DbccBlock(cond: CondCode, n: nat, disp: Word, body: Cpu -> Cpu, j: nat, c: Cpu, tr: Tr, before: Mask, s: Host)
    requires Lasts(cond, n, disp, body, j, c) && j <= Number(LowWord(c.regs(D(n)))) && !cond.M_T?
    requires Represents(Round(cond, n, disp, body, j, c), tr, before, s)
    requires before < 32 && Needs(cond) & !before == 0
    ensures var d := Round(cond, n, disp, body, j, c);
      var ends := True68(cond, d.f) || j == Number(LowWord(c.regs(D(n))));
      && (Run(EmitDbcc(cond, n, disp, tr).main, s).Leave? <==> ends)
      && Correct(EmitDbcc(cond, n, disp, tr), Exec68(DBcc(cond, n, disp), d), before, ends, s)
  {
    hide Exec68, True68, LowWord, Round, Number, DbccLeaves, EmitDbcc, Run, End, Straight, Represents, Lasts, OnlyExits, Needs;
    RoundLeaves(cond, n, disp, body, j, c);
    ReaderFlow(DBcc(cond, n, disp), before);
    DbccRefines(cond, n, disp, Round(cond, n, disp, body, j, c), tr, before, before, s);
  }

  /** An instruction that sets no flags passes on what is live. */
  lemma ReaderFlow(i: Insn68, live: Mask)
    requires !i.QuickOp? && live < 32 && NeedsOf(i) & !live == 0
    ensures Flow(i, 0, live, live)
  {
    SetsCases(i);
    MaskFlow(live, live);
    hide NeedsOf, SetsOf;
  }

  // ---------------------------------------------------------------- prediction

  /** Where a fragment ends, through its exit block or not. */
  function Final(e: Emitted, s: Host): Host {
    match Run(e.main, s)
    case Fall(t) => t
    case Leave(t) => End(e.exit, t)
  }

  lemma FinalState(cond: CondCode, form: Form, disp: Word, takeBranch: bool, c: Cpu, tr: Tr, live: Mask, s: Host)
    requires WellFormed(Bcc(cond, form, disp)) && Represents(c, tr, live, s)
    requires live < 32 && Needs(cond) & !live == 0
    ensures var c' := Exec68(Bcc(cond, form, disp), c);
      Represents(c', Entry(c'.pc), live, Final(EmitBcc(cond, form, disp, takeBranch, tr), s))
  {
    ReaderFlow(Bcc(cond, form, disp), live);
    BccRefines(cond, form, disp, takeBranch, c, tr, live, live, s);
    var e := EmitBcc(cond, form, disp, takeBranch, tr);
    var c' := Exec68(Bcc(cond, form, disp), c);
    if Run(e.main, s).Fall? {
      NothingLeft(cond, form, disp, takeBranch, tr);
      Forget(c', e.next, live, Run(e.main, s).s);
    }
    hide EmitBcc, Represents, Run, End, Straight, Exec68;
  }

  lemma NothingLeft(cond: CondCode, form: Form, disp: Word, takeBranch: bool, tr: Tr)
    ensures EmitBcc(cond, form, disp, takeBranch, tr).next.pending == W(0)
  {
    hide Plus, Minus, AddOffset, JumpOnCondition, GetOffsetPc, HostFlagsAfter;
  }

  lemma Forget(c: Cpu, tr: Tr, live: Mask, s: Host)
    requires Represents(c, tr, live, s) && tr.pending == W(0)
    ensures Represents(c, Entry(c.pc), live, s)
  {
    NoneMarked(s);
    hide Plus, CcrOf, Upper, Agree, Pending;
  }

  /** The layouts for a branch predicted taken and predicted not taken end with the same PC, registers and
      memory: the target if the condition holds, else the next instruction. */
  lemma PredictionInvisible(cond: CondCode, form: Form, disp: Word, c: Cpu, tr: Tr, live: Mask, s: Host)
    requires WellFormed(Bcc(cond, form, disp)) && Represents(c, tr, live, s)
    requires live < 32 && Needs(cond) & !live == 0
    ensures var taken := Final(EmitBcc(cond, form, disp, true, tr), s);
      var notTaken := Final(EmitBcc(cond, form, disp, false, tr), s);
      && SameProgramState(taken, notTaken)
      && taken.Get(PC) == Plus(c.pc, if True68(cond, c.f) then Plus(W(2), disp) else FormLength(form))
  {
    FinalState(cond, form, disp, true, c, tr, live, s);
    FinalState(cond, form, disp, false, c, tr, live, s);
    var c' := Exec68(Bcc(cond, form, disp), c);
    var taken := Final(EmitBcc(cond, form, disp, true, tr), s);
    var notTaken := Final(EmitBcc(cond, form, disp, false, tr), s);
    SameGuestState(c', live, live, taken, notTaken);
    EntryPtr(c', c'.pc, live, taken);
    BccGoes(cond, form, disp, c);
    hide *;
  }

  lemma BccGoes(cond: CondCode, form: Form, disp: Word, c: Cpu)
    ensures Exec68(Bcc(cond, form, disp), c).pc
         == Plus(c.pc, if True68(cond, c.f) then Plus(W(2), disp) else FormLength(form))
  {
    hide Plus, True68, FormLength;
  }
}
