/**
  M68K_GetSRMask (emu68/src/M68k_SR.c): which of the flags an instruction sets must be computed.  The scan
  walks the program from the instruction, follows BRA and BSR, splits once at a conditional branch, and stops
  after a number of instructions that the user can set.
*/
module FlagScan {
  import opened Words
  import opened A64
  import opened M68k
  import opened Manual
  import opened Guest
  import opened EmitQuick
  import opened EmitBranch
  import opened Unit

  predicate IsBranch(i: Insn68) { i.Bcc? || i.DBcc? || i.BRA? || i.BSR? }

  /** Flags still to be decided, and flags found to be needed. */
  datatype Found = Found(undecided: Mask, needed: Mask)
  {
    function All(): Mask { undecided | needed }
  }

  function Join(p: Found, q: Found): Found { Found(p.undecided | q.undecided, p.needed | q.needed) }

  /** The scan counts displacements in words: the lowest bit is lost. */
  function ScanTarget(a: Word, disp: Word): Word { Plus(a, Plus(W(2), EvenPart(disp))) }
  function EvenPart(disp: Word): Word { W(disp.b & !1) }

  /** The next instruction in memory; an effective address in mode 6 is measured by its extension word. */
  function Following(i: Insn68, a: Word): Word {
    match i
    case QuickOp(_, _, _, ea) => Plus(a, Length(ScanWords(ea)))
    case Scc(_, ea) => Plus(a, Length(ScanWords(ea)))
    case DBcc(_, _, _) => Plus(a, W(4))
    case Bcc(_, form, _) => Plus(a, FormLength(form))
    case BRA(form, _) => Plus(a, FormLength(form))
    case BSR(form, _) => Plus(a, FormLength(form))
  }

  /** SR_GetEALength in mode 6. */
  function Mode6Length(w: bv16): nat {
    if w & 0x100 == 0 then 1
    else
      1 + (if w & 3 == 2 then 1 else if w & 3 == 3 then 2 else 0)
        + (if w & 0x30 == 0x20 then 1 else if w & 0x30 == 0x30 then 2 else 0)
  }

  function ScanWords(ea: Ea): nat {
    match ea
    case Displaced(_, _) => 1
    case IndexedBy(_, words) => Mode6Length(ExtensionOf(words, 0))
    case _ => 0
  }

  // ---------------------------------------------------------------- the scan

  /** Taking in an instruction: open flags it needs are needed, open flags it sets are decided, and the scan
      ends if it needs all that remain. */
  function TakeNeeds(i: Insn68, open: Mask, needed: Mask): Mask { needed | (open & NeedsOf(i)) }
  function DropSets(i: Insn68, open: Mask): Mask { open & !SetsOf(i) }
  predicate NeedsRest(i: Insn68, open: Mask) { open & NeedsOf(i) == open }

  /** One of the two paths after a conditional branch: straight on, up to the next branch. */
  function ScanPath(prog: Program, a: Word, open: Mask, needed: Mask, depth: nat): Found
    decreases depth, 0
  {
    if open == 0 || depth == 0 || IsBranch(prog(a)) then Found(open, needed)
    else
      var i := prog(a);
      var needed' := TakeNeeds(i, open, needed);
      var open' := DropSets(i, open);
      if NeedsRest(i, open') then Found(open', needed') else ScanPath(prog, Following(i, a), open', needed', depth - 1)
  }

  /** The scan with the instruction at `a` behind it. */
  function ScanFrom(prog: Program, a: Word, open: Mask, needed: Mask, depth: nat): Found
    decreases depth, 0
  {
    if open == 0 || depth == 0 then Found(open, needed)
    else
      var i := prog(a);
      match i
      case BRA(_, disp) => ScanAt(prog, ScanTarget(a, disp), open, needed, depth - 1)
      case BSR(_, disp) => ScanAt(prog, ScanTarget(a, disp), open, needed, depth - 1)
      case Bcc(_, _, disp) => Split(prog, a, disp, open, TakeNeeds(i, open, needed), depth - 1)
      case DBcc(_, _, disp) => Split(prog, a, disp, open, TakeNeeds(i, open, needed), depth - 1)
      case _ => ScanAt(prog, Following(i, a), open, needed, depth - 1)
  }

  function Split(prog: Program, a: Word, disp: Word, open: Mask, needed: Mask, depth: nat): Found
    decreases depth, 2
  {
    Join(ScanPath(prog, ScanTarget(a, disp), open, needed, depth),
         ScanPath(prog, Following(prog(a), a), open, needed, depth))
  }

  /** Take in the instruction at `a` and go on. */
  function ScanAt(prog: Program, a: Word, open: Mask, needed: Mask, depth: nat): Found
    decreases depth, 1
  {
    var i := prog(a);
    var needed' := TakeNeeds(i, open, needed);
    var open' := DropSets(i, open);
    if NeedsRest(i, open') then Found(open', needed') else ScanFrom(prog, a, open', needed', depth)
  }

  function ScanMask(prog: Program, a: Word, depth: nat): Mask {
    ScanFrom(prog, a, SetsOf(prog(a)), 0, depth).All()
  }

  // ---------------------------------------------------------------- as the source writes it

  /** The inner loop, once for each path. */
  method PathScan(prog: Program, start: Word, mask: Mask, before: Mask, scanned: nat, max: nat) returns (open: Mask, needed: Mask)
    requires scanned <= max
    ensures Found(open, needed) == ScanPath(prog, start, mask, before, max - scanned)
  {
    hide Following, TakeNeeds, DropSets, NeedsRest;
    var a, depth := start, scanned;
    open, needed := mask, before;
    while open != 0 && depth < max
      invariant depth <= max
      invariant ScanPath(prog, a, open, needed, max - depth) == ScanPath(prog, start, mask, before, max - scanned)
      decreases max - depth
    {
      ghost var left := max - depth;
      depth := depth + 1;
      if IsBranch(prog(a)) {
        assert ScanPath(prog, a, open, needed, left) == Found(open, needed);
        return;
      }
      var i := prog(a);
      needed := TakeNeeds(i, open, needed);
      open := DropSets(i, open);
      if NeedsRest(i, open) {
        return;
      }
      a := Following(i, a);
    }
  }

  /** M68K_GetSRMask. */
  method GetSRMask(prog: Program, start: Word, max: nat) returns (result: Mask)
    ensures result == ScanMask(prog, start, max)
    ensures EvenBranches(prog) ==> forall f: Mask :: Flag(f) ==> (Has(result, f) <==> Has(SetsOf(prog(start)), f) && !DiesAfter(prog, start, f, max))
  {
    hide Following, TakeNeeds, DropSets, NeedsRest, ScanPath, ScanTarget, Join, EvenBranches, Has, Flag, DiesAfter, SetsOf;
    MaskDecides(prog, start, max);
    var a, depth := start, 0;
    var mask, needed := SetsOf(prog(start)), 0;
    while mask != 0 && depth < max
      invariant depth <= max
      invariant ScanFrom(prog, a, mask, needed, max - depth) == ScanFrom(prog, start, SetsOf(prog(start)), 0, max)
      decreases max - depth
    {
      depth := depth + 1;
      var i := prog(a);
      if i.BRA? || i.BSR? {
        a := ScanTarget(a, i.disp);
      } else if i.Bcc? || i.DBcc? {
        needed := TakeNeeds(i, mask, needed);
        var mask1, needed1 := PathScan(prog, ScanTarget(a, i.disp), mask, needed, depth, max);
        var mask2, needed2 := PathScan(prog, Following(i, a), mask, needed, depth, max);
        JoinAll(mask1, needed1, mask2, needed2);
        return AllOf(mask1, needed1, mask2, needed2);
      } else {
        a := Following(i, a);
      }
      i := prog(a);
      needed := TakeNeeds(i, mask, needed);
      mask := DropSets(i, mask);
      if NeedsRest(i, mask) {
        break;
      }
    }
    result := Found(mask, needed).All();
  }

  function AllOf(m1: Mask, n1: Mask, m2: Mask, n2: Mask): Mask { m1 | n1 | m2 | n2 }

  lemma JoinAll(m1: Mask, n1: Mask, m2: Mask, n2: Mask)
    ensures AllOf(m1, n1, m2, n2) == Join(Found(m1, n1), Found(m2, n2)).All()
  {
  }

  // ---------------------------------------------------------------- what is live

  predicate Has(m: Mask, f: Mask) { m & f != 0 }

  predicate Flag(f: Mask) { f == SR_C || f == SR_V || f == SR_Z || f == SR_N || f == SR_X }

  /** Some path from `a` of at most k steps needs the flag before anything on it sets it. */
  ghost predicate LiveIn(prog: Program, a: Word, f: Mask, k: nat)
    decreases k
  {
    || Has(NeedsOf(prog(a)), f)
    || (k > 0 && !Has(SetsOf(prog(a)), f) && exists b: Word :: Successor(prog(a), a, b) && LiveIn(prog, b, f, k - 1))
  }

  ghost predicate LiveAt(prog: Program, a: Word, f: Mask) {
    exists k: nat :: LiveIn(prog, a, f, k)
  }

  ghost function LiveMask(prog: Program, a: Word): Mask {
    (if LiveAt(prog, a, SR_C) then SR_C else 0) | (if LiveAt(prog, a, SR_V) then SR_V else 0) |
    (if LiveAt(prog, a, SR_Z) then SR_Z else 0) | (if LiveAt(prog, a, SR_N) then SR_N else 0) |
    (if LiveAt(prog, a, SR_X) then SR_X else 0)
  }

  predicate Even(disp: Word) { disp.b & 1 == 0 }

  /** Branch displacements are even, as the m68k requires of its instruction addresses. */
  ghost predicate EvenBranches(prog: Program) {
    forall a: Word :: IsBranch(prog(a)) ==> Even(prog(a).disp)
  }

  /** The scan follows a branch to its target if and only if the displacement is even. */
  lemma TargetExactIff(a: Word, disp: Word)
    ensures ScanTarget(a, disp) == Plus(a, Plus(W(2), disp)) <==> Even(disp)
  {
    hide Plus, Even, EvenPart;
    EvenPartIs(disp);
    PlusInjective(W(2), EvenPart(disp), disp);
    PlusInjective(a, Plus(W(2), EvenPart(disp)), Plus(W(2), disp));
  }

  lemma EvenPartIs(disp: Word)
    ensures EvenPart(disp) == disp <==> Even(disp)
  {
    LowBitLost(disp);
    hide Even;
    if EvenPart(disp).b == disp.b {
      SameBits(EvenPart(disp), disp);
    }
  }

  lemma LowBitLost(disp: Word)
    ensures EvenPart(disp).b == disp.b <==> Even(disp)
  {
  }

  lemma PlusInjective(a: Word, x: Word, y: Word)
    ensures Plus(a, x) == Plus(a, y) <==> x == y
  {
    PlusCommutes(a, x);
    PlusCommutes(a, y);
    MinusUndoesPlus(x, a);
    MinusUndoesPlus(y, a);
    hide Plus, Minus;
  }

  /** The scan measures an effective address as the emitters do. */
  lemma WordsAgree(ea: Ea)
    ensures ScanWords(ea) == ExtensionWords(ea)
  {
    if ea.IndexedBy? {
      Mode6Agrees(ExtensionOf(ea.words, 0));
    }
  }

  lemma Mode6Agrees(w: bv16)
    ensures Mode6Length(w) == Mode6Words(w)
  {
  }

  // ---------------------------------------------------------------- the scan against what is live

  lemma LiveNow(prog: Program, a: Word, f: Mask)
    requires Has(NeedsOf(prog(a)), f)
    ensures LiveAt(prog, a, f)
  {
    assert LiveIn(prog, a, f, 0);
  }

  lemma LiveLater(prog: Program, a: Word, b: Word, f: Mask)
    requires Successor(prog(a), a, b) && LiveAt(prog, b, f) && !Has(SetsOf(prog(a)), f)
    ensures LiveAt(prog, a, f)
  {
    hide Successor, Has, NeedsOf, SetsOf;
    var k: nat :| LiveIn(prog, b, f, k);
    assert LiveIn(prog, a, f, k + 1);
  }

  /** A flag live at an instruction that does not need it is live after it, and not set by it. */
  lemma LivePasses(prog: Program, a: Word, f: Mask) returns (b: Word)
    requires LiveAt(prog, a, f) && !Has(NeedsOf(prog(a)), f)
    ensures !Has(SetsOf(prog(a)), f) && Successor(prog(a), a, b) && LiveAt(prog, b, f)
  {
    hide Successor, Has, NeedsOf, SetsOf;
    var k: nat :| LiveIn(prog, a, f, k);
    b :| Successor(prog(a), a, b) && LiveIn(prog, b, f, k - 1);
  }

  lemma OneWay(i: Insn68, a: Word, b: Word)
    requires !IsBranch(i)
    ensures Successor(i, a, b) <==> b == Following(i, a)
  {
    hide Plus, Length, ScanWords, ExtensionWords;
    match i
    case QuickOp(_, _, _, ea) => WordsAgree(ea);
    case Scc(_, ea) => WordsAgree(ea);
  }

  lemma TwoWays(i: Insn68, a: Word, b: Word)
    requires IsBranch(i) && Even(i.disp)
    ensures Successor(i, a, b) <==> b == ScanTarget(a, i.disp) || ((i.Bcc? || i.DBcc?) && b == Following(i, a))
  {
    TargetExactIff(a, i.disp);
    hide Plus, FormLength, Even;
  }

  lemma TakenIn(i: Insn68, open: Mask, needed: Mask, f: Mask)
    requires Flag(f)
    ensures Has(TakeNeeds(i, open, needed), f) <==> Has(needed, f) || (Has(open, f) && Has(NeedsOf(i), f))
    ensures Has(DropSets(i, open), f) <==> Has(open, f) && !Has(SetsOf(i), f)
  {
    hide NeedsOf, SetsOf;
  }

  lemma EitherHas(m: Mask, n: Mask, f: Mask)
    ensures Has(m | n, f) <==> Has(m, f) || Has(n, f)
  {
  }

  /** What a scan result says of one flag: it covers the flag if that was needed already, or open and live,
      and it calls the flag needed only if so. */
  ghost predicate Answers(found: Found, open: Mask, needed: Mask, f: Mask, live: bool) {
    && (Has(needed, f) ==> Has(found.needed, f))
    && (Has(open, f) && live ==> Has(found.undecided, f) || Has(found.needed, f))
    && (Has(found.needed, f) ==> Has(needed, f) || (Has(open, f) && live))
  }

  lemma NothingOpen(open: Mask, needed: Mask, f: Mask, live: bool)
    ensures Answers(Found(open, needed), open, needed, f, live)
  {
    hide Has;
  }

  /** Taking in one instruction that does not end the scan. */
  lemma AnswersStep(found: Found, i: Insn68, open: Mask, needed: Mask, f: Mask, live: bool, later: bool)
    requires Flag(f)
    requires live <==> Has(NeedsOf(i), f) || (!Has(SetsOf(i), f) && later)
    requires Answers(found, DropSets(i, open), TakeNeeds(i, open, needed), f, later)
    ensures Answers(found, open, needed, f, live)
  {
    hide Has, Flag, NeedsOf, SetsOf, TakeNeeds, DropSets;
    TakenIn(i, open, needed, f);
  }

  /** Liveness at an instruction with one successor. */
  lemma LiveOneWay(prog: Program, a: Word, f: Mask)
    requires !IsBranch(prog(a))
    ensures LiveAt(prog, a, f) <==>
      Has(NeedsOf(prog(a)), f) || (!Has(SetsOf(prog(a)), f) && LiveAt(prog, Following(prog(a), a), f))
  {
    var i := prog(a);
    OneWay(i, a, Following(i, a));
    if Has(NeedsOf(i), f) {
      LiveNow(prog, a, f);
    } else if LiveAt(prog, a, f) {
      var b := LivePasses(prog, a, f);
      OneWay(i, a, b);
    } else if !Has(SetsOf(i), f) && LiveAt(prog, Following(i, a), f) {
      LiveLater(prog, a, Following(i, a), f);
    }
    hide *;
  }

  lemma {:induction false} PathAnswers(prog: Program, a: Word, open: Mask, needed: Mask, depth: nat, f: Mask)
    requires Flag(f)
    ensures Answers(ScanPath(prog, a, open, needed, depth), open, needed, f, LiveAt(prog, a, f))
    decreases depth
  {
    hide LiveAt, Answers, Has, Flag, NeedsOf, SetsOf, Following, TakeNeeds, DropSets, NeedsRest;
    NothingOpen(open, needed, f, LiveAt(prog, a, f));
    if !(open == 0 || depth == 0 || IsBranch(prog(a))) {
      var i := prog(a);
      var needed' := TakeNeeds(i, open, needed);
      var open' := DropSets(i, open);
      var b := Following(i, a);
      LiveOneWay(prog, a, f);
      if NeedsRest(i, open') {
        NothingOpen(open', needed', f, LiveAt(prog, b, f));
      } else {
        PathAnswers(prog, b, open', needed', depth - 1, f);
      }
      AnswersStep(ScanPath(prog, a, open, needed, depth), i, open, needed, f, LiveAt(prog, a, f), LiveAt(prog, b, f));
    }
  }

  /** Live after the instruction at `a`. */
  ghost predicate LiveAfter(prog: Program, a: Word, f: Mask) {
    exists b: Word :: Successor(prog(a), a, b) && LiveAt(prog, b, f)
  }

  /** Liveness where the scan splits or jumps. */
  lemma LiveBranches(prog: Program, a: Word, f: Mask)
    requires IsBranch(prog(a)) && Even(prog(a).disp)
    ensures var i := prog(a);
      LiveAfter(prog, a, f) <==> LiveAt(prog, ScanTarget(a, i.disp), f) || ((i.Bcc? || i.DBcc?) && LiveAt(prog, Following(i, a), f))
  {
    var i := prog(a);
    TwoWays(i, a, ScanTarget(a, i.disp));
    TwoWays(i, a, Following(i, a));
    if LiveAfter(prog, a, f) {
      var b :| Successor(i, a, b) && LiveAt(prog, b, f);
      TwoWays(i, a, b);
    }
    hide Successor, LiveAt, ScanTarget, Following;
  }

  lemma LiveStraight(prog: Program, a: Word, f: Mask)
    requires !IsBranch(prog(a))
    ensures LiveAfter(prog, a, f) <==> LiveAt(prog, Following(prog(a), a), f)
  {
    var i := prog(a);
    OneWay(i, a, Following(i, a));
    if LiveAfter(prog, a, f) {
      var b :| Successor(i, a, b) && LiveAt(prog, b, f);
      OneWay(i, a, b);
    }
    hide Successor, LiveAt, Following;
  }

  /** Liveness at an instruction from liveness after it. */
  lemma LiveHere(prog: Program, a: Word, f: Mask)
    ensures LiveAt(prog, a, f) <==> Has(NeedsOf(prog(a)), f) || (!Has(SetsOf(prog(a)), f) && LiveAfter(prog, a, f))
  {
    if Has(NeedsOf(prog(a)), f) {
      LiveNow(prog, a, f);
    } else if LiveAt(prog, a, f) {
      var b := LivePasses(prog, a, f);
    } else if !Has(SetsOf(prog(a)), f) && LiveAfter(prog, a, f) {
      var b :| Successor(prog(a), a, b) && LiveAt(prog, b, f);
      LiveLater(prog, a, b, f);
    }
    hide Successor, LiveAt, Has, NeedsOf, SetsOf;
  }

  /** Both paths after a conditional branch whose own needs are recorded. */
  lemma JoinAnswers(p: Found, q: Found, i: Insn68, open: Mask, needed: Mask, f: Mask, pLive: bool, qLive: bool)
    requires Flag(f)
    requires Answers(p, open, TakeNeeds(i, open, needed), f, pLive) && Answers(q, open, TakeNeeds(i, open, needed), f, qLive)
    requires Has(NeedsOf(i), f) && Has(open, f) ==> Has(needed, f)
    ensures Answers(Join(p, q), open, needed, f, pLive || qLive)
  {
    TakenIn(i, open, needed, f);
    EitherHas(p.undecided, q.undecided, f);
    EitherHas(p.needed, q.needed, f);
    hide Has, Flag, NeedsOf, TakeNeeds;
  }

  /** The scan, with what the instruction at `a` needs recorded, answers for what is live after it. */
  lemma {:induction false} FromAnswers(prog: Program, a: Word, open: Mask, needed: Mask, depth: nat, f: Mask)
    requires Flag(f) && EvenBranches(prog)
    requires Has(NeedsOf(prog(a)), f) && Has(open, f) ==> Has(needed, f)
    ensures Answers(ScanFrom(prog, a, open, needed, depth), open, needed, f, LiveAfter(prog, a, f))
    decreases depth, 0
  {
    var i := prog(a);
    assert IsBranch(i) ==> Even(i.disp);
    hide LiveAt, LiveAfter, Answers, Has, Flag, NeedsOf, SetsOf, Following, TakeNeeds, DropSets, NeedsRest, ScanTarget, ScanPath, ScanAt, Split, Even, EvenBranches, Successor;
    if open == 0 || depth == 0 {
      NothingOpen(open, needed, f, LiveAfter(prog, a, f));
    } else if !IsBranch(i) {
      LiveStraight(prog, a, f);
      AtAnswers(prog, Following(i, a), open, needed, depth - 1, f);
    } else if i.BRA? || i.BSR? {
      LiveBranches(prog, a, f);
      AtAnswers(prog, ScanTarget(a, i.disp), open, needed, depth - 1, f);
    } else {
      SplitAnswers(prog, a, open, needed, depth - 1, f);
    }
  }

  lemma SplitAnswers(prog: Program, a: Word, open: Mask, needed: Mask, depth: nat, f: Mask)
    requires Flag(f) && (prog(a).Bcc? || prog(a).DBcc?) && Even(prog(a).disp)
    requires Has(NeedsOf(prog(a)), f) && Has(open, f) ==> Has(needed, f)
    ensures Answers(Split(prog, a, prog(a).disp, open, TakeNeeds(prog(a), open, needed), depth), open, needed, f, LiveAfter(prog, a, f))
  {
    hide LiveAt, LiveAfter, Answers, Has, Flag, NeedsOf, SetsOf, Following, TakeNeeds, ScanTarget, ScanPath, Join, Even, Successor;
    var i := prog(a);
    var target, next := ScanTarget(a, i.disp), Following(i, a);
    var needed' := TakeNeeds(i, open, needed);
    LiveBranches(prog, a, f);
    PathAnswers(prog, target, open, needed', depth, f);
    PathAnswers(prog, next, open, needed', depth, f);
    JoinAnswers(ScanPath(prog, target, open, needed', depth), ScanPath(prog, next, open, needed', depth),
                i, open, needed, f, LiveAt(prog, target, f), LiveAt(prog, next, f));
  }

  lemma {:induction false} AtAnswers(prog: Program, a: Word, open: Mask, needed: Mask, depth: nat, f: Mask)
    requires Flag(f) && EvenBranches(prog)
    ensures Answers(ScanAt(prog, a, open, needed, depth), open, needed, f, LiveAt(prog, a, f))
    decreases depth, 1
  {
    hide LiveAt, LiveAfter, Answers, Has, Flag, NeedsOf, SetsOf, Following, TakeNeeds, DropSets, NeedsRest, ScanTarget, ScanPath, ScanFrom, Join, EvenBranches, Successor;
    var i := prog(a);
    var needed', open' := TakeNeeds(i, open, needed), DropSets(i, open);
    TakenIn(i, open, needed, f);
    LiveHere(prog, a, f);
    if NeedsRest(i, open') {
      NothingOpen(open', needed', f, LiveAfter(prog, a, f));
    } else {
      FromAnswers(prog, a, open', needed', depth, f);
    }
    AnswersStep(ScanAt(prog, a, open, needed, depth), i, open, needed, f, LiveAt(prog, a, f), LiveAfter(prog, a, f));
  }

  /** For every program, instruction, flag and depth: a flag the instruction sets is in the mask if it is live
      afterwards, and the scan calls it needed only if it is. */
  lemma ScanExact(prog: Program, a: Word, depth: nat, f: Mask)
    requires Flag(f) && EvenBranches(prog)
    ensures Has(SetsOf(prog(a)), f) && LiveAfter(prog, a, f) ==> Has(ScanMask(prog, a, depth), f)
    ensures Has(ScanFrom(prog, a, SetsOf(prog(a)), 0, depth).needed, f) ==> Has(SetsOf(prog(a)), f) && LiveAfter(prog, a, f)
  {
    SetsOrNeeds(prog(a), f);
    FromAnswers(prog, a, SetsOf(prog(a)), 0, depth, f);
    var found := ScanFrom(prog, a, SetsOf(prog(a)), 0, depth);
    EitherHas(found.undecided, found.needed, f);
    NoFlag(f);
    hide Has, Flag, SetsOf, NeedsOf, LiveAfter, ScanFrom, EvenBranches;
  }

  lemma NoFlag(f: Mask)
    ensures !Has(0, f)
  {
  }

  lemma SetsOrNeeds(i: Insn68, f: Mask)
    ensures SetsOf(i) == 0 || NeedsOf(i) == 0
    ensures !Has(NeedsOf(i), f) || !Has(SetsOf(i), f)
  {
    NoFlag(f);
    hide Has, Needs;
  }

  // ---------------------------------------------------------------- what the scan decides

  /** Within `depth` instructions and before any branch, every way on from `a` sets the flag, and nothing up to
      and including the instruction that sets it needs it. */
  ghost predicate DiesOnPath(prog: Program, a: Word, f: Mask, depth: nat)
    decreases depth
  {
    && depth > 0 && !IsBranch(prog(a)) && !Has(NeedsOf(prog(a)), f)
    && (Has(SetsOf(prog(a)), f) || forall b: Word :: Successor(prog(a), a, b) ==> DiesOnPath(prog, b, f, depth - 1))
  }

  /** The same after the instruction at `a`, also through BRA and BSR and past one conditional branch. */
  ghost predicate DiesAfter(prog: Program, a: Word, f: Mask, depth: nat)
    decreases depth, 0
  {
    depth > 0 && forall b: Word :: Successor(prog(a), a, b) ==>
      if prog(a).Bcc? || prog(a).DBcc? then DiesOnPath(prog, b, f, depth - 1) else DiesAt(prog, b, f, depth - 1)
  }

  ghost predicate DiesAt(prog: Program, a: Word, f: Mask, depth: nat)
    decreases depth, 1
  {
    !Has(NeedsOf(prog(a)), f) && (Has(SetsOf(prog(a)), f) || DiesAfter(prog, a, f, depth))
  }

  /** A scan result holds the flag exactly if it was needed already, or is open and does not die. */
  ghost predicate Decides(found: Found, open: Mask, needed: Mask, f: Mask, dies: bool) {
    Has(found.All(), f) <==> Has(needed, f) || (Has(open, f) && !dies)
  }

  lemma Undecided(open: Mask, needed: Mask, f: Mask, dies: bool)
    requires Has(open, f) ==> Has(needed, f) || !dies
    ensures Decides(Found(open, needed), open, needed, f, dies)
  {
    EitherHas(open, needed, f);
    hide Has;
  }

  lemma DecidesStep(found: Found, i: Insn68, open: Mask, needed: Mask, f: Mask, dies: bool, later: bool)
    requires Flag(f)
    requires dies <==> !Has(NeedsOf(i), f) && (Has(SetsOf(i), f) || later)
    requires Decides(found, DropSets(i, open), TakeNeeds(i, open, needed), f, later)
    ensures Decides(found, open, needed, f, dies)
  {
    hide Has, Flag, NeedsOf, SetsOf, TakeNeeds, DropSets;
    TakenIn(i, open, needed, f);
  }

  /** The scan stops early only where each flag still open is needed. */
  lemma RestNeeded(i: Insn68, open: Mask, needed: Mask, f: Mask, dies: bool)
    requires NeedsRest(i, DropSets(i, open))
    ensures Decides(Found(DropSets(i, open), TakeNeeds(i, open, needed)), DropSets(i, open), TakeNeeds(i, open, needed), f, dies)
  {
    RestIsNeeded(i, open, needed, f);
    hide Has, NeedsOf, SetsOf, TakeNeeds, DropSets;
    Undecided(DropSets(i, open), TakeNeeds(i, open, needed), f, dies);
  }

  lemma RestIsNeeded(i: Insn68, open: Mask, needed: Mask, f: Mask)
    requires NeedsRest(i, DropSets(i, open))
    ensures Has(DropSets(i, open), f) ==> Has(TakeNeeds(i, open, needed), f)
  {
    hide NeedsOf, SetsOf;
  }

  lemma ZeroHas(open: Mask, f: Mask)
    requires open == 0
    ensures !Has(open, f)
  {
  }

  lemma {:induction false} PathDecides(prog: Program, a: Word, open: Mask, needed: Mask, depth: nat, f: Mask)
    requires Flag(f)
    ensures Decides(ScanPath(prog, a, open, needed, depth), open, needed, f, DiesOnPath(prog, a, f, depth))
    decreases depth
  {
    hide Decides, Has, Flag, NeedsOf, SetsOf, Following, TakeNeeds, DropSets, NeedsRest, Successor;
    if open == 0 || depth == 0 || IsBranch(prog(a)) {
      if open == 0 {
        ZeroHas(open, f);
      }
      Undecided(open, needed, f, DiesOnPath(prog, a, f, depth));
    } else {
      var i := prog(a);
      var needed' := TakeNeeds(i, open, needed);
      var open' := DropSets(i, open);
      var b := Following(i, a);
      PathStep(prog, a, f, depth);
      if NeedsRest(i, open') {
        RestNeeded(i, open, needed, f, DiesOnPath(prog, b, f, depth - 1));
      } else {
        PathDecides(prog, b, open', needed', depth - 1, f);
      }
      DecidesStep(ScanPath(prog, a, open, needed, depth), i, open, needed, f, DiesOnPath(prog, a, f, depth), DiesOnPath(prog, b, f, depth - 1));
    }
  }

  lemma PathStep(prog: Program, a: Word, f: Mask, depth: nat)
    requires depth > 0 && !IsBranch(prog(a))
    ensures DiesOnPath(prog, a, f, depth)
      <==> (!Has(NeedsOf(prog(a)), f) && (Has(SetsOf(prog(a)), f) || DiesOnPath(prog, Following(prog(a), a), f, depth - 1)))
  {
    var b := Following(prog(a), a);
    OneWay(prog(a), a, b);
    hide Has, NeedsOf, SetsOf, Following, Successor;
    forall b' | Successor(prog(a), a, b')
      ensures b' == b
    {
      OneWay(prog(a), a, b');
    }
  }

  /** The ways on from an instruction, as the scan follows them. */
  lemma WaysOn(prog: Program, a: Word, f: Mask, depth: nat)
    requires EvenBranches(prog) && depth > 0
    ensures var i := prog(a);
      DiesAfter(prog, a, f, depth) <==>
        if i.Bcc? || i.DBcc? then DiesOnPath(prog, ScanTarget(a, i.disp), f, depth - 1) && DiesOnPath(prog, Following(i, a), f, depth - 1)
        else if i.BRA? || i.BSR? then DiesAt(prog, ScanTarget(a, i.disp), f, depth - 1)
        else DiesAt(prog, Following(i, a), f, depth - 1)
  {
    var i := prog(a);
    var next := Following(i, a);
    if IsBranch(i) {
      forall b: Word
        ensures Successor(i, a, b) <==> b == ScanTarget(a, i.disp) || ((i.Bcc? || i.DBcc?) && b == next)
      {
        TwoWays(i, a, b);
      }
      assert Successor(i, a, ScanTarget(a, i.disp));
      assert i.Bcc? || i.DBcc? ==> Successor(i, a, next);
    } else {
      forall b: Word
        ensures Successor(i, a, b) <==> b == next
      {
        OneWay(i, a, b);
      }
      assert Successor(i, a, next);
    }
    hide DiesOnPath, DiesAt, Successor, ScanTarget, Following;
  }

  lemma JoinDecides(p: Found, q: Found, open: Mask, needed: Mask, f: Mask, pDies: bool, qDies: bool)
    requires Decides(p, open, needed, f, pDies) && Decides(q, open, needed, f, qDies)
    ensures Decides(Join(p, q), open, needed, f, pDies && qDies)
  {
    hide Join, Has, Found.All;
    JoinHas(p, q, f);
  }

  lemma JoinHas(p: Found, q: Found, f: Mask)
    ensures Has(Join(p, q).All(), f) <==> Has(p.All(), f) || Has(q.All(), f)
  {
  }

  lemma {:induction false} FromDecides(prog: Program, a: Word, open: Mask, needed: Mask, depth: nat, f: Mask)
    requires Flag(f) && EvenBranches(prog)
    requires Has(NeedsOf(prog(a)), f) && Has(open, f) ==> Has(needed, f)
    ensures Decides(ScanFrom(prog, a, open, needed, depth), open, needed, f, DiesAfter(prog, a, f, depth))
    decreases depth, 0
  {
    hide Decides, DiesOnPath, DiesAt, DiesAfter, Has, Flag, NeedsOf, SetsOf, Following, TakeNeeds, DropSets, NeedsRest, ScanTarget, ScanPath, ScanAt, Split, Even, EvenBranches, Successor;
    var i := prog(a);
    if open == 0 {
      ZeroHas(open, f);
      Undecided(open, needed, f, DiesAfter(prog, a, f, depth));
    } else if depth == 0 {
      NoneDies(prog, a, f);
      Undecided(open, needed, f, false);
    } else {
      WaysOn(prog, a, f, depth);
      if i.BRA? || i.BSR? {
        AtDecides(prog, ScanTarget(a, i.disp), open, needed, depth - 1, f);
      } else if i.Bcc? || i.DBcc? {
        SplitDecides(prog, a, open, needed, depth - 1, f);
      } else {
        AtDecides(prog, Following(i, a), open, needed, depth - 1, f);
      }
    }
  }

  lemma NoneDies(prog: Program, a: Word, f: Mask)
    ensures !DiesAfter(prog, a, f, 0)
  {
  }

  lemma SplitDecides(prog: Program, a: Word, open: Mask, needed: Mask, depth: nat, f: Mask)
    requires Flag(f) && (prog(a).Bcc? || prog(a).DBcc?)
    requires Has(NeedsOf(prog(a)), f) && Has(open, f) ==> Has(needed, f)
    ensures Decides(Split(prog, a, prog(a).disp, open, TakeNeeds(prog(a), open, needed), depth), open, needed, f,
                    DiesOnPath(prog, ScanTarget(a, prog(a).disp), f, depth) && DiesOnPath(prog, Following(prog(a), a), f, depth))
  {
    hide Has, Flag, DiesOnPath, NeedsOf, SetsOf, Following, TakeNeeds, ScanTarget, ScanPath, Join, Successor;
    var i := prog(a);
    var target, next := ScanTarget(a, i.disp), Following(i, a);
    var needed' := TakeNeeds(i, open, needed);
    PathDecides(prog, target, open, needed', depth, f);
    PathDecides(prog, next, open, needed', depth, f);
    JoinDecides(ScanPath(prog, target, open, needed', depth), ScanPath(prog, next, open, needed', depth),
                open, needed', f, DiesOnPath(prog, target, f, depth), DiesOnPath(prog, next, f, depth));
    TakenIn(i, open, needed, f);
  }

  lemma {:induction false} AtDecides(prog: Program, a: Word, open: Mask, needed: Mask, depth: nat, f: Mask)
    requires Flag(f) && EvenBranches(prog)
    ensures Decides(ScanAt(prog, a, open, needed, depth), open, needed, f, DiesAt(prog, a, f, depth))
    decreases depth, 1
  {
    hide Decides, DiesAfter, Has, Flag, NeedsOf, SetsOf, Following, TakeNeeds, DropSets, NeedsRest, ScanTarget, ScanPath, ScanFrom, Join, EvenBranches, Successor;
    var i := prog(a);
    var needed', open' := TakeNeeds(i, open, needed), DropSets(i, open);
    TakenIn(i, open, needed, f);
    if NeedsRest(i, open') {
      RestNeeded(i, open, needed, f, DiesAfter(prog, a, f, depth));
    } else {
      FromDecides(prog, a, open', needed', depth, f);
    }
    DecidesStep(ScanAt(prog, a, open, needed, depth), i, open, needed, f, DiesAt(prog, a, f, depth), DiesAfter(prog, a, f, depth));
  }

  /** For every program, instruction, flag and depth: the mask holds a flag the instruction sets exactly unless
      the flag dies within that depth. */
  lemma ScanDecidesIff(prog: Program, a: Word, depth: nat, f: Mask)
    requires Flag(f) && EvenBranches(prog)
    ensures Has(ScanMask(prog, a, depth), f) <==> Has(SetsOf(prog(a)), f) && !DiesAfter(prog, a, f, depth)
  {
    SetsOrNeeds(prog(a), f);
    FromDecides(prog, a, SetsOf(prog(a)), 0, depth, f);
    NoFlag(f);
    hide Has, Flag, SetsOf, NeedsOf, DiesAfter, ScanFrom, EvenBranches;
  }

  lemma MaskDecides(prog: Program, a: Word, depth: nat)
    ensures EvenBranches(prog) ==> forall f: Mask :: Flag(f) ==> (Has(ScanMask(prog, a, depth), f) <==> Has(SetsOf(prog(a)), f) && !DiesAfter(prog, a, f, depth))
  {
    hide *;
    if EvenBranches(prog) {
      forall f: Mask | Flag(f)
        ensures Has(ScanMask(prog, a, depth), f) <==> Has(SetsOf(prog(a)), f) && !DiesAfter(prog, a, f, depth)
      {
        ScanDecidesIff(prog, a, depth, f);
      }
    }
  }

  // ---------------------------------------------------------------- the masks are sound

  ghost predicate Within(found: Found, sets: Mask) { found.All() & !sets == 0 }

  lemma DropWithin(i: Insn68, open: Mask, needed: Mask, sets: Mask)
    requires Within(Found(open, needed), sets)
    ensures Within(Found(DropSets(i, open), TakeNeeds(i, open, needed)), sets) && Within(Found(open, TakeNeeds(i, open, needed)), sets)
  {
    hide NeedsOf, SetsOf;
  }

  lemma JoinWithin(p: Found, q: Found, sets: Mask)
    requires Within(p, sets) && Within(q, sets)
    ensures Within(Join(p, q), sets)
  {
  }

  lemma {:induction false} PathWithin(prog: Program, a: Word, open: Mask, needed: Mask, depth: nat, sets: Mask)
    requires Within(Found(open, needed), sets)
    ensures Within(ScanPath(prog, a, open, needed, depth), sets)
    decreases depth
  {
    hide Within, TakeNeeds, DropSets, NeedsRest, Following;
    var i := prog(a);
    DropWithin(i, open, needed, sets);
    if !(open == 0 || depth == 0 || IsBranch(i)) && !NeedsRest(i, DropSets(i, open)) {
      PathWithin(prog, Following(i, a), DropSets(i, open), TakeNeeds(i, open, needed), depth - 1, sets);
    }
  }

  lemma {:induction false} FromWithin(prog: Program, a: Word, open: Mask, needed: Mask, depth: nat, sets: Mask)
    requires Within(Found(open, needed), sets)
    ensures Within(ScanFrom(prog, a, open, needed, depth), sets)
    decreases depth, 0
  {
    hide Within, TakeNeeds, DropSets, NeedsRest, Following, ScanPath, ScanAt, ScanTarget, Join;
    var i := prog(a);
    DropWithin(i, open, needed, sets);
    if open != 0 && depth > 0 {
      if i.BRA? || i.BSR? {
        AtWithin(prog, ScanTarget(a, i.disp), open, needed, depth - 1, sets);
      } else if i.Bcc? || i.DBcc? {
        var needed' := TakeNeeds(i, open, needed);
        PathWithin(prog, ScanTarget(a, i.disp), open, needed', depth - 1, sets);
        PathWithin(prog, Following(i, a), open, needed', depth - 1, sets);
        JoinWithin(ScanPath(prog, ScanTarget(a, i.disp), open, needed', depth - 1),
                   ScanPath(prog, Following(i, a), open, needed', depth - 1), sets);
      } else {
        AtWithin(prog, Following(i, a), open, needed, depth - 1, sets);
      }
    }
  }

  lemma {:induction false} AtWithin(prog: Program, a: Word, open: Mask, needed: Mask, depth: nat, sets: Mask)
    requires Within(Found(open, needed), sets)
    ensures Within(ScanAt(prog, a, open, needed, depth), sets)
    decreases depth, 1
  {
    hide Within, TakeNeeds, DropSets, NeedsRest, ScanFrom;
    var i := prog(a);
    DropWithin(i, open, needed, sets);
    if !NeedsRest(i, DropSets(i, open)) {
      FromWithin(prog, a, DropSets(i, open), TakeNeeds(i, open, needed), depth, sets);
    }
  }

  /** No flag is computed that the instruction does not set. */
  lemma MaskWithin(prog: Program, a: Word, depth: nat)
    ensures ScanMask(prog, a, depth) & !SetsOf(prog(a)) == 0
  {
    var sets := SetsOf(prog(a));
    assert Within(Found(sets, 0), sets) by {
      hide SetsOf;
    }
    FromWithin(prog, a, sets, 0, depth, sets);
    hide SetsOf, ScanFrom;
  }

  lemma LiveBits(prog: Program, a: Word, f: Mask)
    ensures LiveMask(prog, a) < 32
    ensures Flag(f) ==> (Has(LiveMask(prog, a), f) <==> LiveAt(prog, a, f))
  {
    hide LiveAt;
  }

  lemma SmallMasks(i: Insn68)
    ensures NeedsOf(i) < 32 && SetsOf(i) < 32
  {
  }

  /** A mask is contained in another if each of its flags is. */
  lemma Contained(x: Mask, y: Mask)
    requires x < 32
    requires Has(x, SR_C) ==> Has(y, SR_C)
    requires Has(x, SR_V) ==> Has(y, SR_V)
    requires Has(x, SR_Z) ==> Has(y, SR_Z)
    requires Has(x, SR_N) ==> Has(y, SR_N)
    requires Has(x, SR_X) ==> Has(y, SR_X)
    ensures x & !y == 0
  {
  }

  lemma FlowOfFlag(prog: Program, a: Word, b: Word, depth: nat, f: Mask)
    requires Flag(f) && EvenBranches(prog) && Successor(prog(a), a, b)
    ensures Has(NeedsOf(prog(a)), f) ==> Has(LiveMask(prog, a), f)
    ensures Has(LiveMask(prog, b) & !SetsOf(prog(a)), f) ==> Has(LiveMask(prog, a), f)
    ensures Has(LiveMask(prog, b) & SetsOf(prog(a)), f) ==> Has(ScanMask(prog, a, depth), f)
  {
    hide LiveAt, LiveMask, EvenBranches, Successor, NeedsOf, SetsOf, ScanMask, Needs;
    LiveBits(prog, a, f);
    LiveBits(prog, b, f);
    LiveHere(prog, a, f);
    ScanExact(prog, a, depth, f);
    BothHas(LiveMask(prog, b), SetsOf(prog(a)), f);
    assert LiveAt(prog, b, f) ==> LiveAfter(prog, a, f);
    hide Has, Flag, LiveAfter, ScanFrom;
  }

  lemma BothHas(m: Mask, n: Mask, f: Mask)
    requires Flag(f)
    ensures Has(m & !n, f) <==> Has(m, f) && !Has(n, f)
    ensures Has(m & n, f) <==> Has(m, f) && Has(n, f)
  {
  }

  lemma ScanFlow(prog: Program, a: Word, b: Word, depth: nat)
    requires EvenBranches(prog) && Successor(prog(a), a, b)
    ensures Flow(prog(a), ScanMask(prog, a, depth), LiveMask(prog, a), LiveMask(prog, b))
  {
    LiveBits(prog, b, SR_C);
    MaskWithin(prog, a, depth);
    SmallMasks(prog(a));
    FlowOfFlag(prog, a, b, depth, SR_C);
    FlowOfFlag(prog, a, b, depth, SR_V);
    FlowOfFlag(prog, a, b, depth, SR_Z);
    FlowOfFlag(prog, a, b, depth, SR_N);
    FlowOfFlag(prog, a, b, depth, SR_X);
    SmallPart(LiveMask(prog, b), SetsOf(prog(a)));
    hide EvenBranches, Successor, LiveMask, NeedsOf, SetsOf, ScanMask, ScanFrom, Has;
    Contained(NeedsOf(prog(a)), LiveMask(prog, a));
    Contained(LiveMask(prog, b) & !SetsOf(prog(a)), LiveMask(prog, a));
    Contained(LiveMask(prog, b) & SetsOf(prog(a)), ScanMask(prog, a, depth));
  }

  lemma SmallPart(m: Mask, n: Mask)
    requires m < 32
    ensures m & !n < 32 && m & n < 32
  {
  }

  /** The scan is sound: for every program, at every depth, its masks cover what is live. */
  lemma ScanSound(prog: Program, depth: nat)
    requires EvenBranches(prog)
    ensures Sound(prog, a => LiveMask(prog, a), a => ScanMask(prog, a, depth))
  {
    forall a: Word, b: Word | Successor(prog(a), a, b)
      ensures Flow(prog(a), ScanMask(prog, a, depth), LiveMask(prog, a), LiveMask(prog, b))
    {
      ScanFlow(prog, a, b, depth);
    }
    hide Flow, Successor, ScanMask, LiveMask, EvenBranches;
  }

  /** So leaving out what the scan finds dead is invisible: a run ends with the same registers, memory and PC
      as with every flag computed. */
  lemma ScanInvisible(prog: Program, depth: nat, plan: seq<seq<Choice>>, c: Cpu, s: Host)
    requires Modelled(prog) && EvenBranches(prog) && Represents(c, Entry(c.pc), SR_CCR, s)
    ensures SameProgramState(RunUnits(prog, a => ScanMask(prog, a, depth), plan, s), RunUnits(prog, a => SetsOf(prog(a)), plan, s))
  {
    hide Modelled, EvenBranches, Represents, RunUnits, SameProgramState, Sound, ScanMask, LiveMask, SetsOf;
    ScanSound(prog, depth);
    AllFlagsSound(prog);
    LiveBits(prog, c.pc, SR_C);
    AllBits();
    DeadFlagsInvisible(prog, a => LiveMask(prog, a), a => ScanMask(prog, a, depth), a => SR_CCR, a => SetsOf(prog(a)), plan, c, s);
  }

  lemma AllBits()
    ensures SR_CCR < 32
  {
  }

  // ---------------------------------------------------------------- deeper scans

  lemma {:induction false} PathDeeper(prog: Program, a: Word, open: Mask, needed: Mask, depth: nat)
    ensures Within(ScanPath(prog, a, open, needed, depth + 1), ScanPath(prog, a, open, needed, depth).All())
    decreases depth
  {
    hide TakeNeeds, DropSets, NeedsRest, Following, Within;
    var i := prog(a);
    WithinItself(Found(open, needed));
    if !(open == 0 || IsBranch(i)) {
      var needed', open' := TakeNeeds(i, open, needed), DropSets(i, open);
      DropWithin(i, open, needed, Found(open, needed).All());
      WithinItself(Found(open', needed'));
      if !NeedsRest(i, open') {
        if depth == 0 {
          assert ScanPath(prog, Following(i, a), open', needed', 0) == Found(open', needed');
        } else {
          PathDeeper(prog, Following(i, a), open', needed', depth - 1);
        }
      }
    }
  }

  lemma WithinItself(found: Found)
    ensures Within(found, found.All())
  {
  }

  lemma JoinDeeper(p: Found, q: Found, p': Found, q': Found)
    requires Within(p', p.All()) && Within(q', q.All())
    ensures Within(Join(p', q'), Join(p, q).All())
  {
  }

  lemma {:induction false} FromDeeper(prog: Program, a: Word, open: Mask, needed: Mask, depth: nat)
    ensures Within(ScanFrom(prog, a, open, needed, depth + 1), ScanFrom(prog, a, open, needed, depth).All())
    decreases depth, 0
  {
    hide TakeNeeds, DropSets, NeedsRest, Following, Within, ScanPath, ScanAt, ScanTarget, Join;
    var i := prog(a);
    WithinItself(Found(open, needed));
    if depth == 0 {
      FromWithin(prog, a, open, needed, 1, Found(open, needed).All());
    } else if open != 0 {
      if i.BRA? || i.BSR? {
        AtDeeper(prog, ScanTarget(a, i.disp), open, needed, depth - 1);
      } else if i.Bcc? || i.DBcc? {
        var needed', target, next := TakeNeeds(i, open, needed), ScanTarget(a, i.disp), Following(i, a);
        PathDeeper(prog, target, open, needed', depth - 1);
        PathDeeper(prog, next, open, needed', depth - 1);
        JoinDeeper(ScanPath(prog, target, open, needed', depth - 1), ScanPath(prog, next, open, needed', depth - 1),
                   ScanPath(prog, target, open, needed', depth), ScanPath(prog, next, open, needed', depth));
      } else {
        AtDeeper(prog, Following(i, a), open, needed, depth - 1);
      }
    }
  }

  lemma {:induction false} AtDeeper(prog: Program, a: Word, open: Mask, needed: Mask, depth: nat)
    ensures Within(ScanAt(prog, a, open, needed, depth + 1), ScanAt(prog, a, open, needed, depth).All())
    decreases depth, 1
  {
    hide TakeNeeds, DropSets, NeedsRest, Within, ScanFrom;
    var i := prog(a);
    WithinItself(Found(DropSets(i, open), TakeNeeds(i, open, needed)));
    if !NeedsRest(i, DropSets(i, open)) {
      FromDeeper(prog, a, DropSets(i, open), TakeNeeds(i, open, needed), depth);
    }
  }

  /** Scanning deeper only removes flags from the mask; not scanning at all computes every flag. */
  lemma DeeperIsSmaller(prog: Program, a: Word, depth: nat)
    ensures ScanMask(prog, a, depth + 1) & !ScanMask(prog, a, depth) == 0 && ScanMask(prog, a, 0) == SetsOf(prog(a))
  {
    FromDeeper(prog, a, SetsOf(prog(a)), 0, depth);
    NothingAdded(SetsOf(prog(a)));
    hide SetsOf;
    assert ScanFrom(prog, a, SetsOf(prog(a)), 0, 0) == Found(SetsOf(prog(a)), 0);
    hide ScanFrom;
  }

  lemma NothingAdded(m: Mask)
    ensures m | 0 == m
  {
  }
}
