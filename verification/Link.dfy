/**
  The end of M68K_Translate (emu68/src/M68k_Translator.c): the unit is closed with a return, or first with a
  branch back to its start when its path ends where it began; the recorded exit blocks are appended, each
  with its own return; and the branches into them receive their distances.
  The buffer so linked is proved to run as the fragments it was made from.
*/
module Link {
  import opened A64
  import opened Words
  import opened M68k
  import opened Pc
  import opened Guest
  import opened EmitQuick
  import opened EmitBranch
  import opened Unit
  import opened Lengths
  import opened Wrappers

  /** How a branch is patched: B.cond has 19 bits for its distance, TBZ and TBNZ have 14. */
  datatype FixupType = FIXUP_BCC | FIXUP_TBZ

  datatype Branch = Branch(at: nat, kind: FixupType)

  /** A recorded exit block and the branches (positions in the buffer) that are to enter it. */
  datatype Fixup = Fixup(branches: seq<Branch>, block: seq<Insn>)

  /** A finished buffer: instructions, returns, and the branch back to the start that is taken when no
      interrupt is pending. */
  datatype Cell = Op(i: Insn) | Ret | Again

  function KindOf(i: Insn): FixupType { if i.TestBit? then FIXUP_TBZ else FIXUP_BCC }

  /** How many distances the field can tell apart; the upper half of them is negative. */
  function Distances(kind: FixupType): nat { if kind.FIXUP_TBZ? then 0x4000 else 0x8_0000 }

  function SetDistance(i: Insn, kind: FixupType, distance: nat): Insn
    requires Jumps(i)
  {
    i.(dist := distance % Distances(kind))
  }

  /** The distance a branch jumps by, sign-extended from its field. */
  function Distance(i: Insn): int
    requires Jumps(i)
  {
    var n := Distances(KindOf(i));
    if i.dist % n < n / 2 then i.dist % n else i.dist % n - n
  }

  predicate InReach(kind: FixupType, distance: nat) { distance < Distances(kind) / 2 }

  /** A patched branch jumps by the distance it was given if and only if that is in reach of its field: below 2^13
      for a test of a bit, below 2^18 for a condition. */
  lemma PatchedExactIff(i: Insn, distance: nat)
    requires Jumps(i)
    ensures Distance(SetDistance(i, KindOf(i), distance)) == distance <==> InReach(KindOf(i), distance)
    ensures InReach(KindOf(i), distance) <==> distance < if i.TestBit? then 0x2000 else 0x4_0000
  {
  }

  // ---------------------------------------------------------------- running a finished buffer

  /** The state at the return that is reached, if one is.  `rounds` is how often the check at the end of a
      loop finds no interrupt pending before it finds one. */
  function Go(buf: seq<Cell>, at: nat, rounds: nat, s: Host): Option<Host>
    decreases rounds, |buf| - at
  {
    if at >= |buf| then None
    else if buf[at].Ret? then Some(s)
    else if buf[at].Again? then if rounds > 0 then Go(buf, 0, rounds - 1, s) else Go(buf, at + 1, rounds, s)
    else if !Jumps(buf[at].i) then Go(buf, at + 1, rounds, Step(buf[at].i, s))
    else if !Taken(buf[at].i, s) then Go(buf, at + 1, rounds, s)
    else if Distance(buf[at].i) > 0 then Go(buf, at + Distance(buf[at].i), rounds, s)
    else None
  }

  /** The code stands in the buffer at that position. */
  ghost predicate Stands(buf: seq<Cell>, at: nat, code: seq<Insn>) {
    at + |code| <= |buf| && forall k :: 0 <= k < |code| ==> buf[at + k] == Op(code[k])
  }

  /** The code stands there with its exits aimed at `target`. */
  ghost predicate Aimed(buf: seq<Cell>, at: nat, code: seq<Insn>, target: nat) {
    at + |code| <= target <= |buf| && forall k :: 0 <= k < |code| ==> buf[at + k] == AimedCell(code[k], target - (at + k))
  }

  predicate IsExit(i: Insn) { Jumps(i) && i.dist == 0 }

  function AimedCell(i: Insn, distance: nat): Cell {
    if IsExit(i) then Op(SetDistance(i, KindOf(i), distance)) else Op(i)
  }

  lemma StandsRest(buf: seq<Cell>, at: nat, code: seq<Insn>)
    requires Stands(buf, at, code) && code != []
    ensures Stands(buf, at + 1, code[1..])
  {
    forall k | 0 <= k < |code[1..]|
      ensures buf[at + 1 + k] == Op(code[1..][k])
    {
      assert buf[at + (1 + k)] == Op(code[1 + k]);
    }
  }

  lemma {:induction false} GoStraight(buf: seq<Cell>, at: nat, code: seq<Insn>, rounds: nat, s: Host)
    requires Stands(buf, at, code) && Straight(code)
    ensures Go(buf, at, rounds, s) == Go(buf, at + |code|, rounds, End(code, s))
    decreases |code|
  {
    hide Step;
    if code != [] {
      assert buf[at] == Op(code[0]);
      StandsRest(buf, at, code);
      GoStraight(buf, at + 1, code[1..], rounds, Step(code[0], s));
    }
  }

  /** Aimed code runs on to what follows it where the fragment falls through, and to the target where the
      fragment leaves. */
  lemma {:induction false} GoFragment(buf: seq<Cell>, at: nat, code: seq<Insn>, target: nat, rounds: nat, s: Host)
    requires Aimed(buf, at, code, target)
    requires forall k :: 0 <= k < |code| && Jumps(code[k]) ==> code[k].dist == 0 && InReach(KindOf(code[k]), target - (at + k))
    ensures Go(buf, at, rounds, s)
         == match Run(code, s)
            case Fall(t) => Go(buf, at + |code|, rounds, t)
            case Leave(t) => Go(buf, target, rounds, t)
    decreases |code|
  {
    if code != [] {
      AimedStep(buf, at, code, target, rounds, s);
      hide Step, Aimed, Go, InReach, KindOf, Taken;
      if !Jumps(code[0]) {
        GoFragment(buf, at + 1, code[1..], target, rounds, Step(code[0], s));
      } else if !Taken(code[0], s) {
        GoFragment(buf, at + 1, code[1..], target, rounds, s);
      }
    }
  }

  /** The first instruction of aimed code. */
  lemma AimedStep(buf: seq<Cell>, at: nat, code: seq<Insn>, target: nat, rounds: nat, s: Host)
    requires Aimed(buf, at, code, target) && code != []
    requires Jumps(code[0]) ==> code[0].dist == 0 && InReach(KindOf(code[0]), target - at)
    ensures Aimed(buf, at + 1, code[1..], target)
    ensures Go(buf, at, rounds, s)
         == if !Jumps(code[0]) then Go(buf, at + 1, rounds, Step(code[0], s))
            else if !Taken(code[0], s) then Go(buf, at + 1, rounds, s)
            else Go(buf, target, rounds, s)
  {
    hide Step;
    assert buf[at + 0] == AimedCell(code[0], target - (at + 0));
    forall k | 0 <= k < |code[1..]|
      ensures buf[at + 1 + k] == AimedCell(code[1..][k], target - (at + 1 + k))
    {
      assert buf[at + (1 + k)] == AimedCell(code[1 + k], target - (at + (1 + k)));
    }
    if Jumps(code[0]) {
      var i := SetDistance(code[0], KindOf(code[0]), target - at);
      PatchedExactIff(code[0], target - at);
      assert Taken(i, s) == Taken(code[0], s) && KindOf(i) == KindOf(code[0]);
    }
  }

  // ---------------------------------------------------------------- linking

  function Cells(code: seq<Insn>): seq<Cell> {
    seq(|code|, k requires 0 <= k < |code| => Op(code[k]))
  }

  /** The distance of a branch, counted from it to the target. */
  function PatchOne(buf: seq<Cell>, b: Branch, target: nat): seq<Cell> {
    if b.at < |buf| && b.at <= target && buf[b.at].Op? && Jumps(buf[b.at].i)
      then buf[b.at := Op(SetDistance(buf[b.at].i, b.kind, target - b.at))]
      else buf
  }

  function Patch(buf: seq<Cell>, branches: seq<Branch>, target: nat): seq<Cell>
    decreases |branches|
  {
    if branches == [] then buf else Patch(PatchOne(buf, branches[0], target), branches[1..], target)
  }

  /** Exit blocks appended in order, their branches patched to enter them. */
  function Linked(buf: seq<Cell>, fixups: seq<Fixup>): seq<Cell>
    decreases |fixups|
  {
    if fixups == [] then buf
    else Linked(Patch(buf + Cells(fixups[0].block) + [Ret], fixups[0].branches, |buf|), fixups[1..])
  }

  /** The exits of a piece of code that stands at a position, in order. */
  function Exits(code: seq<Insn>, at: nat): seq<Branch> {
    if code == [] then []
    else (if IsExit(code[0]) then [Branch(at, KindOf(code[0]))] else []) + Exits(code[1..], at + 1)
  }

  /** What is recorded for a fragment that stands at a position, and for the fragments of a unit. */
  function FixupOf(e: Emitted, at: nat): seq<Fixup> {
    if e.leaves then [Fixup(Exits(e.main, at), e.exit)] else []
  }

  function Recorded(fragments: seq<Emitted>, at: nat): seq<Fixup> {
    if fragments == [] then []
    else FixupOf(fragments[0], at) + Recorded(fragments[1..], at + |fragments[0].main|)
  }

  function CodeLength(fragments: seq<Emitted>): nat {
    if fragments == [] then 0 else |fragments[0].main| + CodeLength(fragments[1..])
  }

  /** Every recorded branch is in reach of the block it enters, when the blocks start at a position. */
  predicate Near(fixups: seq<Fixup>, start: nat) {
    fixups == []
    || ((forall b :: b in fixups[0].branches ==> b.at <= start && InReach(b.kind, start - b.at))
        && Near(fixups[1..], start + |fixups[0].block| + 1))
  }

  /** What is still pending at the end of a path. */
  function EndPending(fragments: seq<Emitted>, pending: Word): Word {
    if fragments == [] then pending else EndPending(fragments[1..], fragments[0].next.pending)
  }

  /** How a unit is closed. */
  function Tail(pending: Word, inner: bool): seq<Cell> {
    Cells(FlushPc(pending)) + (if inner then [Again, Ret] else [Ret])
  }

  lemma {:induction false} ExitsAppend(a: seq<Insn>, b: seq<Insn>, at: nat)
    ensures Exits(a + b, at) == Exits(a, at) + Exits(b, at + |a|)
    decreases |a|
  {
    hide IsExit, KindOf;
    if a == [] {
      assert a + b == b;
    } else {
      var c := a + b;
      assert c[0] == a[0] && c[1..] == a[1..] + b;
      ExitsAppend(a[1..], b, at + 1);
      var first := if IsExit(a[0]) then [Branch(at, KindOf(a[0]))] else [];
      assert Exits(a, at) == first + Exits(a[1..], at + 1) && Exits(c, at) == first + Exits(c[1..], at + 1);
    }
  }

  lemma {:induction false} NoExits(code: seq<Insn>, at: nat)
    requires Straight(code)
    ensures Exits(code, at) == []
    decreases |code|
  {
    if code != [] {
      NoExits(code[1..], at + 1);
    }
  }

  /** The one exit of straight code, a branch, and more code. */
  lemma ExitAfter(a: seq<Insn>, branch: Insn, b: seq<Insn>, at: nat)
    requires Straight(a) && IsExit(branch)
    ensures Exits(a + [branch] + b, at) == [Branch(at + |a|, KindOf(branch))] + Exits(b, at + |a| + 1)
  {
    NoExits(a, at);
    ExitsAppend(a, [branch], at);
    ExitsAppend(a + [branch], b, at);
    assert [branch][1..] == [];
  }

  lemma CellsAppend(a: seq<Insn>, b: seq<Insn>)
    ensures Cells(a + b) == Cells(a) + Cells(b)
  {
  }

  // ---------------------------------------------------------------- the layout of a linked unit

  ghost predicate BlockStands(buf: seq<Cell>, target: nat, block: seq<Insn>) {
    Stands(buf, target, block) && target + |block| < |buf| && buf[target + |block|] == Ret
  }

  ghost predicate FragmentLaid(buf: seq<Cell>, at: nat, e: Emitted, target: nat) {
    && Aimed(buf, at, e.main, target) && BlockStands(buf, target, e.exit)
    && forall k :: 0 <= k < |e.main| && IsExit(e.main[k]) ==> InReach(KindOf(e.main[k]), target - (at + k))
  }

  ghost predicate TailLaid(buf: seq<Cell>, at: nat, tail: seq<Cell>) {
    at + |tail| <= |buf| && buf[at..at + |tail|] == tail
  }

  ghost predicate Laid(buf: seq<Cell>, at: nat, fragments: seq<Emitted>, tail: seq<Cell>)
    decreases |fragments|
  {
    if fragments == [] then TailLaid(buf, at, tail)
    else
      var e := fragments[0];
      && (if e.leaves then exists target: nat :: FragmentLaid(buf, at, e, target) else Stands(buf, at, e.main))
      && Laid(buf, at + |e.main|, fragments[1..], tail)
  }

  /** The unit before it is linked. */
  ghost predicate Raw(buf: seq<Cell>, at: nat, fragments: seq<Emitted>, tail: seq<Cell>)
    decreases |fragments|
  {
    if fragments == [] then TailLaid(buf, at, tail)
    else Stands(buf, at, fragments[0].main) && Raw(buf, at + |fragments[0].main|, fragments[1..], tail)
  }

  /** The buffer changed, or grew, only between two positions. */
  ghost predicate KeptOutside(buf: seq<Cell>, out: seq<Cell>, from: nat, to: nat) {
    |out| >= |buf| && forall k :: 0 <= k < |buf| && !(from <= k < to) ==> out[k] == buf[k]
  }

  lemma KeptTwice(a: seq<Cell>, b: seq<Cell>, c: seq<Cell>, from: nat, mid: nat, to: nat)
    requires KeptOutside(a, b, from, mid) && KeptOutside(b, c, mid, to) && from <= mid <= to
    ensures KeptOutside(a, c, from, to)
  {
  }

  lemma Unchanged(buf: seq<Cell>, from: nat, to: nat)
    ensures KeptOutside(buf, buf, from, to)
  {
  }

  lemma Narrower(a: seq<Cell>, b: seq<Cell>, from: nat, to: nat)
    requires KeptOutside(a, b, from, to)
    ensures KeptOutside(a, b, 0, to)
  {
  }

  lemma {:induction false} ExitsAll(code: seq<Insn>, at: nat, k: nat)
    requires k < |code| && IsExit(code[k])
    ensures Branch(at + k, KindOf(code[k])) in Exits(code, at)
    decreases |code|
  {
    if k > 0 {
      ExitsAll(code[1..], at + 1, k - 1);
    }
  }

  /** The buffer with the first instruction of a piece of code patched, if that is an exit. */
  function PatchFirst(buf: seq<Cell>, at: nat, i: Insn, target: nat): seq<Cell> {
    if IsExit(i) then PatchOne(buf, Branch(at, KindOf(i)), target) else buf
  }

  lemma PatchFirstAims(buf: seq<Cell>, at: nat, code: seq<Insn>, target: nat)
    requires Stands(buf, at, code) && code != [] && at + |code| <= target <= |buf|
    ensures var out := PatchFirst(buf, at, code[0], target);
      && |out| == |buf| && out[at] == AimedCell(code[0], target - at)
      && (forall k :: 0 <= k < |buf| && k != at ==> out[k] == buf[k])
      && Stands(out, at + 1, code[1..])
      && Patch(buf, Exits(code, at), target) == Patch(out, Exits(code[1..], at + 1), target)
  {
    assert buf[at + 0] == Op(code[0]);
    StandsRest(buf, at, code);
    hide SetDistance, KindOf;
    var first := Branch(at, KindOf(code[0]));
    var rest := Exits(code[1..], at + 1);
    assert Exits(code, at) == if IsExit(code[0]) then [first] + rest else rest;
    assert ([first] + rest)[1..] == rest;
  }

  /** Patching the exits of a piece of code aims it and changes nothing else. */
  lemma {:induction false} PatchAims(buf: seq<Cell>, at: nat, code: seq<Insn>, target: nat)
    requires Stands(buf, at, code) && at + |code| <= target <= |buf|
    ensures var out := Patch(buf, Exits(code, at), target);
      && |out| == |buf| && Aimed(out, at, code, target)
      && forall k :: 0 <= k < |buf| && !(at <= k < at + |code|) ==> out[k] == buf[k]
    decreases |code|
  {
    if code != [] {
      PatchFirstAims(buf, at, code, target);
      hide AimedCell, PatchFirst, Patch, Stands, Exits;
      var buf1 := PatchFirst(buf, at, code[0], target);
      PatchAims(buf1, at + 1, code[1..], target);
      var out := Patch(buf, Exits(code, at), target);
      forall k | 0 <= k < |code|
        ensures out[at + k] == AimedCell(code[k], target - (at + k))
      {
        if k > 0 {
          assert out[at + 1 + (k - 1)] == AimedCell(code[1..][k - 1], target - (at + 1 + (k - 1)));
        }
      }
    }
  }

  lemma {:induction false} RawAppend(buf: seq<Cell>, more: seq<Cell>, at: nat, fragments: seq<Emitted>, tail: seq<Cell>)
    requires Raw(buf, at, fragments, tail) && KeptOutside(buf, more, 0, at)
    ensures Raw(more, at, fragments, tail)
    decreases |fragments|
  {
    if fragments != [] {
      RawAppend(buf, more, at + |fragments[0].main|, fragments[1..], tail);
    }
  }

  lemma {:induction false} RawFits(buf: seq<Cell>, at: nat, fragments: seq<Emitted>, tail: seq<Cell>)
    requires Raw(buf, at, fragments, tail)
    ensures at + CodeLength(fragments) + |tail| <= |buf|
    decreases |fragments|
  {
    if fragments != [] {
      RawFits(buf, at + |fragments[0].main|, fragments[1..], tail);
    }
  }

  lemma FragmentKept(buf: seq<Cell>, out: seq<Cell>, at: nat, to: nat, e: Emitted, target: nat)
    requires FragmentLaid(buf, at, e, target) && KeptOutside(buf, out, at + |e.main|, to) && to <= target
    ensures FragmentLaid(out, at, e, target)
  {
    hide AimedCell, InReach;
  }

  /** The first recorded block appended and its branches patched. */
  function LinkFirst(buf: seq<Cell>, at: nat, e: Emitted): seq<Cell> {
    Patch(buf + Cells(e.exit) + [Ret], Exits(e.main, at), |buf|)
  }

  lemma FirstAimed(buf: seq<Cell>, at: nat, e: Emitted)
    requires Stands(buf, at, e.main)
    ensures var out := LinkFirst(buf, at, e);
      && |out| == |buf| + |e.exit| + 1 && Aimed(out, at, e.main, |buf|) && BlockStands(out, |buf|, e.exit)
      && forall k :: 0 <= k < at || at + |e.main| <= k < |buf| ==> out[k] == buf[k]
  {
    var longer := buf + Cells(e.exit) + [Ret];
    assert Stands(longer, at, e.main);
    PatchAims(longer, at, e.main, |buf|);
    var out := LinkFirst(buf, at, e);
    forall k | 0 <= k < |e.exit|
      ensures out[|buf| + k] == Op(e.exit[k])
    {
      assert longer[|buf| + k] == Op(e.exit[k]);
    }
    assert longer[|buf| + |e.exit|] == Ret;
  }

  lemma FirstReaches(at: nat, e: Emitted, fixups: seq<Fixup>, target: nat)
    requires fixups != [] && fixups[0].branches == Exits(e.main, at) && Near(fixups, target)
    ensures forall k :: 0 <= k < |e.main| && IsExit(e.main[k]) ==> at + k <= target && InReach(KindOf(e.main[k]), target - (at + k))
  {
    hide InReach;
    forall k | 0 <= k < |e.main| && IsExit(e.main[k])
      ensures at + k <= target && InReach(KindOf(e.main[k]), target - (at + k))
    {
      ExitsAll(e.main, at, k);
    }
  }

  lemma {:induction false} FirstLaid(buf: seq<Cell>, at: nat, e: Emitted, fixups: seq<Fixup>)
    requires Stands(buf, at, e.main)
    requires fixups != [] && fixups[0] == Fixup(Exits(e.main, at), e.exit) && Near(fixups, |buf|)
    ensures var out := LinkFirst(buf, at, e);
      && |out| == |buf| + |e.exit| + 1 && FragmentLaid(out, at, e, |buf|)
      && KeptOutside(buf, out, at, at + |e.main|)
    ensures Near(fixups[1..], |buf| + |e.exit| + 1)
    ensures Linked(buf, fixups) == Linked(LinkFirst(buf, at, e), fixups[1..])
  {
    FirstAimed(buf, at, e);
    FirstReaches(at, e, fixups, |buf|);
    hide Stands, Aimed, BlockStands, Exits, Cells, Patch, InReach, KindOf, IsExit;
  }

  lemma LaidMore(buf: seq<Cell>, at: nat, fragments: seq<Emitted>, tail: seq<Cell>, target: nat)
    requires fragments != []
    requires var e := fragments[0];
      && (if e.leaves then FragmentLaid(buf, at, e, target) else Stands(buf, at, e.main))
      && Laid(buf, at + |e.main|, fragments[1..], tail)
    ensures Laid(buf, at, fragments, tail)
  {
  }

  lemma LinkNothing(buf: seq<Cell>, at: nat, tail: seq<Cell>)
    requires Raw(buf, at, [], tail)
    ensures Linked(buf, Recorded([], at)) == buf && Laid(buf, at, [], tail) && KeptOutside(buf, buf, at, at + CodeLength([]))
  {
  }

  lemma RawMore(buf: seq<Cell>, at: nat, fragments: seq<Emitted>, tail: seq<Cell>)
    requires fragments != [] && Raw(buf, at, fragments, tail)
    ensures var e := fragments[0];
      Stands(buf, at, e.main) && Raw(buf, at + |e.main|, fragments[1..], tail) && CodeLength(fragments) == |e.main| + CodeLength(fragments[1..])
  {
  }

  lemma {:induction false} RecordedMore(fragments: seq<Emitted>, at: nat)
    requires fragments != []
    ensures var e, fixups := fragments[0], Recorded(fragments, at);
      var rest := Recorded(fragments[1..], at + |e.main|);
      if e.leaves then fixups != [] && fixups[0] == Fixup(Exits(e.main, at), e.exit) && fixups[1..] == rest else fixups == rest
  {
    hide Exits;
  }

  /** Linking lays out the unit: every fragment stands where it was emitted, its exits aimed at a block that
      holds its exit code and returns. */
  lemma {:induction false} LinkLays(buf: seq<Cell>, at: nat, fragments: seq<Emitted>, tail: seq<Cell>)
    requires Raw(buf, at, fragments, tail) && Near(Recorded(fragments, at), |buf|)
    ensures var out := Linked(buf, Recorded(fragments, at));
      Laid(out, at, fragments, tail) && KeptOutside(buf, out, at, at + CodeLength(fragments))
    decreases |fragments|
  {
    hide *;
    RawFits(buf, at, fragments, tail);
    if fragments == [] {
      LinkNothing(buf, at, tail);
    } else {
      var e, rest := fragments[0], fragments[1..];
      var next, to := at + |e.main|, at + CodeLength(fragments);
      RawMore(buf, at, fragments, tail);
      RecordedMore(fragments, at);
      if !e.leaves {
        LinkLays(buf, next, rest, tail);
        var out := Linked(buf, Recorded(rest, next));
        StandsKept(buf, out, at, to, e.main);
        LaidMore(out, at, fragments, tail, 0);
        Unchanged(buf, at, next);
        KeptTwice(buf, buf, out, at, next, to);
      } else {
        var fixups := Recorded(fragments, at);
        FirstLaid(buf, at, e, fixups);
        var buf1 := LinkFirst(buf, at, e);
        Narrower(buf, buf1, at, next);
        RawAppend(buf, buf1, next, rest, tail);
        LinkLays(buf1, next, rest, tail);
        var out := Linked(buf1, fixups[1..]);
        FragmentKept(buf1, out, at, to, e, |buf|);
        LaidMore(out, at, fragments, tail, |buf|);
        KeptTwice(buf, buf1, out, at, next, to);
      }
    }
  }

  lemma StandsKept(buf: seq<Cell>, out: seq<Cell>, at: nat, to: nat, code: seq<Insn>)
    requires Stands(buf, at, code) && KeptOutside(buf, out, at + |code|, to)
    ensures Stands(out, at, code)
  {
  }

  // ---------------------------------------------------------------- a linked unit runs as its fragments

  /** The code of a unit, fragment after fragment. */
  function Concatenated(fragments: seq<Emitted>): seq<Insn> {
    if fragments == [] then [] else fragments[0].main + Concatenated(fragments[1..])
  }

  lemma {:induction false} ConcatenatedAppend(fragments: seq<Emitted>, e: Emitted)
    ensures Concatenated(fragments + [e]) == Concatenated(fragments) + e.main
    decreases |fragments|
  {
    if fragments != [] {
      assert (fragments + [e])[1..] == fragments[1..] + [e];
      ConcatenatedAppend(fragments[1..], e);
    }
  }

  lemma {:induction false} RecordedAppend(fragments: seq<Emitted>, e: Emitted, at: nat)
    ensures Recorded(fragments + [e], at) == Recorded(fragments, at) + FixupOf(e, at + |Concatenated(fragments)|)
    decreases |fragments|
  {
    hide FixupOf;
    if fragments == [] {
      assert [e][1..] == [];
    } else {
      assert (fragments + [e])[1..] == fragments[1..] + [e];
      RecordedAppend(fragments[1..], e, at + |fragments[0].main|);
    }
  }

  lemma {:induction false} EndPendingAppend(fragments: seq<Emitted>, e: Emitted, pending: Word)
    ensures EndPending(fragments + [e], pending) == e.next.pending
    decreases |fragments|
  {
    if fragments != [] {
      assert (fragments + [e])[1..] == fragments[1..] + [e];
      EndPendingAppend(fragments[1..], e, fragments[0].next.pending);
    }
  }

  lemma {:induction false} RawUnit(before: seq<Cell>, fragments: seq<Emitted>, tail: seq<Cell>)
    ensures Raw(before + Cells(Concatenated(fragments)) + tail, |before|, fragments, tail)
    decreases |fragments|
  {
    var buf := before + Cells(Concatenated(fragments)) + tail;
    if fragments == [] {
      assert buf == before + tail;
    } else {
      var main := fragments[0].main;
      assert buf == (before + Cells(main)) + Cells(Concatenated(fragments[1..])) + tail;
      RawUnit(before + Cells(main), fragments[1..], tail);
    }
  }

  /** Whether a run leaves the unit through an exit block. */
  predicate LeavesUnit(fragments: seq<Emitted>, s: Host) {
    fragments != []
    && match Run(fragments[0].main, s)
       case Leave(_) => true
       case Fall(t) => LeavesUnit(fragments[1..], t)
  }

  lemma TailStands(buf: seq<Cell>, at: nat, pending: Word, inner: bool)
    requires TailLaid(buf, at, Tail(pending, inner))
    ensures var code := FlushPc(pending);
      && Stands(buf, at, code)
      && at + |Tail(pending, inner)| <= |buf|
      && (if inner then buf[at + |code|] == Again && buf[at + |code| + 1] == Ret else buf[at + |code|] == Ret)
  {
    hide FlushPc;
    var code, tail := FlushPc(pending), Tail(pending, inner);
    forall k | 0 <= k < |tail|
      ensures buf[at + k] == tail[k]
    {
      assert buf[at..at + |tail|][k] == tail[k];
    }
  }

  lemma GoTail(buf: seq<Cell>, at: nat, pending: Word, inner: bool, rounds: nat, s: Host)
    requires TailLaid(buf, at, Tail(pending, inner)) && Straight(FlushPc(pending))
    ensures var t := End(FlushPc(pending), s);
      Go(buf, at, rounds, s) == if inner && rounds > 0 then Go(buf, 0, rounds - 1, t) else Some(t)
  {
    hide FlushPc, Step, Run, End, Straight, TailLaid, Stands;
    TailStands(buf, at, pending, inner);
    GoStraight(buf, at, FlushPc(pending), rounds, s);
  }

  /** One fragment: on to the next, or through its exit block to a return. */
  lemma GoOne(buf: seq<Cell>, at: nat, e: Emitted, c: Cpu, live: Mask, leaves: bool, rounds: nat, s: Host)
    requires Correct(e, c, live, leaves, s)
    requires if e.leaves then exists target: nat :: FragmentLaid(buf, at, e, target) else Stands(buf, at, e.main)
    ensures Go(buf, at, rounds, s)
         == match Run(e.main, s)
            case Fall(t) => Go(buf, at + |e.main|, rounds, t)
            case Leave(t) => Some(End(e.exit, t))
  {
    hide Step, Run, End, Represents, InReach, Go, Stands, Aimed;
    if e.leaves {
      var target: nat :| FragmentLaid(buf, at, e, target);
      GoFragment(buf, at, e.main, target, rounds, s);
      if Run(e.main, s).Leave? {
        var t := Run(e.main, s).s;
        GoStraight(buf, target, e.exit, rounds, t);
        GoRet(buf, target + |e.exit|, rounds, End(e.exit, t));
      }
    } else {
      GoStraight(buf, at, e.main, rounds, s);
      StraightFalls(e.main, s);
    }
  }

  lemma GoRet(buf: seq<Cell>, at: nat, rounds: nat, s: Host)
    requires at < |buf| && buf[at] == Ret
    ensures Go(buf, at, rounds, s) == Some(s)
  {
  }

  /** A laid-out unit, entered in any state that represents the guest, runs as its fragments: through an exit
      block, or to its end, from where a unit that loops goes back to its start. */
  lemma {:induction false} GoUnit(buf: seq<Cell>, at: nat, prog: Program, live: Word -> Mask, masks: Word -> Mask, choices: seq<Choice>,
                                  c: Cpu, tr: Tr, inner: bool, rounds: nat, s: Host)
    requires Modelled(prog) && Sound(prog, live, masks)
    requires Represents(c, tr, live(c.pc), s) && tr.ptr == c.pc
    requires var fragments := Translate(prog, masks, choices, tr);
      Laid(buf, at, fragments, Tail(EndPending(fragments, tr.pending), inner))
    ensures var fragments := Translate(prog, masks, choices, tr);
      var t := RunUnit(fragments, tr.pending, s);
      Go(buf, at, rounds, s)
      == if inner && rounds > 0 && !LeavesUnit(fragments, s) then Go(buf, 0, rounds - 1, t) else Some(t)
    decreases |choices|
  {
    hide Exec68, Represents, WellFormed, Flow, Emit, Leaves, Stops, Run, End, Straight, Successor, FlushPc, Go, Tail, FragmentLaid, Stands, TailLaid;
    if choices == [] {
      FlushRepresents(c, tr, live(c.pc), s);
      GoTail(buf, at, tr.pending, inner, rounds, s);
    } else {
      var i := prog(c.pc);
      var e := Emit(i, masks(c.pc), choices[0], tr);
      var c' := Exec68(i, c);
      ExecSuccessor(i, c);
      EmitRefines(i, masks(c.pc), choices[0], c, tr, live(c.pc), live(c'.pc), s);
      var fragments := Translate(prog, masks, choices, tr);
      assert fragments[0] == e;
      GoOne(buf, at, e, c', live(c'.pc), Leaves(i, choices[0], c), rounds, s);
      if Run(e.main, s).Fall? {
        var t := Run(e.main, s).s;
        if Stops(i, choices[0]) {
          assert fragments[1..] == [];
          FlushRepresents(c', e.next, live(c'.pc), t);
          GoTail(buf, at + |e.main|, e.next.pending, inner, rounds, t);
        } else {
          NextIsGuest(i, masks(c.pc), choices[0], c, tr);
          assert fragments[1..] == Translate(prog, masks, choices[1..], e.next);
          GoUnit(buf, at + |e.main|, prog, live, masks, choices[1..], c', e.next, inner, rounds, t);
        }
      }
    }
  }

  /** The buffer M68K_Translate hands over. */
  function LinkedUnit(fragments: seq<Emitted>, pending: Word, inner: bool): seq<Cell> {
    Linked(Cells(Concatenated(fragments)) + Tail(EndPending(fragments, pending), inner), Recorded(fragments, 0))
  }

  predicate BlocksNear(fragments: seq<Emitted>, pending: Word, inner: bool) {
    Near(Recorded(fragments, 0), |Concatenated(fragments)| + |Tail(EndPending(fragments, pending), inner)|)
  }

  lemma CellsLength(code: seq<Insn>)
    ensures |Cells(code)| == |code|
  {
  }

  lemma LinkedUnitLaid(fragments: seq<Emitted>, pending: Word, inner: bool)
    requires BlocksNear(fragments, pending, inner)
    ensures Laid(LinkedUnit(fragments, pending, inner), 0, fragments, Tail(EndPending(fragments, pending), inner))
  {
    hide Cells, Concatenated, Tail, EndPending, Recorded, Raw, Near, Laid, Linked, CodeLength;
    var code, tail := Cells(Concatenated(fragments)), Tail(EndPending(fragments, pending), inner);
    RawUnit([], fragments, tail);
    assert [] + code + tail == code + tail;
    CellsLength(Concatenated(fragments));
    LinkLays(code + tail, 0, fragments, tail);
  }

  // ---------------------------------------------------------------- every branch is in reach

  function BlocksLength(fixups: seq<Fixup>): nat {
    if fixups == [] then 0 else |fixups[0].block| + 1 + BlocksLength(fixups[1..])
  }

  ghost predicate AllBelow(fixups: seq<Fixup>, start: nat) {
    forall f, b :: f in fixups && b in f.branches ==> b.at <= start
  }

  lemma {:induction false} ExitsBelow(code: seq<Insn>, at: nat, b: Branch)
    requires b in Exits(code, at)
    ensures b.at < at + |code|
    decreases |code|
  {
    if b in Exits(code[1..], at + 1) {
      ExitsBelow(code[1..], at + 1, b);
    }
  }

  lemma {:induction false} RecordedBelow(fragments: seq<Emitted>, at: nat)
    ensures AllBelow(Recorded(fragments, at), at + |Concatenated(fragments)|)
    decreases |fragments|
  {
    if fragments != [] {
      var e := fragments[0];
      RecordedBelow(fragments[1..], at + |e.main|);
      forall b | b in Exits(e.main, at)
        ensures b.at < at + |e.main|
      {
        ExitsBelow(e.main, at, b);
      }
    }
  }

  lemma {:induction false} SmallNear(fixups: seq<Fixup>, start: nat)
    requires AllBelow(fixups, start) && start + BlocksLength(fixups) <= 0x2000
    ensures Near(fixups, start)
    decreases |fixups|
  {
    if fixups != [] {
      assert fixups[0] in fixups;
      SmallNear(fixups[1..], start + |fixups[0].block| + 1);
    }
  }

  /** In a unit of at most 0x2000 cells every branch is in reach of its block. */
  lemma SmallUnitNear(fragments: seq<Emitted>, pending: Word, inner: bool)
    requires |Concatenated(fragments)| + |Tail(EndPending(fragments, pending), inner)| + BlocksLength(Recorded(fragments, 0)) <= 0x2000
    ensures BlocksNear(fragments, pending, inner)
  {
    RecordedBelow(fragments, 0);
    SmallNear(Recorded(fragments, 0), |Concatenated(fragments)| + |Tail(EndPending(fragments, pending), inner)|);
  }

  lemma {:induction false} FirstLength(fragments: seq<Emitted>, at: nat)
    requires fragments != []
    ensures var e := fragments[0];
      |Concatenated(fragments)| + BlocksLength(Recorded(fragments, at))
      == CellsOf(e) + |Concatenated(fragments[1..])| + BlocksLength(Recorded(fragments[1..], at + |e.main|))
  {
    RecordedMore(fragments, at);
    hide Exits;
  }

  lemma FirstFragment(prog: Program, masks: Word -> Mask, choices: seq<Choice>, tr: Tr)
    requires choices != []
    ensures var fragments := Translate(prog, masks, choices, tr);
      var e := Emit(prog(tr.ptr), masks(tr.ptr), choices[0], tr);
      && fragments != [] && fragments[0] == e
      && fragments[1..] == if Stops(prog(tr.ptr), choices[0]) then [] else Translate(prog, masks, choices[1..], e.next)
  {
    hide Emit, Stops;
  }

  lemma {:induction false} UnitLength(prog: Program, live: Word -> Mask, masks: Word -> Mask, choices: seq<Choice>, tr: Tr, at: nat)
    requires Sound(prog, live, masks)
    ensures var fragments := Translate(prog, masks, choices, tr);
      |Concatenated(fragments)| + BlocksLength(Recorded(fragments, at)) <= 24 * |choices|
    decreases |choices|
  {
    NothingLong(prog, masks, tr, at);
    hide *;
    if choices != [] {
      var i := prog(tr.ptr);
      var e := Emit(i, masks(tr.ptr), choices[0], tr);
      var fragments := Translate(prog, masks, choices, tr);
      SoundSmall(prog, live, masks, tr.ptr);
      EmitLength(i, masks(tr.ptr), choices[0], tr);
      FirstFragment(prog, masks, choices, tr);
      FirstLength(fragments, at);
      NothingLong(prog, masks, tr, at + |e.main|);
      UnitLength(prog, live, masks, choices[1..], e.next, at + |e.main|);
    }
  }

  lemma NothingLong(prog: Program, masks: Word -> Mask, tr: Tr, at: nat)
    ensures Translate(prog, masks, [], tr) == [] && Concatenated([]) == [] && BlocksLength(Recorded([], at)) == 0
  {
  }

  lemma ShortTail(pending: Word, inner: bool)
    ensures |Tail(pending, inner)| <= 3
  {
    PcLengths(pending, W(0));
    hide FlushPc;
  }

  /** In a unit of at most 256 instructions, the most the translation loop allows, every branch is in reach of
      its block. */
  lemma UnitNear(prog: Program, live: Word -> Mask, masks: Word -> Mask, choices: seq<Choice>, tr: Tr, inner: bool)
    requires Sound(prog, live, masks) && |choices| <= 256
    ensures BlocksNear(Translate(prog, masks, choices, tr), tr.pending, inner)
  {
    hide *;
    var fragments := Translate(prog, masks, choices, tr);
    UnitLength(prog, live, masks, choices, tr, 0);
    ShortTail(EndPending(fragments, tr.pending), inner);
    SmallUnitNear(fragments, tr.pending, inner);
  }

  // ---------------------------------------------------------------- the whole unit

  /** Linking preserves meaning: the finished buffer, run from its first cell, returns in the state that
      `RunUnit` gives for the fragments, and that state represents the guest some whole number of
      instructions later. */
  lemma LinkedUnitRuns(prog: Program, live: Word -> Mask, masks: Word -> Mask, choices: seq<Choice>, c: Cpu, rounds: nat, s: Host)
    requires Modelled(prog) && Sound(prog, live, masks) && Represents(c, Entry(c.pc), live(c.pc), s)
    requires |choices| <= 256
    ensures var fragments := Translate(prog, masks, choices, Entry(c.pc));
      var t := RunUnit(fragments, W(0), s);
      var c' := Steps(prog, UnitSteps(prog, choices, c), c);
      && Go(LinkedUnit(fragments, W(0), false), 0, rounds, s) == Some(t)
      && Represents(c', Entry(c'.pc), live(c'.pc), t)
  {
    var fragments := Translate(prog, masks, choices, Entry(c.pc));
    UnitNear(prog, live, masks, choices, Entry(c.pc), false);
    LinkedUnitLaid(fragments, W(0), false);
    GoUnit(LinkedUnit(fragments, W(0), false), 0, prog, live, masks, choices, c, Entry(c.pc), false, rounds, s);
    UnitRefines(prog, live, masks, choices, c, Entry(c.pc), s);
    hide *;
  }

  // ---------------------------------------------------------------- units that loop

  /** A path back to where it began, with every BRA and BSR on it inlined. */
  predicate Returns(prog: Program, masks: Word -> Mask, choices: seq<Choice>, tr: Tr, start: Word)
    decreases |choices|
  {
    if choices == [] then tr.ptr == start
    else
      var i := prog(tr.ptr);
      var next := Emit(i, masks(tr.ptr), choices[0], tr).next;
      && (i.BRA? || i.BSR? ==> choices[0].inlined)
      && if choices[0].stop then next.ptr == start else Returns(prog, masks, choices[1..], next, start)
  }

  lemma StopsAside(i: Insn68, mask: Mask, choice: Choice, c: Cpu, tr: Tr)
    requires tr.ptr == c.pc && !Leaves(i, choice, c) && (i.BRA? || i.BSR? ==> choice.inlined)
    ensures Emit(i, mask, choice, tr).next.ptr == Exec68(i, c).pc
  {
    var going := choice.(stop := false);
    assert !Leaves(i, going, c) && Emit(i, mask, going, tr) == Emit(i, mask, choice, tr) by {
      hide EmitScc, EmitDbcc, EmitBcc, EmitBra, QuickCode, QuickNext, True68, DbccLeaves;
    }
    hide Emit, Exec68, Leaves;
    NextIsGuest(i, mask, going, c, tr);
  }

  /** If the run does not leave such a path, the guest is back where it began. */
  lemma {:induction false} GuestReturns(prog: Program, live: Word -> Mask, masks: Word -> Mask, choices: seq<Choice>, c: Cpu, tr: Tr, start: Word, s: Host)
    requires Modelled(prog) && Sound(prog, live, masks)
    requires Represents(c, tr, live(c.pc), s) && tr.ptr == c.pc
    requires Returns(prog, masks, choices, tr, start) && !LeavesUnit(Translate(prog, masks, choices, tr), s)
    ensures Steps(prog, UnitSteps(prog, choices, c), c).pc == start
    decreases |choices|
  {
    hide Exec68, Represents, WellFormed, Flow, Emit, Leaves, Run, Successor;
    if choices != [] {
      var i := prog(c.pc);
      var e := Emit(i, masks(c.pc), choices[0], tr);
      var c' := Exec68(i, c);
      ExecSuccessor(i, c);
      EmitRefines(i, masks(c.pc), choices[0], c, tr, live(c.pc), live(c'.pc), s);
      assert Steps(prog, 1, c) == c';
      var fragments := Translate(prog, masks, choices, tr);
      assert fragments[0] == e;
      StopsAside(i, masks(c.pc), choices[0], c, tr);
      if !choices[0].stop {
        assert fragments[1..] == Translate(prog, masks, choices[1..], e.next);
        GuestReturns(prog, live, masks, choices[1..], c', e.next, start, Run(e.main, s).s);
      }
    }
  }

  function Repeat(choices: seq<Choice>, k: nat): seq<seq<Choice>> {
    if k == 0 then [] else [choices] + Repeat(choices, k - 1)
  }

  /** How often the loop is passed: until a run leaves it, or an interrupt is pending at its end. */
  function Passes(prog: Program, masks: Word -> Mask, choices: seq<Choice>, rounds: nat, s: Host): nat {
    var fragments := Translate(prog, masks, choices, Entry(s.Get(PC)));
    if rounds == 0 || LeavesUnit(fragments, s) then 1
    else 1 + Passes(prog, masks, choices, rounds - 1, RunUnit(fragments, W(0), s))
  }

  lemma {:induction false} LaidLoopRuns(buf: seq<Cell>, prog: Program, live: Word -> Mask, masks: Word -> Mask, choices: seq<Choice>,
                                        c: Cpu, rounds: nat, s: Host)
    requires Modelled(prog) && Sound(prog, live, masks) && Represents(c, Entry(c.pc), live(c.pc), s)
    requires Returns(prog, masks, choices, Entry(c.pc), c.pc)
    requires var fragments := Translate(prog, masks, choices, Entry(c.pc));
      Laid(buf, 0, fragments, Tail(EndPending(fragments, W(0)), true))
    ensures Go(buf, 0, rounds, s) == Some(RunUnits(prog, masks, Repeat(choices, Passes(prog, masks, choices, rounds, s)), s))
    decreases rounds
  {
    hide Represents, Modelled, Sound, Translate, RunUnit, LeavesUnit, Laid, Tail, EndPending, Go, Returns, Steps, UnitSteps;
    EntryPtr(c, c.pc, live(c.pc), s);
    var fragments := Translate(prog, masks, choices, Entry(c.pc));
    var t := RunUnit(fragments, W(0), s);
    GoUnit(buf, 0, prog, live, masks, choices, c, Entry(c.pc), true, rounds, s);
    var k := Passes(prog, masks, choices, rounds, s);
    assert Repeat(choices, k)[0] == choices && Repeat(choices, k)[1..] == Repeat(choices, k - 1);
    if rounds > 0 && !LeavesUnit(fragments, s) {
      UnitRefines(prog, live, masks, choices, c, Entry(c.pc), s);
      GuestReturns(prog, live, masks, choices, c, Entry(c.pc), c.pc, s);
      LaidLoopRuns(buf, prog, live, masks, choices, Steps(prog, UnitSteps(prog, choices, c), c), rounds - 1, t);
    }
  }

  /** A unit whose path ends where it began branches back to its own start while no interrupt is pending; that
      is the same as entering the unit again each time, and it too ends in a state that represents the guest. */
  lemma LinkedLoopRuns(prog: Program, live: Word -> Mask, masks: Word -> Mask, choices: seq<Choice>, c: Cpu, rounds: nat, s: Host)
    requires Modelled(prog) && Sound(prog, live, masks) && Represents(c, Entry(c.pc), live(c.pc), s)
    requires Returns(prog, masks, choices, Entry(c.pc), c.pc) && |choices| <= 256
    ensures var plan := Repeat(choices, Passes(prog, masks, choices, rounds, s));
      var t := RunUnits(prog, masks, plan, s);
      var c' := Steps(prog, PlanSteps(prog, plan, c), c);
      && Go(LinkedUnit(Translate(prog, masks, choices, Entry(c.pc)), W(0), true), 0, rounds, s) == Some(t)
      && Represents(c', Entry(c'.pc), live(c'.pc), t)
  {
    var fragments := Translate(prog, masks, choices, Entry(c.pc));
    UnitNear(prog, live, masks, choices, Entry(c.pc), true);
    LinkedUnitLaid(fragments, W(0), true);
    LaidLoopRuns(LinkedUnit(fragments, W(0), true), prog, live, masks, choices, c, rounds, s);
    RunRefines(prog, live, masks, Repeat(choices, Passes(prog, masks, choices, rounds, s)), c, s);
    hide *;
  }
}
