/**
  The m68k side: condition codes, the sixteen integer conditions (M68000 Family Programmer's
  Reference Manual, section 3.2, tables 3-18 and 3-19) and which flags each condition reads.
  It is written from the manual, except that `Needs` is the translator's own table; NeedsSuffice and
  NeedsAreExact compare that with the conditions.
*/
module M68k {
  import opened Words
  import opened A64

  datatype Ccr = Ccr(x: bool, n: bool, z: bool, v: bool, c: bool)

  /** Masks of flags, in the order of the status register: X N Z V C. */
  type Mask = bv8
  const SR_C: Mask := 1
  const SR_V: Mask := 2
  const SR_Z: Mask := 4
  const SR_N: Mask := 8
  const SR_X: Mask := 16
  const SR_NZVC: Mask := 15
  const SR_CCR: Mask := 31

  /** The register that caches the status register holds C and V exchanged. */
  function CcrOf(cc: Word): Ccr {
    Ccr(cc.b & 16 != 0, cc.b & 8 != 0, cc.b & 4 != 0, cc.b & 1 != 0, cc.b & 2 != 0)
  }

  /** The flags in the mask are equal. */
  predicate Agree(mask: Mask, a: Ccr, b: Ccr) {
    && (mask & 1 != 0 ==> a.c == b.c)
    && (mask & 2 != 0 ==> a.v == b.v)
    && (mask & 4 != 0 ==> a.z == b.z)
    && (mask & 8 != 0 ==> a.n == b.n)
    && (mask & 16 != 0 ==> a.x == b.x)
  }

  /** The sixteen conditions in the order of their numbers. */
  datatype CondCode =
    | M_T | M_F | M_HI | M_LS | M_CC | M_CS | M_NE | M_EQ
    | M_VC | M_VS | M_PL | M_MI | M_GE | M_LT | M_GT | M_LE

  /** Flipping bit 0 of the number (`m68k_condition ^ 1`). */
  function Opposite(cond: CondCode): CondCode {
    match cond
    case M_T => M_F case M_F => M_T
    case M_HI => M_LS case M_LS => M_HI
    case M_CC => M_CS case M_CS => M_CC
    case M_NE => M_EQ case M_EQ => M_NE
    case M_VC => M_VS case M_VS => M_VC
    case M_PL => M_MI case M_MI => M_PL
    case M_GE => M_LT case M_LT => M_GE
    case M_GT => M_LE case M_LE => M_GT
  }

  predicate True68(cond: CondCode, f: Ccr) {
    match cond
    case M_T => true
    case M_F => false
    case M_HI => !f.c && !f.z
    case M_LS => f.c || f.z
    case M_CC => !f.c
    case M_CS => f.c
    case M_NE => !f.z
    case M_EQ => f.z
    case M_VC => !f.v
    case M_VS => f.v
    case M_PL => !f.n
    case M_MI => f.n
    case M_GE => (f.n && f.v) || (!f.n && !f.v)
    case M_LT => (f.n && !f.v) || (!f.n && f.v)
    case M_GT => (f.n && f.v && !f.z) || (!f.n && !f.v && !f.z)
    case M_LE => f.z || (f.n && !f.v) || (!f.n && f.v)
  }

  /** The flags the translator declares a condition to need (the CC table of the Scc/DBcc line and
      the instruction table of the Bcc line hold the same entries). */
  function Needs(cond: CondCode): Mask {
    match cond
    case M_T => 0 case M_F => 0
    case M_HI => 5 case M_LS => 5
    case M_CC => 1 case M_CS => 1
    case M_NE => 4 case M_EQ => 4
    case M_VC => 2 case M_VS => 2
    case M_PL => 8 case M_MI => 8
    case M_GE => 10 case M_LT => 10
    case M_GT => 14 case M_LE => 14
  }

  /** A condition is decided by the flags it declares, and by no fewer: for every declared flag there
      is a pair of flag states differing only there on which the condition differs. */
  lemma NeedsSuffice(cond: CondCode, a: Ccr, b: Ccr)
    requires Agree(Needs(cond), a, b)
    ensures True68(cond, a) == True68(cond, b)
  {
  }

  lemma NeedsAreExact(cond: CondCode, flag: Mask) returns (a: Ccr, b: Ccr)
    requires flag == SR_C || flag == SR_V || flag == SR_Z || flag == SR_N || flag == SR_X
    requires Needs(cond) & flag != 0
    ensures Agree(SR_CCR & !flag, a, b) && True68(cond, a) != True68(cond, b)
  {
    a := Ccr(false, false, false, false, false);
    b := a.(c := flag == SR_C, v := flag == SR_V, z := flag == SR_Z, n := flag == SR_N);
  }

  /** Flipping the low bit of a condition negates it. */
  lemma ConditionPairs(cond: CondCode, f: Ccr)
    ensures True68(Opposite(cond), f) == !True68(cond, f)
  {
  }

  // ---------------------------------------------------------------- sized arithmetic

  function SizeMask(size: Size): bv32 {
    match size
    case Byte => 0xff
    case Half => 0xffff
    case Long => 0xffff_ffff
  }

  function Top(size: Size): bv32 {
    match size
    case Byte => 0x80
    case Half => 0x8000
    case Long => 0x8000_0000
  }

  predicate Msb(w: Word, size: Size) {
    w.b & Top(size) != 0
  }

  function AddResult(s: Word, d: Word, size: Size): Word {
    And(Plus(d, s), W(SizeMask(size)))
  }

  function SubResult(s: Word, d: Word, size: Size): Word {
    And(Minus(d, s), W(SizeMask(size)))
  }

  /** Table 3-18: flags of an addition from the most significant bits of source, destination and result. */
  function AddCcr(s: Word, d: Word, size: Size): Ccr {
    var r := AddResult(s, d, size);
    var sm, dm, rm := Msb(s, size), Msb(d, size), Msb(r, size);
    var carry := (sm && dm) || (!rm && dm) || (sm && !rm);
    Ccr(carry, rm, IsZero(r), (sm && dm && !rm) || (!sm && !dm && rm), carry)
  }

  /** Table 3-18: flags of the subtraction d - s. */
  function SubCcr(s: Word, d: Word, size: Size): Ccr {
    var r := SubResult(s, d, size);
    var sm, dm, rm := Msb(s, size), Msb(d, size), Msb(r, size);
    var borrow := (sm && !dm) || (rm && !dm) || (sm && rm);
    Ccr(borrow, rm, IsZero(r), (!sm && dm && !rm) || (sm && !dm && rm), borrow)
  }

  /** Replace the low part of a register by a sized result. */
  function Merge(w: Word, r: Word, size: Size): Word {
    W((w.b & !SizeMask(size)) | (r.b & SizeMask(size)))
  }
}
