/**
  What the M68000 Family Programmer's Reference Manual says of operands and results, apart from any code: the
  extension words of address register indirect with index and the addresses they stand for (sections 2.2.6
  and 2.2.8 to 2.2.10), and the results and condition codes of ADDQ and SUBQ (section 4).
*/
module Manual {
  import opened Words
  import opened A64
  import opened M68k

  // ---------------------------------------------------------------- extension words

  datatype BdSize = BdReserved | BdNull | BdWord | BdLong
  datatype OdSize = NoIndirection | OdNull | OdWord | OdLong

  /** A full extension word. */
  datatype Ext = Ext(xn: Reg, long: bool, scale: bv8, noBase: bool, noIndex: bool, bd: BdSize, reserved: bool,
                     post: bool, od: OdSize)

  /** Combinations the manual defines. */
  predicate Valid(e: Ext) {
    && !e.reserved && !e.bd.BdReserved?
    && (e.post ==> !e.noIndex && !e.od.NoIndirection?)
    && (e.xn.D? || e.xn.A?)
  }

  function IndexRegister(w: bv16): Reg {
    var n := ((w >> 12) & 7) as nat;
    if w & 0x8000 != 0 then A(n) else D(n)
  }

  function DecodeExt(w: bv16): Ext {
    Ext(IndexRegister(w), w & 0x0800 != 0, ((w >> 9) & 3) as bv8, w & 0x80 != 0, w & 0x40 != 0,
        match (w >> 4) & 3 case 0 => BdReserved case 1 => BdNull case 2 => BdWord case _ => BdLong,
        w & 8 != 0, w & 4 != 0,
        match w & 3 case 0 => NoIndirection case 1 => OdNull case 2 => OdWord case _ => OdLong)
  }

  /** The 16-bit words that follow the opcode. */
  type Stream = nat -> Word

  function BdCount(e: Ext): nat { if e.bd.BdWord? then 1 else if e.bd.BdLong? then 2 else 0 }
  function OdCount(e: Ext): nat { if e.od.OdWord? then 1 else if e.od.OdLong? then 2 else 0 }

  function Pair(hi: Word, lo: Word): Word { Or(ShiftL(hi, 16), lo) }

  function BdValue(e: Ext, words: Stream, k: nat): Word {
    if e.bd.BdWord? then Sext16(words(k)) else if e.bd.BdLong? then Pair(words(k), words(k + 1)) else W(0)
  }

  function OdValue(e: Ext, words: Stream, k: nat): Word {
    if e.od.OdWord? then Sext16(words(k)) else if e.od.OdLong? then Pair(words(k), words(k + 1)) else W(0)
  }

  /** Extension words consumed, the full extension word included. */
  function ExtWords(e: Ext): nat { 1 + BdCount(e) + OdCount(e) }

  // ---------------------------------------------------------------- addresses

  function ScaledIndex(s: Host, xn: Reg, long: bool, scale: bv8): Word {
    ShiftL(if long then s.Get(xn) else Sext16(s.Get(xn)), scale)
  }

  /** Section 2.2.6: (d8, An, Xn.size*scale). */
  function BriefAddress(s: Host, an: Reg, d8: Word, xn: Reg, long: bool, scale: bv8): Word {
    Plus(Plus(s.Get(an), d8), ScaledIndex(s, xn, long, scale))
  }

  /** Sections 2.2.8 to 2.2.10.  k is the position of the first displacement word. */
  function FullAddress(s: Host, an: Reg, e: Ext, words: Stream, k: nat): Word {
    var base := if e.noBase then W(0) else s.Get(an);
    var index := if e.noIndex then W(0) else ScaledIndex(s, e.xn, e.long, e.scale);
    var bd, od := BdValue(e, words, k), OdValue(e, words, k + BdCount(e));
    if e.od.NoIndirection? then Plus(Plus(base, bd), index)
    else if e.post then Plus(Plus(Load(s.mem, Plus(base, bd), Long), index), od)
    else Plus(Load(s.mem, Plus(Plus(base, bd), index), Long), od)
  }

  function ExtensionOf(words: Stream, k: nat): bv16 { (words(k).b & 0xffff) as bv16 }

  predicate IsBrief(w: bv16) { w & 0x0100 == 0 }

  /** The 8-bit displacement of the brief format, sign-extended. */
  function BriefDisplacement(w: bv16): Word { Sext8(W((w & 0xff) as bv32)) }

  function BriefScale(w: bv16): bv8 { ((w >> 9) & 3) as bv8 }

  predicate Mode6Valid(w: bv16) { IsBrief(w) || Valid(DecodeExt(w)) }

  /** Extension words of mode 6. */
  function Mode6Words(w: bv16): nat { if IsBrief(w) then 1 else ExtWords(DecodeExt(w)) }

  function Mode6Address(s: Host, an: Reg, words: Stream, k: nat): Word {
    var w := ExtensionOf(words, k);
    if IsBrief(w) then BriefAddress(s, an, BriefDisplacement(w), IndexRegister(w), w & 0x0800 != 0, BriefScale(w))
    else FullAddress(s, an, DecodeExt(w), words, k + 1)
  }

  /** Every word of the stream has sixteen bits. */
  ghost predicate Halfwords(words: Stream) {
    forall k: nat :: words(k).b < 0x1_0000
  }

  /** A sign-extended 16-bit displacement. */
  predicate IsD16(w: Word) { w.b < 0x8000 || 0xffff_8000 <= w.b }

  // ---------------------------------------------------------------- ADDQ and SUBQ

  datatype QOp = ADDQ | SUBQ

  /** The three-bit data field counts from 1 to 8. */
  predicate IsQuick(q: Word) {
    1 <= q.b <= 8
  }

  function QuickResult(op: QOp, q: Word, d: Word, size: Size): Word {
    if op.ADDQ? then AddResult(q, d, size) else SubResult(q, d, size)
  }

  function QuickCcr(op: QOp, q: Word, d: Word, size: Size): Ccr {
    if op.ADDQ? then AddCcr(q, d, size) else SubCcr(q, d, size)
  }

  /** The sum or difference of the whole registers. */
  function Wide(op: QOp, q: Word, d: Word): Word {
    if op.ADDQ? then Plus(d, q) else Minus(d, q)
  }
}
