/**
  32-bit words and the operations the interpreters use on them.
  A word is a bit vector in a wrapper, and every operation is a named function: symbolic execution of
  emitted code then works with terms over `Word`, and bit-blasting is left to small lemmas.
*/
module Words {

  datatype Word = W(b: bv32)

  function Sum(x: bv32, y: bv32): bv32 { x + y }
  function Difference(x: bv32, y: bv32): bv32 { x - y }

  function Plus(x: Word, y: Word): Word { W(Sum(x.b, y.b)) }
  function Minus(x: Word, y: Word): Word { W(Difference(x.b, y.b)) }
  function And(x: Word, y: Word): Word { W(x.b & y.b) }
  function Or(x: Word, y: Word): Word { W(x.b | y.b) }
  function Xor(x: Word, y: Word): Word { W(x.b ^ y.b) }
  function Not(x: Word): Word { W(!x.b) }
  function ShiftL(x: Word, k: bv8): Word { W(x.b << (k & 31)) }
  function ShiftR(x: Word, k: bv8): Word { W(x.b >> (k & 31)) }
  function Low12(x: Word): Word { W(x.b & 0xfff) }
  function Low16(x: Word): Word { W(x.b & 0xffff) }

  /** Words with equal bits are equal.  Lemmas about bits state equalities of bits; this one lifts them. */
  lemma SameBits(x: Word, y: Word)
    requires x.b == y.b
    ensures x == y
  {
  }

  // Laws of addition: first on raw bits with one operation unfolded, then lifted with all folded.
  lemma SumOfSums(x: bv32, y: bv32, z: bv32)
    ensures Sum(x + y, z) == Sum(x, y + z)
  {
  }

  lemma SumAssoc(x: bv32, y: bv32, z: bv32)
    ensures Sum(Sum(x, y), z) == Sum(x, Sum(y, z))
  {
    assert Sum(x, y) == x + y;
    assert Sum(y, z) == y + z;
    assert Sum(x + y, z) == Sum(x, y + z) by { SumOfSums(x, y, z); }
  }

  lemma SumCommutes(x: bv32, y: bv32)
    ensures Sum(x, y) == Sum(y, x)
  {
  }

  lemma PlusAssoc(x: Word, y: Word, z: Word)
    ensures Plus(Plus(x, y), z) == Plus(x, Plus(y, z))
  {
    hide Sum;
    SumAssoc(x.b, y.b, z.b);
  }

  lemma PlusCommutes(x: Word, y: Word)
    ensures Plus(x, y) == Plus(y, x)
  {
    hide Sum;
    SumCommutes(x.b, y.b);
  }

  lemma PlusZero(x: Word)
    ensures Plus(x, W(0)) == x && Plus(W(0), x) == x
  {
    assert Plus(x, W(0)).b == x.b && Plus(W(0), x).b == x.b;
  }

  /** The two's complement negation. */
  function Neg(w: Word): Word { W(-w.b) }

  lemma DifferenceBits(x: bv32, y: bv32)
    ensures Difference(x, -y) == Sum(x, y) && Sum(x, -y) == Difference(x, y)
  {
  }

  lemma NegBits(w: Word)
    ensures Neg(w).b == -w.b
  {
  }

  lemma MinusNeg(x: Word, w: Word)
    ensures Minus(x, Neg(w)) == Plus(x, w) && Plus(x, Neg(w)) == Minus(x, w)
  {
    hide Neg, Sum, Difference;
    NegBits(w);
    DifferenceBits(x.b, w.b);
  }

  lemma DifferenceOfSum(x: bv32, y: bv32)
    ensures Difference(x + y, y) == x
  {
  }

  lemma DifferenceUndoes(x: bv32, y: bv32)
    ensures Difference(Sum(x, y), y) == x
  {
    assert Sum(x, y) == x + y;
    assert Difference(x + y, y) == x by { DifferenceOfSum(x, y); }
  }

  /** Subtracting what was added. */
  lemma MinusUndoesPlus(x: Word, y: Word)
    ensures Minus(Plus(x, y), y) == x
  {
    hide Sum, Difference;
    DifferenceUndoes(x.b, y.b);
  }

  lemma SumOfDifference(x: bv32, y: bv32)
    ensures Sum(x - y, y) == x
  {
  }

  lemma SumUndoes(x: bv32, y: bv32)
    ensures Sum(Difference(x, y), y) == x
  {
    assert Difference(x, y) == x - y;
    assert Sum(x - y, y) == x by { SumOfDifference(x, y); }
  }

  /** Sums with the same word are equal only if the other words are. */
  lemma PlusCancels(x: Word, y: Word, z: Word)
    requires Plus(x, y) == Plus(x, z)
    ensures y == z
  {
    PlusCommutes(x, y);
    PlusCommutes(x, z);
    MinusUndoesPlus(y, x);
    MinusUndoesPlus(z, x);
    hide Plus, Minus;
  }

  /** Adding what was subtracted. */
  lemma PlusUndoesMinus(x: Word, y: Word)
    ensures Plus(Minus(x, y), y) == x
  {
    hide Sum, Difference;
    SumUndoes(x.b, y.b);
  }

  lemma ShiftLZero(x: Word)
    ensures ShiftL(x, 0) == x
  {
    assert ShiftL(x, 0).b == x.b;
  }

  lemma OrZero(x: Word)
    ensures Or(x, W(0)) == x && Or(W(0), x) == x
  {
    assert Or(x, W(0)).b == x.b && Or(W(0), x).b == x.b;
  }

  lemma Low16Small(x: Word)
    requires x.b < 0x1_0000
    ensures Low16(x) == x
  {
    assert Low16(x).b == x.b;
  }

  /** Bit i of a word. */
  predicate Bit(x: Word, i: bv8) { (x.b >> (i & 31)) & 1 == 1 }

  predicate IsZero(x: Word) { x.b == 0 }
  predicate Negative(x: Word) { x.b & 0x8000_0000 != 0 }

  /** Carry out of x + y: the unsigned sum needs a 33rd bit. */
  predicate Carry(x: Word, y: Word) { ((x.b as bv33) + (y.b as bv33)) & 0x1_0000_0000 != 0 }

  /** Carry out of x + !y + 1: the unsigned difference x - y does not borrow. */
  predicate NoBorrow(x: Word, y: Word) { ((x.b as bv33) - (y.b as bv33)) & 0x1_0000_0000 == 0 }
  predicate AddOverflow(x: Word, y: Word) { (x.b ^ (x.b + y.b)) & (y.b ^ (x.b + y.b)) & 0x8000_0000 != 0 }
  predicate SubOverflow(x: Word, y: Word) { (x.b ^ y.b) & (x.b ^ (x.b - y.b)) & 0x8000_0000 != 0 }

  function Sext8(x: Word): Word { W(if x.b & 0x80 != 0 then x.b | 0xffff_ff00 else x.b & 0xff) }
  function Sext9(x: Word): Word { W(if x.b & 0x100 != 0 then x.b | 0xffff_fe00 else x.b & 0x1ff) }
  function Sext16(x: Word): Word { W(if x.b & 0x8000 != 0 then x.b | 0xffff_0000 else x.b & 0xffff) }

  /** The sign extension keeps the low bits and lies between the bounds of a signed number of that width. */
  lemma SignExtended8(x: Word)
    ensures Sext8(x).b & 0xff == x.b & 0xff && (Sext8(x).b < 0x80 || 0xffff_ff80 <= Sext8(x).b)
  {
  }

  // The four octets of w ones rotated right by r: bit i of the word is one exactly when
  // (i + r) mod 32 lies below w.
  function Octet0(w: bv8, r: bv8): bv8 {
    (if (0 + r) & 31 < w then 0x01 else 0) | (if (1 + r) & 31 < w then 0x02 else 0) | (if (2 + r) & 31 < w then 0x04 else 0) | (if (3 + r) & 31 < w then 0x08 else 0) |
    (if (4 + r) & 31 < w then 0x10 else 0) | (if (5 + r) & 31 < w then 0x20 else 0) | (if (6 + r) & 31 < w then 0x40 else 0) | (if (7 + r) & 31 < w then 0x80 else 0)
  }

  function Octet1(w: bv8, r: bv8): bv8 {
    (if (8 + r) & 31 < w then 0x01 else 0) | (if (9 + r) & 31 < w then 0x02 else 0) | (if (10 + r) & 31 < w then 0x04 else 0) | (if (11 + r) & 31 < w then 0x08 else 0) |
    (if (12 + r) & 31 < w then 0x10 else 0) | (if (13 + r) & 31 < w then 0x20 else 0) | (if (14 + r) & 31 < w then 0x40 else 0) | (if (15 + r) & 31 < w then 0x80 else 0)
  }

  function Octet2(w: bv8, r: bv8): bv8 {
    (if (16 + r) & 31 < w then 0x01 else 0) | (if (17 + r) & 31 < w then 0x02 else 0) | (if (18 + r) & 31 < w then 0x04 else 0) | (if (19 + r) & 31 < w then 0x08 else 0) |
    (if (20 + r) & 31 < w then 0x10 else 0) | (if (21 + r) & 31 < w then 0x20 else 0) | (if (22 + r) & 31 < w then 0x40 else 0) | (if (23 + r) & 31 < w then 0x80 else 0)
  }

  function Octet3(w: bv8, r: bv8): bv8 {
    (if (24 + r) & 31 < w then 0x01 else 0) | (if (25 + r) & 31 < w then 0x02 else 0) | (if (26 + r) & 31 < w then 0x04 else 0) | (if (27 + r) & 31 < w then 0x08 else 0) |
    (if (28 + r) & 31 < w then 0x10 else 0) | (if (29 + r) & 31 < w then 0x20 else 0) | (if (30 + r) & 31 < w then 0x40 else 0) | (if (31 + r) & 31 < w then 0x80 else 0)
  }

  /** w ones in the low bits of a 32-bit word, rotated right by r. */
  function RotatedOnes(w: bv8, r: bv8): bv32 {
    (Octet0(w, r) as bv32) | ((Octet1(w, r) as bv32) << 8) |
    ((Octet2(w, r) as bv32) << 16) | ((Octet3(w, r) as bv32) << 24)
  }

  lemma Octet0Flip(w: bv8, r: bv8, w': bv8, r': bv8)
    requires 1 <= w <= 31
    requires w' == 32 - w && r' == r - w
    ensures Octet0(w', r') == !Octet0(w, r)
  {
  }

  lemma Octet1Flip(w: bv8, r: bv8, w': bv8, r': bv8)
    requires 1 <= w <= 31
    requires w' == 32 - w && r' == r - w
    ensures Octet1(w', r') == !Octet1(w, r)
  {
  }

  lemma Octet2Flip(w: bv8, r: bv8, w': bv8, r': bv8)
    requires 1 <= w <= 31
    requires w' == 32 - w && r' == r - w
    ensures Octet2(w', r') == !Octet2(w, r)
  {
  }

  lemma Octet3Flip(w: bv8, r: bv8, w': bv8, r': bv8)
    requires 1 <= w <= 31
    requires w' == 32 - w && r' == r - w
    ensures Octet3(w', r') == !Octet3(w, r)
  {
  }

  /** 32-w ones rotated by r-w are exactly the bits that w ones rotated by r leave out. */
  lemma RotatedComplement(w: bv8, r: bv8, w': bv8, r': bv8)
    requires 1 <= w <= 31
    requires w' == 32 - w && r' == r - w
    ensures RotatedOnes(w', r') == !RotatedOnes(w, r)
  {
    hide Octet0, Octet1, Octet2, Octet3;
    Octet0Flip(w, r, w', r');
    Octet1Flip(w, r, w', r');
    Octet2Flip(w, r, w', r');
    Octet3Flip(w, r, w', r');
  }

  /** The 32-bit logical immediate with imms = number of ones - 1 and rotation immr. */
  function LogicalImm(imms: bv8, immr: bv8): Word {
    W(RotatedOnes((imms & 63) + 1, immr))
  }

  /** The fields 32-w-1 and r-w, computed in the encoder's 8-bit arithmetic, name the complement. */
  lemma LogicalComplement(w: bv8, r: bv8)
    requires 1 <= w <= 31
    ensures LogicalImm((32 - w) - 1, r - w) == W(!RotatedOnes(w, r))
  {
    RotatedComplement(w, r, (((32 - w) - 1) & 63) + 1, r - w);
    hide RotatedOnes;
  }

  /** Bit-field move into d: extract a field to the bottom (imms >= immr) or insert the bottom field. */
  function BfmValue(d: Word, x: Word, immr: bv8, imms: bv8): Word {
    if imms >= immr then
      var mask := RotatedOnes(imms - immr + 1, 0);
      W((d.b & !mask) | (ShiftR(x, immr).b & mask))
    else
      var mask := RotatedOnes(imms + 1, immr);
      W((d.b & !mask) | (ShiftL(x, 32 - immr).b & mask))
  }
}
