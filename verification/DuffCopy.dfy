/**
  Duff's device against a plain copy (emu68/include/DuffCopy.h): an unrolled loop of eight copies, entered
  in the middle.  Counts are 32-bit; memory is a function of word addresses, which source and target share.
*/
module DuffCopy {

  type Words32 = int -> int

  function Put(m: Words32, a: int, w: int): Words32 {
    q => if q == a then w else m(q)
  }

  /** n words copied one after another, upwards. */
  function Copy(m: Words32, to: int, from: int, n: nat): Words32
    decreases n
  {
    if n == 0 then m else Copy(Put(m, to, m(from)), to + 1, from + 1, n - 1)
  }

  lemma {:induction false} CopyAdds(m: Words32, to: int, from: int, j: nat, k: nat)
    ensures Copy(m, to, from, j + k) == Copy(Copy(m, to, from, j), to + j, from + j, k)
    decreases j
  {
    if j > 0 {
      CopyAdds(Put(m, to, m(from)), to + 1, from + 1, j - 1, k);
    }
  }

  /** Rounds of the loop: the counter wraps around 32 bits, and is tested after it is decremented. */
  function Rounds(count: nat): (n: nat)
    ensures n >= 1
  {
    var n := ((count + 7) % 0x1_0000_0000) / 8;
    if n == 0 then 0x1_0000_0000 else n
  }

  /** Words copied in the first round, which the switch enters in the middle. */
  function FirstRound(count: nat): (n: nat)
    ensures 1 <= n <= 8
  {
    if count % 8 == 0 then 8 else count % 8
  }

  function Copied(count: nat): nat {
    8 * (Rounds(count) - 1) + FirstRound(count)
  }

  class Memory {
    var words: Words32

    /** `*to++ = *from++`, unless the label entered lies below it. */
    method CopyOne(entered: bool, to: int, from: int) returns (to': int, from': int)
      modifies this
      ensures if entered then words == Put(old(words), to, old(words)(from)) && to' == to + 1 && from' == from + 1
              else words == old(words) && to' == to && from' == from
    {
      to', from' := to, from;
      if entered {
        words := Put(words, to, words(from));
        to', from' := to + 1, from + 1;
      }
    }

    /** The body of the device from the label for k down to the end. */
    method Body(k: nat, to: int, from: int) returns (to': int, from': int)
      requires 1 <= k <= 8
      modifies this
      ensures words == Copy(old(words), to, from, k) && to' == to + k && from' == from + k
    {
      ghost var goal := Copy(words, to, from, k);
      to', from' := CopyOne(k >= 8, to, from);
      assert goal == Copy(words, to', from', if k > 7 then 7 else k);
      to', from' := CopyOne(k >= 7, to', from');
      assert goal == Copy(words, to', from', if k > 6 then 6 else k);
      to', from' := CopyOne(k >= 6, to', from');
      assert goal == Copy(words, to', from', if k > 5 then 5 else k);
      to', from' := CopyOne(k >= 5, to', from');
      assert goal == Copy(words, to', from', if k > 4 then 4 else k);
      to', from' := CopyOne(k >= 4, to', from');
      assert goal == Copy(words, to', from', if k > 3 then 3 else k);
      to', from' := CopyOne(k >= 3, to', from');
      assert goal == Copy(words, to', from', if k > 2 then 2 else k);
      to', from' := CopyOne(k >= 2, to', from');
      assert goal == Copy(words, to', from', 1);
      to', from' := CopyOne(true, to', from');
    }

    /** DuffCopy: the first round enters at count mod 8, the following ones copy eight words each. */
    method DuffCopy(to: int, from: int, count: nat)
      requires count < 0x1_0000_0000
      modifies this
      ensures words == Copy(old(words), to, from, Copied(count))
    {
      hide Copy, Rounds;
      var n := ((count + 7) % 0x1_0000_0000) / 8;
      CopyAdds(words, to, from, FirstRound(count), 8 * (Rounds(count) - 1));
      var p, q := Body(if count % 8 == 0 then 8 else count % 8, to, from);
      n := (n + 0xffff_ffff) % 0x1_0000_0000;
      RoundsLeft(count);
      while n != 0
        invariant n >= 0
        invariant Copy(words, p, q, 8 * n) == Copy(old(words), to, from, Copied(count))
      {
        CopyAdds(words, p, q, 8, 8 * (n - 1));
        p, q := Body(8, p, q);
        n := n - 1;
      }
      CopyNone(words, p, q);
    }
  }

  lemma CopyNone(m: Words32, to: int, from: int)
    ensures Copy(m, to, from, 0) == m
  {
  }

  /** One from the counter of rounds, in 32-bit arithmetic. */
  lemma RoundsLeft(count: nat)
    ensures (((count + 7) % 0x1_0000_0000) / 8 + 0xffff_ffff) % 0x1_0000_0000 == Rounds(count) - 1
  {
  }

  /** The device copies exactly `count` words if and only if the count is at least 1 and rounding it up to a
      multiple of eight does not overflow; for 0 it copies 2^35 words. */
  lemma CopiedIsCountIff(count: nat)
    requires count < 0x1_0000_0000
    ensures Copied(count) == count <==> 1 <= count <= 0xffff_fff8
    ensures Copied(0) == 0x8_0000_0000
  {
  }

  /** What a copy leaves, when source and target do not overlap: the target is the old source, and every
      other word is as it was. */
  lemma {:induction false} CopyMoves(m: Words32, to: int, from: int, n: nat, a: int)
    requires to + n <= from || from + n <= to
    ensures Copy(m, to, from, n)(a) == if to <= a < to + n then m(from + (a - to)) else m(a)
    decreases n
  {
    if n > 0 {
      var m' := Put(m, to, m(from));
      CopyMoves(m', to + 1, from + 1, n - 1, a);
    }
  }
}
