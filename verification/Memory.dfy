/** Memory as the bytes at number addresses; words and longwords are stored most significant byte first. */
module Memory {

  type Bytes = int -> int

  function ReadHalf(m: Bytes, a: int): int { m(a) * 0x100 + m(a + 1) }

  function ReadLong(m: Bytes, a: int): int { ReadHalf(m, a) * 0x1_0000 + ReadHalf(m, a + 2) }

  function WriteHalf(m: Bytes, a: int, v: int): Bytes {
    q => if q == a then v / 0x100 % 0x100 else if q == a + 1 then v % 0x100 else m(q)
  }

  function WriteLong(m: Bytes, a: int, v: int): Bytes {
    WriteHalf(WriteHalf(m, a, v / 0x1_0000), a + 2, v % 0x1_0000)
  }

  lemma HalfWritten(m: Bytes, a: int, v: int)
    requires 0 <= v < 0x1_0000
    ensures ReadHalf(WriteHalf(m, a, v), a) == v
    ensures forall q :: q < a || a + 2 <= q ==> WriteHalf(m, a, v)(q) == m(q)
  {
  }

  lemma HalfElsewhere(m: Bytes, a: int, v: int, q: int)
    requires q + 2 <= a || a + 2 <= q
    ensures ReadHalf(WriteHalf(m, a, v), q) == ReadHalf(m, q)
  {
  }

  lemma LongWritten(m: Bytes, a: int, v: int)
    requires 0 <= v < 0x1_0000_0000
    ensures ReadLong(WriteLong(m, a, v), a) == v
    ensures forall q :: q < a || a + 4 <= q ==> WriteLong(m, a, v)(q) == m(q)
  {
    var m1 := WriteHalf(m, a, v / 0x1_0000);
    HalfWritten(m, a, v / 0x1_0000);
    HalfWritten(m1, a + 2, v % 0x1_0000);
    HalfElsewhere(m1, a + 2, v % 0x1_0000, a);
    hide ReadHalf, WriteHalf;
  }

  lemma LongElsewhere(m: Bytes, a: int, v: int, q: int)
    requires q + 4 <= a || a + 4 <= q
    ensures ReadLong(WriteLong(m, a, v), q) == ReadLong(m, q)
  {
  }

  /** The most significant byte comes first. */
  lemma LongBytes(m: Bytes, a: int, w: nat, x: nat, y: nat, z: nat)
    requires w < 0x100 && x < 0x100 && y < 0x100 && z < 0x100
    ensures var m' := WriteLong(m, a, 0x100_0000 * w + 0x1_0000 * x + 0x100 * y + z);
      m'(a) == w && m'(a + 1) == x && m'(a + 2) == y && m'(a + 3) == z
  {
    var v := 0x100_0000 * w + 0x1_0000 * x + 0x100 * y + z;
    assert v / 0x1_0000 == 0x100 * w + x && v % 0x1_0000 == 0x100 * y + z;
  }

  lemma LongKept(m: Bytes, m': Bytes, a: int)
    requires forall q :: a <= q < a + 4 ==> m'(q) == m(q)
    ensures ReadLong(m', a) == ReadLong(m, a)
  {
  }
}
