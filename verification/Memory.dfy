/** Byte-addressed memory with little-endian 32-bit words, shared by the parts of the
    kernel that lay records out in raw memory. */
module Memory {
  const WORD := 0x1_0000_0000
  const PAGE := 0x1000

  type byte = b: int | 0 <= b < 256
  type u32 = w: int | 0 <= w < WORD

  // The contents of an address space.
  type Bytes = int -> byte

  function Word(m: Bytes, a: int): u32 {
    m(a) + 0x100 * m(a + 1) + 0x1_0000 * m(a + 2) + 0x100_0000 * m(a + 3)
  }

  // The bytes of a word.
  lemma WordBytes(m: Bytes, a: int)
    ensures var q := Word(m, a) / 0x100; var r := q / 0x100;
      m(a) == Word(m, a) % 0x100 && m(a + 1) == q % 0x100 && m(a + 2) == r % 0x100 && m(a + 3) == r / 0x100
  {
    var r := m(a + 2) + 0x100 * m(a + 3);
    var q := m(a + 1) + 0x100 * r;
    assert Word(m, a) == m(a) + 0x100 * q;
    assert Word(m, a) / 0x100 == q && q / 0x100 == r;
  }

  // The bytes of m from a up to but not including a + n.
  function Span(m: Bytes, a: int, n: nat): (s: seq<byte>)
    ensures |s| == n && forall k :: 0 <= k < n ==> s[k] == m(a + k)
  {
    seq<byte>(n, k => m(a + k))
  }

  // m and m' agree on every byte outside [lo, hi).
  ghost predicate SameOutside(m: Bytes, m': Bytes, lo: int, hi: int) {
    forall x {:trigger m(x)} {:trigger m'(x)} :: x < lo || hi <= x ==> m'(x) == m(x)
  }

  lemma SameOutsideTrans(m0: Bytes, m1: Bytes, m2: Bytes, lo: int, hi: int, lo': int, hi': int, l: int, h: int)
    requires SameOutside(m0, m1, lo, hi) && SameOutside(m1, m2, lo', hi')
    requires l <= lo && l <= lo' && hi <= h && hi' <= h
    ensures SameOutside(m0, m2, l, h)
  {
    forall x | x < l || h <= x ensures m2(x) == m0(x) {
      assert m1(x) == m0(x);
    }
  }

  lemma WordKept(m: Bytes, m': Bytes, lo: int, hi: int, a: int)
    requires SameOutside(m, m', lo, hi) && (a + 4 <= lo || hi <= a)
    ensures Word(m', a) == Word(m, a)
  {
  }

  lemma ZeroWord(m: Bytes, a: int)
    requires forall x :: a <= x < a + 4 ==> m(x) == 0
    ensures Word(m, a) == 0
  {
  }

  class Ram {
    var cells: Bytes

    constructor (m: Bytes)
      ensures cells == m
    {
      cells := m;
    }

    method Poke(a: int, b: byte)
      modifies this
      ensures cells(a) == b
      ensures SameOutside(old(cells), cells, a, a + 1)
    {
      var m := cells;
      cells := x => if x == a then b else m(x);
    }

    // The processor's 32-bit store.
    method PutWord(a: int, v: u32)
      modifies this
      ensures Word(cells, a) == v
      ensures SameOutside(old(cells), cells, a, a + 4)
    {
      var b0, r1 := v % 0x100, v / 0x100;
      var b1, r2 := r1 % 0x100, r1 / 0x100;
      var b2, b3 := r2 % 0x100, r2 / 0x100;
      var m := cells;
      cells := x => if x == a then b0 else if x == a + 1 then b1 else if x == a + 2 then b2 else if x == a + 3 then b3 else m(x);
    }

    method MemSet(dest: int, val: byte, len: nat)
      modifies this
      ensures SameOutside(old(cells), cells, dest, dest + len)
      ensures forall a :: dest <= a < dest + len ==> cells(a) == val
    {
      var temp, left := dest, len;
      while left != 0
        invariant 0 <= left <= len && temp == dest + (len - left)
        invariant SameOutside(old(cells), cells, dest, temp)
        invariant forall a :: dest <= a < temp ==> cells(a) == val
      {
        Poke(temp, val);
        temp, left := temp + 1, left - 1;
      }
    }

    // Copies forwards, byte by byte. Source and destination are apart in every use.
    method MemCpy(dest: int, src: int, len: nat)
      requires src + len <= dest || dest + len <= src
      modifies this
      ensures SameOutside(old(cells), cells, dest, dest + len)
      ensures Span(cells, dest, len) == Span(old(cells), src, len)
    {
      var sp, dp, left := src, dest, len;
      while left != 0
        invariant 0 <= left <= len && sp == src + (len - left) && dp == dest + (len - left)
        invariant SameOutside(old(cells), cells, dest, dp)
        invariant Span(cells, dest, len - left) == Span(old(cells), src, len - left)
      {
        ghost var n, m := len - left, cells;
        Poke(dp, cells(sp));
        assert Span(cells, dest, n + 1) == Span(m, dest, n) + [m(sp)];
        assert Span(old(cells), src, n + 1) == Span(old(cells), src, n) + [old(cells)(sp)];
        sp, dp, left := sp + 1, dp + 1, left - 1;
      }
    }
  }
}
