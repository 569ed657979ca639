/** The bitset of physical frames of sys/paging.c. */
module Frames {
  import opened Memory
  import opened Options

  // ---------------------------------------------------------------- bits of a word

  // w & (1 << j) != 0
  function Bit(w: nat, j: nat): bool {
    if j == 0 then w % 2 == 1 else Bit(w / 2, j - 1)
  }

  // w | (1 << j)
  function SetBit(w: nat, j: nat): nat {
    if j == 0 then w / 2 * 2 + 1 else SetBit(w / 2, j - 1) * 2 + w % 2
  }

  // w & ~(1 << j)
  function ClearBit(w: nat, j: nat): nat {
    if j == 0 then w / 2 * 2 else ClearBit(w / 2, j - 1) * 2 + w % 2
  }

  function Pow2(n: nat): (p: nat)
    ensures p > 0
  {
    if n == 0 then 1 else 2 * Pow2(n - 1)
  }

  lemma {:induction false} BitOfSetBit(w: nat, i: nat, j: nat)
    ensures Bit(SetBit(w, i), j) <==> i == j || Bit(w, j)
  {
    var v := SetBit(w, i);
    if i == 0 {
      assert v / 2 == w / 2 && v % 2 == 1;
    } else {
      assert v / 2 == SetBit(w / 2, i - 1) && v % 2 == w % 2;
      if j > 0 { BitOfSetBit(w / 2, i - 1, j - 1); }
    }
  }

  lemma {:induction false} BitOfClearBit(w: nat, i: nat, j: nat)
    ensures Bit(ClearBit(w, i), j) <==> i != j && Bit(w, j)
  {
    var v := ClearBit(w, i);
    if i == 0 {
      assert v / 2 == w / 2 && v % 2 == 0;
    } else {
      assert v / 2 == ClearBit(w / 2, i - 1) && v % 2 == w % 2;
      if j > 0 { BitOfClearBit(w / 2, i - 1, j - 1); }
    }
  }

  lemma {:induction false} BitOfSet(w: nat, i: nat, j: nat)
    ensures Bit(SetBit(w, i), j) <==> i == j || Bit(w, j)
    ensures Bit(ClearBit(w, i), j) <==> i != j && Bit(w, j)
  {
    hide Bit, SetBit, ClearBit;
    BitOfSetBit(w, i, j);
    BitOfClearBit(w, i, j);
  }

  lemma {:induction false} SetStaysInside(w: nat, i: nat, n: nat)
    requires w < Pow2(n) && i < n
    ensures SetBit(w, i) < Pow2(n) && ClearBit(w, i) < Pow2(n)
  {
    var half := Pow2(n - 1);
    assert w / 2 < half;
    if i > 0 {
      SetStaysInside(w / 2, i - 1, n - 1);
      assert SetBit(w, i) == SetBit(w / 2, i - 1) * 2 + w % 2;
      assert ClearBit(w, i) == ClearBit(w / 2, i - 1) * 2 + w % 2;
    }
  }

  // A word with all its n bits set is the largest one, and the largest one has them all set.
  lemma {:induction false} AllBitsSet(w: nat, n: nat)
    requires w < Pow2(n) && forall j: nat :: j < n ==> Bit(w, j)
    ensures w == Pow2(n) - 1
  {
    if n > 0 {
      assert Bit(w, 0);
      forall j: nat | j < n - 1 ensures Bit(w / 2, j) { assert Bit(w, j + 1); }
      AllBitsSet(w / 2, n - 1);
    }
  }

  lemma {:induction false} LargestHasBit(n: nat, j: nat)
    requires j < n
    ensures Bit(Pow2(n) - 1, j)
  {
    if j > 0 {
      LargestHasBit(n - 1, j - 1);
      assert (Pow2(n) - 1) / 2 == Pow2(n - 1) - 1;
    }
  }

  lemma {:induction false} NextMultiple(d: nat, p: nat, q: nat)
    ensures p < q ==> d * p + d <= d * q
  {
    if p < q {
      NextMultiple(d, p, q - 1);
      assert d * q == d * (q - 1) + d;
    }
  }

  lemma QuotientIs(x: nat, d: nat, q: nat, r: nat)
    requires x == d * q + r && r < d
    ensures x / d == q
  {
    var p := x / d;
    assert x == d * p + x % d;
    NextMultiple(d, p, q);
    NextMultiple(d, q, p);
  }

  lemma HalveFirst(w: nat, p: nat)
    requires p > 0
    ensures w / 2 / p == w / (2 * p)
  {
    var q, r := w / 2 / p, w / 2 % p;
    assert w / 2 == p * q + r;
    assert 2 * (p * q) == (2 * p) * q;
    QuotientIs(w, 2 * p, q, 2 * r + w % 2);
  }

  // Bits are numbered from the least significant one.
  lemma {:induction false} BitIsDigit(w: nat, j: nat)
    ensures Bit(w, j) <==> w / Pow2(j) % 2 == 1
  {
    if j > 0 {
      BitIsDigit(w / 2, j - 1);
      HalveFirst(w, Pow2(j - 1));
    }
  }

  lemma Pow2Word()
    ensures Pow2(32) == WORD
  {
    assert Pow2(8) == 0x100;
    assert Pow2(16) == 0x1_0000;
    assert Pow2(24) == 0x100_0000;
  }

  // ---------------------------------------------------------------- the bitset

  class FrameSet {
    const words: array<u32>

    // The bitset as initialise_paging means it to be: one bit a frame, all clear.
    constructor (nframes: nat)
      ensures fresh(words) && words.Length == nframes / 32
      ensures Used() == {}
    {
      words := new u32[nframes / 32](_ => 0);
      new;
      forall f | 0 <= f < 32 * words.Length ensures !Bit(words[f / 32], f % 32) {
        NoBit(f % 32);
      }
    }

    function Size(): nat { 32 * words.Length }

    // The frames whose bit is set.
    ghost function Used(): set<nat>
      reads words
    {
      set f: nat | f < Size() && Bit(words[f / 32], f % 32)
    }

    // The bit of frame f is digit f % 32 of word f / 32.
    lemma UsedIsDigit(f: nat)
      ensures f in Used() <==> f < 32 * words.Length && words[f / 32] / Pow2(f % 32) % 2 == 1
    {
      if f < 32 * words.Length { BitIsDigit(words[f / 32], f % 32); }
    }

    ghost predicate Full()
      reads words
    {
      forall f: nat :: f < Size() ==> f in Used()
    }

    method SetFrame(frameAddr: nat)
      requires frameAddr / PAGE < Size()
      modifies words
      ensures Used() == old(Used()) + {frameAddr / PAGE}
    {
      var frame := frameAddr / PAGE;
      var idx, off := frame / 32, frame % 32;
      Pow2Word();
      SetStaysInside(words[idx], off, 32);
      words[idx] := SetBit(words[idx], off);
      forall j | 0 <= j < 32 ensures Bit(words[idx], j) <==> j == off || Bit(old(words[idx]), j) {
        BitOfSet(old(words[idx]), off, j);
      }
    }

    method ClearFrame(frameAddr: nat)
      requires frameAddr / PAGE < Size()
      modifies words
      ensures Used() == old(Used()) - {frameAddr / PAGE}
    {
      var frame := frameAddr / PAGE;
      var idx, off := frame / 32, frame % 32;
      Pow2Word();
      SetStaysInside(words[idx], off, 32);
      words[idx] := ClearBit(words[idx], off);
      forall j | 0 <= j < 32 ensures Bit(words[idx], j) <==> j != off && Bit(old(words[idx]), j) {
        BitOfSet(old(words[idx]), off, j);
      }
    }

    predicate TestFrame(frameAddr: nat)
      requires frameAddr / PAGE < Size()
      reads words
      ensures TestFrame(frameAddr) <==> frameAddr / PAGE in Used()
    {
      var frame := frameAddr / PAGE;
      Bit(words[frame / 32], frame % 32)
    }

    // The inner loop of first_frame: the lowest clear bit of a word that has one.
    method FirstBit(w: u32) returns (j: nat)
      requires w != 0xFFFF_FFFF
      ensures j < 32 && !Bit(w, j) && forall k: nat :: k < j ==> Bit(w, k)
    {
      j := 0;
      while j < 32
        invariant 0 <= j <= 32
        invariant forall k: nat :: k < j ==> Bit(w, k)
      {
        if !Bit(w, j) { return; }
        j := j + 1;
      }
      Pow2Word();
      AllBitsSet(w, 32);
      assert false;
    }

    lemma FullWord(i: nat)
      requires i < words.Length && words[i] == 0xFFFF_FFFF
      ensures forall f: nat :: 32 * i <= f < 32 * i + 32 ==> f in Used()
    {
      Pow2Word();
      forall f: nat | 32 * i <= f < 32 * i + 32 ensures f in Used() {
        assert f / 32 == i;
        LargestHasBit(32, f % 32);
      }
    }

    lemma BitsOfWord(i: nat, j: nat)
      requires i < words.Length && j < 32
      ensures 32 * i + j in Used() <==> Bit(words[i], j)
    {
      assert (32 * i + j) / 32 == i && (32 * i + j) % 32 == j;
    }

    // None stands for falling off the end of first_frame, which returns no value there.
    method FirstFrame() returns (r: Option<nat>)
      ensures r.None? <==> Full()
      ensures r.Some? ==> r.value < Size() && r.value !in Used() && forall f: nat :: f < r.value ==> f in Used()
    {
      hide Used, Bit;
      r := None;
      var i := 0;
      while i < words.Length
        invariant 0 <= i <= words.Length
        invariant forall f: nat :: f < 32 * i ==> f in Used()
      {
        if words[i] != 0xFFFF_FFFF {
          var j := FirstBit(words[i]);
          BitsOfWord(i, j);
          forall f: nat | f < 32 * i + j ensures f in Used() {
            if 32 * i <= f { BitsOfWord(i, f - 32 * i); }
          }
          return Some(i * 4 * 8 + j);
        }
        FullWord(i);
        i := i + 1;
      }
    }
  }

  lemma {:induction false} NoBit(j: nat)
    ensures !Bit(0, j)
  {
    if j > 0 { NoBit(j - 1); }
  }
}
