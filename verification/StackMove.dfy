/** move_stack of sys/task.c: a live stack is copied elsewhere and every word that looks
    like an address in it is made to point into the copy. */
module StackMove {
  import opened Memory

  // Where the stack was and where it goes: [esp, top) moves to end at start. Stack words
  // lie at multiples of four below top, and so do the copies below start.
  datatype Move = Move(esp: u32, top: u32, start: u32, size: u32) {
    ghost predicate Valid() {
      && esp <= top && (top - esp) % 4 == 0
      && start % 4 == 0 && size % 4 == 0 && size <= start && start + 4 <= WORD
      && top - esp <= start
      // The two stacks do not overlap.
      && (top <= start - (top - esp) || start + 4 <= esp)
    }

    function Length(): int { top - esp }
    function Delta(): int { start - top }
    function NewEsp(): int { start - Length() }

    // A word that move_stack takes for a saved frame pointer.
    predicate Looks(w: u32) { esp < w < top }

    // What becomes of word w at address a of the new stack; the loop stops size bytes
    // below start.
    function Relocated(a: int, w: u32): u32 {
      if start - size < a && Looks(w) then (w + Delta()) % WORD else w
    }

    // e is the address of a word inside the old stack, strictly above its end.
    ghost predicate Inside(e: int) {
      esp < e && e + 4 <= top && (top - e) % 4 == 0
    }
  }

  // The word that ends j words below an end of a stack.
  function Nth(m: Bytes, end: int, j: nat): u32 { Word(m, end - 4 * j) }

  // Every word of the new stack is the old one, relocated at most once.
  ghost predicate WordsMoved(v: Move, m: Bytes, m': Bytes) {
    forall j: nat :: 0 < 4 * j <= v.Length() ==> Nth(m', v.start, j) == v.Relocated(v.start - 4 * j, Nth(m, v.top, j))
  }

  lemma WrapOnce(x: int)
    ensures 0 <= x < WORD ==> x % WORD == x && (x + WORD) % WORD == x
    ensures -WORD <= x < 0 ==> x % WORD == x + WORD
  {
  }

  // 32-bit wraparound does not show: a moved address is inside the new stack.
  lemma MovedAddress(v: Move, w: u32)
    requires v.Valid() && v.esp <= w <= v.top
    ensures (w + (v.start - v.top) % WORD) % WORD == w + v.Delta() == (w + v.Delta()) % WORD
    ensures v.NewEsp() <= w + v.Delta() <= v.start
  {
    WrapOnce(v.start - v.top);
    WrapOnce(w + v.Delta());
  }

  lemma AddOffset(w: u32, a: u32, b: u32)
    ensures (w + (a - b) % WORD) % WORD == (w + a - b) % WORD
    ensures 0 <= w + a - b < WORD ==> (w + (a - b) % WORD) % WORD == w + a - b
  {
    WrapOnce(a - b);
    WrapOnce(w + a - b);
  }

  // The pointer arithmetic at the head of move_stack.
  method Rebase(v: Move, oldEbp: u32) returns (offset: u32, newEsp: u32, newEbp: u32)
    requires v.Valid()
    ensures offset == (v.start - v.top) % WORD && newEsp == v.start - (v.top - v.esp)
    ensures newEbp == (oldEbp + v.start - v.top) % WORD
  {
    var from, to := v.top, v.start;
    offset := (to - from) % WORD;
    AddOffset(v.esp, to, from);
    AddOffset(oldEbp, to, from);
    newEsp := (v.esp + offset) % WORD;
    newEbp := (oldEbp + offset) % WORD;
  }

  method MoveStack(ram: Ram, v: Move, oldEbp: u32) returns (newEsp: u32, newEbp: u32)
    requires v.Valid()
    modifies ram
    ensures newEsp == v.start - (v.top - v.esp) && newEbp == (oldEbp + v.start - v.top) % WORD
    ensures WordsMoved(v, old(ram.cells), ram.cells)
    // A copied word less than size bytes below start that held an address inside the old
    // stack, whatever its alignment, holds the address as far from start; others are copied.
    ensures forall a :: v.start - (v.top - v.esp) <= a < v.start && (v.start - a) % 4 == 0 ==>
      var w := Word(old(ram.cells), a + v.top - v.start);
      Word(ram.cells, a) == if v.start - v.size < a && v.esp < w < v.top then w + v.start - v.top else w
    ensures SameOutside(old(ram.cells), ram.cells, v.start - if v.top - v.esp < v.size then v.size else v.top - v.esp, v.start + 4)
  {
    hide Word, WordsMoved, SameOutside;
    var offset;
    offset, newEsp, newEbp := Rebase(v, oldEbp);
    CopyAndRemap(ram, v, offset, newEsp);
    MovedByAddress(v, old(ram.cells), ram.cells);
  }

  method CopyAndRemap(ram: Ram, v: Move, offset: u32, newEsp: u32)
    requires v.Valid() && offset == (v.start - v.top) % WORD && newEsp == v.NewEsp()
    modifies ram
    ensures WordsMoved(v, old(ram.cells), ram.cells)
    ensures SameOutside(old(ram.cells), ram.cells, v.start - if v.top - v.esp < v.size then v.size else v.top - v.esp, v.start + 4)
  {
    hide Word, Nth, WordsMoved, SameOutside, Span;
    ghost var m0 := ram.cells;
    ram.MemCpy(newEsp, v.esp, v.top - v.esp);
    ghost var m1 := ram.cells;
    CopiedWords(v, m0, m1);
    Remap(ram, v, offset);
    MovedOnce(v, m0, m1, ram.cells);
    // What is written begins with the words copied, or with those the loop visits.
    ghost var lowest := v.start - if v.top - v.esp < v.size then v.size else v.top - v.esp;
    SameOutsideTrans(m0, m1, ram.cells, v.NewEsp(), v.start, v.start - v.size, v.start + 4, lowest, v.start + 4);
  }

  // The loop that makes the copied words point into the copy. It starts one word above the
  // copy and visits each word once.
  method Remap(ram: Ram, v: Move, offset: u32)
    requires v.Valid() && offset == (v.start - v.top) % WORD
    modifies ram
    ensures SameOutside(old(ram.cells), ram.cells, v.start - v.size, v.start + 4)
    ensures forall j: nat :: 4 * j <= v.start ==>
      Nth(ram.cells, v.start, j) == v.Relocated(v.start - 4 * j, Nth(old(ram.cells), v.start, j))
    ensures forall a :: v.start - v.size < a <= v.start && (v.start - a) % 4 == 0 ==>
      var w := Word(old(ram.cells), a);
      Word(ram.cells, a) == if v.esp < w < v.top then w + v.start - v.top else w
  {
    hide Word;
    ghost var m1 := ram.cells;
    var i: int := v.start;
    ghost var r := 0;
    while i > v.start - v.size
      invariant i == v.start - 4 * r && 0 <= 4 * r <= v.size
      invariant SameOutside(m1, ram.cells, i + 4, v.start + 4)
      invariant forall j: nat :: j < r ==> Nth(ram.cells, v.start, j) == v.Relocated(v.start - 4 * j, Nth(m1, v.start, j))
      decreases i
    {
      ghost var m := ram.cells;
      WordKept(m1, m, i + 4, v.start + 4, i);
      RemapWord(ram, v, offset, i);
      KeptAbove(m, ram.cells, v.start, r);
      SameOutsideTrans(m1, m, ram.cells, i + 4, v.start + 4, i, i + 4, i, v.start + 4);
      i := i - 4;
      r := r + 1;
    }
    KeptBelow(m1, ram.cells, v.start, r);
    RemappedByAddress(v, m1, ram.cells);
  }

  // The body of the loop.
  method RemapWord(ram: Ram, v: Move, offset: u32, i: int)
    requires v.Valid() && offset == (v.start - v.top) % WORD
    modifies ram
    ensures SameOutside(old(ram.cells), ram.cells, i, i + 4)
    ensures var w := old(Word(ram.cells, i)); Word(ram.cells, i) == if v.Looks(w) then (w + v.Delta()) % WORD else w
  {
    hide Word;
    var tmp := Word(ram.cells, i);
    if v.esp < tmp && tmp < v.top {
      MovedAddress(v, tmp);
      tmp := (tmp + offset) % WORD;
      ram.PutWord(i, tmp);
    }
  }

  lemma CopiedWords(v: Move, m: Bytes, m': Bytes)
    requires v.Valid() && Span(m', v.NewEsp(), v.Length()) == Span(m, v.esp, v.Length())
    ensures forall j: nat :: 0 < 4 * j <= v.Length() ==> Nth(m', v.start, j) == Nth(m, v.top, j)
  {
    forall j: nat | 0 < 4 * j <= v.Length() ensures Nth(m', v.start, j) == Nth(m, v.top, j) {
      var n := v.Length();
      CopiedByte(v, m, m', n - 4 * j);
      CopiedByte(v, m, m', n - 4 * j + 1);
      CopiedByte(v, m, m', n - 4 * j + 2);
      CopiedByte(v, m, m', n - 4 * j + 3);
    }
  }

  lemma CopiedByte(v: Move, m: Bytes, m': Bytes, k: nat)
    requires v.Valid() && Span(m', v.NewEsp(), v.Length()) == Span(m, v.esp, v.Length()) && k < v.Length()
    ensures m'(v.NewEsp() + k) == m(v.esp + k)
  {
    assert Span(m', v.NewEsp(), v.Length())[k] == Span(m, v.esp, v.Length())[k];
  }

  lemma MovedOnce(v: Move, m0: Bytes, m1: Bytes, m2: Bytes)
    requires v.Valid()
    requires forall j: nat :: 0 < 4 * j <= v.Length() ==> Nth(m1, v.start, j) == Nth(m0, v.top, j)
    requires forall j: nat :: 4 * j <= v.start ==> Nth(m2, v.start, j) == v.Relocated(v.start - 4 * j, Nth(m1, v.start, j))
    ensures WordsMoved(v, m0, m2)
  {
    hide Nth;
  }

  lemma NthByAddress(m: Bytes, end: int, a: int)
    requires a <= end && (end - a) % 4 == 0
    ensures Word(m, a) == Nth(m, end, (end - a) / 4)
  {
    hide Word;
    assert end - 4 * ((end - a) / 4) == a;
  }

  lemma MovedByAddress(v: Move, m: Bytes, m': Bytes)
    requires v.Valid() && WordsMoved(v, m, m')
    ensures forall a :: v.start - (v.top - v.esp) <= a < v.start && (v.start - a) % 4 == 0 ==>
      var w := Word(m, a + v.top - v.start);
      Word(m', a) == if v.start - v.size < a && v.esp < w < v.top then w + v.start - v.top else w
  {
    hide Word, Nth;
    forall a | v.start - (v.top - v.esp) <= a < v.start && (v.start - a) % 4 == 0
      ensures var w := Word(m, a + v.top - v.start);
        Word(m', a) == if v.start - v.size < a && v.esp < w < v.top then w + v.start - v.top else w
    {
      var j, b := (v.start - a) / 4, a + v.top - v.start;
      NthByAddress(m', v.start, a);
      NthByAddress(m, v.top, b);
      assert Nth(m', v.start, j) == v.Relocated(v.start - 4 * j, Nth(m, v.top, j));
      if v.esp <= Word(m, b) <= v.top { MovedAddress(v, Word(m, b)); }
    }
  }

  lemma RemappedByAddress(v: Move, m: Bytes, m': Bytes)
    requires v.Valid()
    requires forall j: nat :: 4 * j <= v.start ==> Nth(m', v.start, j) == v.Relocated(v.start - 4 * j, Nth(m, v.start, j))
    ensures forall a :: v.start - v.size < a <= v.start && (v.start - a) % 4 == 0 ==>
      var w := Word(m, a); Word(m', a) == if v.esp < w < v.top then w + v.start - v.top else w
  {
    hide Word, Nth;
    forall a | v.start - v.size < a <= v.start && (v.start - a) % 4 == 0
      ensures var w := Word(m, a); Word(m', a) == if v.esp < w < v.top then w + v.start - v.top else w
    {
      var j := (v.start - a) / 4;
      NthByAddress(m', v.start, a);
      NthByAddress(m, v.start, a);
      assert Nth(m', v.start, j) == v.Relocated(v.start - 4 * j, Nth(m, v.start, j));
      if v.esp <= Word(m, a) <= v.top { MovedAddress(v, Word(m, a)); }
    }
  }

  // A write of word r leaves the words above it alone; the words below i were never written.
  lemma KeptAbove(m: Bytes, m': Bytes, end: int, r: nat)
    requires SameOutside(m, m', end - 4 * r, end - 4 * r + 4)
    ensures forall j: nat :: j < r ==> Nth(m', end, j) == Nth(m, end, j)
  {
  }

  lemma KeptBelow(m: Bytes, m': Bytes, end: int, r: nat)
    requires SameOutside(m, m', end - 4 * r + 4, end + 4)
    ensures forall j: nat :: j >= r ==> Nth(m', end, j) == Nth(m, end, j)
  {
  }

  // The frame pointers found by following n links from e.
  ghost function Follow(m: Bytes, e: int, n: nat): (es: seq<int>)
    ensures |es| == n + 1 && es[0] == e
    decreases n
  {
    if n == 0 then [e] else [e] + Follow(m, Word(m, e), n - 1)
  }

  // m' holds the moved stack, and all of it is within reach of the loop.
  ghost predicate Moved(v: Move, m: Bytes, m': Bytes) {
    v.Valid() && v.Length() < v.size && WordsMoved(v, m, m')
  }

  // A pointer into the live stack, aligned or not, that is stored in the live stack points as
  // far below the new stack's end when it is read there; any other word is read as it was.
  lemma MovedWord(v: Move, m: Bytes, m': Bytes, e: int)
    requires Moved(v, m, m') && v.esp <= e < v.top && (v.top - e) % 4 == 0
    ensures var q := Word(m, e);
      Word(m', e + v.start - v.top) == if v.esp < q < v.top then q + v.start - v.top else q
  {
    hide Word, WordsMoved;
    MovedByAddress(v, m, m');
    assert e + v.start - v.top + v.top - v.start == e;
  }

  // A backtrace on the new stack visits the old one's frames, each moved by the same
  // distance, however long it is.
  lemma {:induction false} ChainMoves(v: Move, m: Bytes, m': Bytes, e: int, n: nat)
    requires Moved(v, m, m') && forall f :: f in Follow(m, e, n) ==> v.Inside(f)
    ensures forall k :: 0 <= k <= n ==> Follow(m', e + v.start - v.top, n)[k] == Follow(m, e, n)[k] + v.start - v.top
    decreases n
  {
    hide Word;
    if n > 0 {
      var next := Word(m, e);
      var es := Follow(m, e, n);
      assert es[0] in es && es[1] in es && es[1] == next;
      MovedWord(v, m, m', e);
      forall f | f in Follow(m, next, n - 1) ensures v.Inside(f) {
        assert f in es;
      }
      ChainMoves(v, m, m', next, n - 1);
    }
  }

  // Where the chain leaves the stack it ends with the same word as before.
  lemma ChainEnds(v: Move, m: Bytes, m': Bytes, e: int)
    requires Moved(v, m, m') && v.Inside(e)
    ensures Word(m', e + v.start - v.top) == Word(m, e) <==> !(v.esp < Word(m, e) < v.top) || v.start == v.top
  {
    MovedWord(v, m, m', e);
  }
}
