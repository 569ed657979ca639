/** Heaps on which the committed code does not do what it is meant to do: every tiling is the
    layout of some memory, and some are reached from a new heap by alloc and free. */
module HeapWitnesses {
  import opened Memory
  import opened Options
  import opened OrderedArrays
  import opened HeapLayout
  import opened HeapSteps
  import opened HeapSpec
  import opened KernelHeap
  import HeapRuns

  // ---------------------------------------------------------------- laying a tiling out in memory

  lemma PutWordIn(m: Bytes, a: int, v: u32) returns (m': Bytes)
    ensures Word(m', a) == v && SameOutside(m, m', a, a + 4)
  {
    var b0, r1 := v % 0x100, v / 0x100;
    var b1, r2 := r1 % 0x100, r1 / 0x100;
    var b2, b3 := r2 % 0x100, r2 / 0x100;
    m' := x => if x == a then b0 else if x == a + 1 then b1 else if x == a + 2 then b2 else if x == a + 3 then b3 else m(x);
  }

  lemma PutByteIn(m: Bytes, a: int, v: byte) returns (m': Bytes)
    ensures m'(a) == v && SameOutside(m, m', a, a + 1)
  {
    m' := x => if x == a then v else m(x);
  }

  lemma LayHeader(m: Bytes, c: Chunk) returns (m': Bytes)
    requires 0 <= c.size < WORD
    ensures HeaderAt(m', c) && SameOutside(m, m', c.addr, c.addr + HEADER_SIZE)
  {
    hide Word;
    var m1 := PutWordIn(m, c.addr, HEAP_MAGIC);
    var m2 := PutByteIn(m1, c.addr + 4, if c.hole then 1 else 0);
    m' := PutWordIn(m2, c.addr + 8, c.size);
    WordKept(m1, m2, c.addr + 4, c.addr + 5, c.addr);
    WordKept(m2, m', c.addr + 8, c.addr + 12, c.addr);
  }

  lemma LayChunk(m: Bytes, c: Chunk) returns (m': Bytes)
    requires OVERHEAD <= c.size < WORD && 0 <= c.addr < WORD
    ensures HeaderAt(m', c) && FooterAt(m', c) && SameOutside(m, m', c.addr, c.End())
  {
    hide Word, HeaderAt;
    var at := c.End() - FOOTER_SIZE;
    var m1 := LayHeader(m, c);
    var m2 := PutWordIn(m1, at, HEAP_MAGIC);
    m' := PutWordIn(m2, at + 4, c.addr);
    WordKept(m2, m', at + 4, at + 8, at);
    HeaderKept(m1, m2, at, at + 4, c);
    HeaderKept(m2, m', at + 4, at + 8, c);
  }

  lemma {:induction false} LayAll(cs: seq<Chunk>, lo: int, hi: int) returns (m: Bytes)
    requires Tiles(cs, lo, hi) && 0 <= lo && hi < WORD
    ensures forall k :: 0 <= k < |cs| ==> HeaderAt(m, cs[k]) && FooterAt(m, cs[k])
    ensures forall x :: x < lo || hi <= x ==> m(x) == 0
  {
    hide HeaderAt, FooterAt;
    if cs == [] {
      m := x => 0;
    } else {
      var n := |cs| - 1;
      var init, c := cs[..n], cs[n];
      TilesWithin(cs, lo, hi, n);
      assert n > 0 ==> cs[n - 1].End() == c.addr;
      var m0 := LayAll(init, lo, c.addr);
      m := LayChunk(m0, c);
      forall k | 0 <= k < n ensures HeaderAt(m, cs[k]) && FooterAt(m, cs[k]) {
        assert init[k] == cs[k];
        TilesOrdered(cs, lo, hi, k, n);
        HeaderKept(m0, m, c.addr, c.End(), cs[k]);
        FooterKept(m0, m, c.addr, c.End(), cs[k]);
      }
    }
  }

  // Every tiling without adjacent holes is the layout of some heap, in which nothing past
  // the end reads as a hole.
  lemma EveryTilingArises(cs: seq<Chunk>, lo: int, hi: int, max: int, index: seq<u32>) returns (s: HeapState)
    requires Tiles(cs, lo, hi) && FOOTER_SIZE <= lo < hi < WORD && NoAdjacentHoles(cs) && Indexed(index, cs)
    ensures Layout(s, cs) && s == HeapState(s.mem, lo, hi, max, index) && !StaleHole(s.mem, hi)
    ensures forall k :: 0 <= k < |cs| ==> SizeAt(s.mem, cs[k].addr) == cs[k].size
  {
    var m := LayAll(cs, lo, hi);
    s := HeapState(m, lo, hi, max, index);
    ZeroWord(m, lo - FOOTER_SIZE);
    ZeroWord(m, hi);
    forall k | 0 <= k < |cs| ensures RecordedAt(m, cs, k) {}
  }

  // ---------------------------------------------------------------- heaps on which free goes astray

  // A block, a hole, and two blocks: freeing the first leaves the hole's footer pointing
  // into the joined hole, unless free writes it.
  lemma FreeCanMissFooter(start: int) returns (s: HeapState, cs: seq<Chunk>, p: int)
    requires FOOTER_SIZE <= start && start + HEAP_MIN_SIZE + 120 < WORD
    ensures Layout(s, cs) && Bounds(s) && p in LivePtrs(cs)
    ensures !FreeOk(false, s.start, cs, BlockOf(cs, p)) && FreeOk(true, s.start, cs, BlockOf(cs, p))
  {
    cs := [Chunk(start, 40, false), Chunk(start + 40, 40, true), Chunk(start + 80, HEAP_MIN_SIZE, false)];
    HolesConcat(cs[..1], cs[1..]);
    assert cs == cs[..1] + cs[1..];
    assert cs[1].addr in HoleAddrs(cs);
    var end := start + HEAP_MIN_SIZE + 80;
    s := EveryTilingArises(cs, start, end, end, [start + 40]);
    p := start + HEADER_SIZE;
    assert cs[0].addr + HEADER_SIZE == p;
  }

  // A last block above the HEAP_MIN_SIZE mark: freeing it trims it away, whatever free
  // writes.
  lemma FreeCanTrimItself(start: int, far: bool) returns (s: HeapState, cs: seq<Chunk>, p: int)
    requires FOOTER_SIZE <= start && start + HEAP_MIN_SIZE + 40 < WORD
    ensures Layout(s, cs) && Bounds(s) && p in LivePtrs(cs) && !FreeOk(far, s.start, cs, BlockOf(cs, p))
    ensures !StaleHole(s.mem, s.end)
  {
    cs := [Chunk(start, HEAP_MIN_SIZE, false), Chunk(start + HEAP_MIN_SIZE, 40, false)];
    var end := start + HEAP_MIN_SIZE + 40;
    s := EveryTilingArises(cs, start, end, end, []);
    p := start + HEAP_MIN_SIZE + HEADER_SIZE;
    assert cs[1].addr + HEADER_SIZE == p;
  }

  // Listed holes of 40 and 100 bytes, and a block of 100 bytes right behind the first:
  // freeing it is right in every other respect but leaves 140 listed before 100.
  lemma FreeCanLoseOrder(start: int, far: bool) returns (s: HeapState, cs: seq<Chunk>, p: int)
    requires FOOTER_SIZE <= start && start + HEAP_MIN_SIZE + 280 < WORD
    ensures Layout(s, cs) && Bounds(s) && SortedBySize(s)
    ensures p in LivePtrs(cs) && FreeOk(far, s.start, cs, BlockOf(cs, p))
    ensures forall t, ds :: FreeStep(far, s, cs, p, t, ds) ==> !SortedBySize(t)
  {
    hide FreeStep, Word, FreeChunks;
    cs := [Chunk(start, 40, true), Chunk(start + 40, 100, false), Chunk(start + 140, 40, false),
           Chunk(start + 180, 100, true), Chunk(start + 280, HEAP_MIN_SIZE, false)];
    assert cs[0].addr in HoleAddrs(cs) && cs[3].addr in HoleAddrs(cs);
    var end := start + HEAP_MIN_SIZE + 280;
    s := EveryTilingArises(cs, start, end, end, [start, start + 180]);
    assert SizeAt(s.mem, cs[0].addr) == 40 && SizeAt(s.mem, cs[3].addr) == 100;
    p := start + 40 + HEADER_SIZE;
    assert cs[1].addr + HEADER_SIZE == p;
    assert BlockOf(cs, p) == 1;
    assert Rest(s.index, cs, 1) == s.index && Position(s.index, start) == 0;
    forall t, ds | FreeStep(far, s, cs, p, t, ds) ensures !SortedBySize(t) {
      FreeKeepsSortedIff(far, s, cs, p, t, ds);
    }
  }

  // ---------------------------------------------------------------- requests that lose the order

  // Listed holes of 4000 and 8000 bytes: a page-aligned request for 4980 cuts the second one
  // down to 44 bytes and leaves it behind the first.
  lemma AlignedCanLoseOrder(start: int) returns (s: HeapState, cs: seq<Chunk>, size: nat)
    requires start % PAGE == 0 && PAGE <= start && start + HEAP_MIN_SIZE + 12040 < WORD
    ensures Layout(s, cs) && Bounds(s) && SortedBySize(s) && CanAlign(s, size)
    ensures forall t, ds, p :: AlignedStep(s, cs, size, t, ds, p) ==> !SortedBySize(t)
  {
    hide AlignedStep, Word, AlignedAt, FirstAligned, AlignedOk, FitsAt, CarvedAligned;
    size := 4980;
    cs := [Chunk(start, 4000, true), Chunk(start + 4000, 40, false), Chunk(start + 4040, 8000, true),
           Chunk(start + 12040, HEAP_MIN_SIZE, false)];
    assert cs[0].addr in HoleAddrs(cs) && cs[2].addr in HoleAddrs(cs);
    var end := start + HEAP_MIN_SIZE + 12040;
    s := EveryTilingArises(cs, start, end, end, [start, start + 4040]);
    assert SizeAt(s.mem, cs[0].addr) == 4000 && SizeAt(s.mem, cs[2].addr) == 8000;
    SecondIsCut(s, start);
    forall t, ds, p | AlignedStep(s, cs, size, t, ds, p) ensures !SortedBySize(t) {
      var it, k := AlignedChoice(s, cs, size, t, ds, p);
      FirstAlignedUnique(s, 5000, it, 1);
      AlignedKeepsSortedIff(s, cs, 5000, t, ds, p, it, k);
    }
  }

  lemma SecondIsCut(s: HeapState, start: int)
    requires start % PAGE == 0 && PAGE <= start && start + 4040 < WORD && s.index == [start, start + 4040]
    requires SizeAt(s.mem, start) == 4000 && SizeAt(s.mem, start + 4040) == 8000
    ensures FirstAligned(s, 5000, 1) && AlignedOk(HoleAt(s, 1), 5000)
    ensures !FitsAt(s.index, 1, Sizes(s.mem), Front(HoleAt(s, 1)).size)
  {
    hide SizeAt;
    PageOffset(start, 4040);
    PageOffset(start, HEADER_SIZE);
    PageOffset(start, 4040 + HEADER_SIZE);
    assert Front(HoleAt(s, 1)) == Chunk(start + 4040, 44, true);
  }

  lemma PageOffset(start: int, d: int)
    requires start % PAGE == 0 && 0 <= d < PAGE
    ensures (start + d) % PAGE == d && (start + d) % 2 == d % 2
  {
    var b := start / PAGE;
    OffsetIn(b, d);
    EvenOffset(2048 * b, d);
  }

  lemma OffsetIn(b: int, d: int)
    requires 0 <= d < PAGE
    ensures (PAGE * b + d) % PAGE == d
  {
  }

  lemma EvenOffset(b: int, d: int)
    ensures (2 * b + d) % 2 == d % 2
  {
  }

  lemma AlignedChoice(s: HeapState, cs: seq<Chunk>, size: int, t: HeapState, ds: seq<Chunk>, p: int) returns (it: nat, k: nat)
    requires AlignedStep(s, cs, size, t, ds, p)
    ensures 0 <= size + OVERHEAD < WORD && FirstAligned(s, size + OVERHEAD, it) && AlignedAt(s, cs, size + OVERHEAD, t, ds, p, it, k)
  {
    var n := size + OVERHEAD;
    it, k :| FirstAligned(s, n, it) && AlignedAt(s, cs, n, t, ds, p, it, k);
  }

  // A hole that begins twelve bytes in front of a page boundary passes the test for any
  // page-aligned request it has bytes for, and its front piece is empty.
  lemma AlignedCanBreak(start: int) returns (s: HeapState, cs: seq<Chunk>, size: nat)
    requires start % PAGE == 0 && PAGE <= start && start + HEAP_MIN_SIZE + 12084 < WORD
    ensures Layout(s, cs) && Bounds(s) && CannotAlign(s, size)
    ensures size + OVERHEAD < WORD && ChoiceIsCuttable(s, size + OVERHEAD)
  {
    hide Word, HoleFits, AlignedBreaks, Cuttable;
    size := 980;
    cs := [Chunk(start, 4084, false), Chunk(start + 4084, 8000, true), Chunk(start + 12084, HEAP_MIN_SIZE, false)];
    assert cs[1].addr in HoleAddrs(cs);
    var end := start + HEAP_MIN_SIZE + 12084;
    s := EveryTilingArises(cs, start, end, end, [start + 4084]);
    assert SizeAt(s.mem, cs[1].addr) == 8000;
    OnlyIsCutAtOnce(s, start);
    forall it: nat | FirstAligned(s, 1000, it) ensures Cuttable(HoleAt(s, it), 1000) {
      FirstAlignedUnique(s, 1000, it, 0);
    }
  }

  lemma OnlyIsCutAtOnce(s: HeapState, start: int)
    requires start % PAGE == 0 && PAGE <= start && start + 12084 < WORD && s.index == [start + 4084]
    requires SizeAt(s.mem, start + 4084) == 8000
    ensures FirstAligned(s, 1000, 0) && AlignedBreaks(HoleAt(s, 0), 1000, s.end) && Cuttable(HoleAt(s, 0), 1000)
  {
    hide SizeAt;
    PageOffset(start, 4084);
    EvenPage(start);
    assert Front(HoleAt(s, 0)) == Chunk(start + 4084, 0, true);
  }

  lemma EvenPage(start: int)
    requires start % PAGE == 0
    ensures (start + 4084 + HEADER_SIZE) % 2 == 0
  {
    EvenOffset(2048 * (start / PAGE), 4084 + HEADER_SIZE);
  }

  // Listed holes of 40 bytes, at the end of the region, and of 100 bytes: growth, right in all
  // else, makes the first one larger than the second.
  lemma GrowthCanLoseOrder(start: int, max: int) returns (s: HeapState, cs: seq<Chunk>, n: int)
    requires FOOTER_SIZE <= start && start + HEAP_MIN_SIZE + 340 <= max < WORD
    ensures Layout(s, cs) && Bounds(s) && SortedBySize(s) && s.max == max
    ensures n >= OVERHEAD && !Fits(s, n) && GrowOk(cs) && s.start + GrownLength(s.end - s.start + n) <= s.max
    ensures forall t, ds :: GrowStep(s, cs, n, t, ds) ==> !SortedBySize(t)
  {
    hide GrowStep, Word;
    n := 200;
    var at := start + 100 + HEAP_MIN_SIZE;
    cs := [Chunk(start, 100, true), Chunk(start + 100, HEAP_MIN_SIZE, false), Chunk(at, 40, true)];
    assert cs[0].addr in HoleAddrs(cs) && cs[2].addr in HoleAddrs(cs);
    s := EveryTilingArises(cs, start, at + 40, max, [at, start]);
    assert SizeAt(s.mem, cs[0].addr) == 100 && SizeAt(s.mem, cs[2].addr) == 40;
    forall t, ds | GrowStep(s, cs, n, t, ds) ensures !SortedBySize(t) {
      GrowKeepsSortedIff(s, cs, n, t, ds);
      assert t.index == s.index by { GrownIndex(s, cs, n, t, ds); }
    }
  }

  lemma GrownIndex(s: HeapState, cs: seq<Chunk>, n: int, t: HeapState, ds: seq<Chunk>)
    requires GrowStep(s, cs, n, t, ds) && cs[|cs| - 1].hole
    ensures t.index == s.index
  {
  }

  // Growing by 514 bytes from an end 256 bytes in front of a page boundary: expand maps the
  // page of the old end again and not the one behind the boundary.
  lemma ExpandCanMissPage(start: int) returns (m: set<int>, oldEnd: int, newEnd: int)
    requires start % PAGE == 0 && 0 <= start
    ensures start < oldEnd && newEnd - start == GrownLength(oldEnd - start + 514)
    ensures AllMapped(m, start, oldEnd) && forall m' :: MapsRun(m, m', oldEnd, newEnd) ==> !AllMapped(m', start, newEnd)
  {
    oldEnd, newEnd := start + 0xF00, start + 0xF00 + 514;
    m := {start / PAGE};
    assert oldEnd / PAGE == start / PAGE && (newEnd - 1) / PAGE == start / PAGE + 1;
    forall m' | MapsRun(m, m', oldEnd, newEnd) ensures !AllMapped(m', start, newEnd) {
      ExpandMapsAllIff(m, m', start, oldEnd, newEnd);
    }
  }

  // ---------------------------------------------------------------- growth that goes astray

  // From a new heap with one whole hole: a request for all of it, one that grows the region
  // by 40 bytes, and a free of the first block leave a hole of the minimum size with the
  // second block, the one at b, behind it.
  method HoleBeforeBlock(ram: Ram, start: int, max: int, far: bool) returns (h: KHeap, p: int, b: int)
    requires start % PAGE == 0 && 0 <= start && start + 4 * HEAP_INDEX_SIZE + HEAP_MIN_SIZE + 40 <= max && max + 2 * PAGE < WORD
    modifies ram
    ensures fresh(h) && fresh(h.index) && fresh(h.index.elems) && h.ram == ram
    ensures h.Valid() && h.index.elems.Length == HEAP_INDEX_SIZE && h.writesFarFooter == far
    ensures h.maxAddress == max && h.startAddress == start + 4 * HEAP_INDEX_SIZE && h.endAddress == h.startAddress + HEAP_MIN_SIZE + 40
    ensures h.chunks == [Chunk(h.startAddress, HEAP_MIN_SIZE, true), Chunk(h.startAddress + HEAP_MIN_SIZE, 40, false)]
    ensures p == h.startAddress + HEADER_SIZE && b == p + HEAP_MIN_SIZE
    ensures SameOutside(old(ram.cells), ram.cells, start, h.endAddress)
  {
    hide Layout, Word, Fits, GrowOk, FreeOk, AllocStep, FreeStep, LivePtrs, FirstFit, SameOutside;
    ghost var m0 := ram.cells;
    h := new KHeap(ram, start, start + 4 * HEAP_INDEX_SIZE + HEAP_MIN_SIZE, max, far, {});
    WholeHoleFits(h.State(), h.chunks);
    ghost var s0, area := h.State(), h.startAddress;
    var whole := h.Alloc(HEAP_MIN_SIZE - OVERHEAD);
    p := whole.value;
    AllocWhole(s0, h.State(), h.chunks, p);
    ghost var s1, cs1 := h.State(), h.chunks;
    NoHoles(s1, cs1, 40);
    var behind := h.Alloc(20);
    b := behind.value;
    AllocBehind(s1, cs1, h.State(), h.chunks, b);
    ghost var s2, cs2 := h.State(), h.chunks;
    FirstOfTwo(s2, cs2, far, p);
    var halted := h.Free(p);
    FreeFirstOfTwo(far, s2, cs2, p, h.State(), h.chunks);
    SameOutsideTrans(m0, s0.mem, s1.mem, start, area + HEADER_SIZE, area, s1.end, start, h.endAddress);
    SameOutsideTrans(m0, s1.mem, s2.mem, start, h.endAddress, area, s2.end, start, h.endAddress);
    SameOutsideTrans(m0, s2.mem, ram.cells, start, h.endAddress, area, s2.end, start, h.endAddress);
  }

  // The next request is given to the hole, after growth, although the block is behind it:
  // the bytes handed out at r hold the header of that block, which is live.
  method GrowthGoesAstray(ram: Ram, start: int, max: int, far: bool) returns (h: KHeap, q: int, r: int, ghost s: HeapState, ghost cs: seq<Chunk>)
    requires start % PAGE == 0 && 0 <= start && max + 2 * PAGE < WORD
    requires start + 4 * HEAP_INDEX_SIZE + 2 * HEAP_MIN_SIZE + 80 <= max
    modifies ram
    // The heap right before that request.
    ensures Layout(s, cs) && Bounds(s) && q in LivePtrs(cs)
    ensures q - HEADER_SIZE == h.startAddress + HEAP_MIN_SIZE
    ensures r - HEADER_SIZE < q - HEADER_SIZE < r - HEADER_SIZE + HEAP_MIN_SIZE + OVERHEAD
  {
    hide Layout, Word, Fits, GrowOk, AllocStep, Overlaps, CanCarve, FirstFit, SameOutside;
    var p;
    h, p, q := HoleBeforeBlock(ram, start, max, far);
    s, cs := h.State(), h.chunks;
    assert cs[1].addr + HEADER_SIZE == q;
    HoleThenBlock(s, cs);
    var given := h.Alloc(HEAP_MIN_SIZE);
    r := given.value;
    HeaderInside(cs, r, HEAP_MIN_SIZE + OVERHEAD);
  }

  // ---------------------------------------------------------------- a free that halts

  // The second block is freed too and cut off by the trim, which leaves its header right past
  // the end. The first one is requested again, and freeing it halts the kernel, although
  // nothing else is wrong: FreeOk holds.
  method FreeCanHalt(ram: Ram, start: int, max: int, far: bool) returns (h: KHeap, p: int, halted: bool, ghost s: HeapState, ghost cs: seq<Chunk>)
    requires start % PAGE == 0 && 0 <= start && start + 4 * HEAP_INDEX_SIZE + HEAP_MIN_SIZE + 40 <= max && max + 2 * PAGE < WORD
    // Nothing past the region reads as a hole to begin with.
    requires !StaleHole(ram.cells, start + 4 * HEAP_INDEX_SIZE + HEAP_MIN_SIZE + 40)
    modifies ram
    // The heap right before the free of p.
    ensures Layout(s, cs) && Bounds(s) && p in LivePtrs(cs) && FreeOk(far, s.start, cs, BlockOf(cs, p)) && StaleHole(s.mem, s.end)
    ensures halted
  {
    hide Layout, Word, Fits, AllocStep, FreeStep, FreeOk, LivePtrs, FirstFit, SameOutside;
    ghost var m0 := ram.cells;
    var b;
    h, p, b := HoleBeforeBlock(ram, start, max, far);
    ghost var s1, cs1 := h.State(), h.chunks;
    StaleKept(m0, s1.mem, start, s1.end, s1.end);
    LastOfTwo(s1, cs1, far, b);
    halted := h.Free(b);
    FreeLastOfTwo(far, s1, cs1, b, h.State(), h.chunks);
    ghost var s2, cs2 := h.State(), h.chunks;
    OneHoleListed(s2, cs2);
    WholeHoleFits(s2, cs2);
    var again := h.Alloc(HEAP_MIN_SIZE - OVERHEAD);
    p := again.value;
    AllocWhole(s2, h.State(), h.chunks, p);
    s, cs := h.State(), h.chunks;
    StaleKept(s2.mem, s.mem, s2.start, s2.end, s2.end);
    OnlyBlock(s, cs, far, p);
    halted := h.Free(p);
  }

  lemma LastOfTwo(s: HeapState, cs: seq<Chunk>, far: bool, b: int)
    requires Layout(s, cs) && cs == [Chunk(s.start, HEAP_MIN_SIZE, true), Chunk(s.start + HEAP_MIN_SIZE, 40, false)]
    requires s.end == s.start + HEAP_MIN_SIZE + 40 && b == s.start + HEAP_MIN_SIZE + HEADER_SIZE
    ensures b in LivePtrs(cs) && BlockOf(cs, b) == 1 && FreeOk(far, s.start, cs, 1) && |s.index| + 1 < HEAP_INDEX_SIZE
  {
    hide Layout;
    assert cs[1].addr + HEADER_SIZE == b;
    IndexStaysSmall(s, cs);
  }

  lemma FreeLastOfTwo(far: bool, s: HeapState, cs: seq<Chunk>, b: int, t: HeapState, ds: seq<Chunk>)
    requires cs == [Chunk(s.start, HEAP_MIN_SIZE, true), Chunk(s.start + HEAP_MIN_SIZE, 40, false)]
    requires b in LivePtrs(cs) && BlockOf(cs, b) == 1 && FreeStep(far, s, cs, b, t, ds)
    ensures ds == [Chunk(s.start, HEAP_MIN_SIZE, true)] && t.start == s.start && t.max == s.max && t.end == s.start + HEAP_MIN_SIZE
    ensures StaleHole(t.mem, t.end)
  {
    hide Word, HeaderAt, SameOutside, FreedIndex, StaleHole;
  }

  lemma OneHoleListed(s: HeapState, cs: seq<Chunk>)
    requires Layout(s, cs) && Bounds(s) && cs == [Chunk(s.start, HEAP_MIN_SIZE, true)]
    ensures s.index == [s.start]
  {
    assert LivePtrs(cs) == {};
    HeapRuns.AllFreedIsOneHole(HeapRuns.Config(s, cs));
  }

  lemma OnlyBlock(s: HeapState, cs: seq<Chunk>, far: bool, p: int)
    requires Layout(s, cs) && cs == [Chunk(s.start, HEAP_MIN_SIZE, false)] && s.end == s.start + HEAP_MIN_SIZE && p == s.start + HEADER_SIZE
    ensures p in LivePtrs(cs) && BlockOf(cs, p) == 0 && FreeOk(far, s.start, cs, 0) && |s.index| + 1 < HEAP_INDEX_SIZE
  {
    hide Layout;
    assert cs[0].addr + HEADER_SIZE == p;
    IndexStaysSmall(s, cs);
  }

  lemma WholeHoleFits(s: HeapState, cs: seq<Chunk>)
    requires Layout(s, cs) && cs == [Chunk(s.start, HEAP_MIN_SIZE, true)] && s.index == [s.start]
    ensures Fits(s, HEAP_MIN_SIZE) && SizeAt(s.mem, s.start) == HEAP_MIN_SIZE
  {
    assert RecordedAt(s.mem, cs, 0);
    assert SizeAt(s.mem, s.index[0]) >= HEAP_MIN_SIZE;
  }

  lemma AllocWhole(s: HeapState, t: HeapState, ds: seq<Chunk>, p: int)
    requires Fits(s, HEAP_MIN_SIZE) && s.index == [s.start] && SizeAt(s.mem, s.start) == HEAP_MIN_SIZE
    requires AllocStep(s, [Chunk(s.start, HEAP_MIN_SIZE, true)], HEAP_MIN_SIZE - OVERHEAD, t, ds, p)
    ensures ds == [Chunk(s.start, HEAP_MIN_SIZE, false)] && p == s.start + HEADER_SIZE
    ensures SameBounds(s, t) && SameOutside(s.mem, t.mem, s.start, s.start + HEAP_MIN_SIZE)
  {
    hide Word, SortedBySize, CarvedRecords, CarvedIndex, SameOutside;
    var cs := [Chunk(s.start, HEAP_MIN_SIZE, true)];
    var it, k :| CarveAt(s, cs, HEAP_MIN_SIZE, t, ds, p, it, k);
  }

  lemma NoHoles(s: HeapState, cs: seq<Chunk>, n: int)
    requires Layout(s, cs) && cs == [Chunk(s.start, HEAP_MIN_SIZE, false)]
    ensures s.index == [] && !Fits(s, n) && GrowOk(cs)
  {
    hide HoleAddrs, Word;
    if s.index != [] {
      var k := IndexEntryIsHole(s, cs, s.index[0]);
    }
    HolesOfOne(cs[0]);
  }

  lemma AllocBehind(s: HeapState, cs: seq<Chunk>, t: HeapState, ds: seq<Chunk>, p: int)
    requires Layout(s, cs) && cs == [Chunk(s.start, HEAP_MIN_SIZE, false)] && s.end == s.start + HEAP_MIN_SIZE
    requires !Fits(s, 40) && AllocStep(s, cs, 20, t, ds, p)
    ensures ds == [cs[0], Chunk(s.end, 40, false)] && p == s.end + HEADER_SIZE
    ensures t.start == s.start && t.max == s.max && t.end == s.end + 40
    ensures SameOutside(s.mem, t.mem, s.start, t.end)
  {
    hide Word, Layout, SortedBySize, CarvedRecords, CarvedIndex, SameOutside, FooterAt;
    var m, es :| GrowStep(s, cs, 40, m, es) && CarveStep(m, es, 40, t, ds, p);
    assert es == [cs[0], Chunk(s.end, 40, true)];
    var it, k :| CarveAt(m, es, 40, t, ds, p, it, k);
    assert k == 1;
    SameOutsideTrans(s.mem, m.mem, t.mem, s.end, m.end, s.end, m.end, s.start, m.end);
  }

  // Two blocks tile the region.
  ghost predicate TwoBlocks(s: HeapState, cs: seq<Chunk>) {
    cs == [Chunk(s.start, HEAP_MIN_SIZE, false), Chunk(s.start + HEAP_MIN_SIZE, 40, false)] && s.end == s.start + HEAP_MIN_SIZE + 40
  }

  lemma FirstOfTwo(s: HeapState, cs: seq<Chunk>, far: bool, p: int)
    requires Layout(s, cs) && TwoBlocks(s, cs) && p == s.start + HEADER_SIZE
    ensures p in LivePtrs(cs) && BlockOf(cs, p) == 0 && FreeOk(far, s.start, cs, 0)
    ensures |s.index| + 1 < HEAP_INDEX_SIZE
  {
    assert cs[0].addr + HEADER_SIZE == p;
    IndexStaysSmall(s, cs);
  }

  lemma FreeFirstOfTwo(far: bool, s: HeapState, cs: seq<Chunk>, p: int, t: HeapState, ds: seq<Chunk>)
    requires TwoBlocks(s, cs) && p in LivePtrs(cs) && BlockOf(cs, p) == 0 && FreeStep(far, s, cs, p, t, ds)
    ensures ds == [Chunk(s.start, HEAP_MIN_SIZE, true), cs[1]]
    ensures SameBounds(s, t) && SameOutside(s.mem, t.mem, s.start, s.end)
  {
    hide Word, HeaderAt, FreedIndex, StaleHole;
  }

  lemma HoleThenBlock(s: HeapState, cs: seq<Chunk>)
    requires Layout(s, cs) && cs == [Chunk(s.start, HEAP_MIN_SIZE, true), Chunk(s.start + HEAP_MIN_SIZE, 40, false)]
    ensures !Fits(s, HEAP_MIN_SIZE + OVERHEAD) && !GrowOk(cs)
  {
    hide Word;
    assert cs[0].addr in HoleAddrs(cs);
    forall i | 0 <= i < |s.index| ensures SizeAt(s.mem, s.index[i]) <= HEAP_MIN_SIZE {
      var k := IndexEntryIsHole(s, cs, s.index[i]);
    }
  }

  lemma HeaderInside(cs: seq<Chunk>, r: int, n: int)
    requires |cs| == 2 && cs[0].hole && !cs[1].hole && Overlaps(cs, r, n)
    ensures r - HEADER_SIZE < cs[1].addr < r - HEADER_SIZE + n
  {
  }
}
