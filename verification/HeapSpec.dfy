/** What the steps of alloc and free mean for a heap in a good layout, when they go right,
    and what they leave behind when they do not. */
module HeapSpec {
  import opened Memory
  import opened OrderedArrays
  import opened HeapLayout
  import opened HeapSteps

  // The size expand rounds to. As committed, `new_size & 0xFFFFF000 != 0` tests bit 0, so
  // only odd sizes are rounded up to a page.
  function GrownLength(n: int): (r: int)
    ensures n <= r <= n + PAGE
    ensures n % 2 == 0 ==> r == n
    ensures n % 2 == 1 ==> r % PAGE == 0 && n < r
  {
    if n % 2 == 1 then n - n % PAGE + PAGE else n
  }

  // The size contract settles on. As committed, the mask is 0x1000, not 0xFFFFF000.
  function TrimmedLength(n: int): (r: int)
    ensures n >= HEAP_MIN_SIZE && n / PAGE % 2 == 0 ==> r == n
    ensures n < HEAP_MIN_SIZE || n / PAGE % 2 == 1 ==> r == HEAP_MIN_SIZE
  {
    var rounded := if n / PAGE % 2 == 1 then 2 * PAGE else n;
    if rounded < HEAP_MIN_SIZE then HEAP_MIN_SIZE else rounded
  }

  // Whether some listed hole has at least n bytes.
  ghost predicate Fits(s: HeapState, n: int) {
    exists i :: 0 <= i < |s.index| && SizeAt(s.mem, s.index[i]) >= n
  }

  // A 32-bit word read as a signed one.
  function Signed(w: u32): int {
    if w < WORD / 2 then w else w - WORD
  }

  // find_smallest_hole's test of one hole. As committed, `(location + sizeof (header_t)) &
  // 0xFFFFF000 != 0` tests bit 0, so only at odd addresses is room set aside for alignment.
  predicate HoleFits(m: Bytes, a: u32, n: u32, pageAlign: bool) {
    if pageAlign then
      var offset := if (a + HEADER_SIZE) % 2 == 1 then PAGE - (a + HEADER_SIZE) % PAGE else 0;
      Signed(SizeAt(m, a)) - offset >= Signed(n)
    else SizeAt(m, a) >= n
  }

  // For sizes that are not negative when signed, the test asks for the bytes up to the next
  // page boundary only at odd addresses. A hole whose size is negative when signed is too
  // small for every other request, and a request that is fits every other hole at an even address.
  lemma FitsByAddress(m: Bytes, a: u32, n: u32)
    ensures HoleFits(m, a, n, false) <==> Word(m, a + 8) >= n
    ensures n < 0x8000_0000 && Word(m, a + 8) < 0x8000_0000 ==>
      (HoleFits(m, a, n, true) <==> Word(m, a + 8) >= if a % 2 == 0 then n else n + 0x1000 - (a + 12) % 0x1000)
    ensures n < 0x8000_0000 <= Word(m, a + 8) ==> !HoleFits(m, a, n, true)
    ensures Word(m, a + 8) < 0x8000_0000 <= n && a % 2 == 0 ==> HoleFits(m, a, n, true)
  {
    hide Word;
  }

  ghost predicate FirstFit(s: HeapState, n: int, it: int) {
    && 0 <= it < |s.index|
    && SizeAt(s.mem, s.index[it]) >= n
    && (forall k :: 0 <= k < it ==> SizeAt(s.mem, s.index[k]) < n)
  }

  ghost predicate SortedBySize(s: HeapState) {
    forall i, j :: 0 <= i < j < |s.index| ==> SizeAt(s.mem, s.index[i]) <= SizeAt(s.mem, s.index[j])
  }

  // header_t_less_than, the order of the index.
  function SizeLess(m: Bytes): (u32, u32) -> bool {
    (a, b) => SizeAt(m, a) < SizeAt(m, b)
  }

  lemma FitsListed(s: HeapState, n: int)
    ensures Fits(s, n) <==> exists i :: 0 <= i < |s.index| && SizeAt(s.mem, s.index[i]) >= n
  {
  }

  // In an index sorted by size, the first hole that fits is a smallest one that does.
  lemma FirstFitIsBestFit(s: HeapState, n: int, it: int)
    requires SortedBySize(s) && FirstFit(s, n, it)
    ensures forall i :: 0 <= i < |s.index| && SizeAt(s.mem, s.index[i]) >= n ==>
      SizeAt(s.mem, s.index[it]) <= SizeAt(s.mem, s.index[i])
  {
    forall i | 0 <= i < |s.index| && SizeAt(s.mem, s.index[i]) >= n
      ensures SizeAt(s.mem, s.index[it]) <= SizeAt(s.mem, s.index[i])
    {
      assert i >= it;
    }
  }

  // What growing leaves behind when nothing fits n: the new bytes are a hole's, with header
  // and footer, and only that hole is written to.
  ghost predicate GrowStep(s: HeapState, cs: seq<Chunk>, n: int, t: HeapState, ds: seq<Chunk>) {
    && cs != [] && !Fits(s, n)
    && t.start == s.start && t.max == s.max
    && t.end - s.start == GrownLength(s.end - s.start + n) && t.end <= t.max
    && ds == GrowChunks(cs, s.end, t.end - s.end)
    && t.index == (if cs[|cs| - 1].hole then s.index else [s.end])
    && var c := GrownHole(cs, s.end, t.end - s.end);
      HeaderAt(t.mem, c) && FooterAt(t.mem, c) && SameOutside(s.mem, t.mem, c.addr, t.end)
  }

  lemma GrowIsLayout(s: HeapState, cs: seq<Chunk>, n: int, t: HeapState, ds: seq<Chunk>)
    requires Layout(s, cs) && n >= OVERHEAD && GrowStep(s, cs, n, t, ds) && GrowOk(cs)
    ensures Layout(t, ds)
  {
    hide Layout, HeaderAt, FooterAt, SameOutside, Fits;
    GrowKeepsLayout(s, cs, t.end - s.end, t);
  }

  // What alloc writes into the listed hole it chose, and to the index.
  ghost predicate CarveWrites(s: HeapState, it: int, n: int, t: HeapState)
    requires 0 <= it < |s.index|
  {
    && SameBounds(s, t) && CarvedIndex(s, it, n, t.mem, t.index)
    && SameOutside(s.mem, t.mem, s.index[it], s.index[it] + SizeAt(s.mem, s.index[it]))
    && CarvedRecords(t.mem, Chunk(s.index[it], SizeAt(s.mem, s.index[it]), true), n, s.end)
  }

  ghost predicate CarveAt(s: HeapState, cs: seq<Chunk>, n: int, t: HeapState, ds: seq<Chunk>, p: int, it: int, k: int) {
    && FirstFit(s, n, it) && 0 <= k < |cs| && cs[k].addr == s.index[it] && p == cs[k].addr + HEADER_SIZE
    && ds == CarveChunks(cs, k, n) && CarveWrites(s, it, n, t)
  }

  // The first listed hole that fits n becomes a block at p and a remainder.
  ghost predicate CarveStep(s: HeapState, cs: seq<Chunk>, n: int, t: HeapState, ds: seq<Chunk>, p: int) {
    exists it, k :: CarveAt(s, cs, n, t, ds, p, it, k)
  }

  // What a successful alloc(size) does.
  ghost predicate AllocStep(s: HeapState, cs: seq<Chunk>, size: int, t: HeapState, ds: seq<Chunk>, p: int) {
    var n := size + OVERHEAD;
    if Fits(s, n) then CarveStep(s, cs, n, t, ds, p)
    else exists m, es :: GrowStep(s, cs, n, m, es) && CarveStep(m, es, n, t, ds, p)
  }

  // An old live block whose header lies strictly inside the new block's n bytes.
  ghost predicate Overlaps(cs: seq<Chunk>, p: int, n: int) {
    exists k :: 0 <= k < |cs| && !cs[k].hole && p - HEADER_SIZE < cs[k].addr < p - HEADER_SIZE + n
  }

  // m' has m's pages and those that expand's loop visits on its way from one end of the
  // region to another: it steps by whole pages from the old end, which need not be on a
  // page boundary.
  ghost predicate MapsRun(m: set<int>, m': set<int>, oldEnd: int, newEnd: int) {
    forall p :: p in m' <==> p in m || oldEnd / PAGE <= p <= oldEnd / PAGE + (newEnd - 1 - oldEnd) / PAGE
  }

  ghost predicate AllMapped(mapped: set<int>, start: int, end: int) {
    forall p :: start / PAGE <= p <= (end - 1) / PAGE ==> p in mapped
  }

  // Growing leaves every byte of the region on a mapped page exactly when the steps from
  // the old end do not jump over the page boundary in front of the new end, given that the
  // page after them was not mapped before.
  lemma ExpandMapsAllIff(m: set<int>, m': set<int>, start: int, oldEnd: int, newEnd: int)
    requires start < oldEnd < newEnd && AllMapped(m, start, oldEnd) && MapsRun(m, m', oldEnd, newEnd)
    requires oldEnd / PAGE + (newEnd - 1 - oldEnd) / PAGE + 1 !in m
    ensures AllMapped(m', start, newEnd) <==> oldEnd % PAGE + (newEnd - 1 - oldEnd) % PAGE < PAGE
  {
    var last := (newEnd - 1) / PAGE;
    if oldEnd % PAGE + (newEnd - 1 - oldEnd) % PAGE >= PAGE {
      assert last == oldEnd / PAGE + (newEnd - 1 - oldEnd) / PAGE + 1 && last !in m';
    }
  }

  lemma PageBelow(end: int, n: int)
    ensures (end - n * PAGE) / PAGE == end / PAGE - n
  {
  }

  // The pages from which whole-page steps from the old end have not yet come down to stop.
  lemma StepsBelow(end: int, stop: int, p: int, rounds: int)
    requires rounds >= 0 && end - (rounds + 1) * PAGE <= stop && (rounds > 0 ==> stop < end - rounds * PAGE)
    ensures end / PAGE - rounds <= p < end / PAGE <==> p < end / PAGE && stop < p * PAGE + end % PAGE
  {
    var t := end / PAGE - p;
    assert p * PAGE + end % PAGE == end - t * PAGE;
  }

  lemma NewHeapLayout(s: HeapState, c: Chunk)
    requires s.start < s.end && c == Chunk(s.start, s.end - s.start, true) && c.size >= OVERHEAD
    requires HeaderAt(s.mem, c) && s.index == [s.start] && Word(s.mem, s.start - FOOTER_SIZE) != HEAP_MAGIC
    ensures Layout(s, [c])
  {
    OneRecord(s.mem, c);
    HolesOfOne(c);
  }

  // What free's test of the bytes in front of chunk k sees.
  lemma LeftNeighbour(s: HeapState, cs: seq<Chunk>, k: nat)
    requires Shape(s, cs) && k < |cs|
    ensures HeaderAt(s.mem, cs[k]) && (!cs[k].hole ==> FooterAt(s.mem, cs[k]))
    ensures s.start <= cs[k].addr && OVERHEAD <= cs[k].size && cs[k].End() <= s.end
    ensures k == 0 ==> Word(s.mem, cs[k].addr - FOOTER_SIZE) != HEAP_MAGIC
    ensures k > 0 ==> HeaderAt(s.mem, cs[k - 1]) && FooterAt(s.mem, cs[k - 1])
    ensures k > 0 ==> s.start <= cs[k - 1].addr && cs[k - 1].End() == cs[k].addr && OVERHEAD <= cs[k - 1].size
  {
    hide Word;
    assert RecordedAt(s.mem, cs, k);
    TilesWithin(cs, s.start, s.end, k);
    if k > 0 {
      assert RecordedAt(s.mem, cs, k - 1);
      TilesWithin(cs, s.start, s.end, k - 1);
    }
  }

  // What free's test of the bytes behind hole i sees, and that no entry of the index lies
  // at the end of the region.
  lemma RightNeighbour(s: HeapState, cs: seq<Chunk>, i: nat)
    requires Pending(s, cs, i)
    ensures HeaderAt(s.mem, cs[i]) && s.start <= cs[i].addr && OVERHEAD <= cs[i].size && cs[i].End() <= s.end
    ensures i + 1 == |cs| ==> cs[i].End() == s.end
    ensures i + 1 < |cs| ==> HeaderAt(s.mem, cs[i + 1]) && cs[i].End() == cs[i + 1].addr && OVERHEAD <= cs[i + 1].size
    ensures i + 1 < |cs| ==> cs[i + 1].End() <= s.end && (i + 2 < |cs| <==> cs[i + 1].End() < s.end)
    ensures i + 2 < |cs| ==> FooterAt(s.mem, cs[i + 1])
    ensures forall a :: a in s.index ==> a < s.end
  {
    hide Word;
    assert RecordedAt(s.mem, cs, i);
    TilesWithin(cs, s.start, s.end, i);
    if i + 1 < |cs| {
      assert RecordedAt(s.mem, cs, i + 1);
      TilesWithin(cs, s.start, s.end, i + 1);
    }
    if i + 2 < |cs| {
      TilesWithin(cs, s.start, s.end, i + 2);
    }
    forall a | a in s.index ensures a < s.end {
      var k :| 0 <= k < |cs| && cs[k].hole && cs[k].addr == a;
      TilesWithin(cs, s.start, s.end, k);
    }
  }

  ghost function BlockOf(cs: seq<Chunk>, p: int): (k: nat)
    requires p in LivePtrs(cs)
    ensures k < |cs| && !cs[k].hole && cs[k].addr + HEADER_SIZE == p
  {
    var k :| 0 <= k < |cs| && !cs[k].hole && cs[k].addr + HEADER_SIZE == p;
    k
  }

  // Whether the footer of the hole that a join of chunk k with its right neighbour leaves
  // is right: it is rewritten, or there is no join, or the hole reaches the end.
  predicate RightOk(writesFarFooter: bool, cs: seq<Chunk>, k: nat) {
    writesFarFooter || |cs| <= k + 2 || !cs[k + 1].hole
  }

  // Whether free may be called on block k: its join on the right gets a footer, and what
  // it leaves at the end of the region still has room below the HEAP_MIN_SIZE mark.
  predicate FreeOk(writesFarFooter: bool, start: int, cs: seq<Chunk>, k: nat)
    requires k < |cs|
  {
    && RightOk(writesFarFooter, cs, k)
    && (TouchesEnd(cs, k) ==> cs[LeftOf(cs, k)].addr + OVERHEAD <= start + HEAP_MIN_SIZE)
  }

  // The hole that freeing block k leaves.
  function FreedHole(cs: seq<Chunk>, lo: int, hi: int, k: nat): Chunk
    requires k < |cs|
  {
    var stop := if TouchesEnd(cs, k) then lo + HEAP_MIN_SIZE else StartOf(cs, hi, RightOf(cs, k));
    Chunk(cs[LeftOf(cs, k)].addr, stop - cs[LeftOf(cs, k)].addr, true)
  }

  // The index without a hole right behind chunk k.
  ghost function Rest(index: seq<u32>, cs: seq<Chunk>, k: nat): seq<u32>
    requires k < |cs|
  {
    if k + 1 < |cs| && cs[k + 1].hole then Unlisted(index, cs[k + 1].addr) else index
  }

  // The index that freeing block k leaves: a hole on the left stays where it was listed,
  // and otherwise the new hole is inserted by size.
  ghost function FreedIndex(index: seq<u32>, cs: seq<Chunk>, k: nat, m: Bytes): seq<u32>
    requires k < |cs| && 0 <= cs[k].addr < WORD
  {
    if LeftOf(cs, k) < k then Rest(index, cs, k) else Inserted(Rest(index, cs, k), cs[k].addr, SizeLess(m))
  }

  // What a free of p writes when its trim, if any, leaves room for the hole. The footer of
  // a hole joined on the right keeps pointing to the old header unless RightOk. A last block
  // that the trim cuts off leaves its header behind, marked as a hole's.
  ghost predicate FreeStep(far: bool, s: HeapState, cs: seq<Chunk>, p: int, t: HeapState, ds: seq<Chunk>) {
    && p in LivePtrs(cs)
    && var k := BlockOf(cs, p);
    && 0 <= cs[k].addr < WORD
    && var hole := FreedHole(cs, s.start, s.end, k);
    && ds == FreeChunks(cs, k, s.start + HEAP_MIN_SIZE)
    && t.start == s.start && t.max == s.max
    && t.end == (if TouchesEnd(cs, k) then s.start + HEAP_MIN_SIZE else s.end)
    && t.index == FreedIndex(s.index, cs, k, t.mem)
    && HeaderAt(t.mem, hole)
    && Word(t.mem, hole.End() - FOOTER_SIZE) == HEAP_MAGIC
    && OwnerAt(t.mem, hole.End() - FOOTER_SIZE) == (if RightOk(far, cs, k) then hole.addr else cs[k + 1].addr)
    && (k + 1 == |cs| && t.end <= cs[k].addr ==> StaleHole(t.mem, cs[k].addr))
    && SameOutside(s.mem, t.mem, cs[LeftOf(cs, k)].addr, StartOf(cs, s.end, RightOf(cs, k)))
  }

  lemma AfterMergeLeft(s: HeapState, cs: seq<Chunk>, k: nat, t: HeapState)
    requires Layout(s, cs) && k < |cs| && !cs[k].hole && t.index == s.index && Shape(t, MergeLeft(cs, k))
    ensures var i := LeftOf(cs, k); var ds := MergeLeft(cs, k);
      Pending(t, ds, i) && ApartExceptAt(ds, i) && (ds[i].addr in t.index <==> i < k)
  {
    MergeLeftHoles(cs, s.start, s.end, k);
    MergeLeftApart(cs, k);
  }

  // How the stages of free line up: hole i after the join on the left is what block k was.
  lemma FreeStages(cs: seq<Chunk>, lo: int, hi: int, k: nat, minEnd: int)
    requires Tiles(cs, lo, hi) && k < |cs| && !cs[k].hole
    ensures var i := LeftOf(cs, k); var ds := MergeLeft(cs, k); var es := MergeRight(ds, i);
      && i < |ds| && |ds| - i == |cs| - k && ds[i].addr == es[i].addr == cs[i].addr && ds[i].End() == cs[k].End() <= es[i].End()
      && (k + 1 < |cs| ==> ds[i + 1] == cs[k + 1] && (cs[k + 1].hole ==> es[i].size == ds[i].size + ds[i + 1].size))
      && (k + 1 == |cs| ==> cs[k].End() == hi)
      && i < |es| && (i + 1 == |es| <==> TouchesEnd(cs, k))
      && ds[i] == Chunk(cs[i].addr, cs[k].End() - cs[i].addr, true)
      && es[i] == Chunk(cs[i].addr, StartOf(cs, hi, RightOf(cs, k)) - cs[i].addr, true)
      && FreeChunks(cs, k, minEnd) == if TouchesEnd(cs, k) then Trim(es, i, minEnd) else es
  {
    NextStart(cs, lo, hi, k);
    if k + 1 < |cs| { NextStart(cs, lo, hi, k + 1); }
  }

  // The three stages of free amount to one splice.
  lemma FreeIsSplice(cs: seq<Chunk>, lo: int, hi: int, k: nat)
    requires Tiles(cs, lo, hi) && k < |cs| && !cs[k].hole
    ensures FreeChunks(cs, k, lo + HEAP_MIN_SIZE) ==
            Splice(cs, LeftOf(cs, k), RightOf(cs, k), [FreedHole(cs, lo, hi, k)])
  {
    hide Tiles, Splice;
    var i, j, minEnd := LeftOf(cs, k), RightOf(cs, k), lo + HEAP_MIN_SIZE;
    FreeStages(cs, lo, hi, k, minEnd);
    var ds := MergeLeft(cs, k);
    var es := MergeRight(ds, i);
    assert ds == Splice(cs, i, k + 1, [ds[i]]);
    assert k + 1 < |cs| ==> (j == k + 2 <==> ds[i + 1].hole);
    if j == k + 2 {
      SpliceAgain(cs, i, k + 1, ds[i], 1, es[i]);
      assert es == Splice(ds, i, i + 2, [es[i]]);
    } else {
      assert es == ds;
    }
    assert es == Splice(cs, i, j, [es[i]]);
    if TouchesEnd(cs, k) {
      SpliceAgain(cs, i, j, es[i], 0, FreedHole(cs, lo, hi, k));
      assert Trim(es, i, minEnd) == Splice(es, i, i + 1, [FreedHole(cs, lo, hi, k)]);
    }
    assert FreedHole(cs, lo, hi, k) == if TouchesEnd(cs, k) then Chunk(es[i].addr, minEnd - es[i].addr, true) else es[i];
  }

  // Splicing over a spliced-in chunk, and the next d chunks, is one splice.
  lemma SpliceAgain(cs: seq<Chunk>, i: nat, j: nat, c: Chunk, d: nat, c': Chunk)
    requires i <= j && j + d <= |cs|
    ensures |Splice(cs, i, j, [c])| == i + 1 + |cs| - j
    ensures Splice(Splice(cs, i, j, [c]), i, i + 1 + d, [c']) == Splice(cs, i, j + d, [c'])
  {
    var ds := Splice(cs, i, j, [c]);
    assert ds[..i] == cs[..i] && ds[i + 1 + d..] == cs[j + d..];
  }

  lemma LayoutTiles(s: HeapState, cs: seq<Chunk>)
    requires Layout(s, cs)
    ensures Tiles(cs, s.start, s.end)
  {
  }

  lemma InsideIsNeighbours(cs: seq<Chunk>, k: nat)
    requires k < |cs| && !cs[k].hole
    ensures var i, j := LeftOf(cs, k), RightOf(cs, k);
      HoleAddrs(cs[i..j]) == (if i < k then {cs[i].addr} else {}) + (if j == k + 2 then {cs[k + 1].addr} else {})
  {
    var i, j := LeftOf(cs, k), RightOf(cs, k);
    var left, right := cs[i..k], cs[k + 1..j];
    assert cs[i..j] == left + [cs[k]] + right;
    HolesConcat(left + [cs[k]], right);
    HolesConcat(left, [cs[k]]);
    HolesOfOne(cs[k]);
    HolesOfOne(cs[i]);
    assert left == if i < k then [cs[i]] else [];
    if j == k + 2 { HolesOfOne(cs[k + 1]); }
    assert right == if j == k + 2 then [cs[k + 1]] else [];
  }

  // The index that free leaves lists the old holes, less the one on the right, and the new
  // hole, each once.
  lemma FreedIndexLists(s: HeapState, cs: seq<Chunk>, k: nat, m: Bytes)
    requires Layout(s, cs) && k < |cs| && !cs[k].hole && 0 <= cs[k].addr < WORD
    ensures Distinct(FreedIndex(s.index, cs, k, m))
    ensures forall a :: a in FreedIndex(s.index, cs, k, m) <==>
      a == cs[LeftOf(cs, k)].addr || (a in HoleAddrs(cs) && !(RightOf(cs, k) == k + 2 && a == cs[k + 1].addr))
  {
    hide Shape, Inserted, Without, HoleAddrs;
    var rest := Rest(s.index, cs, k);
    RestLists(s, cs, k);
    NeighboursAreHoles(s, cs, k);
    if LeftOf(cs, k) == k {
      InsertKeepsDistinct(rest, cs[k].addr, SizeLess(m));
    }
  }

  lemma RestLists(s: HeapState, cs: seq<Chunk>, k: nat)
    requires Layout(s, cs) && k < |cs|
    ensures Distinct(Rest(s.index, cs, k))
    ensures forall a :: a in Rest(s.index, cs, k) <==>
      a in HoleAddrs(cs) && !(RightOf(cs, k) == k + 2 && a == cs[k + 1].addr)
  {
    hide Shape, Without;
    if RightOf(cs, k) == k + 2 {
      assert cs[k + 1].addr in HoleAddrs(cs);
      RemoveKeepsDistinct(s.index, Position(s.index, cs[k + 1].addr));
    }
  }

  // Which of block k and its neighbours are addresses of holes.
  lemma NeighboursAreHoles(s: HeapState, cs: seq<Chunk>, k: nat)
    requires Layout(s, cs) && k < |cs| && !cs[k].hole
    ensures cs[k].addr !in HoleAddrs(cs)
    ensures LeftOf(cs, k) < k ==> cs[k - 1].addr in HoleAddrs(cs) && cs[k - 1].addr < cs[k].addr
    ensures RightOf(cs, k) == k + 2 ==> cs[k + 1].addr in HoleAddrs(cs) && cs[k].addr < cs[k + 1].addr
  {
    hide Word, Records;
    BlockIsNoHole(cs, s.start, s.end, k);
    if LeftOf(cs, k) < k { TilesOrdered(cs, s.start, s.end, k - 1, k); }
    if RightOf(cs, k) == k + 2 { TilesOrdered(cs, s.start, s.end, k, k + 1); }
  }

  lemma FreedApart(cs: seq<Chunk>, k: nat, hole: Chunk)
    requires NoAdjacentHoles(cs) && k < |cs|
    ensures NoAdjacentHoles(Splice(cs, LeftOf(cs, k), RightOf(cs, k), [hole]))
  {
  }

  // What free writes makes a layout again, under FreeOk.
  lemma FreeIsLayout(far: bool, s: HeapState, cs: seq<Chunk>, p: int, t: HeapState, ds: seq<Chunk>)
    requires Layout(s, cs) && FreeStep(far, s, cs, p, t, ds) && FreeOk(far, s.start, cs, BlockOf(cs, p))
    ensures Layout(t, ds)
  {
    hide Word, HoleAddrs, Splice, FreeChunks, Rest, NoAdjacentHoles, Records, FreedIndex, Distinct;
    var k := BlockOf(cs, p);
    var i, j, hole := LeftOf(cs, k), RightOf(cs, k), FreedHole(cs, s.start, s.end, k);
    FreeIsSplice(cs, s.start, s.end, k);
    FreedHoleFits(s, cs, k, far);
    OneRecord(t.mem, hole);
    SpliceShape(s, cs, i, j, [hole], t, StartOf(cs, s.end, j));
    SpliceMovesHoles(cs, s.start, s.end, i, j, [hole]);
    HolesOfOne(hole);
    InsideIsNeighbours(cs, k);
    NeighboursAreHoles(s, cs, k);
    FreedIndexLists(s, cs, k, t.mem);
    FreedApart(cs, k, hole);
  }

  lemma FreedHoleFits(s: HeapState, cs: seq<Chunk>, k: nat, far: bool)
    requires Layout(s, cs) && k < |cs| && FreeOk(far, s.start, cs, k)
    ensures FreedHole(cs, s.start, s.end, k).size >= OVERHEAD && s.start <= cs[LeftOf(cs, k)].addr
    ensures RightOf(cs, k) < |cs| ==> FreedHole(cs, s.start, s.end, k).End() == cs[RightOf(cs, k)].addr
  {
    hide Word, Records;
    var i, j := LeftOf(cs, k), RightOf(cs, k);
    TilesWithin(cs, s.start, s.end, i);
    if j < |cs| { TilesOrdered(cs, s.start, s.end, i, j); }
  }

  // A live pointer is not null, and its block's header and footer carry the magic number.
  lemma LivePasses(s: HeapState, cs: seq<Chunk>, p: int)
    requires Layout(s, cs) && p in LivePtrs(cs) && 0 <= s.start
    ensures p > 0 && Word(s.mem, p - HEADER_SIZE) == HEAP_MAGIC
    ensures Word(s.mem, p - HEADER_SIZE + SizeAt(s.mem, p - HEADER_SIZE) - FOOTER_SIZE) == HEAP_MAGIC
  {
    hide Word;
    LeftNeighbour(s, cs, BlockOf(cs, p));
  }

  lemma LiveIsWord(s: HeapState, cs: seq<Chunk>, p: int)
    requires Layout(s, cs) && p in LivePtrs(cs) && 0 <= s.start && s.end < WORD
    ensures 0 < p < WORD
  {
    hide Word;
    LeftNeighbour(s, cs, BlockOf(cs, p));
  }

  // Where the footer of a trimmed hole goes: in front of the new end, in 32-bit sums.
  lemma FooterAtEnd(size: int, header: int, oldLength: int, newLength: int, rest: int)
    requires header + size - (oldLength - newLength) >= FOOTER_SIZE && header + size < WORD && newLength <= oldLength
    requires rest == (size - (oldLength - newLength)) % WORD && 0 <= header && -WORD < size - (oldLength - newLength)
    ensures (header + rest - FOOTER_SIZE) % WORD == header + size - (oldLength - newLength) - FOOTER_SIZE
  {
    var exact := size - (oldLength - newLength);
    if exact < 0 {
      assert rest == exact + WORD;
    }
  }

  lemma TrimAt(cs: seq<Chunk>, i: nat, end: int)
    requires i + 1 == |cs|
    ensures |Trim(cs, i, end)| == |cs| && Trim(cs, i, end)[i] == Chunk(cs[i].addr, end - cs[i].addr, true)
  {
  }

  lemma SameButSelf(m: Bytes)
    ensures forall lo, hi, lo', hi' :: SameBut(m, m, lo, hi, lo', hi')
  {
  }

  // m and m' agree outside two stretches.
  ghost predicate SameBut(m: Bytes, m': Bytes, lo: int, hi: int, lo': int, hi': int) {
    forall x {:trigger m(x)} {:trigger m'(x)} :: (x < lo || hi <= x) && (x < lo' || hi' <= x) ==> m'(x) == m(x)
  }

  // What free's test behind hole i finds out, and what the join on the right amounts to when
  // there is nothing to join.
  lemma RightTested(s: HeapState, cs: seq<Chunk>, i: nat)
    requires Pending(s, cs, i) && ApartExceptAt(cs, i)
    ensures cs[i].End() in s.index <==> i + 1 < |cs| && cs[i + 1].hole
    ensures i + 1 < |cs| ==> (StaleHole(s.mem, cs[i].End()) <==> cs[i + 1].hole)
    ensures !(i + 1 < |cs| && cs[i + 1].hole) ==>
      MergeRight(cs, i) == cs && NoAdjacentHoles(cs) && Rest(s.index, cs, i) == s.index && forall far :: RightOk(far, cs, i)
  {
    hide Word, FooterAt;
    RightNeighbour(s, cs, i);
    if i + 1 < |cs| {
      assert cs[i + 1].hole ==> cs[i + 1].addr in HoleAddrs(cs);
      if !cs[i + 1].hole { BlockIsNoHole(cs, s.start, s.end, i + 1); }
    }
  }

  // What the join of hole i with hole i + 1 leaves, whichever footer is written.
  lemma RightJoined(far: bool, s: HeapState, cs: seq<Chunk>, i: nat, t: HeapState, footer: int)
    requires Pending(s, cs, i) && ApartExceptAt(cs, i) && i + 1 < |cs| && cs[i + 1].hole && SameBounds(s, t)
    requires cs[i + 1].addr in s.index && t.index == Unlisted(s.index, cs[i + 1].addr)
    requires footer == cs[i + 1].End() - FOOTER_SIZE && SameOutside(s.mem, t.mem, cs[i].addr, cs[i + 1].End())
    requires HeaderAt(t.mem, Chunk(cs[i].addr, cs[i].size + cs[i + 1].size, true))
    requires i + 2 < |cs| ==> Word(t.mem, footer) == HEAP_MAGIC && OwnerAt(t.mem, footer) == if far then cs[i].addr else cs[i + 1].addr
    ensures t.index == Rest(s.index, cs, i) && (cs[i].addr in t.index <==> cs[i].addr in s.index) && cs[i + 1].addr !in t.index
    ensures RightOk(far, cs, i) ==>
      var ds := MergeRight(cs, i);
      && NoAdjacentHoles(ds) && Pending(t, ds, i)
      && ds[i] == Chunk(cs[i].addr, cs[i].size + cs[i + 1].size, true) && ds[i].End() == cs[i + 1].End()
    ensures !RightOk(far, cs, i) ==> footer + FOOTER_SIZE < s.end && OwnerAt(t.mem, footer) != cs[i].addr
  {
    hide Word, HoleAddrs, Records, SameOutside, Without;
    RightNeighbour(s, cs, i);
    RemoveKeepsDistinct(s.index, Position(s.index, cs[i + 1].addr));
    MergeRightHoles(cs, s.start, s.end, i);
    MergeRightAt(cs, i);
    if RightOk(far, cs, i) {
      MergeRightShape(s, cs, i, t);
      MergeRightApart(cs, i);
    }
  }

  lemma MergeRightAt(cs: seq<Chunk>, i: nat)
    requires i + 1 < |cs| && cs[i + 1].hole
    ensures |MergeRight(cs, i)| == |cs| - 1
    ensures MergeRight(cs, i)[i] == Chunk(cs[i].addr, cs[i].size + cs[i + 1].size, true)
  {
  }

  // The entry found in a distinct index is the one to take out.
  lemma UnlistedAt(index: seq<u32>, it: nat)
    requires it < |index| && Distinct(index)
    ensures Unlisted(index, index[it]) == Without(index, it)
  {
  }

  // Every live block ends in front of the end of the region, and, when the hole that freeing
  // block k leaves touches the end, every other one in front of that hole.
  lemma OthersStayInside(s: HeapState, cs: seq<Chunk>, k: nat)
    requires Layout(s, cs) && k < |cs| && !cs[k].hole
    ensures forall j :: 0 <= j < |cs| && !cs[j].hole && j != k ==> cs[j].End() <= s.end
    ensures TouchesEnd(cs, k) ==> forall j :: 0 <= j < |cs| && !cs[j].hole && j != k ==> cs[j].End() <= cs[LeftOf(cs, k)].addr
  {
    hide Word, Records;
    var i := LeftOf(cs, k);
    forall j | 0 <= j < |cs| && !cs[j].hole && j != k
      ensures cs[j].End() <= s.end && (TouchesEnd(cs, k) ==> cs[j].End() <= cs[i].addr)
    {
      TilesWithin(cs, s.start, s.end, j);
      if TouchesEnd(cs, k) { TilesOrdered(cs, s.start, s.end, j, i); }
    }
  }

  lemma HoleReach(s: HeapState, cs: seq<Chunk>, i: nat)
    requires Pending(s, cs, i)
    ensures SizeAt(s.mem, cs[i].addr) == cs[i].size && (cs[i].End() == s.end <==> i + 1 == |cs|)
    ensures cs[i].size >= OVERHEAD
  {
    RightNeighbour(s, cs, i);
  }

  lemma StaleKept(m: Bytes, m': Bytes, lo: int, hi: int, a: int)
    requires SameOutside(m, m', lo, hi) && hi <= a
    ensures StaleHole(m', a) <==> StaleHole(m, a)
  {
    WordKept(m, m', lo, hi, a);
  }

  // All that free writes lies in the hole it leaves; m is the memory after the joins.
  lemma FreeIsStep(far: bool, s: HeapState, cs: seq<Chunk>, p: int, m: Bytes, t: HeapState, ds: seq<Chunk>)
    requires Layout(s, cs) && p in LivePtrs(cs) && Layout(t, ds) && FreeOk(far, s.start, cs, BlockOf(cs, p))
    requires t.start == s.start && t.max == s.max && 0 <= s.start && s.start + HEAP_MIN_SIZE <= s.end < WORD
    requires var k := BlockOf(cs, p); var i := LeftOf(cs, k); var stop := StartOf(cs, s.end, RightOf(cs, k));
      && ds == FreeChunks(cs, k, s.start + HEAP_MIN_SIZE)
      && SameOutside(s.mem, m, cs[i].addr, stop)
      && (if TouchesEnd(cs, k) then SameOutside(m, t.mem, cs[i].addr, t.end) && t.end == s.start + HEAP_MIN_SIZE &&
                                    FooterAt(t.mem, Chunk(cs[i].addr, t.end - cs[i].addr, true))
          else t.mem == m && t.end == s.end)
    requires var k := BlockOf(cs, p); 0 <= cs[k].addr < WORD ==> t.index == FreedIndex(s.index, cs, k, t.mem)
    requires var k := BlockOf(cs, p); k + 1 == |cs| ==> StaleHole(m, cs[k].addr)
    ensures FreeStep(far, s, cs, p, t, ds)
  {
    hide Word, HeaderAt, Indexed, NoAdjacentHoles, FreedIndex, Splice, FreeChunks, LivePtrs, StaleHole;
    var k := BlockOf(cs, p);
    var i, j := LeftOf(cs, k), RightOf(cs, k);
    var a, stop, hole := cs[i].addr, StartOf(cs, s.end, j), FreedHole(cs, s.start, s.end, k);
    TilesWithin(cs, s.start, s.end, k);
    FreeIsSplice(cs, s.start, s.end, k);
    SpliceAgain(cs, i, j, hole, 0, hole);
    SplicedIn(cs, i, j, hole);
    assert RecordedAt(t.mem, ds, i);
    if TouchesEnd(cs, k) {
      SameOutsideTrans(s.mem, m, t.mem, a, stop, a, t.end, a, stop);
      if t.end <= cs[k].addr { StaleKept(m, t.mem, a, t.end, cs[k].addr); }
    }
  }

  lemma SplicedIn(cs: seq<Chunk>, i: nat, j: nat, c: Chunk)
    requires i <= j <= |cs|
    ensures |Splice(cs, i, j, [c])| == i + 1 + |cs| - j && Splice(cs, i, j, [c])[i] == c
  {
  }

  // The index lists a hole whose footer does not point back: no tiling can explain it.
  lemma BrokenFooter(s: HeapState, a: u32)
    requires a in s.index && a + SizeAt(s.mem, a) < s.end
    requires OwnerAt(s.mem, a + SizeAt(s.mem, a) - FOOTER_SIZE) != a
    ensures forall cs :: !Layout(s, cs)
  {
    forall cs ensures !Layout(s, cs) {
      if Layout(s, cs) {
        var k := IndexEntryIsHole(s, cs, a);
      }
    }
  }

  // The index lists a hole without room in front of the end.
  lemma BrokenEnd(s: HeapState, a: u32)
    requires a in s.index && a + OVERHEAD > s.end
    ensures forall cs :: !Layout(s, cs)
  {
    forall cs ensures !Layout(s, cs) {
      if Layout(s, cs) {
        var k := IndexEntryIsHole(s, cs, a);
      }
    }
  }

  // The bytes at a, a listed address, do not read as the header of a hole of a tiling.
  ghost predicate NoHoleAt(m: Bytes, a: int) {
    Word(m, a) != HEAP_MAGIC || HoleFlag(m, a) != 1 || SizeAt(m, a) < OVERHEAD
  }

  lemma BrokenEntry(s: HeapState, a: u32)
    requires a in s.index && (NoHoleAt(s.mem, a) || a + SizeAt(s.mem, a) > s.end)
    ensures forall cs :: !Layout(s, cs)
  {
    forall cs ensures !Layout(s, cs) {
      if Layout(s, cs) {
        var k := IndexEntryIsHole(s, cs, a);
      }
    }
  }

  // What can be read at rest when the records of a hole of left bytes have been written
  // there, if that is too little for a chunk: the footer runs over the header.
  ghost predicate LeftBehind(m: Bytes, rest: int, left: int, end: int) {
    && (left < 0 ==> SizeAt(m, rest) == left + WORD)
    && (0 < left <= HEADER_SIZE ==> NoHoleAt(m, rest))
    && (16 <= left < OVERHEAD && rest + left - FOOTER_SIZE < end ==> SizeAt(m, rest) >= 0x1200_0000)
  }

  // Two magic numbers cannot overlap.
  lemma MagicOnce(m: Bytes, a: int, d: int)
    requires Word(m, a) == HEAP_MAGIC && 1 <= d <= 3
    ensures Word(m, a + d) != HEAP_MAGIC
  {
    hide Word;
    WordBytes(m, a);
    WordBytes(m, a + d);
  }

  // The footer at rest + left - 8, whose first word is the magic number, against the header.
  lemma RestOverwritten(m: Bytes, m': Bytes, rest: int, left: int, end: int)
    requires left != 0 && HeaderAt(m, Chunk(rest, left % WORD, true)) && -WORD < left < WORD
    requires Word(m', rest + left - FOOTER_SIZE) == HEAP_MAGIC
    requires SameOutside(m, m', rest + left - FOOTER_SIZE, rest + left)
    ensures LeftBehind(m', rest, left, end)
  {
    hide Word;
    if left < 0 || 0 < left <= 8 {
      WordKept(m, m', rest + left - FOOTER_SIZE, rest + left, rest + 8);
    } else if left <= 11 {
      if Word(m', rest) == HEAP_MAGIC { MagicOnce(m', rest, left - FOOTER_SIZE); }
    } else if left == 12 {
      WordBytes(m', rest + 4);
    } else if 16 <= left < OVERHEAD {
      WordBytes(m', rest + left - FOOTER_SIZE);
      LastByte(m', rest + 8);
    }
  }

  lemma LastByte(m: Bytes, a: int)
    ensures Word(m, a) >= 0x100_0000 * m(a + 3)
  {
  }

  // What comes out of free, given the heap u after the joins and the heap t at the end.
  lemma FreeOutcome(far: bool, s: HeapState, cs: seq<Chunk>, p: int, u: HeapState, t: HeapState, ds: seq<Chunk>, header: int, footer: int)
    requires Layout(s, cs) && Bounds(s) && p in LivePtrs(cs)
    requires u.start == t.start == s.start && u.max == t.max == s.max && u.end == s.end
    requires var k := BlockOf(cs, p);
      header == cs[LeftOf(cs, k)].addr && footer + FOOTER_SIZE == header + SizeAt(u.mem, header)
    requires header in t.index
    requires var k := BlockOf(cs, p); k + 1 == |cs| ==> StaleHole(u.mem, cs[k].addr)
    requires var k := BlockOf(cs, p); 0 <= cs[k].addr < WORD ==> t.index == FreedIndex(s.index, cs, k, t.mem)
    requires var k := BlockOf(cs, p);
      RightOk(far, cs, k) ==>
        && (footer + FOOTER_SIZE == u.end <==> TouchesEnd(cs, k))
        && SameOutside(s.mem, u.mem, header, StartOf(cs, s.end, RightOf(cs, k)))
    requires !RightOk(far, cs, BlockOf(cs, p)) ==> footer + FOOTER_SIZE < u.end && OwnerAt(u.mem, footer) != header
    requires var k := BlockOf(cs, p); var minEnd := s.start + HEAP_MIN_SIZE;
      if footer + FOOTER_SIZE != u.end then
        t.mem == u.mem && t.end == u.end && (RightOk(far, cs, k) ==> Layout(t, ds) && ds == FreeChunks(cs, k, minEnd))
      else if header + OVERHEAD <= minEnd then
        t.end == minEnd && Layout(t, ds) && ds == FreeChunks(cs, k, minEnd) && SameOutside(u.mem, t.mem, header, t.end) &&
        FooterAt(t.mem, Chunk(header, t.end - header, true))
      else header + OVERHEAD > t.end
    ensures var k := BlockOf(cs, p);
      if FreeOk(far, s.start, cs, k) then Layout(t, ds) && Bounds(t) && FreeStep(far, s, cs, p, t, ds)
      else forall es :: !Layout(t, es)
  {
    hide Word, HeaderAt, FooterAt, Layout, Splice, FreeChunks, FreedIndex, FreeStep, LivePtrs, SameOutside, StaleHole;
    var k := BlockOf(cs, p);
    if FreeOk(far, s.start, cs, k) {
      FreeIsStep(far, s, cs, p, u.mem, t, ds);
    } else if !RightOk(far, cs, k) {
      BrokenFooter(t, header);
    } else {
      BrokenEnd(t, header);
    }
  }

  // The bytes at a read as the header of a hole.
  ghost predicate StaleHole(m: Bytes, a: int) {
    Word(m, a) == HEAP_MAGIC && HoleFlag(m, a) != 0
  }

  lemma Marked(m: Bytes, m': Bytes, c: Chunk)
    requires HeaderAt(m, c) && FooterAt(m, c) && c.size >= OVERHEAD
    requires SameOutside(m, m', c.addr + 4, c.addr + 5) && m'(c.addr + 4) == 1
    ensures HeaderAt(m', Chunk(c.addr, c.size, true)) && FooterAt(m', Chunk(c.addr, c.size, true))
  {
    WordKept(m, m', c.addr + 4, c.addr + 5, c.addr);
    WordKept(m, m', c.addr + 4, c.addr + 5, c.addr + 8);
    FooterKept(m, m', c.addr + 4, c.addr + 5, c);
  }

  // A listed hole fits n, and every hole that does ends inside the address space.
  ghost predicate CanCarve(s: HeapState, n: int) {
    && Fits(s, n)
    && forall i :: 0 <= i < |s.index| && SizeAt(s.mem, s.index[i]) >= n ==> EndsInside(s, i)
  }

  ghost predicate EndsInside(s: HeapState, i: int)
    requires 0 <= i < |s.index|
  {
    s.index[i] as int + SizeAt(s.mem, s.index[i]) as int < WORD
  }

  // A listed hole other than chunk k keeps its size when only chunk k is written to.
  lemma SizeKept(s: HeapState, cs: seq<Chunk>, k: nat, hi: int, m: Bytes, a: u32)
    requires Layout(s, cs) && k < |cs| && SameOutside(s.mem, m, cs[k].addr, hi)
    requires a in s.index && a != cs[k].addr && (k + 1 < |cs| ==> hi <= cs[k].End())
    ensures SizeAt(m, a) == SizeAt(s.mem, a)
  {
    hide Word;
    var j := IndexEntryIsHole(s, cs, a);
    if j < k { TilesOrdered(cs, s.start, s.end, j, k); }
    if k < j { TilesOrdered(cs, s.start, s.end, k, j); }
    WordKept(s.mem, m, cs[k].addr, hi, cs[j].addr + 8);
  }

  // Growth resizes the endmost hole in place, and it ends up larger than all the others:
  // the index stays sorted exactly when that hole is its last entry.
  lemma GrowKeepsSortedIff(s: HeapState, cs: seq<Chunk>, n: int, t: HeapState, ds: seq<Chunk>)
    requires Layout(s, cs) && SortedBySize(s) && n >= OVERHEAD && GrowStep(s, cs, n, t, ds) && GrowOk(cs)
    ensures t.index != []
    ensures SortedBySize(t) <==> t.index[|t.index| - 1] == GrownHole(cs, s.end, t.end - s.end).addr
  {
    hide Word;
    var c := GrownHole(cs, s.end, t.end - s.end);
    var last := |ds| - 1;
    GrowIsLayout(s, cs, n, t, ds);
    assert ds[last] == c && RecordedAt(t.mem, ds, last) && c.addr in HoleAddrs(ds);
    var e :| 0 <= e < |t.index| && t.index[e] == c.addr;
    if cs[|cs| - 1].hole {
      forall i | 0 <= i < |s.index| && i != e
        ensures SizeAt(t.mem, t.index[i]) == SizeAt(s.mem, s.index[i]) < n <= SizeAt(t.mem, t.index[e])
      {
        assert s.index[i] != s.index[e];
        SizeKept(s, cs, |cs| - 1, t.end, t.mem, s.index[i]);
      }
      if e + 1 < |t.index| {
        assert SizeAt(t.mem, t.index[e]) > SizeAt(t.mem, t.index[e + 1]);
      }
    }
  }

  function Sizes(m: Bytes): u32 -> int {
    (a: u32) => SizeAt(m, a)
  }

  // Free resizes a hole on the left in place: the index stays sorted exactly when there is
  // none, or when the size of the joined and trimmed hole still lies between those of its
  // neighbours in the index, from which a hole on the right is gone.
  lemma FreeKeepsSortedIff(far: bool, s: HeapState, cs: seq<Chunk>, p: int, t: HeapState, ds: seq<Chunk>)
    requires Layout(s, cs) && SortedBySize(s)
    requires FreeStep(far, s, cs, p, t, ds) && FreeOk(far, s.start, cs, BlockOf(cs, p))
    ensures var k := BlockOf(cs, p); var rest, hole := Rest(s.index, cs, k), FreedHole(cs, s.start, s.end, k);
      SortedBySize(t) <==>
        LeftOf(cs, k) == k || (hole.addr in rest && FitsAt(rest, Position(rest, hole.addr), Sizes(s.mem), hole.size))
  {
    hide Word, SizeAt, Layout, Inserted, SameOutside, Rest, SortedBySize, LivePtrs, FreeChunks, FitsAt, FreedHole, StrictWeak;
    var k := BlockOf(cs, p);
    var i, rest, hole := LeftOf(cs, k), Rest(s.index, cs, k), FreedHole(cs, s.start, s.end, k);
    RestIsSorted(s, cs, k);
    RestSizesKept(s, cs, k, t.mem);
    SortedMeansBySize(t);
    FreedHoleSize(cs, s.start, s.end, k, t.mem);
    if i == k {
      SameSizes(rest, Sizes(s.mem), Sizes(t.mem), hole.addr);
      SizeLessIsStrictWeak(t.mem);
      SortedOnMeansSorted(rest, t.mem);
      InsertKeepsOrder(rest, cs[k].addr, SizeLess(t.mem));
    } else {
      var q := Position(rest, hole.addr);
      ResizeInPlaceKeepsOrderIff(rest, q, Sizes(s.mem), Sizes(t.mem));
      SortedOnMeansSorted(rest, t.mem);
    }
  }

  lemma FreedHoleSize(cs: seq<Chunk>, lo: int, hi: int, k: nat, m: Bytes)
    requires k < |cs| && HeaderAt(m, FreedHole(cs, lo, hi, k))
    ensures var hole := FreedHole(cs, lo, hi, k); hole.addr == cs[LeftOf(cs, k)].addr && SizeAt(m, hole.addr) == hole.size
  {
  }

  lemma SortedOnMeansSorted(index: seq<u32>, m: Bytes)
    ensures SortedOn(index, Sizes(m)) <==> Sorted(index, SizeLess(m))
  {
    hide SizeAt;
    if SortedOn(index, Sizes(m)) {
      forall i, j | 0 <= i < j < |index| ensures !SizeLess(m)(index[j], index[i]) {
        assert Sizes(m)(index[i]) <= Sizes(m)(index[j]);
      }
    }
    if Sorted(index, SizeLess(m)) {
      forall i, j | 0 <= i < j < |index| ensures Sizes(m)(index[i]) <= Sizes(m)(index[j]) {
        assert !SizeLess(m)(index[j], index[i]);
      }
    }
  }

  lemma SameSizes(index: seq<u32>, size: u32 -> int, size': u32 -> int, a: int)
    requires SortedOn(index, size) && a !in index
    requires forall q :: 0 <= q < |index| && index[q] != a ==> size'(index[q]) == size(index[q])
    ensures SortedOn(index, size')
  {
  }

  lemma RestIsSorted(s: HeapState, cs: seq<Chunk>, k: nat)
    requires Layout(s, cs) && SortedBySize(s) && k < |cs| && !cs[k].hole
    ensures var rest, a := Rest(s.index, cs, k), cs[LeftOf(cs, k)].addr;
      Distinct(rest) && SortedOn(rest, Sizes(s.mem)) && (a in rest <==> LeftOf(cs, k) < k)
  {
    hide Word, SizeAt, Shape, Without, HoleAddrs, SizeLess;
    RestLists(s, cs, k);
    NeighboursAreHoles(s, cs, k);
    SortedMeansBySize(s);
    if RightOf(cs, k) == k + 2 {
      RemoveKeepsOrder(s.index, Position(s.index, cs[k + 1].addr), SizeLess(s.mem));
    }
    SortedOnMeansSorted(Rest(s.index, cs, k), s.mem);
  }

  // Freeing writes to no header of a listed hole but that of the joined one.
  lemma RestSizesKept(s: HeapState, cs: seq<Chunk>, k: nat, m: Bytes)
    requires Layout(s, cs) && k < |cs| && !cs[k].hole
    requires SameOutside(s.mem, m, cs[LeftOf(cs, k)].addr, StartOf(cs, s.end, RightOf(cs, k)))
    ensures var rest := Rest(s.index, cs, k);
      forall q :: 0 <= q < |rest| && rest[q] != cs[LeftOf(cs, k)].addr ==> Sizes(m)(rest[q]) == Sizes(s.mem)(rest[q])
  {
    hide Word, SizeAt, SameOutside, Rest, Shape;
    var rest := Rest(s.index, cs, k);
    RestLists(s, cs, k);
    forall q | 0 <= q < |rest| && rest[q] != cs[LeftOf(cs, k)].addr
      ensures SizeAt(m, rest[q]) == SizeAt(s.mem, rest[q])
    {
      assert rest[q] in rest;
      OutsideSizeKept(s, cs, k, m, rest[q]);
    }
  }

  lemma OutsideSizeKept(s: HeapState, cs: seq<Chunk>, k: nat, m: Bytes, a: u32)
    requires Layout(s, cs) && k < |cs| && !cs[k].hole
    requires SameOutside(s.mem, m, cs[LeftOf(cs, k)].addr, StartOf(cs, s.end, RightOf(cs, k)))
    requires a in s.index && a != cs[LeftOf(cs, k)].addr && !(RightOf(cs, k) == k + 2 && a == cs[k + 1].addr)
    ensures SizeAt(m, a) == SizeAt(s.mem, a)
  {
    hide Word, SameOutside, HeaderAt, FooterAt;
    var i, j := LeftOf(cs, k), RightOf(cs, k);
    var q := IndexEntryIsHole(s, cs, a);
    if q < i { TilesOrdered(cs, s.start, s.end, q, i); }
    if j < q { TilesOrdered(cs, s.start, s.end, j, q); }
    WordKept(s.mem, m, cs[i].addr, StartOf(cs, s.end, j), a + 8);
  }

  // After a growth that goes right, the grown hole fits.
  lemma GrownFits(s: HeapState, cs: seq<Chunk>, n: int, t: HeapState, ds: seq<Chunk>)
    requires Layout(s, cs) && n >= OVERHEAD && GrowStep(s, cs, n, t, ds) && GrowOk(cs) && t.end < WORD
    ensures CanCarve(t, n)
  {
    GrowIsLayout(s, cs, n, t, ds);
    var c := GrownHole(cs, s.end, t.end - s.end);
    var last := |ds| - 1;
    assert ds[last] == c;
    assert c.addr in HoleAddrs(ds);
    assert RecordedAt(t.mem, ds, last);
    var i :| 0 <= i < |t.index| && t.index[i] == c.addr;
    GoodCanCarve(t, ds, n);
  }

  lemma {:induction false} FirstFitFrom(s: HeapState, n: int, i: nat) returns (it: nat)
    requires i < |s.index| && SizeAt(s.mem, s.index[i]) >= n
    ensures FirstFit(s, n, it)
  {
    if j :| 0 <= j < i && SizeAt(s.mem, s.index[j]) >= n {
      it := FirstFitFrom(s, n, j);
    } else {
      it := i;
    }
  }

  lemma FirstFitFits(s: HeapState, n: int)
    ensures forall it :: FirstFit(s, n, it) ==> Fits(s, n)
  {
  }

  lemma FirstFitUnique(s: HeapState, n: int, it: int)
    requires FirstFit(s, n, it)
    ensures forall i :: FirstFit(s, n, i) ==> i == it
  {
  }

  lemma SomeFirstFit(s: HeapState, n: int)
    requires Fits(s, n)
    ensures exists it :: FirstFit(s, n, it)
  {
    var i :| 0 <= i < |s.index| && SizeAt(s.mem, s.index[i]) >= n;
    var it := FirstFitFrom(s, n, i);
  }

  lemma GoodCanCarve(s: HeapState, cs: seq<Chunk>, n: int)
    requires Layout(s, cs) && s.end < WORD && Fits(s, n)
    ensures CanCarve(s, n)
  {
    forall i | 0 <= i < |s.index| ensures EndsInside(s, i) {
      var k := IndexEntryIsHole(s, cs, s.index[i]);
    }
  }

  // After a growth that goes astray, only the endmost hole fits, and a block starts inside
  // the n bytes that would be carved out of it.
  lemma MisGrownFits(s: HeapState, cs: seq<Chunk>, n: int, t: HeapState)
    requires Layout(s, cs) && !GrowOk(cs) && !Fits(s, n) && MisGrown(s, n, t) && s.end < WORD
    ensures CanCarve(t, n)
    ensures forall it :: FirstFit(t, n, it) ==> Overlaps(cs, t.index[it] + HEADER_SIZE, n)
  {
    hide Word, HoleAddrs;
    var e :| IsEndmost(s, e) && GrownAt(s, n, t, e);
    var k := EndmostHole(s, cs, e);
    assert SizeAt(s.mem, s.index[e]) < n;
    assert Overlaps(cs, t.index[e] + HEADER_SIZE, n) by { assert cs[k + 1].addr == cs[k].End(); }
    assert forall i :: 0 <= i < |t.index| && i != e ==> SizeAt(t.mem, t.index[i]) < n;
  }

  // The endmost hole took the new bytes although a block lies between it and the old end:
  // it is now big enough, and every other listed hole is as it was.
  ghost predicate MisGrown(s: HeapState, n: int, t: HeapState) {
    && t.index == s.index
    && exists e :: IsEndmost(s, e) && GrownAt(s, n, t, e)
  }

  ghost predicate GrownAt(s: HeapState, n: int, t: HeapState, e: int)
    requires 0 <= e < |s.index| == |t.index|
  {
    && SizeAt(t.mem, s.index[e]) >= n && EndsInside(t, e)
    && forall k :: 0 <= k < |s.index| && k != e ==> SizeAt(t.mem, s.index[k]) == SizeAt(s.mem, s.index[k])
  }

  ghost predicate IsEndmost(s: HeapState, e: int) {
    0 <= e < |s.index| && forall k :: 0 <= k < |s.index| ==> s.index[k] <= s.index[e]
  }

  lemma NoEntryNoHole(s: HeapState, cs: seq<Chunk>)
    requires Layout(s, cs) && forall k :: 0 <= k < |s.index| ==> s.index[k] <= 0
    requires s.start > 0
    ensures s.index == [] && HoleAddrs(cs) == {} && cs != [] && !cs[|cs| - 1].hole
  {
    if s.index != [] {
      var k := IndexEntryIsHole(s, cs, s.index[0]);
    }
    assert cs[|cs| - 1].hole ==> cs[|cs| - 1].addr in HoleAddrs(cs);
  }

  // The listed hole with the highest address: the last chunk, if that is a hole, and else
  // a hole with a block right behind it.
  lemma EndmostHole(s: HeapState, cs: seq<Chunk>, e: int) returns (k: nat)
    requires Layout(s, cs) && IsEndmost(s, e)
    ensures k < |cs| && cs[k].addr == s.index[e] && cs[k].hole && HeaderAt(s.mem, cs[k]) && cs[k].End() <= s.end
    ensures cs[k].addr in HoleAddrs(cs) && (cs[|cs| - 1].hole <==> k + 1 == |cs|) && (GrowOk(cs) <==> k + 1 == |cs|)
    ensures cs[k].size >= OVERHEAD && (k + 1 == |cs| ==> cs[k].End() == s.end)
    ensures k + 1 < |cs| ==> !cs[k + 1].hole && cs[k + 1].addr == cs[k].End()
  {
    k := IndexEntryIsHole(s, cs, s.index[e]);
    var last := |cs| - 1;
    if cs[last].hole {
      assert cs[last].addr in HoleAddrs(cs);
      assert cs[last].addr in s.index;
      if k < last { TilesOrdered(cs, s.start, s.end, k, last); }
    }
  }

  // The bounds of a heap that has grown for n bytes.
  ghost predicate GrownBounds(s: HeapState, n: int, t: HeapState) {
    && t.start == s.start && t.max == s.max && t.end <= t.max
    && t.end - s.start == GrownLength(s.end - s.start + n)
  }

  lemma GrewNewHole(s: HeapState, cs: seq<Chunk>, n: int, t: HeapState)
    requires Layout(s, cs) && HoleAddrs(cs) == {} && !cs[|cs| - 1].hole && !Fits(s, n) && n >= OVERHEAD
    requires GrownBounds(s, n, t) && t.index == [s.end]
    requires var c := Chunk(s.end, t.end - s.end, true);
      HeaderAt(t.mem, c) && FooterAt(t.mem, c) && SameOutside(s.mem, t.mem, s.end, t.end)
    ensures GrowOk(cs) && GrowStep(s, cs, n, t, GrowChunks(cs, s.end, t.end - s.end)) && Layout(t, GrowChunks(cs, s.end, t.end - s.end))
  {
    hide HeaderAt, FooterAt, SameOutside, HoleAddrs, Fits, GrowChunks;
    GrowIsLayout(s, cs, n, t, GrowChunks(cs, s.end, t.end - s.end));
  }

  lemma GrewLastHole(s: HeapState, cs: seq<Chunk>, n: int, t: HeapState)
    requires Layout(s, cs) && cs[|cs| - 1].hole && !Fits(s, n) && n >= OVERHEAD
    requires GrownBounds(s, n, t) && t.index == s.index
    requires var last := cs[|cs| - 1]; var c := Chunk(last.addr, last.size + (t.end - s.end), true);
      HeaderAt(t.mem, c) && FooterAt(t.mem, c) && SameOutside(s.mem, t.mem, last.addr, t.end)
    ensures GrowOk(cs) && GrowStep(s, cs, n, t, GrowChunks(cs, s.end, t.end - s.end)) && Layout(t, GrowChunks(cs, s.end, t.end - s.end))
  {
    hide HeaderAt, FooterAt, SameOutside, HoleAddrs, Fits, GrowChunks;
    GrowIsLayout(s, cs, n, t, GrowChunks(cs, s.end, t.end - s.end));
  }

  lemma Resized(m: Bytes, m': Bytes, c: Chunk, size: u32)
    requires HeaderAt(m, c) && SizeAt(m', c.addr) == size && SameOutside(m, m', c.addr + 8, c.addr + 12)
    ensures HeaderAt(m', Chunk(c.addr, size, c.hole))
  {
    WordKept(m, m', c.addr + 8, c.addr + 12, c.addr);
  }

  lemma MisGrows(s: HeapState, cs: seq<Chunk>, e: int, c: Chunk, g: int, n: int, t: HeapState)
    requires Layout(s, cs) && IsEndmost(s, e) && c.addr == s.index[e] && t.index == s.index
    requires c.size + g >= n && c.End() + g < WORD && HeaderAt(t.mem, Chunk(c.addr, c.size + g, true))
    requires SameOutside(s.mem, t.mem, c.addr, c.End() + g)
    ensures MisGrown(s, n, t)
  {
    hide Word;
    forall k | 0 <= k < |s.index| && k != e ensures SizeAt(t.mem, s.index[k]) == SizeAt(s.mem, s.index[k]) {
      var i := IndexEntryIsHole(s, cs, s.index[k]);
      var j := IndexEntryIsHole(s, cs, s.index[e]);
      if j < i { TilesOrdered(cs, s.start, s.end, j, i); }
      if i < j { TilesOrdered(cs, s.start, s.end, i, j); }
      WordKept(s.mem, t.mem, c.addr, c.End() + g, s.index[k] + 8);
    }
    assert GrownAt(s, n, t, e);
  }

  // The new index: the hole is out and the remainder, if any, is in its place by size.
  ghost predicate CarvedIndex(s: HeapState, it: int, n: int, m: Bytes, index: seq<u32>)
    requires 0 <= it < |s.index|
  {
    var hole := s.index[it];
    var size := SizeAt(s.mem, hole);
    if size - n < OVERHEAD then index == Without(s.index, it)
    else 0 <= hole + n < WORD && index == Inserted(Without(s.index, it), hole + n, SizeLess(m))
  }

  // What is carved out of hole c has its records, footers at or past end excepted.
  ghost predicate CarvedRecords(m: Bytes, c: Chunk, n: int, end: int) {
    forall d :: d in Carved(c, n) ==> HeaderAt(m, d) && (d.End() - FOOTER_SIZE < end ==> FooterAt(m, d))
  }

  // The block is as small as it can be, and what is left of the hole is a hole.
  lemma CarvedSizes(m: Bytes, c: Chunk, n: int, end: int)
    requires CarvedRecords(m, c, n, end)
    ensures Word(m, c.addr + 8) == (if c.size - n < 20 then c.size else n) && m(c.addr + 4) == 0
    ensures c.size - n >= 20 ==> Word(m, c.addr + n + 8) == c.size - n && m(c.addr + n + 4) == 1
  {
    hide Word;
    assert Carved(c, n)[0] in Carved(c, n);
    if c.size - n >= OVERHEAD { assert Carved(c, n)[1] in Carved(c, n); }
  }

  lemma CarveIsLayout(s: HeapState, cs: seq<Chunk>, n: int, t: HeapState, ds: seq<Chunk>, p: int, it: int, k: nat)
    requires Layout(s, cs) && n >= OVERHEAD && CarveAt(s, cs, n, t, ds, p, it, k)
    ensures cs[k].hole && cs[k].size >= n && Layout(t, ds)
    ensures SameOutside(s.mem, t.mem, cs[k].addr, cs[k].End())
    ensures SortedBySize(s) ==> SortedBySize(t)
  {
    hide Word, SortedBySize, CarvedIndex, CarveChunks, HoleAddrs;
    var j := IndexEntryIsHole(s, cs, s.index[it]);
    TilesInjective(cs, s.start, s.end, j, k);
    assert cs[k] == Chunk(s.index[it], SizeAt(s.mem, s.index[it]), true);
    CarvedIndexLists(s, cs, it, k, n, t);
    CarveKeepsLayout(s, cs, k, n, t);
    if SortedBySize(s) { CarveKeepsSorted(s, cs, it, k, n, t); }
  }

  // ---------------------------------------------------------------- page-aligned requests

  // Hole it of the index.
  ghost function HoleAt(s: HeapState, it: nat): Chunk
    requires it < |s.index|
  {
    Chunk(s.index[it], SizeAt(s.mem, s.index[it]), true)
  }

  // What a page-aligned request leaves of hole c in front of its block.
  function Front(c: Chunk): Chunk {
    Chunk(c.addr, PAGE - c.addr % PAGE - HEADER_SIZE, true)
  }

  function Back(c: Chunk): Chunk {
    Chunk(Front(c).End(), c.size - Front(c).size, true)
  }

  // Whether hole c can serve a page-aligned request of n bytes: the front piece is a chunk,
  // the rest fits n, and what then remains is nothing or a chunk. As committed, alloc does
  // not test this.
  predicate AlignedOk(c: Chunk, n: int) {
    && c.addr >= PAGE && Front(c).size >= OVERHEAD && Back(c).size >= n
    && (Back(c).size == n || Back(c).size - n >= OVERHEAD)
  }

  function CarvedAligned(c: Chunk, n: int): seq<Chunk> {
    [Front(c)] + Carved(Back(c), n)
  }

  // What alloc writes for a page-aligned request into the listed hole it chose, and to the
  // index, where the hole stays as its front piece.
  ghost predicate AlignedWrites(s: HeapState, it: nat, n: int, t: HeapState)
    requires it < |s.index|
  {
    var c := HoleAt(s, it);
    && SameBounds(s, t) && SameOutside(s.mem, t.mem, c.addr, c.End())
    && HeaderAt(t.mem, Front(c)) && FooterAt(t.mem, Front(c)) && CarvedRecords(t.mem, Back(c), n, s.end)
    && if Back(c).size == n then t.index == s.index
       else 0 <= Back(c).addr + n < WORD && t.index == Inserted(s.index, Back(c).addr + n, SizeLess(t.mem))
  }

  ghost predicate AlignedAt(s: HeapState, cs: seq<Chunk>, n: int, t: HeapState, ds: seq<Chunk>, p: int, it: nat, k: nat) {
    && it < |s.index| && k < |cs| && cs[k].addr == s.index[it] && AlignedWrites(s, it, n, t)
    && p == Back(HoleAt(s, it)).addr + HEADER_SIZE && ds == Splice(cs, k, k + 1, CarvedAligned(HoleAt(s, it), n))
  }

  // The listed hole that find_smallest_hole gives for a page-aligned request.
  ghost predicate FirstAligned(s: HeapState, n: u32, it: int) {
    && 0 <= it < |s.index| && HoleFits(s.mem, s.index[it], n, true)
    && forall i :: 0 <= i < it ==> !HoleFits(s.mem, s.index[i], n, true)
  }

  ghost predicate AlignedStep(s: HeapState, cs: seq<Chunk>, size: int, t: HeapState, ds: seq<Chunk>, p: int) {
    && 0 <= size + OVERHEAD < WORD
    && var n := size + OVERHEAD;
      exists it: nat, k: nat :: FirstAligned(s, n, it) && AlignedAt(s, cs, n, t, ds, p, it, k)
  }

  // A page-aligned request goes right without growth: a hole passes the test, and the first
  // one that does has room for the pieces it is cut into.
  ghost predicate CanAlign(s: HeapState, size: int) {
    && 0 <= size && size + OVERHEAD < WORD
    && var n := size + OVERHEAD;
      exists it: nat :: FirstAligned(s, n, it) && AlignedOk(HoleAt(s, it), n)
  }

  // What is left of hole c behind the block, which takes the whole size of the hole when
  // that is less than a chunk more than n; and where it lies.
  function AlignedLeft(c: Chunk, n: int): int {
    Back(c).size - if c.size - n < OVERHEAD then c.size else n
  }

  function RestAt(c: Chunk, n: int): int {
    Back(c).addr + if c.size - n < OVERHEAD then c.size else n
  }

  // The holes for which the page-aligned path stays within 32 bits.
  predicate Cuttable(c: Chunk, n: int) {
    && PAGE <= c.addr && n <= c.size && 0 <= Front(c).size && c.End() < WORD
    && (AlignedLeft(c, n) != 0 ==> RestAt(c, n) + HEADER_SIZE < WORD)
  }

  lemma AlignedOkIsCuttable(c: Chunk, n: int)
    requires AlignedOk(c, n) && c.End() < WORD && n >= OVERHEAD
    ensures Cuttable(c, n)
  {
  }

  // Pieces that leave a listed hole no tiling explains: an empty front piece, or behind a
  // front piece that is a chunk a negative remainder or one of 1 to 12 bytes, or of 16 to 19
  // bytes in a region that ends less than 0x12000000 bytes on.
  predicate AlignedBreaks(c: Chunk, n: int, end: int) {
    || Front(c).size == 0
    || (Front(c).size >= OVERHEAD &&
        (AlignedLeft(c, n) < 0 || 0 < AlignedLeft(c, n) <= HEADER_SIZE ||
         (16 <= AlignedLeft(c, n) < OVERHEAD && end < RestAt(c, n) + 0x1200_0000)))
  }

  lemma OkDoesNotBreak(c: Chunk, n: int, end: int)
    requires AlignedOk(c, n) && n >= OVERHEAD
    ensures !AlignedBreaks(c, n, end)
  {
  }

  ghost predicate CannotAlign(s: HeapState, size: int) {
    && 0 <= size && size + OVERHEAD < WORD
    && var n := size + OVERHEAD;
      exists it: nat :: FirstAligned(s, n, it) && AlignedBreaks(HoleAt(s, it), n, s.end)
  }

  lemma AlignedBroken(s: HeapState, it: nat, n: int, t: HeapState)
    requires it < |s.index| && AlignedBreaks(HoleAt(s, it), n, s.end) && Cuttable(HoleAt(s, it), n) && t.end == s.end
    requires HoleAt(s, it).End() <= s.end < WORD
    requires s.index[it] in t.index && (Front(HoleAt(s, it)).size == 0 ==> HoleFlag(t.mem, s.index[it]) == 0)
    requires var c := HoleAt(s, it); AlignedLeft(c, n) != 0 ==>
      RestAt(c, n) in t.index && LeftBehind(t.mem, RestAt(c, n), AlignedLeft(c, n), t.end)
    ensures forall cs :: !Layout(t, cs)
  {
    hide Word, Layout;
    var c := HoleAt(s, it);
    if Front(c).size == 0 {
      BrokenEntry(t, s.index[it]);
    } else {
      BrokenEntry(t, RestAt(c, n));
    }
  }

  lemma SizeOf(m: Bytes, c: Chunk)
    requires HeaderAt(m, c)
    ensures SizeAt(m, c.addr) == c.size
  {
  }

  lemma BlockFlag(m: Bytes, c: Chunk)
    requires HeaderAt(m, c) && !c.hole
    ensures HoleFlag(m, c.addr) == 0
  {
  }

  // The front piece's records survive the writes behind it.
  lemma FrontKept(m0: Bytes, m1: Bytes, m2: Bytes, c: Chunk)
    requires OVERHEAD <= Front(c).size <= c.size && HeaderAt(m1, Front(c)) && FooterAt(m1, Front(c))
    requires SameOutside(m0, m1, c.addr, Front(c).End()) && SameOutside(m1, m2, Back(c).addr, c.End())
    ensures HeaderAt(m2, Front(c)) && FooterAt(m2, Front(c)) && SameOutside(m0, m2, c.addr, c.End())
  {
    hide Word, SameOutside, HeaderAt, FooterAt;
    var f := Front(c);
    HeaderKept(m1, m2, f.End(), c.End(), f);
    FooterKept(m1, m2, f.End(), c.End(), f);
    SameOutsideTrans(m0, m1, m2, c.addr, f.End(), f.End(), c.End(), c.addr, c.End());
  }

  // A hole passes the page-aligned test, and the first that does stays within 32 bits.
  ghost predicate ChoiceIsCuttable(s: HeapState, n: u32) {
    && (exists it: nat :: FirstAligned(s, n, it))
    && forall it: nat :: FirstAligned(s, n, it) ==> Cuttable(HoleAt(s, it), n)
  }

  lemma CanAlignIsCuttable(s: HeapState, cs: seq<Chunk>, size: nat)
    requires Layout(s, cs) && s.end < WORD && CanAlign(s, size)
    ensures size + OVERHEAD < WORD && ChoiceIsCuttable(s, size + OVERHEAD)
  {
    hide Word, AlignedOk, Cuttable, HoleFits;
    var n: u32 := size + OVERHEAD;
    var i: nat :| FirstAligned(s, n, i) && AlignedOk(HoleAt(s, i), n);
    IndexedHoleInside(s, cs, i);
    AlignedOkIsCuttable(HoleAt(s, i), n);
  }

  // What find_smallest_hole gives, when some hole passes its test.
  lemma FirstAlignedFound(s: HeapState, n: u32, it: int)
    requires -1 <= it < |s.index| && ChoiceIsCuttable(s, n)
    requires it == -1 <==> forall k :: 0 <= k < |s.index| ==> !HoleFits(s.mem, s.index[k], n, true)
    requires it != -1 ==> HoleFits(s.mem, s.index[it], n, true)
    requires forall k :: 0 <= k < it ==> !HoleFits(s.mem, s.index[k], n, true)
    ensures it >= 0 && FirstAligned(s, n, it) && Cuttable(HoleAt(s, it), n)
    ensures forall i: nat :: FirstAligned(s, n, i) ==> i == it
  {
    hide HoleFits, Cuttable;
    var i: nat :| FirstAligned(s, n, i);
    assert i == it;
  }

  lemma FirstAlignedUnique(s: HeapState, n: u32, i: int, j: int)
    requires FirstAligned(s, n, i) && FirstAligned(s, n, j)
    ensures i == j
  {
    hide HoleFits;
  }

  lemma AlignedData(c: Chunk)
    ensures (Back(c).addr + HEADER_SIZE) % PAGE == 0
  {
    assert Back(c).addr + HEADER_SIZE == PAGE * (c.addr / PAGE + 1);
  }

  lemma IndexedHoleInside(s: HeapState, cs: seq<Chunk>, it: nat)
    requires Layout(s, cs) && it < |s.index|
    ensures HeaderAt(s.mem, HoleAt(s, it)) && HoleAt(s, it).size >= OVERHEAD
    ensures s.start <= HoleAt(s, it).addr && HoleAt(s, it).End() <= s.end
  {
    var k := IndexEntryIsHole(s, cs, s.index[it]);
  }

  lemma AlignedIsLayout(s: HeapState, cs: seq<Chunk>, n: int, t: HeapState, ds: seq<Chunk>, p: int, it: nat, k: nat)
    requires Layout(s, cs) && n >= OVERHEAD && AlignedAt(s, cs, n, t, ds, p, it, k) && AlignedOk(HoleAt(s, it), n)
    ensures cs[k] == HoleAt(s, it) && Layout(t, ds) && p % PAGE == 0
    ensures cs[k].addr < p - HEADER_SIZE < cs[k].End()
  {
    hide Word, HeaderAt, FooterAt, HoleAddrs, Inserted, SameOutside;
    var c := HoleAt(s, it);
    IndexedHoleInside(s, cs, it);
    var j := IndexEntryIsHole(s, cs, s.index[it]);
    TilesInjective(cs, s.start, s.end, j, k);
    assert cs[k] == c by { assert RecordedAt(s.mem, cs, k); }
    var mid := CarvedAligned(c, n);
    AlignedTiles(c, n);
    AlignedRecords(t.mem, c, n, s.end);
    AlignedData(c);
    HolesConcat([Front(c)], Carved(Back(c), n));
    HolesOfOne(Front(c));
    HolesOfOne(Carved(Back(c), n)[0]);
    if Back(c).size != n {
      var rest := Back(c).addr + n;
      InsideIsNotListed(s, cs, k, rest);
      InsertKeepsDistinct(s.index, rest, SizeLess(t.mem));
      HolesOfTwo(Carved(Back(c), n)[0], Carved(Back(c), n)[1]);
      HolesOfOne(Carved(Back(c), n)[1]);
    }
    SplitKeepsLayout(s, cs, k, mid, t);
  }

  // A page-aligned request cuts the hole it chose short in place: the index stays sorted
  // exactly when the front piece still fits between that hole's neighbours in the index.
  lemma AlignedKeepsSortedIff(s: HeapState, cs: seq<Chunk>, n: int, t: HeapState, ds: seq<Chunk>, p: int, it: nat, k: nat)
    requires Layout(s, cs) && SortedBySize(s) && n >= OVERHEAD
    requires AlignedAt(s, cs, n, t, ds, p, it, k) && AlignedOk(HoleAt(s, it), n)
    ensures SortedBySize(t) <==> FitsAt(s.index, it, Sizes(s.mem), Front(HoleAt(s, it)).size)
  {
    hide Word, SizeAt, Layout, Inserted, SameOutside, FitsAt, StrictWeak, AlignedOk, CarvedRecords, SizeLess, CarvedAligned, Sorted;
    AlignedIsLayout(s, cs, n, t, ds, p, it, k);
    var c, index := HoleAt(s, it), s.index;
    LayoutIsDistinct(s, cs);
    forall q | 0 <= q < |index| && q != it ensures Sizes(t.mem)(index[q]) == Sizes(s.mem)(index[q]) {
      SizeKept(s, cs, k, c.End(), t.mem, index[q]);
    }
    assert Sizes(t.mem)(index[it]) == Front(c).size by { FrontSize(t.mem, c); }
    SortedMeansBySize(s);
    SortedMeansBySize(t);
    SortedOnMeansSorted(index, s.mem);
    SortedOnMeansSorted(index, t.mem);
    ResizeInPlaceKeepsOrderIff(index, it, Sizes(s.mem), Sizes(t.mem));
    if Back(c).size != n {
      SizeLessIsStrictWeak(t.mem);
      if Sorted(index, SizeLess(t.mem)) { InsertKeepsOrder(index, Back(c).addr + n, SizeLess(t.mem)); }
      if Sorted(t.index, SizeLess(t.mem)) { OrderFromInserted(index, Back(c).addr + n, SizeLess(t.mem)); }
    }
  }

  lemma LayoutIsDistinct(s: HeapState, cs: seq<Chunk>)
    requires Layout(s, cs)
    ensures Distinct(s.index)
  {
  }

  lemma FrontSize(m: Bytes, c: Chunk)
    requires HeaderAt(m, Front(c))
    ensures SizeAt(m, c.addr) == Front(c).size
  {
  }

  lemma AlignedTiles(c: Chunk, n: int)
    requires n >= OVERHEAD && AlignedOk(c, n)
    ensures Tiles(CarvedAligned(c, n), c.addr, c.End()) && NoAdjacentHoles(CarvedAligned(c, n))
  {
  }

  lemma AlignedRecords(m: Bytes, c: Chunk, n: int, end: int)
    requires n >= OVERHEAD && AlignedOk(c, n) && c.End() <= end
    requires HeaderAt(m, Front(c)) && FooterAt(m, Front(c)) && CarvedRecords(m, Back(c), n, end)
    ensures forall d :: d in CarvedAligned(c, n) ==> HeaderAt(m, d) && FooterAt(m, d)
  {
    hide HeaderAt, FooterAt;
    forall d | d in CarvedAligned(c, n) ensures HeaderAt(m, d) && FooterAt(m, d) {
      assert d == Front(c) || d in Carved(Back(c), n);
    }
  }

  lemma CarvedIndexLists(s: HeapState, cs: seq<Chunk>, it: int, k: nat, n: int, t: HeapState)
    requires Layout(s, cs) && 0 <= it < |s.index| && n >= OVERHEAD && CarvedIndex(s, it, n, t.mem, t.index)
    requires k < |cs| && cs[k] == Chunk(s.index[it], SizeAt(s.mem, s.index[it]), true)
    ensures Distinct(t.index)
    ensures forall a :: a in t.index <==> (a in s.index && a != cs[k].addr) || a in HoleAddrs(Carved(cs[k], n))
  {
    hide Word, HoleAddrs, Inserted, Without;
    RemoveKeepsDistinct(s.index, it);
    var mid := Carved(cs[k], n);
    HolesOfOne(mid[0]);
    if cs[k].size - n >= OVERHEAD {
      InsideIsNotListed(s, cs, k, cs[k].addr + n);
      InsertKeepsDistinct(Without(s.index, it), cs[k].addr + n, SizeLess(t.mem));
      HolesOfTwo(mid[0], mid[1]);
      HolesOfOne(mid[1]);
    }
  }

  lemma InsideIsNotListed(s: HeapState, cs: seq<Chunk>, k: nat, a: u32)
    requires Layout(s, cs) && k < |cs| && cs[k].addr < a < cs[k].End()
    ensures a !in s.index
  {
    if a in s.index {
      var j := IndexEntryIsHole(s, cs, a);
      if j < k { TilesOrdered(cs, s.start, s.end, j, k); }
      if k < j { TilesOrdered(cs, s.start, s.end, k, j); }
    }
  }

  lemma CarveKeepsSorted(s: HeapState, cs: seq<Chunk>, it: int, k: nat, n: int, t: HeapState)
    requires Layout(s, cs) && SortedBySize(s) && 0 <= it < |s.index| && k < |cs| && s.index[it] == cs[k].addr
    requires CarvedIndex(s, it, n, t.mem, t.index)
    requires SameOutside(s.mem, t.mem, cs[k].addr, cs[k].End())
    ensures SortedBySize(t)
  {
    hide Word, SizeAt, Layout, Inserted, Without, SameOutside;
    var rest := Without(s.index, it);
    CarveKeepsRest(s, cs, it, k, t.mem);
    if t.index != rest {
      SizeLessIsStrictWeak(t.mem);
      InsertKeepsOrder(rest, s.index[it] + n, SizeLess(t.mem));
    }
    SortedMeansBySize(t);
  }

  lemma SortedMeansBySize(s: HeapState)
    ensures SortedBySize(s) <==> Sorted(s.index, SizeLess(s.mem))
  {
    hide SizeAt;
    if SortedBySize(s) {
      forall i, j | 0 <= i < j < |s.index| ensures !SizeLess(s.mem)(s.index[j], s.index[i]) {}
    }
    if Sorted(s.index, SizeLess(s.mem)) {
      forall i, j | 0 <= i < j < |s.index| ensures SizeAt(s.mem, s.index[i]) <= SizeAt(s.mem, s.index[j]) {
        assert !SizeLess(s.mem)(s.index[j], s.index[i]);
      }
    }
  }

  lemma CarveKeepsRest(s: HeapState, cs: seq<Chunk>, it: int, k: nat, m: Bytes)
    requires Layout(s, cs) && SortedBySize(s) && 0 <= it < |s.index| && k < |cs| && s.index[it] == cs[k].addr
    requires SameOutside(s.mem, m, cs[k].addr, cs[k].End())
    ensures Sorted(Without(s.index, it), SizeLess(m))
  {
    hide Word, SizeAt, SameOutside, SizeLess, SortedBySize;
    var rest := Without(s.index, it);
    forall i | 0 <= i < |rest| ensures SizeAt(m, rest[i]) == SizeAt(s.mem, rest[i]) {
      RestEntry(s, cs, it, i);
      SizeKept(s, cs, k, cs[k].End(), m, rest[i]);
    }
    SortedMeansBySize(s);
    RemoveKeepsOrder(s.index, it, SizeLess(s.mem));
    SameSizesSorted(rest, s.mem, m);
  }

  lemma RestEntry(s: HeapState, cs: seq<Chunk>, it: int, i: int)
    requires Layout(s, cs) && 0 <= it < |s.index| && 0 <= i < |s.index| - 1
    ensures Without(s.index, it)[i] in s.index && Without(s.index, it)[i] != s.index[it]
  {
    var a := if i < it then i else i + 1;
    assert Without(s.index, it)[i] == s.index[a];
  }

  lemma SameSizesSorted(index: seq<u32>, m: Bytes, m': Bytes)
    requires Sorted(index, SizeLess(m))
    requires forall i :: 0 <= i < |index| ==> SizeAt(m', index[i]) == SizeAt(m, index[i])
    ensures Sorted(index, SizeLess(m'))
  {
    hide Word;
    forall i, j | 0 <= i < j < |index| ensures !SizeLess(m')(index[j], index[i]) {
      assert !SizeLess(m)(index[j], index[i]);
    }
  }

  lemma SizeLessIsStrictWeak(m: Bytes)
    ensures StrictWeak(SizeLess(m))
  {
  }
}
