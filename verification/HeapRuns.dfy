/** What runs of alloc, free and stores by the holders of blocks do: the heap refines a map
    from live pointers to the bytes stored behind them. */
module HeapRuns {
  import opened Memory
  import opened OrderedArrays
  import opened HeapLayout
  import opened HeapSteps
  import opened HeapSpec

  ghost predicate Good(s: HeapState, cs: seq<Chunk>) {
    Layout(s, cs) && Bounds(s)
  }

  // ---------------------------------------------------------------- payloads

  // The payloads of two live blocks share no byte, and each lies inside the region.
  lemma LivePayloadsApart(s: HeapState, cs: seq<Chunk>, p: int, q: int)
    requires Layout(s, cs) && p in LivePtrs(cs) && q in LivePtrs(cs)
    ensures s.start < p && p + |Live(s.mem, cs)[p]| < s.end
    ensures p < q ==> p + |Live(s.mem, cs)[p]| < q
  {
    hide Word;
    var i, j := BlockOf(cs, p), BlockOf(cs, q);
    assert RecordedAt(s.mem, cs, i);
    TilesWithin(cs, s.start, s.end, i);
    PayloadKept(s.mem, s.mem, cs[i], cs[i].End(), cs[i].End());
    if i < j { TilesOrdered(cs, s.start, s.end, i, j); }
    if j < i { TilesOrdered(cs, s.start, s.end, j, i); }
  }

  // A step that only writes inside [lo, hi) keeps the payload of every block outside it.
  lemma PayloadsOutside(s: HeapState, cs: seq<Chunk>, m: Bytes, lo: int, hi: int, i: nat, j: nat)
    requires Layout(s, cs) && i <= j <= |cs| && SameOutside(s.mem, m, lo, hi)
    requires StartOf(cs, s.end, i) <= lo && (j < |cs| ==> hi <= cs[j].addr)
    ensures forall p :: p in LivePtrs(cs[..i]) || p in LivePtrs(cs[j..]) ==> Payload(m, p) == Payload(s.mem, p)
  {
    hide Word, Payload;
    var pre, post := cs[..i], cs[j..];
    forall p | p in LivePtrs(pre) || p in LivePtrs(post) ensures Payload(m, p) == Payload(s.mem, p) {
      var k: nat;
      if p in LivePtrs(pre) {
        k := BlockOf(pre, p);
        if i < |cs| { TilesOrdered(cs, s.start, s.end, k, i); }
      } else {
        k := j + BlockOf(post, p);
        if j < k { TilesOrdered(cs, s.start, s.end, j, k); }
      }
      assert RecordedAt(s.mem, cs, k);
      TilesWithin(cs, s.start, s.end, k);
      PayloadKept(s.mem, m, cs[k], lo, hi);
    }
  }

  lemma LiveOfOne(c: Chunk)
    ensures LivePtrs([]) == {}
    ensures LivePtrs([c]) == if c.hole then {} else {c.addr + HEADER_SIZE}
  {
    assert !c.hole ==> [c][0].addr + HEADER_SIZE in LivePtrs([c]);
  }

  lemma LiveOfTwo(c: Chunk, d: Chunk)
    ensures LivePtrs([c, d]) == LivePtrs([c]) + LivePtrs([d])
  {
    LiveConcat([c], [d]);
    assert [c] + [d] == [c, d];
  }

  // ---------------------------------------------------------------- one step

  lemma GrowKeepsLive(s: HeapState, cs: seq<Chunk>, n: int, t: HeapState, ds: seq<Chunk>)
    requires Good(s, cs) && n >= OVERHEAD && GrowStep(s, cs, n, t, ds)
    ensures Live(t.mem, ds) == Live(s.mem, cs)
  {
    hide Word, Payload, LivePtrs;
    var i := if cs[|cs| - 1].hole then |cs| - 1 else |cs|;
    LiveOfSplice(cs, i, |cs|, [GrownHole(cs, s.end, t.end - s.end)]);
    LiveOfOne(GrownHole(cs, s.end, t.end - s.end));
    LiveOfOne(cs[|cs| - 1]);
    assert cs[i..|cs|] == (if cs[|cs| - 1].hole then [cs[|cs| - 1]] else []) && cs[|cs|..] == [];
    PayloadsOutside(s, cs, t.mem, GrownHole(cs, s.end, t.end - s.end).addr, t.end, i, |cs|);
  }

  lemma CarveRefines(s: HeapState, cs: seq<Chunk>, size: int, t: HeapState, ds: seq<Chunk>, p: int)
    requires Good(s, cs) && size >= 0 && CarveStep(s, cs, size + OVERHEAD, t, ds, p)
    ensures Good(t, ds) && p !in Live(s.mem, cs) && p in Live(t.mem, ds)
    ensures Live(t.mem, ds) == Live(s.mem, cs)[p := Live(t.mem, ds)[p]]
    ensures size <= |Live(t.mem, ds)[p]| < size + OVERHEAD
  {
    hide Word, Payload, LivePtrs, CarvedIndex, CarvedRecords, SortedBySize, SameOutside;
    var it, k :| CarveAt(s, cs, size + OVERHEAD, t, ds, p, it, k);
    CarveIsLayout(s, cs, size + OVERHEAD, t, ds, p, it, k);
    CarvedLive(s, cs, k, size + OVERHEAD, t);
    NextStart(cs, s.start, s.end, k);
    PayloadsOutside(s, cs, t.mem, cs[k].addr, cs[k].End(), k, k + 1);
    HoleIsNotLive(cs, s.start, s.end, k);
  }

  lemma CarvedLive(s: HeapState, cs: seq<Chunk>, k: nat, n: int, t: HeapState)
    requires k < |cs| && cs[k].hole && OVERHEAD <= n <= cs[k].size && Layout(t, CarveChunks(cs, k, n))
    ensures var ds := CarveChunks(cs, k, n); var p := cs[k].addr + HEADER_SIZE;
      && LivePtrs(ds) == LivePtrs(cs[..k]) + {p} + LivePtrs(cs[k + 1..])
      && LivePtrs(cs) == LivePtrs(cs[..k]) + LivePtrs(cs[k + 1..])
      && n - OVERHEAD <= |Payload(t.mem, p)| < n
  {
    hide Word, Payload, LivePtrs;
    var mid := Carved(cs[k], n);
    var ds := CarveChunks(cs, k, n);
    LiveOfSplice(cs, k, k + 1, mid);
    assert cs[k..k + 1] == [cs[k]];
    LiveOfOne(cs[k]);
    LiveOfOne(mid[0]);
    if |mid| == 2 { LiveOfTwo(mid[0], mid[1]); LiveOfOne(mid[1]); }
    assert ds[k] == mid[0];
    assert RecordedAt(t.mem, ds, k);
    PayloadKept(t.mem, t.mem, ds[k], ds[k].End(), ds[k].End());
  }

  lemma HoleIsNotLive(cs: seq<Chunk>, lo: int, hi: int, k: nat)
    requires Tiles(cs, lo, hi) && k < |cs| && cs[k].hole
    ensures cs[k].addr + HEADER_SIZE !in LivePtrs(cs)
  {
    if cs[k].addr + HEADER_SIZE in LivePtrs(cs) {
      TilesInjective(cs, lo, hi, BlockOf(cs, cs[k].addr + HEADER_SIZE), k);
    }
  }

  // alloc keeps the heap good, adds one allocation with at least the bytes asked for, less
  // than a header and a footer more, and changes nothing else.
  lemma AllocRefines(s: HeapState, cs: seq<Chunk>, size: int, t: HeapState, ds: seq<Chunk>, p: int)
    requires Good(s, cs) && size >= 0 && AllocStep(s, cs, size, t, ds, p)
    requires Fits(s, size + OVERHEAD) || GrowOk(cs)
    ensures Good(t, ds) && p !in Live(s.mem, cs) && p in Live(t.mem, ds)
    ensures Live(t.mem, ds) == Live(s.mem, cs)[p := Live(t.mem, ds)[p]]
    ensures size <= |Live(t.mem, ds)[p]| < size + OVERHEAD
  {
    hide Live, GrowStep, CarveStep, Fits, Layout, GrowOk;
    var n := size + OVERHEAD;
    if Fits(s, n) {
      CarveRefines(s, cs, size, t, ds, p);
    } else {
      var m, es :| GrowStep(s, cs, n, m, es) && CarveStep(m, es, n, t, ds, p);
      GrowIsLayout(s, cs, n, m, es);
      GrowthBounds(s, cs, n, m, es);
      GrowKeepsLive(s, cs, n, m, es);
      CarveRefines(m, es, size, t, ds, p);
    }
  }

  // A page-aligned alloc keeps the heap good, adds one allocation of exactly the bytes asked
  // for, on a page boundary, and changes nothing else.
  lemma AlignedRefines(s: HeapState, cs: seq<Chunk>, size: int, t: HeapState, ds: seq<Chunk>, p: int)
    requires Good(s, cs) && AlignedStep(s, cs, size, t, ds, p) && CanAlign(s, size)
    ensures Good(t, ds) && p % PAGE == 0 && p !in Live(s.mem, cs) && p in Live(t.mem, ds)
    ensures Live(t.mem, ds) == Live(s.mem, cs)[p := Live(t.mem, ds)[p]]
    ensures |Live(t.mem, ds)[p]| == size
  {
    hide Word, Payload, LivePtrs, SameOutside, Layout, HoleFits, AlignedOk, CarvedRecords, CarvedAligned, Inserted;
    var n := size + OVERHEAD;
    var it: nat, k: nat :| FirstAligned(s, n, it) && AlignedAt(s, cs, n, t, ds, p, it, k);
    var i: nat :| FirstAligned(s, n, i) && AlignedOk(HoleAt(s, i), n);
    FirstAlignedUnique(s, n, i, it);
    AlignedIsLayout(s, cs, n, t, ds, p, it, k);
    AlignedLive(s, cs, k, n, t, ds);
    IndexedHoleInside(s, cs, it);
    LayoutTiles(s, cs);
    NextStart(cs, s.start, s.end, k);
    PayloadsOutside(s, cs, t.mem, cs[k].addr, cs[k].End(), k, k + 1);
    InsideIsNotLive(cs, s.start, s.end, k, p);
  }

  lemma AlignedLive(s: HeapState, cs: seq<Chunk>, k: nat, n: int, t: HeapState, ds: seq<Chunk>)
    requires k < |cs| && cs[k].hole && n >= OVERHEAD && AlignedOk(cs[k], n)
    requires ds == Splice(cs, k, k + 1, CarvedAligned(cs[k], n)) && Layout(t, ds)
    ensures var p := Back(cs[k]).addr + HEADER_SIZE;
      && LivePtrs(ds) == LivePtrs(cs[..k]) + {p} + LivePtrs(cs[k + 1..])
      && LivePtrs(cs) == LivePtrs(cs[..k]) + LivePtrs(cs[k + 1..])
      && |Payload(t.mem, p)| == n - OVERHEAD
  {
    hide Word, Payload, LivePtrs;
    var c := cs[k];
    var back := Carved(Back(c), n);
    LiveOfSplice(cs, k, k + 1, CarvedAligned(c, n));
    assert cs[k..k + 1] == [c];
    LiveOfOne(c);
    LiveOfOne(Front(c));
    LiveOfOne(back[0]);
    LiveConcat([Front(c)], back);
    if |back| == 2 { LiveOfTwo(back[0], back[1]); LiveOfOne(back[1]); }
    assert ds[k + 1] == back[0];
    assert RecordedAt(t.mem, ds, k + 1);
    PayloadKept(t.mem, t.mem, ds[k + 1], ds[k + 1].End(), ds[k + 1].End());
  }

  // No live pointer lies inside a hole.
  lemma InsideIsNotLive(cs: seq<Chunk>, lo: int, hi: int, k: nat, p: int)
    requires Tiles(cs, lo, hi) && k < |cs| && cs[k].hole && cs[k].addr <= p - HEADER_SIZE < cs[k].End()
    ensures p !in LivePtrs(cs)
  {
    if p in LivePtrs(cs) {
      var j := BlockOf(cs, p);
      if j < k { TilesOrdered(cs, lo, hi, j, k); }
      if k < j { TilesOrdered(cs, lo, hi, k, j); }
    }
  }

  lemma GrowthBounds(s: HeapState, cs: seq<Chunk>, n: int, t: HeapState, ds: seq<Chunk>)
    requires Bounds(s) && n >= OVERHEAD && GrowStep(s, cs, n, t, ds)
    ensures Bounds(t)
  {
  }

  // free keeps the heap good, under FreeOk.
  lemma FreeStaysGood(far: bool, s: HeapState, cs: seq<Chunk>, p: int, t: HeapState, ds: seq<Chunk>)
    requires Good(s, cs) && FreeStep(far, s, cs, p, t, ds) && FreeOk(far, s.start, cs, BlockOf(cs, p))
    ensures Good(t, ds)
  {
    hide Layout, FreeChunks, FreedIndex, HeaderAt, LivePtrs, SameOutside;
    FreeIsLayout(far, s, cs, p, t, ds);
  }

  // free removes exactly the allocation it is given.
  lemma FreeRefines(far: bool, s: HeapState, cs: seq<Chunk>, p: int, t: HeapState, ds: seq<Chunk>)
    requires Good(s, cs) && FreeStep(far, s, cs, p, t, ds)
    ensures p in Live(s.mem, cs)
    ensures Live(t.mem, ds) == Live(s.mem, cs) - {p}
  {
    hide Word, Payload, LivePtrs, Layout, FreeChunks, SameOutside, FreedIndex, HeaderAt;
    var k := BlockOf(cs, p);
    var i, j := LeftOf(cs, k), RightOf(cs, k);
    FreedOutside(s, cs, k);
    PayloadsOutside(s, cs, t.mem, cs[i].addr, StartOf(cs, s.end, j), i, j);
    FreedLive(s, cs, k);
  }

  lemma FreedOutside(s: HeapState, cs: seq<Chunk>, k: nat)
    requires Layout(s, cs) && k < |cs|
    ensures var i, j := LeftOf(cs, k), RightOf(cs, k);
      StartOf(cs, s.end, i) <= cs[i].addr && (j < |cs| ==> StartOf(cs, s.end, j) <= cs[j].addr)
  {
  }

  lemma FreedLive(s: HeapState, cs: seq<Chunk>, k: nat)
    requires Layout(s, cs) && k < |cs| && !cs[k].hole
    ensures var i, j, p := LeftOf(cs, k), RightOf(cs, k), cs[k].addr + HEADER_SIZE;
      && LivePtrs(FreeChunks(cs, k, s.start + HEAP_MIN_SIZE)) == LivePtrs(cs[..i]) + LivePtrs(cs[j..])
      && LivePtrs(cs) == LivePtrs(cs[..i]) + {p} + LivePtrs(cs[j..])
      && p !in LivePtrs(cs[..i]) + LivePtrs(cs[j..])
  {
    hide Word, LivePtrs, FreeChunks;
    var i, j := LeftOf(cs, k), RightOf(cs, k);
    var hole := FreedHole(cs, s.start, s.end, k);
    FreeIsSplice(cs, s.start, s.end, k);
    LiveOfSplice(cs, i, j, [hole]);
    LiveOfOne(hole);
    OnlyBlockInside(s, cs, k);
  }

  // Between the neighbours that are joined, block k is the only live one.
  lemma OnlyBlockInside(s: HeapState, cs: seq<Chunk>, k: nat)
    requires Layout(s, cs) && k < |cs| && !cs[k].hole
    ensures var i, j := LeftOf(cs, k), RightOf(cs, k);
      LivePtrs(cs[i..j]) == {cs[k].addr + HEADER_SIZE} &&
      cs[k].addr + HEADER_SIZE !in LivePtrs(cs[..i]) + LivePtrs(cs[j..])
  {
    var i, j := LeftOf(cs, k), RightOf(cs, k);
    var mid := cs[i..j];
    assert mid[k - i] == cs[k];
    var pre, post := cs[..i], cs[j..];
    forall a | 0 <= a < |pre| ensures pre[a].addr != cs[k].addr {
      if pre[a].addr == cs[k].addr { TilesInjective(cs, s.start, s.end, a, k); }
    }
    forall a | 0 <= a < |post| ensures post[a].addr != cs[k].addr {
      if post[a].addr == cs[k].addr { TilesInjective(cs, s.start, s.end, j + a, k); }
    }
  }

  function Put(s: seq<byte>, k: nat, b: byte): seq<byte>
    requires k < |s|
  {
    s[..k] + [b] + s[k + 1..]
  }

  // The holder of p stores byte b at offset k of its block.
  ghost predicate StoreStep(s: HeapState, cs: seq<Chunk>, p: int, k: nat, b: byte, t: HeapState, ds: seq<Chunk>) {
    && p in LivePtrs(cs) && k < |Payload(s.mem, p)|
    && SameBounds(s, t) && t.index == s.index && ds == cs
    && SameOutside(s.mem, t.mem, p + k, p + k + 1) && t.mem(p + k) == b
  }

  lemma StoreKeepsGood(s: HeapState, cs: seq<Chunk>, p: int, k: nat, b: byte, t: HeapState, ds: seq<Chunk>)
    requires Good(s, cs) && StoreStep(s, cs, p, k, b, t, ds)
    ensures Good(t, ds)
  {
    hide Word;
    var i := BlockOf(cs, p);
    assert RecordedAt(s.mem, cs, i);
    PayloadKept(s.mem, s.mem, cs[i], cs[i].End(), cs[i].End());
    StoreKeepsShape(s, cs, i, p + k, t);
  }

  lemma StoreRefines(s: HeapState, cs: seq<Chunk>, p: int, k: nat, b: byte, t: HeapState, ds: seq<Chunk>)
    requires Good(s, cs) && StoreStep(s, cs, p, k, b, t, ds)
    ensures p in Live(s.mem, cs) && k < |Live(s.mem, cs)[p]|
    ensures Live(t.mem, ds) == Live(s.mem, cs)[p := Put(Live(s.mem, cs)[p], k, b)]
  {
    hide Word;
    var i := BlockOf(cs, p);
    assert RecordedAt(s.mem, cs, i);
    TilesWithin(cs, s.start, s.end, i);
    PayloadKept(s.mem, s.mem, cs[i], cs[i].End(), cs[i].End());
    WordKept(s.mem, t.mem, p + k, p + k + 1, cs[i].addr + 8);
    assert Payload(t.mem, p) == Put(Payload(s.mem, p), k, b);
    forall q | q in LivePtrs(cs) && q != p ensures Payload(t.mem, q) == Payload(s.mem, q) {
      var j := BlockOf(cs, q);
      assert RecordedAt(s.mem, cs, j);
      TilesWithin(cs, s.start, s.end, j);
      if j < i { TilesOrdered(cs, s.start, s.end, j, i); }
      if i < j { TilesOrdered(cs, s.start, s.end, i, j); }
      PayloadKept(s.mem, t.mem, cs[j], p + k, p + k + 1);
    }
  }

  lemma StoreKeepsShape(s: HeapState, cs: seq<Chunk>, i: nat, a: int, t: HeapState)
    requires Shape(s, cs) && i < |cs| && t.start == s.start && t.end == s.end
    requires cs[i].addr + HEADER_SIZE <= a < cs[i].End() - FOOTER_SIZE && SameOutside(s.mem, t.mem, a, a + 1)
    ensures Shape(t, cs)
  {
    hide Word, HeaderAt, FooterAt;
    forall j | 0 <= j < |cs| ensures RecordedAt(t.mem, cs, j) {
      assert RecordedAt(s.mem, cs, j);
      TilesWithin(cs, s.start, s.end, j);
      if j < i { TilesOrdered(cs, s.start, s.end, j, i); }
      if i < j { TilesOrdered(cs, s.start, s.end, i, j); }
      HeaderKept(s.mem, t.mem, a, a + 1, cs[j]);
      if j + 1 < |cs| || !cs[j].hole { FooterKept(s.mem, t.mem, a, a + 1, cs[j]); }
    }
    TilesWithin(cs, s.start, s.end, i);
    WordKept(s.mem, t.mem, a, a + 1, s.start - FOOTER_SIZE);
  }

  // ---------------------------------------------------------------- whole runs

  datatype Op = Alloc(size: nat) | AlignedAlloc(size: nat) | Free(p: int) | Store(p: int, k: nat, b: byte)

  datatype Config = Config(s: HeapState, cs: seq<Chunk>) {
    ghost predicate Ok() { Good(s, cs) }
    ghost function Blocks(): map<int, seq<byte>> { Live(s.mem, cs) }
  }

  // When an operation goes right: alloc finds a hole that fits, or growth goes to the last
  // chunk or to a region without holes and stays below the maximum; a page-aligned request
  // finds a hole with room for the pieces it is cut into; free is given a live
  // block, its join on the right gets a footer, its trim leaves room, no stale header lies
  // past the end, and the index has a free slot; a store stays inside a live block. far says
  // whether free writes the footer of a join on the right.
  ghost predicate Enabled(far: bool, c: Config, op: Op) {
    match op
    case Alloc(size) =>
      var n := size + OVERHEAD;
      && n < WORD
      && (Fits(c.s, n) ||
          (GrowOk(c.cs) && c.s.end + n + PAGE < WORD && c.s.start + GrownLength(c.s.end - c.s.start + n) <= c.s.max))
    case AlignedAlloc(size) => CanAlign(c.s, size) && |c.s.index| + 1 < HEAP_INDEX_SIZE
    case Free(p) =>
      && p in LivePtrs(c.cs) && |c.s.index| + 1 < HEAP_INDEX_SIZE
      && var k := BlockOf(c.cs, p);
        FreeOk(far, c.s.start, c.cs, k) && !(k + 1 == |c.cs| && StaleHole(c.s.mem, c.s.end))
    case Store(p, k, b) => p in LivePtrs(c.cs) && k < |Payload(c.s.mem, p)|
  }

  // What one operation writes; r is the pointer that alloc returns.
  ghost predicate Step(far: bool, c: Config, op: Op, r: int, d: Config) {
    match op
    case Alloc(size) => AllocStep(c.s, c.cs, size, d.s, d.cs, r)
    case AlignedAlloc(size) => AlignedStep(c.s, c.cs, size, d.s, d.cs, r)
    case Free(p) => FreeStep(far, c.s, c.cs, p, d.s, d.cs)
    case Store(p, k, b) => StoreStep(c.s, c.cs, p, k, b, d.s, d.cs)
  }

  // The same operation on a map from pointers to stored bytes.
  ghost predicate MapStep(live: map<int, seq<byte>>, op: Op, r: int, live': map<int, seq<byte>>) {
    match op
    case Alloc(size) =>
      r !in live && r in live' && live' == live[r := live'[r]] && size <= |live'[r]| < size + OVERHEAD
    case AlignedAlloc(size) =>
      r % PAGE == 0 && r !in live && r in live' && live' == live[r := live'[r]] && |live'[r]| == size
    case Free(p) => p in live && live' == live - {p}
    case Store(p, k, b) => p in live && k < |live[p]| && live' == live[p := Put(live[p], k, b)]
  }

  lemma StepStaysGood(far: bool, c: Config, op: Op, r: int, d: Config)
    requires c.Ok() && Enabled(far, c, op) && Step(far, c, op, r, d)
    ensures d.Ok()
  {
    hide Layout, AllocStep, AlignedStep, CanAlign, StoreStep, FreeStep, GrowOk, FreeOk, Fits, LivePtrs, Payload, StaleHole;
    match op
    case Alloc(size) => AllocRefines(c.s, c.cs, size, d.s, d.cs, r);
    case AlignedAlloc(size) => AlignedRefines(c.s, c.cs, size, d.s, d.cs, r);
    case Free(p) => FreeStaysGood(far, c.s, c.cs, p, d.s, d.cs);
    case Store(p, k, b) => StoreKeepsGood(c.s, c.cs, p, k, b, d.s, d.cs);
  }

  lemma StepRefines(far: bool, c: Config, op: Op, r: int, d: Config)
    requires c.Ok() && Enabled(far, c, op) && Step(far, c, op, r, d)
    ensures MapStep(c.Blocks(), op, r, d.Blocks())
  {
    hide Layout, Live, Payload, AllocStep, AlignedStep, CanAlign, FreeStep, GrowOk, FreeOk, Fits, StaleHole;
    match op
    case Alloc(size) => AllocRefines(c.s, c.cs, size, d.s, d.cs, r);
    case AlignedAlloc(size) => AlignedRefines(c.s, c.cs, size, d.s, d.cs, r);
    case Free(p) => FreeRefines(far, c.s, c.cs, p, d.s, d.cs);
    case Store(p, k, b) => StoreRefines(c.s, c.cs, p, k, b, d.s, d.cs);
  }

  ghost predicate GoesRight(far: bool, c: Config, op: Op, r: int, d: Config) {
    Enabled(far, c, op) && Step(far, c, op, r, d)
  }

  // The heap passes through cfgs; operation i goes right and returns rs[i].
  ghost predicate Run(far: bool, cfgs: seq<Config>, ops: seq<Op>, rs: seq<int>) {
    && |cfgs| == |ops| + 1 && |rs| == |ops|
    && forall i, j :: 0 <= i && j == i + 1 < |cfgs| ==> GoesRight(far, cfgs[i], ops[i], rs[i], cfgs[j])
  }

  // Every operation of ops will go right, whatever the ones before it return.
  ghost predicate CanRun(far: bool, c: Config, ops: seq<Op>)
    decreases |ops|
  {
    ops != [] ==>
      && Enabled(far, c, ops[0])
      && forall r, d :: Step(far, c, ops[0], r, d) ==> CanRun(far, d, ops[1..])
  }

  lemma EmptyRun(far: bool, c: Config)
    ensures Run(far, [c], [], [])
  {
  }

  lemma RunGrows(far: bool, cfgs: seq<Config>, ops: seq<Op>, rs: seq<int>, op: Op, r: int, d: Config)
    requires Run(far, cfgs, ops, rs) && GoesRight(far, cfgs[|ops|], op, r, d)
    ensures Run(far, cfgs + [d], ops + [op], rs + [r])
  {
    hide GoesRight;
    var cfgs', ops', rs' := cfgs + [d], ops + [op], rs + [r];
    forall i, j | 0 <= i && j == i + 1 < |cfgs'| ensures GoesRight(far, cfgs'[i], ops'[i], rs'[i], cfgs'[j]) {
      if i < |ops| {
        assert GoesRight(far, cfgs[i], ops[i], rs[i], cfgs[j]);
        assert cfgs'[i] == cfgs[i] && cfgs'[j] == cfgs[j] && ops'[i] == ops[i] && rs'[i] == rs[i];
      }
    }
  }

  // Every heap a run passes through is good: its chunks tile the region, its records and its
  // index agree with them, no two holes touch, and its length stays within its bounds.
  lemma {:induction false} RunStaysGood(far: bool, cfgs: seq<Config>, ops: seq<Op>, rs: seq<int>, n: nat)
    requires Run(far, cfgs, ops, rs) && cfgs[0].Ok() && n < |cfgs|
    ensures cfgs[n].Ok()
  {
    hide Step, Enabled, Config.Ok;
    if n > 0 {
      RunStaysGood(far, cfgs, ops, rs, n - 1);
      StepStaysGood(far, cfgs[n - 1], ops[n - 1], rs[n - 1], cfgs[n]);
    }
  }

  // Every operation of a run does to the live blocks what it does to the map.
  lemma RunRefines(far: bool, cfgs: seq<Config>, ops: seq<Op>, rs: seq<int>, n: nat)
    requires Run(far, cfgs, ops, rs) && cfgs[0].Ok() && n < |ops|
    ensures MapStep(cfgs[n].Blocks(), ops[n], rs[n], cfgs[n + 1].Blocks())
  {
    hide Step, Enabled, Config.Ok, Config.Blocks, MapStep;
    RunStaysGood(far, cfgs, ops, rs, n);
    StepRefines(far, cfgs[n], ops[n], rs[n], cfgs[n + 1]);
  }

  // A block that a run neither frees nor stores to holds the same bytes at its end.
  lemma {:induction false} UntouchedBlockSurvives(far: bool, cfgs: seq<Config>, ops: seq<Op>, rs: seq<int>, p: int, n: nat)
    requires Run(far, cfgs, ops, rs) && cfgs[0].Ok() && n < |cfgs| && p in cfgs[0].Blocks()
    requires forall i :: 0 <= i < n ==> ops[i] != Free(p) && (ops[i].Store? ==> ops[i].p != p)
    ensures p in cfgs[n].Blocks() && cfgs[n].Blocks()[p] == cfgs[0].Blocks()[p]
  {
    hide Config.Blocks, Step, Enabled, Config.Ok;
    if n > 0 {
      UntouchedBlockSurvives(far, cfgs, ops, rs, p, n - 1);
      RunRefines(far, cfgs, ops, rs, n - 1);
    }
  }

  // ---------------------------------------------------------------- coalescing

  // Once every block is freed, in whatever order, one hole covers the whole region and is
  // all the index lists.
  lemma AllFreedIsOneHole(c: Config)
    requires c.Ok() && c.Blocks() == map[]
    ensures c.cs == [Chunk(c.s.start, c.s.end - c.s.start, true)] && c.s.index == [c.s.start]
  {
    hide Word, Payload;
    var cs, index := c.cs, c.s.index;
    assert c.Blocks().Keys == LivePtrs(cs);
    forall k | 0 <= k < |cs| ensures cs[k].hole {
      BlockIsLive(cs, k);
    }
    FirstTwo(cs, index);
    assert cs == [cs[0]];
    HolesOfOne(cs[0]);
    assert c.s.start in HoleAddrs(cs);
  }

  lemma BlockIsLive(cs: seq<Chunk>, k: nat)
    requires k < |cs|
    ensures cs[k].hole || cs[k].addr + HEADER_SIZE in LivePtrs(cs)
  {
  }

  lemma FirstTwo(cs: seq<Chunk>, index: seq<u32>)
    requires NoAdjacentHoles(cs) && Distinct(index)
    ensures |cs| <= 1 || !cs[0].hole || !cs[1].hole
    ensures |index| <= 1 || (index[0] in index && index[1] in index && index[0] != index[1])
  {
  }

  // Freeing block k right after it was carved out of hole k gives back the old tiling,
  // exactly unless the hole reached an end that freeing trims.
  lemma JoinUndoesSplit(s: HeapState, cs: seq<Chunk>, k: nat, n: int)
    requires Layout(s, cs) && k < |cs| && cs[k].hole && OVERHEAD <= n <= cs[k].size
    ensures FreeChunks(CarveChunks(cs, k, n), k, s.start + HEAP_MIN_SIZE) == cs <==>
            k + 1 < |cs| || s.end == s.start + HEAP_MIN_SIZE
  {
    hide Word, HoleAddrs, Records, FreeChunks, Splice;
    var mid, ds := Carved(cs[k], n), CarveChunks(cs, k, n);
    NextStart(cs, s.start, s.end, k);
    SpliceTiles(cs, s.start, s.end, k, k + 1, mid, s.end);
    CarvedNeighbours(cs, k, n);
    FreeIsSplice(ds, s.start, s.end, k);
    var hole := FreedHole(ds, s.start, s.end, k);
    SpliceBack(cs, k, mid, hole);
    assert hole.addr == cs[k].addr;
    assert cs[k := hole] == cs <==> hole == cs[k] by { assert cs[k := hole][k] == hole; }
  }

  // What stands around the block carved out of hole k.
  lemma CarvedNeighbours(cs: seq<Chunk>, k: nat, n: int)
    requires NoAdjacentHoles(cs) && k < |cs| && cs[k].hole
    ensures var ds := CarveChunks(cs, k, n); var next := k + |Carved(cs[k], n)|;
      && |ds| == |cs| - k - 1 + next && ds[k] == Carved(cs[k], n)[0] && LeftOf(ds, k) == k && RightOf(ds, k) == next
      && (k + 1 < |cs| ==> ds[next] == cs[k + 1])
  {
    var ds := CarveChunks(cs, k, n);
    assert k > 0 ==> ds[k - 1] == cs[k - 1] && !cs[k - 1].hole;
    assert k + 1 < |cs| ==> !cs[k + 1].hole;
  }

  lemma SpliceBack(cs: seq<Chunk>, k: nat, mid: seq<Chunk>, c: Chunk)
    requires k < |cs|
    ensures |Splice(cs, k, k + 1, mid)| == |cs| - 1 + |mid|
    ensures Splice(Splice(cs, k, k + 1, mid), k, k + |mid|, [c]) == cs[k := c]
  {
    var ds := Splice(cs, k, k + 1, mid);
    assert ds[..k] == cs[..k] && ds[k + |mid|..] == cs[k + 1..];
    assert cs[k := c] == cs[..k] + [c] + cs[k + 1..];
  }

  // What free writes right after alloc, without growth, restores the tiling and a good layout
  // of it, if and only if: for a hole that was not last, the far footer is written or there
  // was no remainder to join with; for a last hole, the region has its minimum size already.
  lemma FreeUndoesCarve(far: bool, s: HeapState, cs: seq<Chunk>, n: int, it: int, k: nat, t: HeapState, ds: seq<Chunk>, p: int, u: HeapState, es: seq<Chunk>)
    requires Layout(s, cs) && n >= OVERHEAD && CarveAt(s, cs, n, t, ds, p, it, k) && FreeStep(far, t, ds, p, u, es)
    ensures es == cs && Layout(u, es) <==>
            if k + 1 < |cs| then far || cs[k].size - n < OVERHEAD else s.end == s.start + HEAP_MIN_SIZE
  {
    hide Word, Layout, SameOutside, CarveChunks, FreeChunks, FreedIndex, CarvedIndex, CarvedRecords, SortedBySize, FreeStep, LivePtrs;
    CarveIsLayout(s, cs, n, t, ds, p, it, k);
    CarvedBlock(s, cs, k, n, t, ds, p);
    SteppedTo(far, t, ds, p, u, es);
    JoinUndoesSplit(s, cs, k, n);
    if FreeOk(far, t.start, ds, k) {
      FreeIsLayout(far, t, ds, p, u, es);
    } else if !RightOk(far, ds, k) {
      OldFooterBreaks(far, t, ds, p, u, es);
    }
  }

  lemma SteppedTo(far: bool, s: HeapState, cs: seq<Chunk>, p: int, t: HeapState, ds: seq<Chunk>)
    requires FreeStep(far, s, cs, p, t, ds)
    ensures p in LivePtrs(cs) && ds == FreeChunks(cs, BlockOf(cs, p), s.start + HEAP_MIN_SIZE)
  {
  }

  // The block carved out of hole k, and when free may be called on it.
  lemma CarvedBlock(s: HeapState, cs: seq<Chunk>, k: nat, n: int, t: HeapState, ds: seq<Chunk>, p: int)
    requires Layout(s, cs) && k < |cs| && cs[k].hole && OVERHEAD <= n <= cs[k].size && ds == CarveChunks(cs, k, n)
    requires Layout(t, ds) && SameBounds(s, t) && p == cs[k].addr + HEADER_SIZE
    ensures p in LivePtrs(ds) && BlockOf(ds, p) == k && k < |ds|
    ensures forall far :: RightOk(far, ds, k) <==> far || k + 1 == |cs| || cs[k].size - n < OVERHEAD
    ensures TouchesEnd(ds, k) <==> k + 1 == |cs|
    ensures ds[LeftOf(ds, k)].addr == cs[k].addr && cs[k].addr + OVERHEAD <= s.end
    ensures k + 1 == |cs| ==> cs[k].End() == s.end
    ensures k + 1 < |cs| ==> k + 1 < |ds|
  {
    hide Word, HoleAddrs, Records;
    CarvedNeighbours(cs, k, n);
    assert ds[k].addr + HEADER_SIZE == p;
    var j := BlockOf(ds, p);
    TilesInjective(ds, t.start, t.end, j, k);
    TilesWithin(cs, s.start, s.end, k);
  }

  // A hole joined on the right whose footer still points to the old header fits no tiling.
  lemma OldFooterBreaks(far: bool, s: HeapState, cs: seq<Chunk>, p: int, t: HeapState, ds: seq<Chunk>)
    requires Layout(s, cs) && FreeStep(far, s, cs, p, t, ds) && !RightOk(far, cs, BlockOf(cs, p))
    ensures !Layout(t, ds)
  {
    hide Word, HoleAddrs, Splice, FreeChunks, Rest, FreedIndex, SameOutside;
    var k := BlockOf(cs, p);
    var i, j, hole := LeftOf(cs, k), RightOf(cs, k), FreedHole(cs, s.start, s.end, k);
    FreeIsSplice(cs, s.start, s.end, k);
    SplicedIn(cs, i, j, hole);
    TilesOrdered(cs, s.start, s.end, k, k + 1);
    TilesWithin(cs, s.start, s.end, i);
    if i < k { TilesOrdered(cs, s.start, s.end, i, k); }
    assert Records(t.mem, ds) ==> RecordedAt(t.mem, ds, i);
  }
}
