/** What the records in the kernel heap's region mean: a tiling of the region by holes and
    blocks, each carrying a header and a footer, and the operations on such tilings. */
module HeapLayout {
  import opened Memory
  import opened OrderedArrays

  const HEAP_MAGIC: u32 := 0x123890AB
  const HEAP_INDEX_SIZE := 0x20000
  const HEAP_MIN_SIZE := 0x70000
  const HEADER_SIZE := 12
  const FOOTER_SIZE := 8
  const OVERHEAD := 20

  datatype Chunk = Chunk(addr: int, size: int, hole: bool) {
    function End(): int { addr + size }
  }

  // Field accesses of header_t (magic, is_hole, size) and footer_t (magic, header).
  function HoleFlag(m: Bytes, header: int): byte { m(header + 4) }
  function SizeAt(m: Bytes, header: int): u32 { Word(m, header + 8) }
  function OwnerAt(m: Bytes, footer: int): u32 { Word(m, footer + 4) }

  ghost predicate HeaderAt(m: Bytes, c: Chunk) {
    && Word(m, c.addr) == HEAP_MAGIC
    && HoleFlag(m, c.addr) == (if c.hole then 1 else 0)
    && SizeAt(m, c.addr) == c.size
  }

  ghost predicate FooterAt(m: Bytes, c: Chunk) {
    && Word(m, c.End() - FOOTER_SIZE) == HEAP_MAGIC
    && OwnerAt(m, c.End() - FOOTER_SIZE) == c.addr
  }

  // The chunks cover [lo, hi) without gap or overlap. The empty tiling covers nothing.
  ghost predicate Tiles(cs: seq<Chunk>, lo: int, hi: int) {
    && (if cs == [] then lo == hi else cs[0].addr == lo && cs[|cs| - 1].End() == hi)
    && (forall i :: 0 <= i < |cs| ==> cs[i].size >= OVERHEAD)
    && (forall i, j :: 0 <= i && j == i + 1 < |cs| ==> cs[i].End() == cs[j].addr)
  }

  // Every chunk has its header; every chunk has its footer, except that the last one, when
  // it is a hole, may lack it (the hole a new heap starts with does).
  ghost predicate RecordedAt(m: Bytes, cs: seq<Chunk>, k: int)
    requires 0 <= k < |cs|
  {
    HeaderAt(m, cs[k]) && (k + 1 < |cs| || !cs[k].hole ==> FooterAt(m, cs[k]))
  }

  ghost predicate Records(m: Bytes, cs: seq<Chunk>) {
    forall k :: 0 <= k < |cs| ==> RecordedAt(m, cs, k)
  }

  ghost function HoleAddrs(cs: seq<Chunk>): set<int> {
    set i | 0 <= i < |cs| && cs[i].hole :: cs[i].addr
  }

  // The index lists exactly the holes, each once.
  ghost predicate Indexed(index: seq<u32>, cs: seq<Chunk>) {
    && Distinct(index)
    && (forall a :: a in index ==> a in HoleAddrs(cs))
    && (forall a :: a in HoleAddrs(cs) ==> a in index)
  }

  ghost predicate NoAdjacentHoles(cs: seq<Chunk>) {
    forall i, j :: 0 <= i && j == i + 1 < |cs| ==> !(cs[i].hole && cs[j].hole)
  }

  // One state of the allocator: the raw memory, the region's bounds and the index.
  datatype HeapState = HeapState(mem: Bytes, start: int, end: int, max: int, index: seq<u32>)

  // The region is tiled by chunks with their records. The eight bytes in front of it do not
  // read as a footer: they are the last two slots of the index array, which the index never
  // grows into.
  ghost predicate Shape(s: HeapState, cs: seq<Chunk>) {
    && s.start < s.end
    && Tiles(cs, s.start, s.end)
    && Records(s.mem, cs)
    && Word(s.mem, s.start - FOOTER_SIZE) != HEAP_MAGIC
  }

  ghost predicate Layout(s: HeapState, cs: seq<Chunk>) {
    && Shape(s, cs)
    && Indexed(s.index, cs)
    && NoAdjacentHoles(cs)
  }

  ghost predicate Bounds(s: HeapState) {
    FOOTER_SIZE <= s.start && s.start + HEAP_MIN_SIZE <= s.end <= s.max < WORD
  }

  // ---------------------------------------------------------------- tilings

  lemma {:induction false} TilesOrdered(cs: seq<Chunk>, lo: int, hi: int, i: int, j: int)
    requires Tiles(cs, lo, hi) && 0 <= i < j < |cs|
    ensures cs[i].End() <= cs[j].addr
    decreases j - i
  {
    if i + 1 < j {
      TilesOrdered(cs, lo, hi, i, j - 1);
    }
  }

  lemma TilesWithin(cs: seq<Chunk>, lo: int, hi: int, i: int)
    requires Tiles(cs, lo, hi) && 0 <= i < |cs|
    ensures lo <= cs[i].addr && cs[i].End() <= hi
  {
    if 0 < i { TilesOrdered(cs, lo, hi, 0, i); }
    if i + 1 < |cs| { TilesOrdered(cs, lo, hi, i, |cs| - 1); }
  }

  // A chunk's address identifies it.
  lemma TilesInjective(cs: seq<Chunk>, lo: int, hi: int, i: int, j: int)
    requires Tiles(cs, lo, hi) && 0 <= i < |cs| && 0 <= j < |cs|
    requires cs[i].addr == cs[j].addr
    ensures i == j
  {
    if i < j { TilesOrdered(cs, lo, hi, i, j); }
    if j < i { TilesOrdered(cs, lo, hi, j, i); }
  }

  function Splice(cs: seq<Chunk>, i: nat, j: nat, mid: seq<Chunk>): seq<Chunk>
    requires i <= j <= |cs|
  {
    cs[..i] + mid + cs[j..]
  }

  // Where chunk i starts, counting the end of the region as the start of chunk |cs|.
  function StartOf(cs: seq<Chunk>, hi: int, i: nat): int
    requires i <= |cs|
  {
    if i < |cs| then cs[i].addr else hi
  }

  lemma SpliceTiles(cs: seq<Chunk>, lo: int, hi: int, i: nat, j: nat, mid: seq<Chunk>, hi': int)
    requires i <= j <= |cs| && mid != []
    requires Tiles(cs, lo, hi)
    requires Tiles(mid, StartOf(cs, hi, i), if j < |cs| then cs[j].addr else hi')
    requires j < |cs| ==> hi' == hi
    ensures Tiles(Splice(cs, i, j, mid), lo, hi')
  {
    var ds := Splice(cs, i, j, mid);
    forall k | 0 <= k < |ds| ensures ds[k] == if k < i then cs[k] else if k < i + |mid| then mid[k - i] else cs[k - i - |mid| + j] {}
    forall k, l | 0 <= k && l == k + 1 < |ds| ensures ds[k].End() == ds[l].addr {
      if l == i {
        assert i == |cs| || cs[k].End() == cs[i].addr;
      } else if l == i + |mid| {
        assert ds[l] == cs[j];
      }
    }
  }

  // The place a splice writes to, [from, to), leaves chunks before i and from j on alone.
  lemma SpliceKeeps(cs: seq<Chunk>, lo: int, hi: int, i: nat, j: nat, m: Bytes, m': Bytes, to: int, k: int)
    requires i <= j <= |cs| && 0 <= k < |cs| && (k < i || j <= k)
    requires Tiles(cs, lo, hi) && Records(m, cs)
    requires SameOutside(m, m', StartOf(cs, hi, i), to) && (j < |cs| ==> to == cs[j].addr)
    ensures RecordedAt(m', cs, k)
  {
    assert RecordedAt(m, cs, k);
    TilesWithin(cs, lo, hi, k);
    if k < i {
      if i < |cs| { TilesOrdered(cs, lo, hi, k, i); }
    } else if j < k {
      TilesOrdered(cs, lo, hi, j, k);
    }
    HeaderKept(m, m', StartOf(cs, hi, i), to, cs[k]);
    if k + 1 < |cs| || !cs[k].hole { FooterKept(m, m', StartOf(cs, hi, i), to, cs[k]); }
  }

  lemma SpliceRecordAt(cs: seq<Chunk>, lo: int, hi: int, i: nat, j: nat, mid: seq<Chunk>, m: Bytes, m': Bytes, to: int, k: int)
    requires i <= j <= |cs| && mid != []
    requires Tiles(cs, lo, hi) && Records(m, cs)
    requires SameOutside(m, m', StartOf(cs, hi, i), to) && (j < |cs| ==> to == cs[j].addr)
    requires i == |cs| && i > 0 ==> !cs[i - 1].hole
    requires Records(m', mid)
    requires j < |cs| ==> FooterAt(m', mid[|mid| - 1])
    requires 0 <= k < |Splice(cs, i, j, mid)|
    ensures RecordedAt(m', Splice(cs, i, j, mid), k)
  {
    hide HeaderAt, FooterAt, Tiles, SameOutside;
    var ds := Splice(cs, i, j, mid);
    if k < i {
      assert ds[k] == cs[k];
      assert RecordedAt(m', ds, k) by { SpliceKeeps(cs, lo, hi, i, j, m, m', to, k); }
    } else if k < i + |mid| {
      assert ds[k] == mid[k - i];
      assert RecordedAt(m', ds, k) by { assert RecordedAt(m', mid, k - i); }
    } else {
      var l := k - i - |mid| + j;
      assert ds[k] == cs[l];
      assert RecordedAt(m', ds, k) by { SpliceKeeps(cs, lo, hi, i, j, m, m', to, l); }
    }
  }

  lemma SpliceRecords(cs: seq<Chunk>, lo: int, hi: int, i: nat, j: nat, mid: seq<Chunk>, m: Bytes, m': Bytes, to: int)
    requires i <= j <= |cs| && mid != []
    requires Tiles(cs, lo, hi) && Records(m, cs)
    requires SameOutside(m, m', StartOf(cs, hi, i), to) && (j < |cs| ==> to == cs[j].addr)
    requires i == |cs| && i > 0 ==> !cs[i - 1].hole
    requires Records(m', mid)
    requires j < |cs| ==> FooterAt(m', mid[|mid| - 1])
    ensures Records(m', Splice(cs, i, j, mid))
  {
    forall k | 0 <= k < |Splice(cs, i, j, mid)|
      ensures RecordedAt(m', Splice(cs, i, j, mid), k)
    {
      SpliceRecordAt(cs, lo, hi, i, j, mid, m, m', to, k);
    }
  }

  lemma HeaderKept(m: Bytes, m': Bytes, lo: int, hi: int, c: Chunk)
    requires SameOutside(m, m', lo, hi) && HeaderAt(m, c)
    requires c.addr + HEADER_SIZE <= lo || hi <= c.addr
    ensures HeaderAt(m', c)
  {
  }

  lemma FooterKept(m: Bytes, m': Bytes, lo: int, hi: int, c: Chunk)
    requires SameOutside(m, m', lo, hi) && FooterAt(m, c)
    requires c.End() <= lo || hi <= c.End() - FOOTER_SIZE
    ensures FooterAt(m', c)
  {
  }

  lemma SpliceHoles(cs: seq<Chunk>, i: nat, j: nat, mid: seq<Chunk>)
    requires i <= j <= |cs|
    ensures HoleAddrs(Splice(cs, i, j, mid)) == HoleAddrs(cs[..i]) + HoleAddrs(mid) + HoleAddrs(cs[j..])
    ensures HoleAddrs(cs) == HoleAddrs(cs[..i]) + HoleAddrs(cs[i..j]) + HoleAddrs(cs[j..])
  {
    HolesConcat(cs[..i], mid);
    HolesConcat(cs[..i] + mid, cs[j..]);
    HolesConcat(cs[..i], cs[i..j]);
    HolesConcat(cs[..i] + cs[i..j], cs[j..]);
    assert cs == cs[..i] + cs[i..j] + cs[j..];
  }

  lemma HolesConcat(a: seq<Chunk>, b: seq<Chunk>)
    ensures HoleAddrs(a + b) == HoleAddrs(a) + HoleAddrs(b)
  {
    var c := a + b;
    forall x | x in HoleAddrs(a) ensures x in HoleAddrs(c) {
      var i :| 0 <= i < |a| && a[i].hole && a[i].addr == x;
      assert c[i] == a[i];
    }
    forall x | x in HoleAddrs(b) ensures x in HoleAddrs(c) {
      var i :| 0 <= i < |b| && b[i].hole && b[i].addr == x;
      assert c[|a| + i] == b[i];
    }
  }

  // ---------------------------------------------------------------- what the operations do to a tiling

  // The part of hole c that alloc turns into a block of n bytes, and what is left of it. A
  // remainder too small for a header and a footer goes to the block.
  function Carved(c: Chunk, n: int): seq<Chunk> {
    if c.size - n < OVERHEAD then [Chunk(c.addr, c.size, false)]
    else [Chunk(c.addr, n, false), Chunk(c.addr + n, c.size - n, true)]
  }

  function CarveChunks(cs: seq<Chunk>, k: nat, n: int): seq<Chunk>
    requires k < |cs|
  {
    Splice(cs, k, k + 1, Carved(cs[k], n))
  }

  // The region grows from end by g bytes: the last chunk takes them when it is a hole, and
  // they become a hole of their own otherwise.
  function GrownHole(cs: seq<Chunk>, end: int, g: int): Chunk
    requires cs != []
  {
    var last := cs[|cs| - 1];
    if last.hole then Chunk(last.addr, last.size + g, true) else Chunk(end, g, true)
  }

  function GrowChunks(cs: seq<Chunk>, end: int, g: int): seq<Chunk>
    requires cs != []
  {
    Splice(cs, if cs[|cs| - 1].hole then |cs| - 1 else |cs|, |cs|, [GrownHole(cs, end, g)])
  }

  function LeftOf(cs: seq<Chunk>, k: nat): (i: nat)
    requires k < |cs|
    ensures i <= k
  {
    if k > 0 && cs[k - 1].hole then k - 1 else k
  }

  function RightOf(cs: seq<Chunk>, k: nat): (j: nat)
    requires k < |cs|
    ensures k < j <= |cs|
  {
    if k + 1 < |cs| && cs[k + 1].hole then k + 2 else k + 1
  }

  // Chunk k becomes a hole, joined with a hole on its left.
  function MergeLeft(cs: seq<Chunk>, k: nat): seq<Chunk>
    requires k < |cs|
  {
    var i := LeftOf(cs, k);
    Splice(cs, i, k + 1, [Chunk(cs[i].addr, cs[k].End() - cs[i].addr, true)])
  }

  // Hole i is joined with a hole on its right.
  function MergeRight(cs: seq<Chunk>, i: nat): seq<Chunk>
    requires i < |cs|
  {
    if i + 1 < |cs| && cs[i + 1].hole
    then Splice(cs, i, i + 2, [Chunk(cs[i].addr, cs[i].size + cs[i + 1].size, true)])
    else cs
  }

  // A hole i at the very end is cut back so that the region ends at end.
  function Trim(cs: seq<Chunk>, i: nat, end: int): seq<Chunk>
    requires i < |cs|
  {
    if i + 1 == |cs| then Splice(cs, i, i + 1, [Chunk(cs[i].addr, end - cs[i].addr, true)]) else cs
  }

  function FreeChunks(cs: seq<Chunk>, k: nat, minEnd: int): seq<Chunk>
    requires k < |cs|
  {
    Trim(MergeRight(MergeLeft(cs, k), LeftOf(cs, k)), LeftOf(cs, k), minEnd)
  }

  // Whether the hole that freeing chunk k leaves touches the end of the region.
  predicate TouchesEnd(cs: seq<Chunk>, k: nat)
    requires k < |cs|
  {
    RightOf(cs, k) == |cs|
  }

  // ---------------------------------------------------------------- live allocations

  ghost function LivePtrs(cs: seq<Chunk>): set<int> {
    set k | 0 <= k < |cs| && !cs[k].hole :: cs[k].addr + HEADER_SIZE
  }

  // The bytes an allocation owns, from its pointer up to its footer.
  ghost function Payload(m: Bytes, p: int): seq<byte> {
    var size := SizeAt(m, p - HEADER_SIZE);
    Span(m, p, if size < OVERHEAD then 0 else size - OVERHEAD)
  }

  // The abstract heap: pointers to what is stored behind them.
  ghost function Live(m: Bytes, cs: seq<Chunk>): map<int, seq<byte>> {
    map p | p in LivePtrs(cs) :: Payload(m, p)
  }

  lemma PayloadKept(m: Bytes, m': Bytes, c: Chunk, lo: int, hi: int)
    requires SameOutside(m, m', lo, hi) && HeaderAt(m, c) && c.size >= OVERHEAD
    requires c.End() <= lo || hi <= c.addr
    ensures Payload(m', c.addr + HEADER_SIZE) == Payload(m, c.addr + HEADER_SIZE)
    ensures |Payload(m, c.addr + HEADER_SIZE)| == c.size - OVERHEAD
  {
    assert SizeAt(m', c.addr) == SizeAt(m, c.addr);
    var a, n := c.addr + HEADER_SIZE, c.size - OVERHEAD;
    assert Span(m', a, n) == Span(m, a, n);
  }

  lemma LiveOfSplice(cs: seq<Chunk>, i: nat, j: nat, mid: seq<Chunk>)
    requires i <= j <= |cs|
    ensures LivePtrs(Splice(cs, i, j, mid)) == LivePtrs(cs[..i]) + LivePtrs(mid) + LivePtrs(cs[j..])
    ensures LivePtrs(cs) == LivePtrs(cs[..i]) + LivePtrs(cs[i..j]) + LivePtrs(cs[j..])
  {
    LiveConcat(cs[..i], mid);
    LiveConcat(cs[..i] + mid, cs[j..]);
    LiveConcat(cs[..i], cs[i..j]);
    LiveConcat(cs[..i] + cs[i..j], cs[j..]);
    assert cs == cs[..i] + cs[i..j] + cs[j..];
  }

  lemma LiveConcat(a: seq<Chunk>, b: seq<Chunk>)
    ensures LivePtrs(a + b) == LivePtrs(a) + LivePtrs(b)
  {
    var c := a + b;
    forall x | x in LivePtrs(a) ensures x in LivePtrs(c) {
      var i :| 0 <= i < |a| && !a[i].hole && a[i].addr + HEADER_SIZE == x;
      assert c[i] == a[i];
    }
    forall x | x in LivePtrs(b) ensures x in LivePtrs(c) {
      var i :| 0 <= i < |b| && !b[i].hole && b[i].addr + HEADER_SIZE == x;
      assert c[|a| + i] == b[i];
    }
  }

  // ---------------------------------------------------------------- index and layout facts

  // A layout's index entry is a hole of the tiling, and a hole that does not touch the end
  // has a footer that points back at it.
  lemma IndexEntryIsHole(s: HeapState, cs: seq<Chunk>, a: u32) returns (k: nat)
    requires Layout(s, cs) && a in s.index
    ensures k < |cs| && cs[k].addr == a && cs[k].hole && HeaderAt(s.mem, cs[k])
    ensures s.start <= a && a + OVERHEAD <= cs[k].End() <= s.end
    ensures cs[k].End() < s.end ==> FooterAt(s.mem, cs[k])
  {
    assert a in HoleAddrs(cs);
    k :| 0 <= k < |cs| && cs[k].hole && cs[k].addr == a;
    assert RecordedAt(s.mem, cs, k);
    TilesWithin(cs, s.start, s.end, k);
  }

  // The words around a live block, and what it stores.
  lemma BlockRecords(s: HeapState, cs: seq<Chunk>, p: int)
    requires Layout(s, cs) && p in LivePtrs(cs)
    ensures var size := Word(s.mem, p - 4);
      && s.start <= p - 12 && 20 <= size && p - 12 + size <= s.end
      && Word(s.mem, p - 12) == 0x123890AB && s.mem(p - 8) == 0
      && Word(s.mem, p - 12 + size - 8) == 0x123890AB && Word(s.mem, p - 12 + size - 4) == p - 12
      && |Live(s.mem, cs)[p]| == size - 20
      && forall j :: 0 <= j < size - 20 ==> Live(s.mem, cs)[p][j] == s.mem(p + j)
  {
    hide Word, Indexed, NoAdjacentHoles;
    var k :| 0 <= k < |cs| && !cs[k].hole && cs[k].addr + HEADER_SIZE == p;
    assert RecordedAt(s.mem, cs, k);
    TilesWithin(cs, s.start, s.end, k);
  }

  // The words around a listed hole. The footer at the end of the region may be missing.
  lemma HoleRecords(s: HeapState, cs: seq<Chunk>, a: u32)
    requires Layout(s, cs) && a in s.index
    ensures var size := Word(s.mem, a + 8);
      && s.start <= a && 20 <= size && a + size <= s.end
      && Word(s.mem, a) == 0x123890AB && s.mem(a + 4) == 1
      && (a + size < s.end ==> Word(s.mem, a + size - 8) == 0x123890AB && Word(s.mem, a + size - 4) == a)
  {
    hide Word, Indexed, NoAdjacentHoles;
    var k := IndexEntryIsHole(s, cs, a);
  }

  ghost function Entries(s: seq<u32>): set<int> {
    set i | 0 <= i < |s| :: s[i]
  }

  lemma {:induction false} DistinctSize(s: seq<u32>)
    requires Distinct(s)
    ensures |Entries(s)| == |s|
  {
    if s != [] {
      var n := |s| - 1;
      DistinctSize(s[..n]);
      assert Entries(s) == Entries(s[..n]) + {s[n]} by {
        forall i | 0 <= i < n ensures s[i] in Entries(s[..n]) { assert s[..n][i] == s[i]; }
      }
      assert s[n] !in Entries(s[..n]);
    }
  }

  // The last chunk adds at most one hole.
  lemma HolesOfLast(cs: seq<Chunk>)
    requires cs != []
    ensures |HoleAddrs(cs)| <= |HoleAddrs(cs[..|cs| - 1])| + if cs[|cs| - 1].hole then 1 else 0
  {
    var n := |cs| - 1;
    var init, c := HoleAddrs(cs[..n]), cs[n];
    HolesConcat(cs[..n], [c]);
    assert cs == cs[..n] + [c];
    if c.hole {
      assert HoleAddrs([c]) <= {c.addr};
      UnionSize(init, c.addr);
      SubsetSize(HoleAddrs(cs), init + {c.addr});
    } else {
      assert HoleAddrs([c]) == {};
    }
  }

  lemma UnionSize(a: set<int>, x: int)
    ensures |a + {x}| <= |a| + 1
  {
    if x in a { assert a + {x} == a; }
  }

  lemma TilesPrefix(cs: seq<Chunk>, lo: int, hi: int, n: nat)
    requires Tiles(cs, lo, hi) && n < |cs|
    ensures Tiles(cs[..n], lo, cs[n].addr) && cs[n].End() <= hi && cs[n].size >= OVERHEAD
  {
    TilesWithin(cs, lo, hi, n);
    if n > 0 { assert cs[n - 1].End() == cs[n].addr; }
  }

  lemma {:induction false} HolesAreFew(cs: seq<Chunk>, lo: int, hi: int)
    requires cs != [] && Tiles(cs, lo, hi) && NoAdjacentHoles(cs)
    ensures |HoleAddrs(cs)| * 40 <= hi - lo + 20
    ensures !cs[|cs| - 1].hole ==> |HoleAddrs(cs)| * 40 <= hi - lo
  {
    hide HoleAddrs, Tiles;
    var n := |cs| - 1;
    HolesOfLast(cs);
    TilesPrefix(cs, lo, hi, n);
    if n > 0 {
      assert cs[n].hole ==> !cs[n - 1].hole;
      HolesAreFew(cs[..n], lo, cs[n].addr);
    } else {
      NoHoleAddrs(cs[..n]);
      TilesWithin(cs, lo, hi, n);
    }
  }

  lemma NoHoleAddrs(cs: seq<Chunk>)
    requires cs == []
    ensures |HoleAddrs(cs)| == 0
  {
    assert HoleAddrs(cs) == {};
  }

  lemma SubsetSize(a: set<int>, b: set<int>)
    requires a <= b
    ensures |a| <= |b|
  {
    assert b == a + (b - a);
  }

  // The index of a region of L bytes has at most (L + 20) / 40 entries, so it stays below
  // its HEAP_INDEX_SIZE slots while L < 0x500000 - 20, and a region one more hole shorter
  // leaves room for the entry that free may add.
  lemma IndexStaysSmall(s: HeapState, cs: seq<Chunk>)
    requires Layout(s, cs)
    ensures |s.index| * 40 <= s.end - s.start + 20
    ensures s.end - s.start < 0x50_0000 - 20 ==> |s.index| < HEAP_INDEX_SIZE
    ensures s.end - s.start < 0x50_0000 - 60 ==> |s.index| + 1 < HEAP_INDEX_SIZE
  {
    DistinctSize(s.index);
    HolesAreFew(cs, s.start, s.end);
    SubsetSize(Entries(s.index), HoleAddrs(cs));
  }
}
