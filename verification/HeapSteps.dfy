/** Each step of alloc and free keeps the layout of the heap, and what the step does to the
    live allocations. */
module HeapSteps {
  import opened Memory
  import opened OrderedArrays
  import opened HeapLayout

  ghost predicate SameBounds(s: HeapState, s': HeapState) {
    s'.start == s.start && s'.end == s.end && s'.max == s.max
  }

  // Replacing chunks i..j by mid, whose records the new memory holds, keeps the shape; only
  // bytes from the start of chunk i up to to are written.
  lemma SpliceShape(s: HeapState, cs: seq<Chunk>, i: nat, j: nat, mid: seq<Chunk>, s': HeapState, to: int)
    requires Shape(s, cs) && i <= j <= |cs| && mid != []
    requires s'.start == s.start && s'.start < s'.end && (j < |cs| ==> s'.end == s.end)
    requires Tiles(mid, StartOf(cs, s.end, i), if j < |cs| then cs[j].addr else s'.end)
    requires Records(s'.mem, mid) && (j < |cs| ==> FooterAt(s'.mem, mid[|mid| - 1]))
    requires SameOutside(s.mem, s'.mem, StartOf(cs, s.end, i), to) && (j < |cs| ==> to == cs[j].addr)
    requires i == |cs| && i > 0 ==> !cs[i - 1].hole
    ensures Shape(s', Splice(cs, i, j, mid))
  {
    hide Records, FooterAt, Splice, Tiles;
    SpliceTiles(cs, s.start, s.end, i, j, mid, s'.end);
    SpliceRecords(cs, s.start, s.end, i, j, mid, s.mem, s'.mem, to);
    if i < |cs| { TilesWithin(cs, s.start, s.end, i); }
    assert Word(s'.mem, s.start - FOOTER_SIZE) == Word(s.mem, s.start - FOOTER_SIZE);
  }

  lemma OneRecord(m: Bytes, c: Chunk)
    requires HeaderAt(m, c) && (!c.hole ==> FooterAt(m, c))
    ensures Records(m, [c])
  {
    assert RecordedAt(m, [c], 0);
  }

  // Where the chunk after k starts.
  lemma NextStart(cs: seq<Chunk>, lo: int, hi: int, k: nat)
    requires Tiles(cs, lo, hi) && k < |cs|
    ensures cs[k].End() == StartOf(cs, hi, k + 1)
  {
  }

  // A splice drops the holes it replaces, and no other, and brings in its own.
  lemma SpliceMovesHoles(cs: seq<Chunk>, lo: int, hi: int, i: nat, j: nat, mid: seq<Chunk>)
    requires Tiles(cs, lo, hi) && i <= j <= |cs|
    ensures HoleAddrs(Splice(cs, i, j, mid)) == (HoleAddrs(cs) - HoleAddrs(cs[i..j])) + HoleAddrs(mid)
  {
    SpliceHoles(cs, i, j, mid);
    HolesApart(cs, lo, hi, i, j, 0, i);
    HolesApart(cs, lo, hi, i, j, j, |cs|);
    assert cs[0..i] == cs[..i] && cs[j..|cs|] == cs[j..];
  }

  lemma HolesApart(cs: seq<Chunk>, lo: int, hi: int, i: nat, j: nat, i': nat, j': nat)
    requires Tiles(cs, lo, hi) && i <= j <= |cs| && i' <= j' <= |cs| && (j <= i' || j' <= i)
    ensures HoleAddrs(cs[i..j]) !! HoleAddrs(cs[i'..j'])
  {
    var was, other := cs[i..j], cs[i'..j'];
    forall a, b | 0 <= a < |was| && 0 <= b < |other| ensures was[a].addr != other[b].addr {
      if was[a].addr == other[b].addr { TilesInjective(cs, lo, hi, i + a, i' + b); }
    }
  }

  lemma HolesOfOne(c: Chunk)
    ensures HoleAddrs([c]) == if c.hole then {c.addr} else {}
  {
    assert c.hole ==> [c][0].hole && [c][0].addr in HoleAddrs([c]);
  }

  lemma HolesOfTwo(c: Chunk, d: Chunk)
    ensures HoleAddrs([c, d]) == HoleAddrs([c]) + HoleAddrs([d])
  {
    HolesConcat([c], [d]);
    assert [c] + [d] == [c, d];
  }

  // ---------------------------------------------------------------- carving a block out of a hole

  // Splitting hole k into the chunks of mid.
  lemma SplitKeepsLayout(s: HeapState, cs: seq<Chunk>, k: nat, mid: seq<Chunk>, s': HeapState)
    requires Layout(s, cs) && k < |cs| && cs[k].hole && mid != []
    requires Tiles(mid, cs[k].addr, cs[k].End()) && NoAdjacentHoles(mid)
    requires SameBounds(s, s') && SameOutside(s.mem, s'.mem, cs[k].addr, cs[k].End())
    requires forall c :: c in mid ==> HeaderAt(s'.mem, c) && FooterAt(s'.mem, c)
    requires Distinct(s'.index)
    requires forall a :: a in s'.index <==> (a in s.index && a != cs[k].addr) || a in HoleAddrs(mid)
    ensures Layout(s', Splice(cs, k, k + 1, mid))
  {
    hide Word, HeaderAt, FooterAt, SameOutside;
    NextStart(cs, s.start, s.end, k);
    assert Records(s'.mem, mid) by {
      forall i | 0 <= i < |mid| ensures RecordedAt(s'.mem, mid, i) {
        assert mid[i] in mid;
      }
    }
    assert FooterAt(s'.mem, mid[|mid| - 1]) by { assert mid[|mid| - 1] in mid; }
    SpliceShape(s, cs, k, k + 1, mid, s', cs[k].End());
    SpliceMovesHoles(cs, s.start, s.end, k, k + 1, mid);
    assert cs[k..k + 1] == [cs[k]];
    HolesOfOne(cs[k]);
    SplitApart(cs, k, mid);
  }

  lemma SplitApart(cs: seq<Chunk>, k: nat, mid: seq<Chunk>)
    requires NoAdjacentHoles(cs) && k < |cs| && cs[k].hole && NoAdjacentHoles(mid) && mid != []
    ensures NoAdjacentHoles(Splice(cs, k, k + 1, mid))
  {
    var ds := Splice(cs, k, k + 1, mid);
    forall i, j | 0 <= i && j == i + 1 < |ds| ensures !(ds[i].hole && ds[j].hole) {
      assert ds[i] == if i < k then cs[i] else if i < k + |mid| then mid[i - k] else cs[i - |mid| + 1];
      assert ds[j] == if j < k then cs[j] else if j < k + |mid| then mid[j - k] else cs[j - |mid| + 1];
    }
  }

  lemma CarveKeepsLayout(s: HeapState, cs: seq<Chunk>, k: nat, n: int, s': HeapState)
    requires Layout(s, cs) && k < |cs| && cs[k].hole && OVERHEAD <= n <= cs[k].size
    requires SameBounds(s, s') && SameOutside(s.mem, s'.mem, cs[k].addr, cs[k].End())
    requires forall c :: c in Carved(cs[k], n) ==> HeaderAt(s'.mem, c) && FooterAt(s'.mem, c)
    requires Distinct(s'.index)
    requires forall a :: a in s'.index <==> (a in s.index && a != cs[k].addr) || a in HoleAddrs(Carved(cs[k], n))
    ensures Layout(s', CarveChunks(cs, k, n))
  {
    hide Layout, HeaderAt, FooterAt, SameOutside, HoleAddrs;
    SplitKeepsLayout(s, cs, k, Carved(cs[k], n), s');
  }

  // ---------------------------------------------------------------- growing the region

  // The committed growth code hands the new bytes to the endmost hole; this is right only
  // when that hole is the last chunk, or when there is no hole at all.
  ghost predicate GrowOk(cs: seq<Chunk>) {
    cs != [] && (cs[|cs| - 1].hole || HoleAddrs(cs) == {})
  }

  lemma GrowKeepsLayout(s: HeapState, cs: seq<Chunk>, g: int, s': HeapState)
    requires Layout(s, cs) && GrowOk(cs) && g >= OVERHEAD
    requires s'.start == s.start && s'.end == s.end + g
    requires var c := GrownHole(cs, s.end, g);
      SameOutside(s.mem, s'.mem, c.addr, s'.end) && HeaderAt(s'.mem, c) && FooterAt(s'.mem, c)
    requires s'.index == if cs[|cs| - 1].hole then s.index else [s.end]
    ensures Layout(s', GrowChunks(cs, s.end, g))
  {
    hide HeaderAt, FooterAt, SameOutside, Records;
    var last := |cs| - 1;
    var c := GrownHole(cs, s.end, g);
    var i := if cs[last].hole then last else |cs|;
    OneRecord(s'.mem, c);
    SpliceShape(s, cs, i, |cs|, [c], s', s'.end);
    SpliceMovesHoles(cs, s.start, s.end, i, |cs|, [c]);
    HolesOfOne(c);
    HolesOfOne(cs[last]);
    assert cs[i..|cs|] == if cs[last].hole then [cs[last]] else [];
    assert cs[last].hole ==> cs[last].addr in HoleAddrs(cs);
    assert NoAdjacentHoles(GrowChunks(cs, s.end, g));
  }

  // ---------------------------------------------------------------- freeing a block

  // The heap in the middle of free: a layout except that hole i may still be missing from
  // the index.
  ghost predicate Pending(s: HeapState, cs: seq<Chunk>, i: nat) {
    && Shape(s, cs)
    && i < |cs| && cs[i].hole
    && Distinct(s.index)
    && (forall a :: a in s.index ==> a in HoleAddrs(cs))
    && (forall a :: a in HoleAddrs(cs) ==> a in s.index || a == cs[i].addr)
  }

  // Holes are apart, except that hole i may touch its right neighbour.
  ghost predicate ApartExceptAt(cs: seq<Chunk>, i: nat) {
    forall a, b :: 0 <= a && b == a + 1 < |cs| && a != i ==> !(cs[a].hole && cs[b].hole)
  }

  lemma MergeLeftShape(s: HeapState, cs: seq<Chunk>, k: nat, s': HeapState)
    requires Shape(s, cs) && k < |cs| && !cs[k].hole && SameBounds(s, s')
    requires var i := LeftOf(cs, k); var c := MergeLeft(cs, k)[i];
      SameOutside(s.mem, s'.mem, c.addr, c.End()) && HeaderAt(s'.mem, c) && FooterAt(s'.mem, c)
    ensures Shape(s', MergeLeft(cs, k))
  {
    var i := LeftOf(cs, k);
    var c := MergeLeft(cs, k)[i];
    NextStart(cs, s.start, s.end, i);
    NextStart(cs, s.start, s.end, k);
    OneRecord(s'.mem, c);
    SpliceShape(s, cs, i, k + 1, [c], s', c.End());
  }

  lemma MergeLeftHoles(cs: seq<Chunk>, lo: int, hi: int, k: nat)
    requires Tiles(cs, lo, hi) && k < |cs| && !cs[k].hole
    ensures HoleAddrs(MergeLeft(cs, k)) == HoleAddrs(cs) + {cs[LeftOf(cs, k)].addr}
    ensures LeftOf(cs, k) < k <==> cs[LeftOf(cs, k)].addr in HoleAddrs(cs)
  {
    var i := LeftOf(cs, k);
    var c := MergeLeft(cs, k)[i];
    SpliceMovesHoles(cs, lo, hi, i, k + 1, [c]);
    HolesOfOne(c);
    HolesOfOne(cs[k]);
    if i < k {
      HolesOfOne(cs[i]);
      HolesOfTwo(cs[i], cs[k]);
      assert cs[i..k + 1] == [cs[i], cs[k]];
      assert cs[i].addr in HoleAddrs(cs);
    } else {
      assert cs[i..k + 1] == [cs[k]];
      BlockIsNoHole(cs, lo, hi, k);
    }
  }

  lemma BlockIsNoHole(cs: seq<Chunk>, lo: int, hi: int, k: nat)
    requires Tiles(cs, lo, hi) && k < |cs| && !cs[k].hole
    ensures cs[k].addr !in HoleAddrs(cs)
  {
    if cs[k].addr in HoleAddrs(cs) {
      var j :| 0 <= j < |cs| && cs[j].hole && cs[j].addr == cs[k].addr;
      TilesInjective(cs, lo, hi, j, k);
    }
  }

  lemma MergeLeftApart(cs: seq<Chunk>, k: nat)
    requires NoAdjacentHoles(cs) && k < |cs| && !cs[k].hole
    ensures ApartExceptAt(MergeLeft(cs, k), LeftOf(cs, k))
  {
  }

  lemma MergeRightShape(s: HeapState, cs: seq<Chunk>, i: nat, s': HeapState)
    requires Shape(s, cs) && i + 1 < |cs| && cs[i + 1].hole && SameBounds(s, s')
    requires var c := MergeRight(cs, i)[i];
      SameOutside(s.mem, s'.mem, c.addr, c.End()) && HeaderAt(s'.mem, c) && (i + 2 < |cs| ==> FooterAt(s'.mem, c))
    ensures Shape(s', MergeRight(cs, i))
  {
    var c := MergeRight(cs, i)[i];
    NextStart(cs, s.start, s.end, i);
    NextStart(cs, s.start, s.end, i + 1);
    OneRecord(s'.mem, c);
    SpliceShape(s, cs, i, i + 2, [c], s', c.End());
  }

  lemma MergeRightHoles(cs: seq<Chunk>, lo: int, hi: int, i: nat)
    requires Tiles(cs, lo, hi) && i + 1 < |cs| && cs[i].hole && cs[i + 1].hole
    ensures HoleAddrs(MergeRight(cs, i)) == HoleAddrs(cs) - {cs[i + 1].addr}
    ensures cs[i + 1].addr in HoleAddrs(cs) && cs[i + 1].addr != cs[i].addr
  {
    assert cs[i].addr in HoleAddrs(cs) && cs[i + 1].addr in HoleAddrs(cs);
    hide HoleAddrs, Splice;
    var c := Chunk(cs[i].addr, cs[i].size + cs[i + 1].size, true);
    TilesOrdered(cs, lo, hi, i, i + 1);
    SpliceMovesHoles(cs, lo, hi, i, i + 2, [c]);
    HolesOfOne(c);
    HolesOfOne(cs[i]);
    HolesOfOne(cs[i + 1]);
    HolesOfTwo(cs[i], cs[i + 1]);
    assert cs[i..i + 2] == [cs[i], cs[i + 1]];
  }

  lemma MergeRightApart(cs: seq<Chunk>, i: nat)
    requires ApartExceptAt(cs, i) && i < |cs| && cs[i].hole
    ensures NoAdjacentHoles(MergeRight(cs, i))
  {
  }

  lemma TrimKeeps(s: HeapState, cs: seq<Chunk>, i: nat, s': HeapState)
    requires Pending(s, cs, i) && NoAdjacentHoles(cs) && i + 1 == |cs|
    requires s'.start == s.start && s'.index == s.index && cs[i].addr + OVERHEAD <= s'.end
    requires var c := Trim(cs, i, s'.end)[i];
      SameOutside(s.mem, s'.mem, c.addr, c.End()) && HeaderAt(s'.mem, c)
    ensures Pending(s', Trim(cs, i, s'.end), i) && NoAdjacentHoles(Trim(cs, i, s'.end))
  {
    var c := Trim(cs, i, s'.end)[i];
    TilesWithin(cs, s.start, s.end, i);
    OneRecord(s'.mem, c);
    SpliceShape(s, cs, i, |cs|, [c], s', s'.end);
    SpliceMovesHoles(cs, s.start, s.end, i, |cs|, [c]);
    HolesOfOne(c);
    HolesOfOne(cs[i]);
    assert cs[i..|cs|] == [cs[i]];
  }
}
