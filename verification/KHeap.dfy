/** The kernel heap of sys/kheap.c, on raw memory. */
module KernelHeap {
  import opened Memory
  import opened OrderedArrays
  import opened HeapLayout
  import opened HeapSteps
  import opened HeapSpec
  import opened Options
  import HeapRuns

  class KHeap {
    const ram: Ram
    const index: OrderedArray
    const startAddress: int
    const maxAddress: int
    var endAddress: int
    var mapped: set<int>  // the numbers of the pages that have a frame
    ghost var chunks: seq<Chunk>

    // Whether free writes the far footer of a right merge: false is the code as committed,
    // true is the repair its comment at sys/kheap.c:396 announces.
    const writesFarFooter: bool

    ghost function State(): HeapState
      requires index.Valid()
      reads this, ram, index, index.elems
    {
      HeapState(ram.cells, startAddress, endAddress, maxAddress, index.Contents())
    }

    // The index array has a free slot past its end.
    ghost predicate Roomy()
      reads index
    {
      index.Valid() && index.size < index.elems.Length && 1 < index.elems.Length
    }

    ghost predicate Valid()
      reads this, ram, index, index.elems
    {
      Roomy() && Layout(State(), chunks) && Bounds(State())
    }

    function BySize(): (u32, u32) -> bool
      reads this, ram
    {
      SizeLess(ram.cells)
    }

    // create_heap. The index array takes the first HEAP_INDEX_SIZE words of the area; the
    // rest is one hole, which gets a header but no footer. The pages of the area have had
    // frames since initialise_paging.
    constructor (ram: Ram, start: int, end: int, max: int, writesFarFooter: bool, mapped: set<int>)
      requires start % PAGE == 0 && end % PAGE == 0
      requires 0 <= start && start + 4 * HEAP_INDEX_SIZE + OVERHEAD <= end <= max < WORD
      modifies ram
      ensures Roomy() && Layout(State(), chunks) && State().index == [startAddress]
      ensures SameOutside(old(ram.cells), ram.cells, start, startAddress + HEADER_SIZE)
      ensures startAddress + HEAP_MIN_SIZE <= endAddress ==> Valid()
      ensures fresh(index) && fresh(index.elems) && index.elems.Length == HEAP_INDEX_SIZE && this.mapped == mapped
      ensures this.ram == ram && this.writesFarFooter == writesFarFooter
      ensures startAddress == start + 0x80000 && endAddress == end && maxAddress == max
      ensures chunks == [Chunk(startAddress, end - startAddress, true)]
    {
      this.ram := ram;
      this.writesFarFooter := writesFarFooter;
      index := new OrderedArray.Place(HEAP_INDEX_SIZE);
      startAddress, endAddress, maxAddress := start + 4 * HEAP_INDEX_SIZE, end, max;
      this.mapped := mapped;
      chunks := [Chunk(start + 4 * HEAP_INDEX_SIZE, end - (start + 4 * HEAP_INDEX_SIZE), true)];
      new;
      LayInitialHole(start);
    }

    method LayInitialHole(area: int)
      requires Roomy() && index.Contents() == []
      requires 0 <= area && startAddress == area + 4 * HEAP_INDEX_SIZE && startAddress + OVERHEAD <= endAddress < WORD
      requires chunks == [Chunk(startAddress, endAddress - startAddress, true)]
      modifies ram, index, index.elems
      ensures Roomy() && Layout(State(), chunks) && State().index == [startAddress]
      ensures SameOutside(old(ram.cells), ram.cells, area, startAddress + HEADER_SIZE)
    {
      hide Word;
      ram.MemSet(area, 0, 4 * HEAP_INDEX_SIZE);
      ZeroWord(ram.cells, startAddress - FOOTER_SIZE);
      ghost var m := ram.cells;
      PutHeader(startAddress, true, endAddress - startAddress);
      WordKept(m, ram.cells, startAddress, startAddress + HEADER_SIZE, startAddress - FOOTER_SIZE);
      index.Insert(startAddress, BySize());
      assert index.Contents() == [startAddress];
      NewHeapLayout(State(), chunks[0]);
    }

    // expand. False stands for the kernel halting on the ASSERT at sys/kheap.c:94.
    method Expand(newSize: int) returns (ok: bool)
      requires endAddress - startAddress < newSize && startAddress + newSize + PAGE < WORD
      modifies this
      ensures ok <==> startAddress + GrownLength(newSize) <= maxAddress
      ensures !ok ==> endAddress == old(endAddress) && mapped == old(mapped)
      ensures ok ==> endAddress == startAddress + GrownLength(newSize)
      ensures ok ==> newSize <= endAddress - startAddress <= newSize + PAGE
      ensures ok && newSize % 2 == 0 ==> endAddress == startAddress + newSize
      ensures ok && newSize % 2 == 1 ==> (endAddress - startAddress) % PAGE == 0
      ensures ok ==> forall p :: p in mapped <==>
        (p in old(mapped) || old(endAddress) / PAGE <= p <= old(endAddress) / PAGE + (endAddress - 1 - old(endAddress)) / PAGE)
      // A region all of whose pages had frames stays one exactly if the steps do not jump over
      // the last page boundary.
      ensures ok && startAddress < old(endAddress) && old(AllMapped(mapped, startAddress, endAddress)) &&
              old(endAddress) / PAGE + (endAddress - 1 - old(endAddress)) / PAGE + 1 !in old(mapped) ==>
        (AllMapped(mapped, startAddress, endAddress) <==>
         old(endAddress) % PAGE + (endAddress - 1 - old(endAddress)) % PAGE < PAGE)
      ensures chunks == old(chunks)
    {
      hide AllMapped;
      var size := newSize;
      if size % 2 == 1 {
        size := size - size % PAGE;
        size := size + PAGE;
      }
      if startAddress + size > maxAddress { return false; }
      var oldSize := endAddress - startAddress;
      var i := oldSize;
      ghost var rounds := 0;
      while i < size
        invariant i == oldSize + rounds * PAGE && rounds >= 0 && i < size + PAGE
        invariant forall p :: p in mapped <==> p in old(mapped) || endAddress / PAGE <= p < endAddress / PAGE + rounds
        invariant endAddress == old(endAddress) && chunks == old(chunks)
      {
        mapped := mapped + {(startAddress + i) / PAGE};
        i := i + PAGE;
        rounds := rounds + 1;
      }
      endAddress := startAddress + size;
      ok := true;
      if startAddress < old(endAddress) && old(AllMapped(mapped, startAddress, endAddress)) &&
         old(endAddress) / PAGE + (endAddress - 1 - old(endAddress)) / PAGE + 1 !in old(mapped) {
        ExpandMapsAllIff(old(mapped), mapped, startAddress, old(endAddress), endAddress);
      }
    }

    // contract. It never moves the end up. The pages it unmaps are those in front of the old
    // end from which whole-page steps, counted from the old end, do not get below the new one;
    // when the new end is on a page boundary they all lie past it.
    method Contract(newSize: int) returns (newLength: int)
      requires 0 <= newSize < endAddress - startAddress && HEAP_MIN_SIZE <= endAddress - startAddress
      modifies this
      ensures newLength == TrimmedLength(newSize) && endAddress == startAddress + newLength <= old(endAddress)
      ensures newSize >= 0x70000 && newSize / PAGE % 2 == 0 ==> endAddress == startAddress + newSize
      ensures newSize < 0x70000 || newSize / PAGE % 2 == 1 ==> endAddress == startAddress + 0x70000
      ensures mapped <= old(mapped)
      ensures forall p :: p in mapped <==>
        p in old(mapped) && !(p < old(endAddress) / PAGE && endAddress < p * PAGE + old(endAddress) % PAGE)
      ensures endAddress % PAGE == 0 ==> forall p :: p in old(mapped) && p * PAGE < endAddress ==> p in mapped
      ensures chunks == old(chunks)
    {
      var size := newSize;
      if size / PAGE % 2 == 1 {
        size := PAGE;
        size := size + PAGE;
      }
      if size < HEAP_MIN_SIZE {
        size := HEAP_MIN_SIZE;
      }
      var oldSize := endAddress - startAddress;
      var i := oldSize - PAGE;
      ghost var rounds, top := 0, endAddress / PAGE;
      while size < i
        invariant i == oldSize - (rounds + 1) * PAGE && rounds >= 0 && (rounds > 0 ==> size < oldSize - rounds * PAGE)
        invariant endAddress == old(endAddress) && chunks == old(chunks)
        invariant forall p :: p in mapped <==> p in old(mapped) && !(top - rounds <= p < top)
        decreases i
      {
        PageBelow(endAddress, rounds + 1);
        mapped := mapped - {(startAddress + i) / PAGE};
        i := i - PAGE;
        rounds := rounds + 1;
      }
      forall p ensures p in mapped <==> p in old(mapped) && !(p < top && startAddress + size < p * PAGE + endAddress % PAGE) {
        StepsBelow(endAddress, startAddress + size, p, rounds);
      }
      endAddress := startAddress + size;
      newLength := size;
    }

    method PutHeader(a: int, hole: bool, size: u32)
      modifies ram
      ensures HeaderAt(ram.cells, Chunk(a, size, hole))
      ensures SameOutside(old(ram.cells), ram.cells, a, a + HEADER_SIZE)
    {
      ram.PutWord(a, HEAP_MAGIC);
      ram.Poke(a + 4, if hole then 1 else 0);
      ram.PutWord(a + 8, size);
    }

    method PutFooter(a: int, owner: u32)
      modifies ram
      ensures Word(ram.cells, a) == HEAP_MAGIC && OwnerAt(ram.cells, a) == owner
      ensures SameOutside(old(ram.cells), ram.cells, a, a + FOOTER_SIZE)
    {
      ram.PutWord(a, HEAP_MAGIC);
      ram.PutWord(a + 4, owner);
    }

    // find_smallest_hole.
    method FindSmallestHole(n: u32, pageAlign: bool) returns (it: int)
      requires index.Valid()
      ensures !pageAlign ==> (it == -1 <==> !Fits(State(), n)) && (it != -1 ==> FirstFit(State(), n, it))
      ensures it == -1 <==> forall k :: 0 <= k < index.size ==> !HoleFits(ram.cells, index.Contents()[k], n, pageAlign)
      ensures it != -1 ==> 0 <= it < index.size && HoleFits(ram.cells, index.Contents()[it], n, pageAlign)
      ensures forall k :: 0 <= k < it ==> !HoleFits(ram.cells, index.Contents()[k], n, pageAlign)
    {
      hide SizeAt;
      it := 0;
      while it < index.size
        invariant 0 <= it <= index.size
        invariant forall k :: 0 <= k < it ==> !HoleFits(ram.cells, index.Contents()[k], n, pageAlign)
      {
        var header := index.Lookup(it);
        if HoleFits(ram.cells, header, n, pageAlign) { return; }
        it := it + 1;
      }
      it := -1;
    }

    // The records alloc writes into the hole it chose: a block of newSize bytes and, when
    // anything is left, a hole behind it. What is left is taken in 32 bits; it is negative
    // only for page-aligned requests.
    method PutCarved(holePos: u32, holeSize: int, size: int, newSize: int, ghost n: int)
      requires newSize == size + OVERHEAD && OVERHEAD <= newSize
      requires if holeSize == newSize then holePos + newSize < WORD else holePos + newSize + HEADER_SIZE < WORD
      requires FOOTER_SIZE <= holePos + holeSize < WORD && -WORD < holeSize - newSize
      modifies ram
      ensures OVERHEAD <= n <= newSize <= holeSize && newSize == (if holeSize - n < OVERHEAD then holeSize else n) ==>
        && SameOutside(old(ram.cells), ram.cells, holePos, holePos + holeSize)
        && CarvedRecords(ram.cells, Chunk(holePos, holeSize, true), n, endAddress)
      ensures newSize <= holeSize ==> HeaderAt(ram.cells, Chunk(holePos, newSize, false))
      ensures holeSize != newSize ==> LeftBehind(ram.cells, holePos + newSize, holeSize - newSize, endAddress)
    {
      hide Word, HeaderAt, LeftBehind, SameOutside;
      ghost var m0, block := ram.cells, Chunk(holePos, newSize, false);
      PutHeader(holePos, false, newSize);
      ghost var m1 := ram.cells;
      PutFooter(holePos + HEADER_SIZE + size, holePos);
      ghost var m2 := ram.cells;
      HeaderKept(m1, m2, holePos + HEADER_SIZE + size, holePos + newSize, block);
      SameOutsideTrans(m0, m1, m2, holePos, holePos + HEADER_SIZE, holePos + HEADER_SIZE + size, holePos + newSize, holePos, holePos + newSize);
      if holeSize - newSize != 0 {
        PutRest(holePos + HEADER_SIZE + size + FOOTER_SIZE, holeSize - newSize);
        if newSize <= holeSize {
          HeaderKept(m2, ram.cells, holePos + newSize - FOOTER_SIZE, holePos + holeSize + HEADER_SIZE, block);
        }
        if newSize + OVERHEAD <= holeSize {
          FooterKept(m2, ram.cells, holePos + newSize, holePos + holeSize, block);
          SameOutsideTrans(m0, m2, ram.cells, holePos, holePos + newSize, holePos + newSize, holePos + holeSize, holePos, holePos + holeSize);
        }
      } else if newSize == holeSize {
        SameOutsideTrans(m0, m2, m2, holePos, holePos + newSize, holePos, holePos + newSize, holePos, holePos + holeSize);
      }
    }

    // The hole behind the block, of left bytes in 32 bits.
    method PutRest(rest: u32, left: int)
      requires left != 0 && -WORD < left && rest + HEADER_SIZE < WORD && FOOTER_SIZE <= rest + left < WORD
      modifies ram
      ensures left >= OVERHEAD ==>
        && HeaderAt(ram.cells, Chunk(rest, left, true)) && (rest + left - FOOTER_SIZE < endAddress ==> FooterAt(ram.cells, Chunk(rest, left, true)))
        && SameOutside(old(ram.cells), ram.cells, rest, rest + left)
      ensures left > 0 ==> SameOutside(old(ram.cells), ram.cells, rest - FOOTER_SIZE, rest + left + HEADER_SIZE)
      ensures LeftBehind(ram.cells, rest, left, endAddress)
    {
      hide Word;
      ghost var m0 := ram.cells;
      PutHeader(rest, true, left % WORD);
      ghost var m1 := ram.cells;
      var footer := (rest + left % WORD - FOOTER_SIZE) % WORD;
      FooterAtEnd(left, rest, 0, 0, left % WORD);
      if footer < endAddress {
        PutFooter(footer, rest);
        if left >= OVERHEAD { HeaderKept(m1, ram.cells, footer, footer + FOOTER_SIZE, Chunk(rest, left, true)); }
        RestOverwritten(m1, ram.cells, rest, left, endAddress);
      }
    }

    // The part of alloc after a hole is chosen.
    method CarveHole(it: nat, request: int) returns (p: int)
      requires Roomy() && it < index.size
      requires 0 <= request && FirstFit(State(), request + OVERHEAD, it)
      requires EndsInside(State(), it)
      modifies ram, index, index.elems
      ensures Roomy() && p == old(index.Contents())[it] + HEADER_SIZE
      ensures CarveWrites(old(State()), it, request + OVERHEAD, State())
      ensures var a, h, n := old(index.Contents())[it], old(SizeAt(ram.cells, index.Contents()[it])), request + 20;
        && Word(ram.cells, a + 8) == (if h - n < 20 then h else n) && ram.cells(a + 4) == 0
        && (h - n >= 20 ==> Word(ram.cells, a + n + 8) == h - n && ram.cells(a + n + 4) == 1 && a + n in index.Contents())
    {
      hide Word, HeaderAt, FooterAt, SizeLess, CarvedRecords, SameOutside, InsertPos, Inserted, Without;
      var size, newSize := request, request + OVERHEAD;
      var holePos := index.Lookup(it);
      var holeSize := SizeAt(ram.cells, holePos);
      if holeSize - newSize < OVERHEAD {
        size := size + (holeSize - newSize);
        newSize := holeSize;
      }
      index.Remove(it);
      PutCarved(holePos, holeSize, size, newSize, request + OVERHEAD);
      CarvedSizes(ram.cells, Chunk(holePos, holeSize, true), request + OVERHEAD, endAddress);
      if holeSize - newSize > 0 {
        ghost var rest := index.Contents();
        index.Insert(holePos + newSize, BySize());
        InsertedLists(rest, holePos + newSize, BySize());
      }
      p := holePos + HEADER_SIZE;
    }

    // The same with what it does to a good heap.
    method Carve(it: nat, request: int) returns (p: int)
      requires Roomy() && it < index.size
      requires 0 <= request && FirstFit(State(), request + OVERHEAD, it)
      requires EndsInside(State(), it)
      modifies this, ram, index, index.elems
      ensures Roomy() && endAddress == old(endAddress) && mapped == old(mapped)
      ensures p == old(index.Contents())[it] + HEADER_SIZE
      ensures var a, h, n := old(index.Contents())[it], old(SizeAt(ram.cells, index.Contents()[it])), request + 20;
        && Word(ram.cells, a + 8) == (if h - n < 20 then h else n) && ram.cells(a + 4) == 0
        && (h - n >= 20 ==> Word(ram.cells, a + n + 8) == h - n && ram.cells(a + n + 4) == 1 && a + n in index.Contents())
      ensures old(Valid()) ==> Valid() && CarveStep(old(State()), old(chunks), request + OVERHEAD, State(), chunks, p)
    {
      hide Word, HeaderAt, FooterAt, Layout, CarveChunks, CarveWrites, FirstFit, SortedBySize, SameOutside;
      ghost var valid, s, cs, n := Valid(), State(), chunks, request + OVERHEAD;
      p := CarveHole(it, request);
      if valid {
        ghost var k := IndexEntryIsHole(s, cs, s.index[it]);
        chunks := CarveChunks(cs, k, n);
        assert CarveAt(s, cs, n, State(), chunks, p, it, k);
        CarveIsLayout(s, cs, n, State(), chunks, p, it, k);
      }
    }

    // The part of alloc after a hole is chosen, for page-aligned requests: the hole is cut
    // short and stays listed, and the block begins behind it, with its data on a page boundary.
    method CarveAligned(it: nat, request: int) returns (p: int)
      requires Roomy() && it < index.size && index.size + 1 < index.elems.Length && 0 <= request
      requires HeaderAt(ram.cells, HoleAt(State(), it)) && Cuttable(HoleAt(State(), it), request + OVERHEAD)
      modifies ram, index, index.elems
      ensures Roomy() && p == old(index.Contents())[it] + PAGE - old(index.Contents())[it] % PAGE
      ensures AlignedOk(old(HoleAt(State(), it)), request + OVERHEAD) ==> AlignedWrites(old(State()), it, request + OVERHEAD, State())
      // The front piece is listed even when it is empty, and what remains even when it is
      // negative or too little for a chunk.
      ensures old(State()).index[it] in State().index
      ensures var c := old(HoleAt(State(), it)); Front(c).size == 0 ==> HoleFlag(ram.cells, c.addr) == 0
      ensures var c, n := old(HoleAt(State(), it)), request + OVERHEAD; AlignedLeft(c, n) != 0 ==>
        RestAt(c, n) in State().index && LeftBehind(ram.cells, RestAt(c, n), AlignedLeft(c, n), endAddress)
    {
      hide Word, HeaderAt, FooterAt, CarvedRecords, SameOutside, SizeLess, Inserted, InsertPos, LeftBehind;
      ghost var s, c, n := State(), HoleAt(State(), it), request + OVERHEAD;
      var size, newSize := request, request + OVERHEAD;
      var holePos := index.Lookup(it);
      SizeOf(ram.cells, c);
      var holeSize: int := SizeAt(ram.cells, holePos);
      if (holeSize - newSize) % WORD < OVERHEAD {
        size := size + (holeSize - newSize);
        newSize := holeSize;
      }
      var newLocation := holePos + PAGE - holePos % PAGE - HEADER_SIZE;
      var frontSize := PAGE - holePos % PAGE - HEADER_SIZE;
      ghost var m0 := ram.cells;
      PutHole(holePos, frontSize);
      ghost var m1 := ram.cells;
      holePos := newLocation;
      holeSize := holeSize - frontSize;
      PutCarved(holePos, holeSize, size, newSize, n);
      if holeSize - newSize != 0 {
        index.Insert(holePos + newSize, BySize());
        InsertedLists(s.index, holePos + newSize, BySize());
      }
      p := holePos + HEADER_SIZE;
      if AlignedOk(c, n) {
        FrontKept(m0, m1, ram.cells, c);
      } else if frontSize == 0 {
        BlockFlag(ram.cells, Chunk(holePos, newSize, false));
      }
    }

    // alloc for a page-aligned request when a listed hole passes find_smallest_hole's test and
    // its front piece is not negative.
    method AllocAligned(size: nat) returns (p: int)
      requires Valid() && size + OVERHEAD < WORD && index.size + 1 < index.elems.Length
      requires ChoiceIsCuttable(State(), size + OVERHEAD)
      modifies this, ram, index, index.elems
      ensures Roomy()
      ensures old(CanAlign(State(), size)) ==>
        Valid() && p % PAGE == 0 && AlignedStep(old(State()), old(chunks), size, State(), chunks, p)
      // The data begins at the first page boundary behind the start of the hole chosen.
      ensures forall it: nat :: old(FirstAligned(State(), size + OVERHEAD, it)) ==>
        p == old(index.Contents())[it] + PAGE - old(index.Contents())[it] % PAGE
      // Pieces that are no chunks are listed all the same: nothing tiles the heap any more.
      ensures old(CannotAlign(State(), size)) ==> forall cs :: !Layout(State(), cs)
    {
      hide Word, Layout, HeaderAt, AlignedWrites, AlignedOk, HoleFits, AlignedBreaks, Cuttable, LeftBehind, FirstAligned;
      ghost var s, cs, n := State(), chunks, size + OVERHEAD;
      var it := FindSmallestHole(size + OVERHEAD, true);
      assert index.Contents() == s.index && |s.index| == index.size;
      FirstAlignedFound(s, n, it);
      IndexedHoleInside(s, cs, it);
      p := CarveAligned(it, size);
      if AlignedOk(HoleAt(s, it), n) {
        ghost var k := IndexEntryIsHole(s, cs, s.index[it]);
        chunks := Splice(cs, k, k + 1, CarvedAligned(HoleAt(s, it), n));
        assert AlignedAt(s, cs, n, State(), chunks, p, it, k);
        AlignedIsLayout(s, cs, n, State(), chunks, p, it, k);
        OkDoesNotBreak(HoleAt(s, it), n, endAddress);
      } else if AlignedBreaks(HoleAt(s, it), n, endAddress) {
        AlignedBroken(s, it, n, State());
      }
    }

    // The position of the listed hole with the highest address, or -1.
    method FindEndmost() returns (idx: int)
      requires index.Valid()
      ensures idx == -1 ==> forall k :: 0 <= k < index.size ==> index.Contents()[k] <= 0
      ensures idx != -1 ==> IsEndmost(State(), idx)
    {
      var it, value := 0, 0;
      idx := -1;
      while it < index.size
        invariant 0 <= it <= index.size && -1 <= idx < it + 1
        invariant idx == -1 ==> value == 0
        invariant idx >= 0 ==> idx < index.size && value == index.Contents()[idx]
        invariant forall k :: 0 <= k < it ==> index.Contents()[k] <= value
      {
        var tmp := index.Lookup(it);
        if tmp > value {
          value, idx := tmp, it;
        }
        it := it + 1;
      }
    }

    // The part of alloc that makes room when no hole fits n bytes. False stands for the
    // kernel halting because the region may not grow that far.
    method Grow(n: int) returns (ok: bool)
      requires Valid() && !Fits(State(), n) && n >= OVERHEAD && endAddress + n + PAGE < WORD
      modifies this, ram, index, index.elems
      ensures Roomy()
      ensures ok <==> startAddress + GrownLength(old(endAddress) - startAddress + n) <= maxAddress
      ensures !ok ==> State() == old(State()) && chunks == old(chunks)
      ensures ok ==> endAddress == startAddress + GrownLength(old(endAddress) - startAddress + n)
      ensures ok && GrowOk(old(chunks)) ==> Valid() && GrowStep(old(State()), old(chunks), n, State(), chunks)
      ensures ok && !GrowOk(old(chunks)) ==> MisGrown(old(State()), n, State())
    {
      hide Word, HeaderAt, FooterAt, Layout, SameOutside, MisGrown, Fits, HoleAddrs, GrowOk, GrowStep, GrowChunks;
      ghost var s, cs := State(), chunks;
      var oldLength, oldEnd := endAddress - startAddress, endAddress;
      ok := Expand(oldLength + n);
      if ok {
        var newLength := endAddress - startAddress;
        var idx := FindEndmost();
        assert index.Contents() == s.index;
        if idx == -1 {
          NoEntryNoHole(s, cs);
          var header, size := oldEnd, newLength - oldLength;
          PutHole(header, size);
          index.Insert(header, BySize());
          assert State().index == [oldEnd];
          chunks := GrowChunks(cs, s.end, size);
          GrewNewHole(s, cs, n, State());
        } else {
          assert IsEndmost(s, idx);
          var header := index.Lookup(idx);
          ghost var k := EndmostHole(s, cs, idx);
          WidenHole(header, newLength - oldLength, cs[k]);
          if k + 1 == |cs| {
            chunks := GrowChunks(cs, s.end, newLength - oldLength);
            GrewLastHole(s, cs, n, State());
          } else {
            MisGrows(s, cs, idx, cs[k], newLength - oldLength, n, State());
          }
        }
      }
    }

    // alloc, for requests that need no page alignment. None stands for the kernel halting.
    // It is entered either with a good heap or, when it calls itself after growing, with at
    // least a hole that fits.
    method Alloc(size: int) returns (r: Option<int>)
      requires Roomy() && (Valid() || CanCarve(State(), size + OVERHEAD))
      // No 32-bit wraparound.
      requires 0 <= size && size + OVERHEAD < WORD
      requires Fits(State(), size + OVERHEAD) || endAddress + size + OVERHEAD + PAGE < WORD
      modifies this, ram, index, index.elems
      ensures Roomy()
      // The first hole in the index that fits is the one used.
      ensures forall it :: old(FirstFit(State(), size + OVERHEAD, it)) ==> r == Some(old(State()).index[it] + HEADER_SIZE)
      // It is split behind the bytes asked for if what is left has room for a header and a
      // footer, and used up otherwise.
      ensures forall it :: old(FirstFit(State(), size + OVERHEAD, it)) ==>
        var a, h, n := old(index.Contents())[it], old(SizeAt(ram.cells, index.Contents()[it])), size + 20;
        && Word(ram.cells, a + 8) == (if h - n < 20 then h else n) && ram.cells(a + 4) == 0
        && (h - n >= 20 ==> Word(ram.cells, a + n + 8) == h - n && ram.cells(a + n + 4) == 1 && a + n in index.Contents())
      // It halts exactly when nothing fits and the region may not grow enough.
      ensures old(Valid()) ==> (r.None? <==> (!old(Fits(State(), size + OVERHEAD)) &&
        startAddress + GrownLength(old(endAddress) - startAddress + size + OVERHEAD) > maxAddress))
      ensures old(Valid()) && r.None? ==> State() == old(State()) && chunks == old(chunks)
      // The region grows exactly when nothing fits, to an even size, or an odd one rounded up
      // to a page.
      ensures (exists i :: 0 <= i < old(index.size) && SizeAt(old(ram.cells), old(index.Contents())[i]) >= size + 20) ==>
        r.Some? && endAddress == old(endAddress) && mapped == old(mapped)
      ensures old(Valid()) && r.Some? &&
              (forall i :: 0 <= i < old(index.size) ==> SizeAt(old(ram.cells), old(index.Contents())[i]) < size + 20) ==>
        var length := old(endAddress) - startAddress + size + 20;
        endAddress == startAddress + if length % 2 == 0 then length else length - length % PAGE + PAGE
      // The heap stays good, and the step is as specified, unless growth goes astray.
      ensures old(Valid()) && r.Some? && (old(Fits(State(), size + OVERHEAD)) || GrowOk(old(chunks))) ==>
        Valid() && AllocStep(old(State()), old(chunks), size, State(), chunks, r.value)
      // When it does, the block handed out runs over the header of a live one.
      ensures old(Valid()) && r.Some? && !old(Fits(State(), size + OVERHEAD)) && !GrowOk(old(chunks)) ==>
        Overlaps(old(chunks), r.value, size + OVERHEAD)
      decreases if Fits(State(), size + OVERHEAD) then 0 else 1
    {
      hide Word, Layout, MisGrown, Overlaps, SizeAt, Fits, FirstFit, GrowStep, CarveStep;
      ghost var s, cs := State(), chunks;
      var newSize := size + OVERHEAD;
      if Valid() && Fits(s, newSize) { GoodCanCarve(s, cs, newSize); }
      FirstFitFits(s, newSize);
      FitsListed(s, newSize);
      var it := FindSmallestHole(newSize, false);
      if it == -1 {
        var ok := Grow(newSize);
        if !ok { return None; }
        if GrowOk(cs) { GrownFits(s, cs, newSize, State(), chunks); } else { MisGrownFits(s, cs, newSize, State()); }
        SomeFirstFit(State(), newSize);
        FitsListed(State(), newSize);
        r := Alloc(size);
        return;
      }
      FirstFitUnique(s, newSize, it);
      var p := Carve(it, size);
      r := Some(p);
    }

    // Hole l takes in r right behind it: r's footer is made to point to l's header, whose
    // size grows by r's.
    method Absorb(header: u32, footer: int, cacheSize: int, ghost l: Chunk, ghost r: Chunk)
      requires l.hole && HeaderAt(ram.cells, l) && HeaderAt(ram.cells, r) && FooterAt(ram.cells, r)
      requires l.size >= OVERHEAD && r.size >= OVERHEAD && l.End() == r.addr && l.size + r.size < WORD
      requires header == l.addr && footer == r.End() - FOOTER_SIZE && cacheSize == r.size
      modifies ram
      ensures SameOutside(old(ram.cells), ram.cells, l.addr, r.End())
      ensures HeaderAt(ram.cells, Chunk(l.addr, l.size + r.size, true)) && FooterAt(ram.cells, Chunk(l.addr, l.size + r.size, true))
      ensures HeaderAt(ram.cells, r)
    {
      hide Word;
      ghost var m0 := ram.cells;
      ram.PutWord(footer + 4, header);
      ghost var m1 := ram.cells;
      WordKept(m0, m1, footer + 4, footer + 8, footer);
      HeaderKept(m0, m1, footer + 4, footer + 8, l);
      HeaderKept(m0, m1, footer + 4, footer + 8, r);
      ram.PutWord(header + 8, SizeAt(ram.cells, header) + cacheSize);
      Resized(m1, ram.cells, l, l.size + r.size);
      HeaderKept(m1, ram.cells, header + 8, header + 12, r);
      WordKept(m1, ram.cells, header + 8, header + 12, footer);
      WordKept(m1, ram.cells, header + 8, header + 12, footer + 4);
    }

    // free, up to and including the join with a hole on the left.
    method MarkAndMergeLeft(p: u32, ghost k: nat) returns (header: u32, footer: int, doAdd: bool)
      requires Valid() && k < |chunks| && !chunks[k].hole && chunks[k].addr + HEADER_SIZE == p
      modifies ram, this`chunks
      ensures chunks == MergeLeft(old(chunks), k)
      ensures var i := LeftOf(old(chunks), k);
        && Shape(State(), chunks)
        && header == chunks[i].addr && footer == chunks[i].End() - FOOTER_SIZE && (doAdd <==> i == k)
        && HeaderAt(ram.cells, chunks[i]) && FooterAt(ram.cells, chunks[i])
        && SameOutside(old(ram.cells), ram.cells, chunks[i].addr, chunks[i].End())
      // The block's old header now reads as a hole's.
      ensures StaleHole(ram.cells, old(chunks)[k].addr)
    {
      hide Word;
      ghost var s, cs, c, i := State(), chunks, chunks[k], LeftOf(chunks, k);
      LeftNeighbour(s, cs, k);
      header := p - HEADER_SIZE;
      footer := header + SizeAt(ram.cells, header) - FOOTER_SIZE;
      assert Word(ram.cells, header) == HEAP_MAGIC;  // the ASSERTs of sys/kheap.c:365-366
      assert Word(ram.cells, footer) == HEAP_MAGIC;
      ram.Poke(header + 4, 1);
      ghost var m1, h := ram.cells, Chunk(c.addr, c.size, true);
      Marked(s.mem, m1, c);
      doAdd := true;
      var testFooter := header - FOOTER_SIZE;
      WordKept(s.mem, m1, c.addr + 4, c.addr + 5, testFooter);
      WordKept(s.mem, m1, c.addr + 4, c.addr + 5, testFooter + 4);
      if k > 0 { HeaderKept(s.mem, m1, c.addr + 4, c.addr + 5, cs[k - 1]); }
      if Word(ram.cells, testFooter) == HEAP_MAGIC && HoleFlag(ram.cells, OwnerAt(ram.cells, testFooter)) == 1 {
        var cacheSize := SizeAt(ram.cells, header);
        header := OwnerAt(ram.cells, testFooter);
        Absorb(header, footer, cacheSize, cs[k - 1], h);
        doAdd := false;
      }
      chunks := MergeLeft(cs, k);
      MergeLeftShape(s, cs, k, State());
    }

    // The position of an entry of the index, or the index's size.
    method FindEntry(a: int) returns (it: nat)
      requires index.Valid()
      ensures it <= index.size
      ensures it < index.size ==> index.Contents()[it] == a
      ensures it == index.size ==> a !in index.Contents()
    {
      it := 0;
      while it < index.size
        invariant it <= index.size
        invariant forall k :: 0 <= k < it ==> index.Contents()[k] != a
      {
        var x := index.Lookup(it);
        if x == a { return; }
        it := it + 1;
      }
    }

    // Hole l takes in hole r right behind it. As committed, r's footer is left pointing to
    // r's old header. When good is false nothing is known to lie behind l.
    method AbsorbRight(header: u32, testHeader: int, ghost good: bool, ghost l: Chunk, ghost r: Chunk) returns (footer: int)
      requires good ==> l.hole && HeaderAt(ram.cells, l) && HeaderAt(ram.cells, r)
      requires good ==> l.size >= OVERHEAD && r.size >= OVERHEAD && l.End() == r.addr && l.size + r.size < WORD
      requires good ==> header == l.addr && testHeader == r.addr
      modifies ram
      ensures good ==> footer == r.End() - FOOTER_SIZE && SameOutside(old(ram.cells), ram.cells, l.addr, r.End())
      ensures good ==> HeaderAt(ram.cells, Chunk(l.addr, l.size + r.size, true))
      ensures good && old(FooterAt(ram.cells, r)) ==>
        Word(ram.cells, footer) == HEAP_MAGIC && OwnerAt(ram.cells, footer) == if writesFarFooter then l.addr else r.addr
    {
      hide Word;
      ghost var m0 := ram.cells;
      ram.PutWord(header + 8, (SizeAt(ram.cells, header) + SizeAt(ram.cells, testHeader)) % WORD);
      ghost var m1 := ram.cells;
      footer := testHeader + SizeAt(ram.cells, testHeader) - FOOTER_SIZE;
      if good {
        Resized(m0, m1, l, l.size + r.size);
        HeaderKept(m0, m1, header + 8, header + 12, r);
        WordKept(m0, m1, header + 8, header + 12, footer);
        WordKept(m0, m1, header + 8, header + 12, footer + 4);
      }
      if writesFarFooter {
        ram.PutWord(footer + 4, header);
        if good {
          WordKept(m1, ram.cells, footer + 4, footer + 8, footer);
          HeaderKept(m1, ram.cells, footer + 4, footer + 8, Chunk(l.addr, l.size + r.size, true));
        }
      }
    }

    // The join with a hole on the right. It halts on the ASSERT at sys/kheap.c:407 when the
    // hole is last and the bytes past the end of the region read as a hole's header.
    method MergeRightHole(header: u32, oldFooter: int, ghost i: nat) returns (footer: int, testHeader: int, halted: bool)
      requires Roomy() && Bounds(State()) && Pending(State(), chunks, i) && ApartExceptAt(chunks, i)
      requires header == chunks[i].addr && oldFooter == chunks[i].End() - FOOTER_SIZE && FooterAt(ram.cells, chunks[i])
      modifies ram, index, index.elems, this`chunks
      ensures Roomy() && index.size <= old(index.size)
      ensures halted <==> i + 1 == |old(chunks)| && StaleHole(old(ram.cells), endAddress)
      ensures !halted ==> footer + FOOTER_SIZE == header + SizeAt(ram.cells, header)
      ensures !halted && footer + FOOTER_SIZE == endAddress ==> testHeader !in State().index
      ensures !halted ==> State().index == Rest(old(State().index), old(chunks), i)
      ensures !halted && i + 1 == |old(chunks)| ==> ram.cells == old(ram.cells)
      ensures !halted ==> (header in State().index <==> header in old(State().index))
      ensures !halted && RightOk(writesFarFooter, old(chunks), i) ==>
        && chunks == MergeRight(old(chunks), i) && NoAdjacentHoles(chunks) && Pending(State(), chunks, i)
        && SameOutside(old(ram.cells), ram.cells, chunks[i].addr, chunks[i].End())
      ensures !halted && !RightOk(writesFarFooter, old(chunks), i) ==>
        footer + FOOTER_SIZE < endAddress && OwnerAt(ram.cells, footer) != header
    {
      hide Word, FooterAt, Shape, HoleAddrs, NoAdjacentHoles, ApartExceptAt, MergeRight, Without, Unlisted;
      ghost var s, cs := State(), chunks;
      RightNeighbour(s, cs, i);
      RightTested(s, cs, i);
      footer := oldFooter;
      testHeader := footer + FOOTER_SIZE;
      halted := false;
      if Word(ram.cells, testHeader) == HEAP_MAGIC && HoleFlag(ram.cells, testHeader) != 0 {
        ghost var good := i + 1 < |cs|;
        footer := AbsorbRight(header, testHeader, good, cs[i], if good then cs[i + 1] else cs[i]);
        var it := FindEntry(testHeader);
        halted := it == index.size;
        if !halted {
          index.Remove(it);
          UnlistedAt(s.index, it);
          RightJoined(writesFarFooter, s, cs, i, State(), footer);
          if RightOk(writesFarFooter, cs, i) { chunks := MergeRight(cs, i); }
        }
      }
    }

    // The trim of a hole that reaches the end of the region.
    method TrimEnd(header: u32, testHeader: int, ghost i: nat)
      requires Roomy() && Bounds(State()) && Pending(State(), chunks, i) && NoAdjacentHoles(chunks)
      requires i + 1 == |chunks| && header == chunks[i].addr
      modifies this, ram, index, index.elems
      ensures Roomy() && index.size <= old(index.size)
      ensures header + OVERHEAD <= startAddress + HEAP_MIN_SIZE || testHeader !in old(State()).index ==>
        State().index == old(State()).index
      ensures var n := header - startAddress;
        endAddress == startAddress + if n >= 0x70000 && n / PAGE % 2 == 0 then n else 0x70000
      ensures var minEnd := startAddress + HEAP_MIN_SIZE;
        header + OVERHEAD <= minEnd ==>
          && endAddress == minEnd && chunks == Trim(old(chunks), i, minEnd)
          && Pending(State(), chunks, i) && NoAdjacentHoles(chunks)
          && SameOutside(old(ram.cells), ram.cells, header, minEnd)
          && FooterAt(ram.cells, Chunk(header, minEnd - header, true))
      // Without that room the size wraps, and only it and the footer in front of the new end
      // are written, where another chunk lies.
      ensures header + OVERHEAD > startAddress + HEAP_MIN_SIZE ==>
        header + OVERHEAD > endAddress && SameBut(old(ram.cells), ram.cells, header + 8, header + 12, endAddress - FOOTER_SIZE, endAddress)
    {
      hide Word, HeaderAt, FooterAt, Shape, HoleAddrs, NoAdjacentHoles, Trim, SameOutside, SameBut;
      ghost var s, cs := State(), chunks;
      RightNeighbour(s, cs, i);
      var oldLength := endAddress - startAddress;
      var newLength := Contract(header - startAddress);
      var resized := ResizeTrimmed(header, oldLength, newLength, cs[i]);
      if resized {
        if header + OVERHEAD <= startAddress + HEAP_MIN_SIZE {
          chunks := Trim(cs, i, endAddress);
          TrimAt(cs, i, endAddress);
          TrimKeeps(s, cs, i, State());
        }
      } else {
        SameButSelf(ram.cells);
        var it := FindEntry(testHeader);
        if it < index.size { index.Remove(it); }
      }
    }

    // The new size and footer of a hole that contract has cut short; they are not written
    // when nothing of it is left.
    method ResizeTrimmed(header: u32, oldLength: int, newLength: int, ghost c: Chunk) returns (resized: bool)
      requires HeaderAt(ram.cells, c) && c.hole && c.addr == header && c.size >= 0 && c.End() == startAddress + oldLength < WORD
      requires 0 <= newLength <= oldLength && FOOTER_SIZE <= startAddress
      modifies ram
      ensures var e := startAddress + newLength;
        && (!resized ==> ram.cells == old(ram.cells))
        && (resized ==> SameBut(old(ram.cells), ram.cells, header + 8, header + 12, e - FOOTER_SIZE, e))
      ensures var e := startAddress + newLength;
        header + OVERHEAD <= e ==>
          && resized && HeaderAt(ram.cells, Chunk(header, e - header, true)) && FooterAt(ram.cells, Chunk(header, e - header, true))
          && SameOutside(old(ram.cells), ram.cells, header, e)
    {
      hide Word;
      var rest := (SizeAt(ram.cells, header) - (oldLength - newLength)) % WORD;
      resized := rest > 0;
      if resized {
        ghost var m0 := ram.cells;
        ram.PutWord(header + 8, rest);
        ghost var m1 := ram.cells;
        var footer := (header + rest - FOOTER_SIZE) % WORD;
        FooterAtEnd(c.size, header, oldLength, newLength, rest);
        PutFooter(footer, header);
        if header + OVERHEAD <= startAddress + newLength {
          Resized(m0, m1, c, rest);
          HeaderKept(m1, ram.cells, footer, footer + FOOTER_SIZE, Chunk(header, rest, true));
        }
      }
    }

    // Whether p's header and footer carry the magic number, as the ASSERTs at
    // sys/kheap.c:365-366 demand.
    predicate PassesAsserts(p: u32)
      reads ram
    {
      && Word(ram.cells, p - HEADER_SIZE) == HEAP_MAGIC
      && Word(ram.cells, p - HEADER_SIZE + SizeAt(ram.cells, p - HEADER_SIZE) - FOOTER_SIZE) == HEAP_MAGIC
    }

    // free. True stands for the kernel halting on one of the ASSERTs at sys/kheap.c:365,
    // 366 and 407. Pointers that are not live but pass the first two are left out.
    method Free(p: u32) returns (halted: bool)
      requires Valid()
      requires p == 0 || p in LivePtrs(chunks) || Word(ram.cells, p - 12) != 0x123890AB
               || Word(ram.cells, p - 12 + Word(ram.cells, p - 4) - 8) != 0x123890AB
      requires index.size + 1 < index.elems.Length
      modifies this, ram, index, index.elems
      ensures Roomy()
      ensures p == 0 ==> !halted && State() == old(State()) && chunks == old(chunks)
      ensures p != 0 && p !in LivePtrs(old(chunks)) ==> halted && State() == old(State()) && chunks == old(chunks)
      // The hole behind the last block would start past the end of the region.
      ensures p in LivePtrs(old(chunks)) ==>
        (halted <==> BlockOf(old(chunks), p) + 1 == |old(chunks)| &&
                     Word(old(ram.cells), old(endAddress)) == 0x123890AB && old(ram.cells)(old(endAddress) + 4) != 0)
      ensures p in LivePtrs(old(chunks)) && !halted && FreeOk(writesFarFooter, startAddress, old(chunks), BlockOf(old(chunks), p)) ==>
        Valid() && FreeStep(writesFarFooter, old(State()), old(chunks), p, State(), chunks)
      // Otherwise the heap is broken: nothing tiles it any more.
      ensures p in LivePtrs(old(chunks)) && !halted && !FreeOk(writesFarFooter, startAddress, old(chunks), BlockOf(old(chunks), p)) ==>
        forall cs :: !Layout(State(), cs)
      // The region ends where it did, or, when the hole touches the end, as contract leaves it;
      // where that is the hole's start, every other live block stays in the region.
      ensures p in LivePtrs(old(chunks)) && !halted ==>
        var cs := old(chunks); var k := BlockOf(cs, p); var n := cs[LeftOf(cs, k)].addr - startAddress;
        endAddress == if !TouchesEnd(cs, k) then old(endAddress)
                      else startAddress + if n >= 0x70000 && n / PAGE % 2 == 0 then n else 0x70000
      ensures p in LivePtrs(old(chunks)) && !halted ==>
        var cs := old(chunks); var k := BlockOf(cs, p); var n := cs[LeftOf(cs, k)].addr - startAddress;
        !TouchesEnd(cs, k) || (n >= 0x70000 && n / PAGE % 2 == 0) ==>
          forall j :: 0 <= j < |cs| && !cs[j].hole && j != k ==> cs[j].End() <= endAddress
    {
      hide Word, LivePtrs, Layout, FreeStep;
      halted := false;
      if p in LivePtrs(chunks) { LivePasses(State(), chunks, p); }
      if p != 0 {
        if PassesAsserts(p) {
          halted := FreeBlock(p);
        } else {
          halted := true;
        }
      }
    }

    // free of a live allocation.
    method FreeBlock(p: u32) returns (halted: bool)
      requires Valid() && p in LivePtrs(chunks)
      requires index.size + 1 < index.elems.Length
      modifies this, ram, index, index.elems
      ensures Roomy()
      ensures (halted <==> BlockOf(old(chunks), p) + 1 == |old(chunks)| && StaleHole(old(ram.cells), old(endAddress)))
      ensures !halted && FreeOk(writesFarFooter, startAddress, old(chunks), BlockOf(old(chunks), p)) ==>
        Valid() && FreeStep(writesFarFooter, old(State()), old(chunks), p, State(), chunks)
      // Otherwise the heap is broken: nothing tiles it any more.
      ensures !halted && !FreeOk(writesFarFooter, startAddress, old(chunks), BlockOf(old(chunks), p)) ==> forall cs :: !Layout(State(), cs)
      // The region ends where it did, or, when the hole touches the end, as contract leaves it;
      // where that is the hole's start, every other live block stays in the region.
      ensures !halted ==>
        var cs := old(chunks); var k := BlockOf(cs, p); var n := cs[LeftOf(cs, k)].addr - startAddress;
        endAddress == if !TouchesEnd(cs, k) then old(endAddress)
                      else startAddress + if n >= 0x70000 && n / PAGE % 2 == 0 then n else 0x70000
      ensures !halted ==>
        var cs := old(chunks); var k := BlockOf(cs, p); var n := cs[LeftOf(cs, k)].addr - startAddress;
        !TouchesEnd(cs, k) || (n >= 0x70000 && n / PAGE % 2 == 0) ==>
          forall j :: 0 <= j < |cs| && !cs[j].hole && j != k ==> cs[j].End() <= endAddress
    {
      hide Word, HeaderAt, FooterAt, Shape, Pending, SameOutside, HoleAddrs, Layout, FreeStep, StaleHole, NoAdjacentHoles,
        Splice, MergeLeft, MergeRight, Trim, FreeChunks, LivePtrs, BlockOf, Rest, Inserted, SizeLess, Tiles;
      ghost var s, cs := State(), chunks;
      ghost var k := BlockOf(cs, p);
      ghost var i, minEnd := LeftOf(cs, k), startAddress + HEAP_MIN_SIZE;
      LayoutTiles(s, cs);
      FreeStages(cs, s.start, s.end, k, minEnd);
      var header, footer, testHeader, doAdd;
      header, footer, testHeader, doAdd, halted := Join(p, k);
      if !halted {
        ghost var u, ds := State(), chunks;
        if RightOk(writesFarFooter, cs, k) { HoleReach(u, ds, i); }
        OthersStayInside(s, cs, k);
        Settle(header, footer, testHeader, doAdd, i);
        FreeOutcome(writesFarFooter, s, cs, p, u, State(), chunks, header, footer);
      }
    }

    // The trim and the listing of hole i after the joins.
    method Settle(header: u32, footer: int, testHeader: int, doAdd: bool, ghost i: nat)
      requires Roomy() && index.size + 1 < index.elems.Length && Bounds(State())
      requires doAdd <==> header !in State().index
      requires footer + FOOTER_SIZE == endAddress ==> testHeader !in State().index
      requires footer + FOOTER_SIZE == endAddress ==>
        Pending(State(), chunks, i) && NoAdjacentHoles(chunks) && header == chunks[i].addr && i + 1 == |chunks|
      modifies this, ram, index, index.elems
      ensures Roomy() && header in State().index
      ensures State().index == if doAdd then Inserted(old(State().index), header, SizeLess(ram.cells)) else old(State().index)
      ensures footer + FOOTER_SIZE != old(endAddress) ==>
        && ram.cells == old(ram.cells) && chunks == old(chunks) && endAddress == old(endAddress)
        && (old(Pending(State(), chunks, i)) && NoAdjacentHoles(chunks) && header == chunks[i].addr ==> Layout(State(), chunks))
      ensures footer + FOOTER_SIZE == old(endAddress) && header + OVERHEAD <= startAddress + HEAP_MIN_SIZE ==>
        && endAddress == startAddress + HEAP_MIN_SIZE && chunks == Trim(old(chunks), i, endAddress)
        && Layout(State(), chunks) && SameOutside(old(ram.cells), ram.cells, header, endAddress)
        && FooterAt(ram.cells, Chunk(header, endAddress - header, true))
      ensures footer + FOOTER_SIZE == old(endAddress) && header + OVERHEAD > startAddress + HEAP_MIN_SIZE ==>
        header + OVERHEAD > endAddress
      ensures var n := header - startAddress;
        footer + FOOTER_SIZE == old(endAddress) ==>
          endAddress == startAddress + if n >= 0x70000 && n / PAGE % 2 == 0 then n else 0x70000
    {
      hide Word, HeaderAt, FooterAt, Shape, SameOutside, HoleAddrs, Layout, NoAdjacentHoles;
      if footer + FOOTER_SIZE == endAddress {
        TrimEnd(header, testHeader, i);
      }
      ListFreed(header, doAdd, i);
    }

    // free, up to and including the joins on both sides.
    method Join(p: u32, ghost k: nat) returns (header: u32, footer: int, testHeader: int, doAdd: bool, halted: bool)
      requires Valid() && k < |chunks| && !chunks[k].hole && chunks[k].addr + HEADER_SIZE == p
      modifies ram, index, index.elems, this`chunks
      ensures Roomy() && index.size <= old(index.size)
      ensures halted <==> k + 1 == |old(chunks)| && StaleHole(old(ram.cells), endAddress)
      ensures !halted ==> header == old(chunks)[LeftOf(old(chunks), k)].addr && (doAdd <==> header !in State().index)
      ensures !halted ==> (doAdd <==> LeftOf(old(chunks), k) == k) && State().index == Rest(old(State().index), old(chunks), k)
      ensures !halted && k + 1 == |old(chunks)| ==> StaleHole(ram.cells, old(chunks)[k].addr)
      ensures !halted ==> footer + FOOTER_SIZE == header + SizeAt(ram.cells, header)
      ensures !halted && footer + FOOTER_SIZE == endAddress ==> testHeader !in State().index
      ensures !halted && RightOk(writesFarFooter, old(chunks), k) ==>
        var cs := old(chunks); var i := LeftOf(cs, k);
        && chunks == MergeRight(MergeLeft(cs, k), i) && NoAdjacentHoles(chunks) && Pending(State(), chunks, i)
        && SameOutside(old(ram.cells), ram.cells, header, StartOf(cs, endAddress, RightOf(cs, k)))
      ensures !halted && !RightOk(writesFarFooter, old(chunks), k) ==>
        footer + FOOTER_SIZE < endAddress && OwnerAt(ram.cells, footer) != header
    {
      hide Word, HeaderAt, FooterAt, Shape, Pending, SameOutside, HoleAddrs, Layout, StaleHole, NoAdjacentHoles, ApartExceptAt,
        Splice, MergeLeft, MergeRight;
      ghost var s, cs, i := State(), chunks, LeftOf(chunks, k);
      LayoutTiles(s, cs);
      FreeStages(cs, s.start, s.end, k, 0);
      header, footer, doAdd := MarkAndMergeLeft(p, k);
      ghost var m1 := ram.cells;
      AfterMergeLeft(s, cs, k, State());
      if k + 1 == |cs| { StaleKept(s.mem, m1, cs[i].addr, cs[k].End(), cs[k].End()); }
      footer, testHeader, halted := MergeRightHole(header, footer, i);
      if !halted && RightOk(writesFarFooter, cs, k) {
        SameOutsideTrans(s.mem, m1, ram.cells, header, cs[k].End(), header, chunks[i].End(), header, chunks[i].End());
      }
    }

    // The last step of free: the hole is listed unless it already was.
    method ListFreed(header: u32, doAdd: bool, ghost i: nat)
      requires Roomy() && index.size + 1 < index.elems.Length
      requires doAdd <==> header !in State().index
      modifies index, index.elems
      ensures Roomy() && header in State().index
      ensures State().index == if doAdd then Inserted(old(State().index), header, SizeLess(ram.cells)) else old(State().index)
      ensures old(Pending(State(), chunks, i)) && NoAdjacentHoles(chunks) && header == chunks[i].addr ==> Layout(State(), chunks)
    {
      hide Word;
      ghost var s := State();
      if doAdd {
        index.Insert(header, BySize());
        if Distinct(s.index) { InsertKeepsDistinct(s.index, header, BySize()); }
        assert State().index[InsertPos(s.index, header, BySize())] == header;
      }
    }

    // Carries out a list of operations that all go right, stores included: a run in the
    // sense of HeapRuns.
    method Execute(ops: seq<HeapRuns.Op>) returns (rs: seq<int>, ghost cfgs: seq<HeapRuns.Config>)
      requires Valid() && index.elems.Length == HEAP_INDEX_SIZE
      requires HeapRuns.CanRun(writesFarFooter, HeapRuns.Config(State(), chunks), ops)
      modifies this, ram, index, index.elems
      ensures Valid() && HeapRuns.Run(writesFarFooter, cfgs, ops, rs)
      ensures cfgs[0] == old(HeapRuns.Config(State(), chunks)) && cfgs[|ops|] == HeapRuns.Config(State(), chunks)
    {
      hide Layout, HeapRuns.Enabled, HeapRuns.Step, HeapRuns.Run;
      rs, cfgs := [], [HeapRuns.Config(State(), chunks)];
      var i := 0;
      HeapRuns.EmptyRun(writesFarFooter, cfgs[0]);
      assert ops[..0] == [] && ops[0..] == ops;
      while i < |ops|
        invariant 0 <= i <= |ops| && Valid() && |cfgs| == i + 1 && HeapRuns.Run(writesFarFooter, cfgs, ops[..i], rs)
        invariant HeapRuns.CanRun(writesFarFooter, cfgs[i], ops[i..])
        invariant cfgs[0] == old(HeapRuns.Config(State(), chunks)) && cfgs[i] == HeapRuns.Config(State(), chunks)
      {
        assert ops[i..][0] == ops[i] && ops[i..][1..] == ops[i + 1..] && ops[..i + 1] == ops[..i] + [ops[i]];
        var r := Perform(ops[i]);
        ghost var d := HeapRuns.Config(State(), chunks);
        HeapRuns.RunGrows(writesFarFooter, cfgs, ops[..i], rs, ops[i], r, d);
        rs, cfgs := rs + [r], cfgs + [d];
        i := i + 1;
      }
      assert ops[..i] == ops;
    }

    // One operation that goes right.
    method Perform(op: HeapRuns.Op) returns (r: int)
      requires Valid() && index.elems.Length == HEAP_INDEX_SIZE
      requires HeapRuns.Enabled(writesFarFooter, HeapRuns.Config(State(), chunks), op)
      modifies this, ram, index, index.elems
      ensures Valid()
      ensures HeapRuns.Step(writesFarFooter, old(HeapRuns.Config(State(), chunks)), op, r, HeapRuns.Config(State(), chunks))
    {
      hide Layout, AllocStep, AlignedStep, CanAlign, FreeStep, GrowOk, FreeOk, Fits, LivePtrs, SameOutside;
      r := 0;
      match op
      case Alloc(size) =>
        var p := Alloc(size);
        r := p.value;
      case AlignedAlloc(size) =>
        CanAlignIsCuttable(State(), chunks, size);
        r := AllocAligned(size);
      case Free(p) =>
        LiveIsWord(State(), chunks, p);
        var halted := Free(p);
      case Store(p, k, b) =>
        ghost var s, cs := State(), chunks;
        ram.Poke(p + k, b);
        HeapRuns.StoreKeepsGood(s, cs, p, k, b, State(), chunks);
    }

    method PutHole(header: u32, size: u32)
      requires header + size < WORD
      modifies ram
      ensures size >= OVERHEAD ==>
        && HeaderAt(ram.cells, Chunk(header, size, true)) && FooterAt(ram.cells, Chunk(header, size, true))
        && SameOutside(old(ram.cells), ram.cells, header, header + size)
    {
      hide Word;
      PutHeader(header, true, size);
      ghost var m := ram.cells;
      PutFooter(header + size - FOOTER_SIZE, header);
      if size >= OVERHEAD {
        HeaderKept(m, ram.cells, header + size - FOOTER_SIZE, header + size, Chunk(header, size, true));
      }
    }

    method WidenHole(header: u32, g: int, ghost c: Chunk)
      requires header == c.addr && c.hole && HeaderAt(ram.cells, c) && c.size >= OVERHEAD
      requires g > 0 && c.size + g < WORD
      modifies ram
      ensures HeaderAt(ram.cells, Chunk(header, c.size + g, true)) && FooterAt(ram.cells, Chunk(header, c.size + g, true))
      ensures SameOutside(old(ram.cells), ram.cells, header, header + c.size + g)
    {
      hide Word;
      ghost var m0 := ram.cells;
      var size := SizeAt(ram.cells, header) + g;
      ram.PutWord(header + 8, size);
      ghost var m1 := ram.cells;
      Resized(m0, m1, c, size);
      var footer := header + size - FOOTER_SIZE;
      PutFooter(footer, header);
      HeaderKept(m1, ram.cells, footer, footer + FOOTER_SIZE, Chunk(header, size, true));
    }
  }
}
