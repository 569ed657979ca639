/** Page tables, frame allocation and address-space cloning of sys/paging.c. */
module Paging {
  import opened Memory
  import opened Options
  import opened Frames

  const ENTRIES := 1024
  const KHEAP_PAGE := 0xC0000  // KHEAP_START / 0x1000

  datatype Page = Page(present: bool, rw: bool, user: bool, accessed: bool, dirty: bool, frame: nat)

  const BLANK := Page(false, false, false, false, false, 0)

  // A page as initialise_paging maps it: open to the user, not writeable.
  function BootPage(frame: nat): Page { Page(true, false, true, false, false, frame) }

  class PageTable {
    const physical: u32  // where the table lies in physical memory
    var pages: seq<Page>

    ghost predicate Valid()
      reads this
    {
      |pages| == ENTRIES
    }

    // A table from kmalloc_ap, cleared by memset.
    constructor Blank(physical: u32)
      ensures Valid() && this.physical == physical
      ensures pages == seq(ENTRIES, _ => BLANK)
    {
      this.physical := physical;
      pages := seq(ENTRIES, _ => BLANK);
    }
  }

  class Directory {
    var tables: seq<PageTable?>
    var tablesPhysical: seq<u32>

    constructor Blank()
      ensures |tables| == ENTRIES == |tablesPhysical|
      ensures forall i :: 0 <= i < ENTRIES ==> tables[i] == null && tablesPhysical[i] == 0
    {
      tables := seq(ENTRIES, _ => null);
      tablesPhysical := seq(ENTRIES, _ => 0);
    }

    ghost predicate Sized()
      reads this, tables
    {
      |tables| == ENTRIES && forall i :: 0 <= i < ENTRIES && tables[i] != null ==> tables[i].Valid()
    }

    // The tables are distinct, and tablesPhysical holds where each one lies, with the
    // present, writable and user bits.
    ghost predicate Valid()
      reads this, tables
    {
      && Sized() && |tablesPhysical| == ENTRIES
      && (forall i :: 0 <= i < ENTRIES && tables[i] != null ==> tablesPhysical[i] == tables[i].physical + 7)
      && (forall i, j :: 0 <= i < j < ENTRIES && tables[i] != null ==> tables[i] != tables[j])
    }
  }

  // The entry of virtual page v; a page without a table counts as blank.
  ghost function EntryAt(dir: Directory, v: nat): Page
    requires dir.Sized() && v < ENTRIES * ENTRIES
    reads dir, dir.tables
  {
    var t := dir.tables[v / ENTRIES];
    if t == null then BLANK else t.pages[v % ENTRIES]
  }

  // The frame of virtual page v, or 0.
  ghost function FrameAt(dir: Directory, v: nat): nat
    requires dir.Sized() && v < ENTRIES * ENTRIES
    reads dir, dir.tables
  {
    EntryAt(dir, v).frame
  }

  // What a read at offset off of virtual page v yields.
  ghost function Read(dir: Directory, m: Bytes, v: nat, off: nat): Option<byte>
    requires dir.Sized() && v < ENTRIES * ENTRIES && off < PAGE
    reads dir, dir.tables
  {
    if FrameAt(dir, v) == 0 then None else Some(m(FrameAt(dir, v) * PAGE + off))
  }

  ghost predicate SameView(src: Directory, dir: Directory, m: Bytes)
    requires src.Sized() && dir.Sized()
    reads src, src.tables, dir, dir.tables
  {
    forall v: nat, off: nat :: v < ENTRIES * ENTRIES && off < PAGE ==> Read(dir, m, v, off) == Read(src, m, v, off)
  }

  // Distinct pages reach distinct entries of the two-level table.
  lemma PagesApart(dir: Directory, v: nat, w: nat)
    requires dir.Valid() && v < ENTRIES * ENTRIES && w < ENTRIES * ENTRIES
    requires dir.tables[v / ENTRIES] != null && dir.tables[w / ENTRIES] != null
    ensures (dir.tables[v / ENTRIES], v % ENTRIES) == (dir.tables[w / ENTRIES], w % ENTRIES) <==> v == w
  {
    if dir.tables[v / ENTRIES] == dir.tables[w / ENTRIES] {
      assert v / ENTRIES == w / ENTRIES;
    }
  }

  // A store through one side of page v, whose frame the other side does not map, is seen
  // nowhere on the other side.
  lemma StoreNotSeen(dir: Directory, other: Directory, m: Bytes, m': Bytes, v: nat, w: nat, off: nat)
    requires dir.Sized() && other.Sized() && v < ENTRIES * ENTRIES && w < ENTRIES * ENTRIES && off < PAGE
    requires FrameAt(dir, v) != FrameAt(other, w)
    requires SameOutside(m, m', FrameAt(dir, v) * PAGE, FrameAt(dir, v) * PAGE + PAGE)
    ensures Read(other, m', w, off) == Read(other, m, w, off)
  {
  }

  // The bytes of frame f.
  function Contents(m: Bytes, f: nat): (s: seq<byte>)
    ensures |s| == PAGE
  {
    Span(m, f * PAGE, PAGE)
  }

  // m' holds in every frame of fs what m holds there.
  ghost predicate KeepsFrames(m: Bytes, m': Bytes, fs: set<nat>) {
    forall f :: f in fs ==> Contents(m', f) == Contents(m, f)
  }

  lemma SameContents(m: Bytes, f: nat, g: nat, off: nat)
    requires Contents(m, f) == Contents(m, g) && off < PAGE
    ensures m(f * PAGE + off) == m(g * PAGE + off)
  {
    assert Contents(m, f)[off] == m(f * PAGE + off);
    assert Contents(m, g)[off] == m(g * PAGE + off);
  }

  // A write inside one frame is not seen in another.
  lemma WriteStaysPrivate(m: Bytes, m': Bytes, f: nat, g: nat)
    requires SameOutside(m, m', g * PAGE, g * PAGE + PAGE) && f != g
    ensures Contents(m', f) == Contents(m, f)
  {
  }

  // The pages of some tables, as a value.
  type Snapshot = map<PageTable, seq<Page>>

  ghost function Snap(tables: set<PageTable>): Snapshot
    reads tables
  {
    map t | t in tables :: t.pages
  }

  ghost predicate Holds(s: Snapshot, older t: PageTable, k: nat, f: nat) {
    t in s && k < |s[t]| && s[t][k].frame == f
  }

  ghost predicate Held(s: Snapshot, f: nat) {
    exists t, k :: Holds(s, t, k, f)
  }

  // Every frame but frame 0, which stands for none, is held by at most one page, and its
  // bit is set exactly when a page holds it.
  ghost predicate Exclusive(s: Snapshot, used: set<nat>) {
    && (forall f, t, k, t', k' :: f != 0 && Holds(s, t, k, f) && Holds(s, t', k', f) ==> t == t' && k == k')
    && (forall f :: f != 0 ==> (f in used <==> Held(s, f)))
  }

  // A page that held nothing takes a frame that was not in use.
  lemma TakeKeepsExclusive(s: Snapshot, used: set<nat>, t: PageTable, k: nat, p: Page)
    requires Exclusive(s, used) && t in s && k < |s[t]| && s[t][k].frame == 0 && p.frame !in used
    ensures Exclusive(s[t := s[t][k := p]], used + {p.frame})
  {
    var s' := s[t := s[t][k := p]];
    forall u, l, f | f != 0 ensures Holds(s', u, l, f) <==> Holds(s, u, l, f) || (u == t && l == k && f == p.frame) {}
    assert p.frame != 0 ==> Holds(s', t, k, p.frame);
    forall f | f != 0 ensures f in used + {p.frame} <==> Held(s', f) {
      if Held(s, f) {
        var u, l :| Holds(s, u, l, f);
        assert Holds(s', u, l, f);
      }
    }
  }

  // A page gives up the frame it held. If the frame's bit stays set, exclusiveness is lost.
  lemma GiveKeepsExclusive(s: Snapshot, used: set<nat>, t: PageTable, k: nat, p: Page)
    requires Exclusive(s, used) && t in s && k < |s[t]| && s[t][k].frame != 0 && p.frame == 0
    ensures Exclusive(s[t := s[t][k := p]], used - {s[t][k].frame})
    ensures s[t][k].frame in used
    ensures forall used' :: s[t][k].frame in used' ==> !Exclusive(s[t := s[t][k := p]], used')
  {
    var s', g := s[t := s[t][k := p]], s[t][k].frame;
    assert Holds(s, t, k, g);
    forall u, l, f | f != 0 ensures Holds(s', u, l, f) <==> Holds(s, u, l, f) && f != g {
      assert Holds(s, u, l, g) ==> u == t && l == k;
    }
    assert !Held(s', g);
    forall f | f != 0 ensures f in used - {g} <==> Held(s', f) {
      if Held(s, f) && f != g {
        var u, l :| Holds(s, u, l, f);
        assert Holds(s', u, l, f);
      }
    }
  }

  // Flags do not matter.
  lemma SameFramesSameExclusive(s: Snapshot, s': Snapshot, used: set<nat>)
    requires forall t, k: nat, f :: Holds(s', t, k, f) <==> Holds(s, t, k, f)
    ensures Exclusive(s', used) <==> Exclusive(s, used)
  {
    forall f ensures Held(s', f) <==> Held(s, f) {
      if Held(s, f) {
        var t, k :| Holds(s, t, k, f);
        assert Holds(s', t, k, f);
      }
      if Held(s', f) {
        var t, k :| Holds(s', t, k, f);
        assert Holds(s, t, k, f);
      }
    }
  }

  // ---------------------------------------------------------------- runs of takes and gives

  // All tables with their pages, and the frames whose bit is set.
  datatype FrameState = FrameState(pages: Snapshot, used: set<nat>)

  // alloc_frame and free_frame on entry k of a table, and get_page or clone_table making a
  // blank table.
  datatype FrameOp = TakeFrame(t: PageTable, k: nat) | GiveFrame(t: PageTable, k: nat) | AddTable(t: PageTable)

  ghost predicate FrameStep(a: FrameState, op: FrameOp, b: FrameState) {
    match op
    case TakeFrame(t, k) =>
      && t in a.pages && k < |a.pages[t]|
      && if a.pages[t][k].frame != 0 then b == a
         else
           && t in b.pages && k < |b.pages[t]| && b.pages == a.pages[t := a.pages[t][k := b.pages[t][k]]]
           && var f := b.pages[t][k].frame;
             f !in a.used && (forall g: nat :: g < f ==> g in a.used) && b.used == a.used + {f}
    case GiveFrame(t, k) =>
      && t in a.pages && k < |a.pages[t]|
      && b.pages == a.pages[t := a.pages[t][k := a.pages[t][k].(frame := 0)]]
      && b.used == a.used - (if a.pages[t][k].frame == 0 then {} else {a.pages[t][k].frame})
    case AddTable(t) =>
      t !in a.pages && b == FrameState(a.pages[t := seq(ENTRIES, _ => BLANK)], a.used)
  }

  ghost predicate FrameRun(states: seq<FrameState>, ops: seq<FrameOp>) {
    |states| == |ops| + 1 && forall i, j :: 0 <= i && j == i + 1 < |states| ==> FrameStep(states[i], ops[i], states[j])
  }

  lemma FrameStepStaysExclusive(a: FrameState, op: FrameOp, b: FrameState)
    requires Exclusive(a.pages, a.used) && FrameStep(a, op, b)
    ensures Exclusive(b.pages, b.used)
  {
    hide Exclusive;
    match op
    case TakeFrame(t, k) =>
      if a.pages[t][k].frame == 0 { TakeKeepsExclusive(a.pages, a.used, t, k, b.pages[t][k]); }
    case GiveFrame(t, k) =>
      if a.pages[t][k].frame != 0 {
        GiveKeepsExclusive(a.pages, a.used, t, k, a.pages[t][k].(frame := 0));
      } else {
        assert a.pages[t][k := a.pages[t][k].(frame := 0)] == a.pages[t];
        assert b.pages == a.pages && b.used == a.used;
      }
    case AddTable(t) => BlankHoldsNothing(a.pages, t, a.used);
  }

  // Over every run of takes and gives, from no tables and no frame in use or from any other
  // exclusive state, no two pages hold the same frame, and a frame's bit is set exactly if a
  // page holds it.
  lemma {:induction false} FrameRunStaysExclusive(states: seq<FrameState>, ops: seq<FrameOp>, n: nat)
    requires FrameRun(states, ops) && Exclusive(states[0].pages, states[0].used) && n < |states|
    ensures Exclusive(states[n].pages, states[n].used)
  {
    hide Exclusive, FrameStep;
    if n > 0 {
      FrameRunStaysExclusive(states, ops, n - 1);
      FrameStepStaysExclusive(states[n - 1], ops[n - 1], states[n]);
    }
  }

  lemma NothingIsExclusive()
    ensures Exclusive(map[], {})
  {
  }

  ghost function TablesOf(dir: Directory): set<PageTable>
    reads dir
  {
    set t: PageTable | t in dir.tables
  }

  // Exclusive ownership, seen through a directory: two pages that have frames, in tables
  // that are accounted for, have different ones.
  lemma PagesHoldDistinctFrames(dir: Directory, tables: set<PageTable>, used: set<nat>, v: nat, w: nat)
    requires dir.Valid() && v < ENTRIES * ENTRIES && w < ENTRIES * ENTRIES && v != w
    requires Exclusive(Snap(tables), used) && FrameAt(dir, v) != 0
    requires dir.tables[v / ENTRIES] in tables && (dir.tables[w / ENTRIES] != null ==> dir.tables[w / ENTRIES] in tables)
    ensures FrameAt(dir, v) != FrameAt(dir, w) && FrameAt(dir, v) in used
  {
    var t, f := dir.tables[v / ENTRIES], FrameAt(dir, v);
    assert Holds(Snap(tables), t, v % ENTRIES, f);
    if FrameAt(dir, w) == f {
      PagesApart(dir, v, w);
      assert Holds(Snap(tables), dir.tables[w / ENTRIES], w % ENTRIES, f);
    }
  }

  ghost predicate PageAddresses(phys: seq<u32>) {
    |phys| == ENTRIES && forall i :: 0 <= i < ENTRIES ==> phys[i] % PAGE == 0
  }

  class Pager {
    const frames: FrameSet
    const ram: Ram
    const kernelDirectory: Directory

    // The committed clone_table skips the entries that have a frame; true is the repair,
    // which skips those that have none.
    const clonesMapped: bool

    constructor (frames: FrameSet, ram: Ram, kernelDirectory: Directory, clonesMapped: bool)
      ensures this.frames == frames && this.ram == ram
      ensures this.kernelDirectory == kernelDirectory && this.clonesMapped == clonesMapped
    {
      this.frames, this.ram, this.kernelDirectory, this.clonesMapped := frames, ram, kernelDirectory, clonesMapped;
    }

    // get_page; phys is the physical address that kmalloc_ap reports for a new table.
    method GetPage(address: u32, make: bool, dir: Directory, phys: u32) returns (t: PageTable?, k: nat)
      requires dir.Valid() && phys % PAGE == 0
      modifies dir
      ensures dir.Valid() && k == address / PAGE % ENTRIES
      ensures t == dir.tables[address / PAGE / ENTRIES] && (t == null <==> old(dir.tables)[address / PAGE / ENTRIES] == null && !make)
      ensures t == old(dir.tables)[address / PAGE / ENTRIES] || (fresh(t) && t.physical == phys)
      ensures t != null ==> dir.tablesPhysical[address / PAGE / ENTRIES] == t.physical + 7
      ensures forall j :: 0 <= j < ENTRIES && j != address / PAGE / ENTRIES ==> dir.tables[j] == old(dir.tables)[j]
      ensures forall v: nat :: v < ENTRIES * ENTRIES ==> EntryAt(dir, v) == old(EntryAt(dir, v))
      ensures old(Exclusive(Snap(TablesOf(dir)), frames.Used())) ==> Exclusive(Snap(TablesOf(dir)), frames.Used())
    {
      hide Exclusive, FrameSet.Used, Snap;
      var page := address / PAGE;
      var tableIdx := page / ENTRIES;
      k := page % ENTRIES;
      if dir.tables[tableIdx] == null && make {
        MakeTable(tableIdx, dir, phys);
      }
      t := dir.tables[tableIdx];
    }

    // The branch of get_page that makes a blank table.
    method MakeTable(tableIdx: nat, dir: Directory, phys: u32)
      requires dir.Valid() && phys % PAGE == 0 && tableIdx < ENTRIES && dir.tables[tableIdx] == null
      modifies dir
      ensures dir.Valid() && dir.tables[tableIdx] != null && fresh(dir.tables[tableIdx]) && dir.tables[tableIdx].physical == phys
      ensures forall j :: 0 <= j < ENTRIES && j != tableIdx ==> dir.tables[j] == old(dir.tables)[j]
      ensures forall v: nat :: v < ENTRIES * ENTRIES ==> EntryAt(dir, v) == old(EntryAt(dir, v))
      ensures old(Exclusive(Snap(TablesOf(dir)), frames.Used())) ==> Exclusive(Snap(TablesOf(dir)), frames.Used())
    {
      hide Exclusive, FrameSet.Used, Snap;
      ghost var tables := TablesOf(dir);
      var table := new PageTable.Blank(phys);
      dir.tables := dir.tables[tableIdx := table];
      dir.tablesPhysical := dir.tablesPhysical[tableIdx := phys + 7];
      TablesAfter(old(dir.tables), dir.tables, tableIdx, table);
      assert TablesOf(dir) == tables + {table};
      BlankTableJoins(tables, table, frames.Used());
    }

    // alloc_frame (get_page (address, 1, dir), 0, 0), as initialise_paging uses it; phys gives
    // the physical addresses that kmalloc_ap reports for new tables, by slot.
    method MapNext(v: nat, dir: Directory, phys: seq<u32>)
      requires dir.Valid() && PageAddresses(phys) && v < ENTRIES * ENTRIES
      requires EntryAt(dir, v) == BLANK && frames.Used() == Below(|frames.Used()|) && |frames.Used()| < frames.Size()
      modifies dir, dir.tables, frames.words
      ensures dir.Valid() && |frames.Used()| == |old(frames.Used())| + 1 && frames.Used() == Below(|frames.Used()|)
      ensures EntryAt(dir, v) == BootPage(|old(frames.Used())|)
      ensures forall w: nat :: w < ENTRIES * ENTRIES && w != v ==> EntryAt(dir, w) == old(EntryAt(dir, w))
      ensures forall j :: 0 <= j < ENTRIES ==> dir.tables[j] == old(dir.tables)[j] || fresh(dir.tables[j])
      ensures old(Exclusive(Snap(TablesOf(dir)), frames.Used())) ==> Exclusive(Snap(TablesOf(dir)), frames.Used())
    {
      hide FrameSet.Used, Exclusive, Snap, FrameStep, Below;
      ghost var n := |frames.Used()|;
      var t, k := GetPage(v * PAGE, true, dir, phys[v / ENTRIES]);
      assert v * PAGE / PAGE == v;
      assert n !in frames.Used() && !frames.Full();
      var ok := AllocFrame(t, k, false, false, TablesOf(dir));
      assert t.pages[k].frame == n;
      assert frames.Used() == Below(n + 1);
      forall w: nat | w < ENTRIES * ENTRIES && w != v ensures EntryAt(dir, w) == old(EntryAt(dir, w)) {
        if dir.tables[w / ENTRIES] == t { PagesApart(dir, v, w); }
      }
    }

    // The loop that initialise_paging runs twice: each page of [from, to) gets the next frame.
    method MapRange(from: nat, to: nat, dir: Directory, phys: seq<u32>)
      requires dir.Valid() && PageAddresses(phys) && from <= to <= ENTRIES * ENTRIES
      requires forall v: nat :: from <= v < to ==> EntryAt(dir, v) == BLANK
      requires frames.Used() == Below(|frames.Used()|) && |frames.Used()| + (to - from) <= frames.Size()
      modifies dir, dir.tables, frames.words
      ensures dir.Valid() && |frames.Used()| == |old(frames.Used())| + (to - from) && frames.Used() == Below(|frames.Used()|)
      ensures forall v: nat :: v < ENTRIES * ENTRIES ==>
        EntryAt(dir, v) == if from <= v < to then BootPage(|old(frames.Used())| + (v - from)) else old(EntryAt(dir, v))
      ensures forall j :: 0 <= j < ENTRIES ==> dir.tables[j] == old(dir.tables)[j] || fresh(dir.tables[j])
      ensures old(Exclusive(Snap(TablesOf(dir)), frames.Used())) ==> Exclusive(Snap(TablesOf(dir)), frames.Used())
    {
      hide FrameSet.Used, EntryAt, Exclusive, Snap;
      var i := from;
      ghost var n := |frames.Used()|;
      while i < to
        invariant from <= i <= to && dir.Valid() && |frames.Used()| == n + (i - from) && frames.Used() == Below(|frames.Used()|)
        invariant forall v: nat :: v < ENTRIES * ENTRIES ==>
          EntryAt(dir, v) == if from <= v < i then BootPage(n + (v - from)) else old(EntryAt(dir, v))
        invariant forall j :: 0 <= j < ENTRIES ==> dir.tables[j] == old(dir.tables)[j] || fresh(dir.tables[j])
        invariant old(Exclusive(Snap(TablesOf(dir)), frames.Used())) ==> Exclusive(Snap(TablesOf(dir)), frames.Used())
      {
        MapNext(i, dir, phys);
        i := i + 1;
      }
    }

    // The first loop of initialise_paging makes the tables of the heap's pages.
    method MakeHeapTables(dir: Directory, phys: seq<u32>)
      requires dir.Valid() && PageAddresses(phys)
      modifies dir
      ensures dir.Valid() && forall v: nat :: v < ENTRIES * ENTRIES ==> EntryAt(dir, v) == old(EntryAt(dir, v))
      ensures forall j :: 0 <= j < ENTRIES ==> dir.tables[j] == old(dir.tables)[j] || fresh(dir.tables[j])
      ensures forall i: nat :: KHEAP_PAGE <= i < KHEAP_PAGE + 256 ==> dir.tables[i / ENTRIES] != null
      ensures old(Exclusive(Snap(TablesOf(dir)), frames.Used())) ==> Exclusive(Snap(TablesOf(dir)), frames.Used())
    {
      hide EntryAt, Exclusive, Snap, FrameSet.Used;
      var i := KHEAP_PAGE;
      while i < KHEAP_PAGE + 256
        invariant KHEAP_PAGE <= i <= KHEAP_PAGE + 256 && dir.Valid()
        invariant forall v: nat :: v < ENTRIES * ENTRIES ==> EntryAt(dir, v) == old(EntryAt(dir, v))
        invariant forall j :: 0 <= j < ENTRIES ==> dir.tables[j] == old(dir.tables)[j] || fresh(dir.tables[j])
        invariant forall w: nat :: KHEAP_PAGE <= w < i ==> dir.tables[w / ENTRIES] != null
        invariant old(Exclusive(Snap(TablesOf(dir)), frames.Used())) ==> Exclusive(Snap(TablesOf(dir)), frames.Used())
      {
        var t, k := GetPage(i * PAGE, true, dir, phys[i / ENTRIES]);
        assert i * PAGE / PAGE == i;
        i := i + 1;
      }
    }

    // The mapping loops of initialise_paging: tables for the heap's pages first, then the
    // low 4 MB, then frames for the heap's pages.
    method BootMap(dir: Directory, phys: seq<u32>)
      requires dir.Valid() && PageAddresses(phys) && frames.Used() == {} && frames.Size() >= 1280
      requires forall i :: 0 <= i < ENTRIES ==> dir.tables[i] == null
      modifies dir, frames.words
      ensures dir.Valid() && frames.Used() == Below(1280)
      // Mapped pages are present, open to the user and not writeable.
      ensures forall v: nat :: v < ENTRIES * ENTRIES ==>
        EntryAt(dir, v) ==
          if v < 1024 then Page(true, false, true, false, false, v)
          else if 0xC0000 <= v < 0xC0100 then Page(true, false, true, false, false, v - 0xC0000 + 1024)
          else Page(false, false, false, false, false, 0)
      // Frame ownership starts out exclusive.
      ensures Exclusive(Snap(TablesOf(dir)), frames.Used())
    {
      hide FrameSet.Used, EntryAt, Below, FrameSet.Size, Exclusive;
      assert frames.Used() == Below(|frames.Used()|) by { assert Below(0) == {}; }
      NoTablesNoPages(dir);
      assert Exclusive(Snap(TablesOf(dir)), frames.Used()) by {
        assert TablesOf(dir) == {} && Snap(TablesOf(dir)) == map[];
        NothingIsExclusive();
      }
      MakeHeapTables(dir, phys);
      MapRange(0, 1024, dir, phys);
      MapRange(KHEAP_PAGE, KHEAP_PAGE + 256, dir, phys);
    }

    // alloc_frame. False stands for first_frame running off its end: the C code then has
    // no defined frame to use.
    method AllocFrame(t: PageTable, k: nat, isKernel: bool, isWriteable: bool, ghost tables: set<PageTable>) returns (ok: bool)
      requires t.Valid() && k < ENTRIES
      modifies t, frames.words
      ensures t.Valid() && (ok <==> old(t.pages[k]).frame != 0 || !old(frames.Full()))
      ensures !ok || old(t.pages[k]).frame != 0 ==> t.pages == old(t.pages) && frames.Used() == old(frames.Used())
      ensures ok && old(t.pages[k]).frame == 0 ==>
        var f := t.pages[k].frame;
        && f < frames.Size() && f !in old(frames.Used()) && (forall g: nat :: g < f ==> g in old(frames.Used()))
        && frames.Used() == old(frames.Used()) + {f}
        && t.pages == old(t.pages)[k := old(t.pages[k]).(present := true, rw := isWriteable, user := !isKernel, frame := f)]
      ensures ok && t in tables ==>
        FrameStep(old(FrameState(Snap(tables), frames.Used())), TakeFrame(t, k), FrameState(Snap(tables), frames.Used()))
      ensures t in tables && old(Exclusive(Snap(tables), frames.Used())) ==> Exclusive(Snap(tables), frames.Used())
    {
      hide Exclusive;
      if t.pages[k].frame != 0 {
        return true;
      }
      var idx := frames.FirstFrame();
      if idx.None? { return false; }
      frames.SetFrame(idx.value * PAGE);
      assert idx.value * PAGE / PAGE == idx.value;
      ghost var sn := Snap(tables);
      t.pages := t.pages[k := t.pages[k].(present := true, rw := isWriteable, user := !isKernel, frame := idx.value)];
      ok := true;
      if t in tables {
        assert Snap(tables) == sn[t := sn[t][k := t.pages[k]]];
        if old(Exclusive(Snap(tables), frames.Used())) {
          TakeKeepsExclusive(sn, old(frames.Used()), t, k, t.pages[k]);
        }
      }
    }

    // free_frame with the repair its bitset needs: the bit cleared is that of the frame.
    method FreeFrame(t: PageTable, k: nat, ghost tables: set<PageTable>)
      requires t.Valid() && k < ENTRIES && t.pages[k].frame < frames.Size()
      modifies t, frames.words
      ensures t.Valid() && t.pages == old(t.pages)[k := old(t.pages[k]).(frame := 0)]
      ensures frames.Used() == old(frames.Used()) - (if old(t.pages[k]).frame == 0 then {} else {old(t.pages[k]).frame})
      ensures t in tables ==>
        FrameStep(old(FrameState(Snap(tables), frames.Used())), GiveFrame(t, k), FrameState(Snap(tables), frames.Used()))
      ensures t in tables && old(Exclusive(Snap(tables), frames.Used())) ==> Exclusive(Snap(tables), frames.Used())
    {
      hide Exclusive;
      var frame := t.pages[k].frame;
      if frame == 0 {
        assert t.pages == t.pages[k := t.pages[k].(frame := 0)];
        return;
      }
      frames.ClearFrame(frame * PAGE);
      assert frame * PAGE / PAGE == frame;
      ghost var sn := Snap(tables);
      t.pages := t.pages[k := t.pages[k].(frame := 0)];
      if t in tables {
        assert Snap(tables) == sn[t := sn[t][k := t.pages[k]]];
        if old(Exclusive(Snap(tables), frames.Used())) {
          GiveKeepsExclusive(sn, old(frames.Used()), t, k, t.pages[k]);
        }
      }
    }

    // free_frame as committed hands the frame's number to clear_frame, which wants an
    // address: below 16 MB the bit cleared is always that of frame 0, and the frame freed
    // keeps its bit although no page holds it any more.
    method FreeFrameAsWritten(t: PageTable, k: nat, ghost tables: set<PageTable>)
      requires t.Valid() && k < ENTRIES && t.pages[k].frame < frames.Size() && frames.Size() > 0
      requires t.pages[k].frame < PAGE
      modifies t, frames.words
      ensures t.Valid() && t.pages == old(t.pages)[k := old(t.pages[k]).(frame := 0)]
      ensures frames.Used() == old(frames.Used()) - (if old(t.pages[k]).frame == 0 then {} else {0})
      ensures t in tables && old(Exclusive(Snap(tables), frames.Used())) && old(t.pages[k]).frame != 0 ==>
        !Exclusive(Snap(tables), frames.Used())
    {
      hide Exclusive;
      var frame := t.pages[k].frame;
      if frame == 0 {
        assert t.pages == t.pages[k := t.pages[k].(frame := 0)];
        return;
      }
      frames.ClearFrame(frame);
      ghost var sn := Snap(tables);
      t.pages := t.pages[k := t.pages[k].(frame := 0)];
      if t in tables {
        assert Snap(tables) == sn[t := sn[t][k := t.pages[k]]];
        if old(Exclusive(Snap(tables), frames.Used())) {
          GiveKeepsExclusive(sn, old(frames.Used()), t, k, t.pages[k]);
          assert sn[t][k].frame in frames.Used();
        }
      }
    }

    // copy_page_physical copies 1024 words.
    method CopyPagePhysical(src: nat, dst: nat)
      requires src + PAGE <= dst || dst + PAGE <= src
      modifies ram
      ensures Span(ram.cells, dst, PAGE) == Span(old(ram.cells), src, PAGE)
      ensures SameOutside(old(ram.cells), ram.cells, dst, dst + PAGE)
    {
      hide Word, Span;
      SpanSplits(ram.cells, src, 0, 0);
      SpanSplits(ram.cells, dst, 0, 0);
      var ebx, ecx, edx := src, dst, 1024;
      while edx != 0
        invariant 0 <= edx <= 1024 && ebx == src + 4 * (1024 - edx) && ecx == dst + 4 * (1024 - edx)
        invariant SameOutside(old(ram.cells), ram.cells, dst, ecx)
        invariant Span(ram.cells, dst, ecx - dst) == Span(old(ram.cells), src, ecx - dst)
      {
        var eax := Word(ram.cells, ebx);
        ghost var m := ram.cells;
        ram.PutWord(ecx, eax);
        CopiedWord(old(ram.cells), m, ram.cells, src, dst, ecx - dst);
        ebx, ecx, edx := ebx + 4, ecx + 4, edx - 1;
      }
    }

    // The body of clone_table's loop for an entry that is cloned.
    method CloneEntry(table: PageTable, i: nat, p: Page, ghost tables: set<PageTable>) returns (ok: bool)
      requires table.Valid() && i < ENTRIES && table.pages[i] == BLANK && table in tables
      requires 0 in frames.Used() && p.frame in frames.Used()
      modifies table, frames.words, ram
      ensures table.Valid() && (ok <==> !old(frames.Full()))
      ensures !ok ==> table.pages == old(table.pages) && frames.Used() == old(frames.Used()) && ram.cells == old(ram.cells)
      ensures ok ==>
        var f := table.pages[i].frame;
        && table.pages == old(table.pages)[i := Page(true, p.rw, true, p.accessed, p.dirty, f)]
        && f !in old(frames.Used()) && frames.Used() == old(frames.Used()) + {f}
        && Contents(ram.cells, f) == Contents(old(ram.cells), p.frame)
      ensures KeepsFrames(old(ram.cells), ram.cells, old(frames.Used()))
      ensures old(Exclusive(Snap(tables), frames.Used())) ==> Exclusive(Snap(tables), frames.Used())
    {
      hide Exclusive, FrameStep, Snap, FrameSet.Used;
      ghost var used, m := frames.Used(), ram.cells;
      ok := AllocFrame(table, i, false, false, tables);
      if !ok { return; }
      ghost var f := table.pages[i].frame;
      CloneFlags(table, i, p, tables);
      CopyPagePhysical(p.frame * PAGE, table.pages[i].frame * PAGE);
      OthersKeep(m, ram.cells, f, used);
    }

    method CloneFlags(table: PageTable, i: nat, p: Page, ghost tables: set<PageTable>)
      requires table.Valid() && i < ENTRIES
      modifies table
      ensures table.Valid()
      ensures var q := old(table.pages[i]);
        table.pages == old(table.pages)[i := Page(q.present || p.present, q.rw || p.rw, q.user || p.user,
                                                  q.accessed || p.accessed, q.dirty || p.dirty, q.frame)]
      ensures old(Exclusive(Snap(tables), frames.Used())) ==> Exclusive(Snap(tables), frames.Used())
    {
      hide Exclusive;
      ghost var sn := Snap(tables);
      var q := table.pages[i];
      q := if p.present then q.(present := true) else q;
      q := if p.rw then q.(rw := true) else q;
      q := if p.user then q.(user := true) else q;
      q := if p.accessed then q.(accessed := true) else q;
      q := if p.dirty then q.(dirty := true) else q;
      table.pages := table.pages[i := q];
      SameFramesSameExclusive(sn, Snap(tables), frames.Used());
    }

    // clone_table. False stands for the frames running out.
    method CloneTable(src: PageTable, phys: u32, ghost tables: set<PageTable>) returns (table: PageTable, ok: bool)
      requires src.Valid() && 0 in frames.Used() && FramesUsed(src.pages, frames.Used())
      modifies frames.words, ram
      ensures fresh(table) && table.Valid() && table.physical == phys
      ensures old(frames.Used()) <= frames.Used() && KeepsFrames(old(ram.cells), ram.cells, old(frames.Used()))
      ensures ok <==> |old(frames.Used())| + Taken(clonesMapped, src.pages) <= frames.Size()
      ensures ok ==> |frames.Used()| == |old(frames.Used())| + Taken(clonesMapped, src.pages)
      ensures ok ==>
        TableCloned(clonesMapped, src.pages, table.pages, old(frames.Used()), frames.Used(), old(ram.cells), ram.cells)
      ensures old(Exclusive(Snap(tables), frames.Used())) ==> Exclusive(Snap(tables + {table}), frames.Used())
    {
      hide Exclusive, ClonedEntry, KeepsFrames, Contents, Taken, FrameSet.Used, Snap, FrameSet.Full;
      ghost var used, m := frames.Used(), ram.cells;
      table := new PageTable.Blank(phys);
      ghost var all := tables + {table};
      BlankTableJoins(tables, table, used);
      NothingCloned(clonesMapped, src.pages, m, used);
      var i := 0;
      while i < ENTRIES
        invariant 0 <= i <= ENTRIES && table.Valid() && fresh(table)
        invariant used <= frames.Used() && KeepsFrames(m, ram.cells, used)
        invariant |frames.Used()| == |used| + Taken(clonesMapped, src.pages[..i])
        invariant forall k :: 0 <= k < i ==>
          ClonedEntry(clonesMapped, src.pages[k], table.pages[k], used, frames.Used(), m, ram.cells)
        invariant forall k :: i <= k < ENTRIES ==> table.pages[k] == BLANK
        invariant old(Exclusive(Snap(tables), frames.Used())) ==> Exclusive(Snap(all), frames.Used())
      {
        TakenGrows(clonesMapped, src.pages, i);
        FullBySize(frames);
        if (src.pages[i].frame != 0) != clonesMapped {
          SkippedEntry(clonesMapped, src.pages[i], used, frames.Used(), m, ram.cells);
          i := i + 1;
          continue;
        }
        ghost var used1, m1, qs := frames.Used(), ram.cells, table.pages;
        ok := CloneEntry(table, i, src.pages[i], all);
        if !ok { return; }
        EntriesCloned(clonesMapped, src.pages, qs, table.pages, i, used, used1, frames.Used(), m, m1, ram.cells);
        i := i + 1;
      }
      assert src.pages[..i] == src.pages;
      FullBySize(frames);
      ok := true;
    }

    // The pages clone_directory copies: those of the tables the kernel's directory does
    // not share.
    ghost function PrivatePages(src: Directory): (pss: seq<seq<Page>>)
      requires |src.tables| == ENTRIES == |kernelDirectory.tables|
      reads src, src.tables, kernelDirectory
      ensures |pss| == ENTRIES
    {
      seq(ENTRIES, i requires 0 <= i < ENTRIES && |src.tables| == ENTRIES == |kernelDirectory.tables|
        reads src, src.tables, kernelDirectory =>
          if IsPrivate(src, i) then src.tables[i].pages else [])
    }

    ghost predicate IsPrivate(src: Directory, i: int)
      requires 0 <= i < |src.tables| == |kernelDirectory.tables|
      reads src, kernelDirectory
    {
      src.tables[i] != null && kernelDirectory.tables[i] != src.tables[i]
    }

    // What clone_directory promises of slot i of the new directory.
    ghost predicate SlotCloned(src: Directory, dir: Directory, i: int, used: set<nat>, m: Bytes)
      requires |src.tables| == |dir.tables| == |kernelDirectory.tables| == |src.tablesPhysical| == |dir.tablesPhysical|
      requires 0 <= i < |src.tables|
      reads src, src.tables, dir, dir.tables, kernelDirectory, frames.words, ram
    {
      if !IsPrivate(src, i) then
        dir.tables[i] == src.tables[i] && (src.tables[i] != null ==> dir.tablesPhysical[i] == src.tablesPhysical[i])
      else
        && dir.tables[i] != null
        && TableCloned(clonesMapped, src.tables[i].pages, dir.tables[i].pages, used, frames.Used(), m, ram.cells)
    }

    // The body of clone_directory's loop for a table that is not shared.
    method CloneOwnSlot(src: Directory, dir: Directory, i: nat, phys: u32, ghost tables: set<PageTable>, ghost used: set<nat>, ghost m: Bytes)
      returns (table: PageTable, ok: bool)
      requires |src.tables| == ENTRIES == |kernelDirectory.tables| == |dir.tables| == |src.tablesPhysical| == |dir.tablesPhysical|
      requires dir != src && dir != kernelDirectory && i < ENTRIES && phys % PAGE == 0
      requires IsPrivate(src, i) && src.tables[i].Valid()
      requires 0 in used && used <= frames.Used() && KeepsFrames(m, ram.cells, used)
      requires forall j :: 0 <= j <= i && src.tables[j] != null ==> FramesUsed(src.tables[j].pages, used)
      requires forall j :: 0 <= j < i ==> SlotCloned(src, dir, j, used, m)
      modifies dir, frames.words, ram
      ensures fresh(table) && table.Valid() && table.physical == phys
      ensures used <= frames.Used() && KeepsFrames(m, ram.cells, used)
      ensures ok <==> |old(frames.Used())| + Taken(clonesMapped, src.tables[i].pages) <= frames.Size()
      ensures ok ==> |frames.Used()| == |old(frames.Used())| + Taken(clonesMapped, src.tables[i].pages)
      ensures dir.tables == if ok then old(dir.tables)[i := table] else old(dir.tables)
      ensures dir.tablesPhysical == if ok then old(dir.tablesPhysical)[i := phys + 7] else old(dir.tablesPhysical)
      ensures ok ==> forall j :: 0 <= j <= i ==> SlotCloned(src, dir, j, used, m)
      ensures old(Exclusive(Snap(tables), frames.Used())) ==> Exclusive(Snap(tables + {table}), frames.Used())
    {
      hide Exclusive, TableCloned, KeepsFrames, Taken, FrameSet.Used, Contents, Snap;
      ghost var used1, m1 := frames.Used(), ram.cells;
      assert FramesUsed(src.tables[i].pages, used1);
      table, ok := CloneTable(src.tables[i], phys, tables);
      KeepsFramesTrans(m, m1, ram.cells, used, used1);
      if !ok { return; }
      dir.tables := dir.tables[i := table];
      dir.tablesPhysical := dir.tablesPhysical[i := phys + 7];
      KeepsSelf(ram.cells, frames.Used());
      TableStaysCloned(clonesMapped, src.tables[i].pages, table.pages, used1, frames.Used(), m1, ram.cells,
                       used, frames.Used(), m, ram.cells);
      KeepsSelf(m, used);
      forall j | 0 <= j < i ensures SlotCloned(src, dir, j, used, m) {
        assert old(SlotCloned(src, dir, j, used, m));
        if IsPrivate(src, j) {
          TableStaysCloned(clonesMapped, src.tables[j].pages, dir.tables[j].pages, used, used1, m, m1,
                           used, frames.Used(), m, ram.cells);
        }
      }
    }

    // The body of clone_directory's loop. False stands for the frames running out; more is
    // the table that was made, if any.
    method CloneSlot(src: Directory, dir: Directory, i: nat, phys: u32, ghost tables: set<PageTable>, ghost used: set<nat>, ghost m: Bytes)
      returns (ok: bool, ghost more: set<PageTable>)
      requires src.Valid() && kernelDirectory.Valid() && dir.Valid()
      requires dir != src && dir != kernelDirectory && i < ENTRIES && phys % PAGE == 0
      requires 0 in used && used <= frames.Used() && KeepsFrames(m, ram.cells, used)
      requires forall j :: 0 <= j <= i && src.tables[j] != null ==> FramesUsed(src.tables[j].pages, used)
      requires forall j :: 0 <= j < i ==> SlotCloned(src, dir, j, used, m) && (IsPrivate(src, j) ==> dir.tables[j] !in src.tables)
      requires forall j :: i <= j < ENTRIES ==> dir.tables[j] == null
      modifies dir, frames.words, ram
      ensures fresh(more) && dir.Valid()
      ensures used <= frames.Used() && KeepsFrames(m, ram.cells, used)
      ensures ok <==> |old(frames.Used())| + Taken(clonesMapped, PrivatePages(src)[i]) <= frames.Size()
      ensures ok ==> |frames.Used()| == |old(frames.Used())| + Taken(clonesMapped, PrivatePages(src)[i])
      ensures forall j :: 0 <= j < ENTRIES && j != i ==> dir.tables[j] == old(dir.tables)[j]
      ensures ok ==> forall j :: 0 <= j <= i ==> SlotCloned(src, dir, j, used, m)
      ensures ok && IsPrivate(src, i) ==> dir.tables[i] in more
      ensures !IsPrivate(src, i) ==> ok
      ensures old(Exclusive(Snap(tables), frames.Used())) ==> Exclusive(Snap(tables + more), frames.Used())
    {
      hide Exclusive, TableCloned, KeepsFrames, Taken, FrameSet.Used, Contents, Snap, FramesUsed;
      more := {};
      assert tables + more == tables;
      FullBySize(frames);
      NothingTaken(clonesMapped, [], m, used);
      if src.tables[i] == null {
        return true, {};
      }
      if kernelDirectory.tables[i] == src.tables[i] {
        dir.tables := dir.tables[i := src.tables[i]];
        dir.tablesPhysical := dir.tablesPhysical[i := src.tablesPhysical[i]];
        ok := true;
      } else {
        var table;
        table, ok := CloneOwnSlot(src, dir, i, phys, tables, used, m);
        more := {table};
      }
    }

    // Every private page of the child is mapped exactly where the parent's is not.
    ghost predicate InvertedView(src: Directory, dir: Directory)
      requires src.Sized() && dir.Sized() && |kernelDirectory.tables| == ENTRIES
      reads src, src.tables, dir, dir.tables, kernelDirectory
    {
      forall v: nat {:trigger FrameAt(dir, v)} {:trigger FrameAt(src, v)} ::
        v < ENTRIES * ENTRIES && src.tables[v / ENTRIES] != null && kernelDirectory.tables[v / ENTRIES] != src.tables[v / ENTRIES] ==>
          (FrameAt(dir, v) != 0 <==> FrameAt(src, v) == 0)
    }

    // No page of the child whose table the kernel's directory does not share lies in a frame
    // of the parent.
    ghost predicate OwnFrames(src: Directory, dir: Directory)
      requires src.Sized() && dir.Sized() && |kernelDirectory.tables| == ENTRIES
      reads src, src.tables, dir, dir.tables, kernelDirectory
    {
      forall v: nat, w: nat ::
        v < ENTRIES * ENTRIES && w < ENTRIES * ENTRIES && src.tables[v / ENTRIES] != kernelDirectory.tables[v / ENTRIES] ==>
          FrameAt(dir, v) != 0 ==> FrameAt(dir, v) != FrameAt(src, w)
    }

    lemma ClonedPage(src: Directory, dir: Directory, used: set<nat>, m: Bytes, v: nat)
      requires src.Valid() && dir.Valid() && kernelDirectory.Valid() && 0 in used && v < ENTRIES * ENTRIES
      requires src.tables[v / ENTRIES] != null ==> FramesUsed(src.tables[v / ENTRIES].pages, used)
      requires SlotCloned(src, dir, v / ENTRIES, used, m)
      ensures FrameAt(src, v) in used
      ensures !IsPrivate(src, v / ENTRIES) ==> EntryAt(dir, v) == EntryAt(src, v)
      ensures src.tables[v / ENTRIES] == null ==> FrameAt(dir, v) == 0
      ensures IsPrivate(src, v / ENTRIES) ==>
        ClonedEntry(clonesMapped, EntryAt(src, v), EntryAt(dir, v), used, frames.Used(), m, ram.cells)
    {
    }

    lemma ClonedViews(src: Directory, dir: Directory, used: set<nat>, m: Bytes)
      requires src.Valid() && dir.Valid() && kernelDirectory.Valid() && 0 in used
      requires forall i :: 0 <= i < ENTRIES && src.tables[i] != null ==> FramesUsed(src.tables[i].pages, used)
      requires forall i :: 0 <= i < ENTRIES ==> SlotCloned(src, dir, i, used, m)
      requires KeepsFrames(m, ram.cells, used)
      ensures clonesMapped ==> SameView(src, dir, ram.cells)
      ensures !clonesMapped ==> InvertedView(src, dir)
      ensures !clonesMapped ==> (SameView(src, dir, ram.cells) <==> NothingPrivate(src))
      ensures OwnFrames(src, dir)
    {
      hide Contents, SlotCloned, EntryAt;
      forall v: nat | v < ENTRIES * ENTRIES
        ensures FrameAt(src, v) in used
        ensures !IsPrivate(src, v / ENTRIES) ==> EntryAt(dir, v) == EntryAt(src, v)
        ensures src.tables[v / ENTRIES] == null ==> FrameAt(dir, v) == 0
        ensures IsPrivate(src, v / ENTRIES) ==>
          ClonedEntry(clonesMapped, EntryAt(src, v), EntryAt(dir, v), used, frames.Used(), m, ram.cells)
      {
        ClonedPage(src, dir, used, m, v);
      }
      forall v: nat, off: nat | v < ENTRIES * ENTRIES && off < PAGE && clonesMapped
        ensures Read(dir, ram.cells, v, off) == Read(src, ram.cells, v, off)
      {
        ClonedPage(src, dir, used, m, v);
        var f, g := FrameAt(src, v), FrameAt(dir, v);
        if IsPrivate(src, v / ENTRIES) && f != 0 {
          assert Contents(ram.cells, g) == Contents(m, f) == Contents(ram.cells, f);
          SameContents(ram.cells, f, g, off);
        }
      }
      if !clonesMapped { InvertedIsSameIff(src, dir, ram.cells); }
    }

    lemma ClonedTable(src: Directory, dir: Directory, i: nat, used: set<nat>, m: Bytes)
      requires src.Valid() && dir.Valid() && kernelDirectory.Valid() && i < ENTRIES && SlotCloned(src, dir, i, used, m)
      ensures src.tables[i] == null || kernelDirectory.tables[i] == src.tables[i] ==> dir.tables[i] == src.tables[i]
      ensures src.tables[i] != null && kernelDirectory.tables[i] != src.tables[i] ==>
        dir.tables[i] != null && forall k :: 0 <= k < ENTRIES ==>
          var p, q := src.tables[i].pages[k], dir.tables[i].pages[k];
          if (p.frame != 0) != clonesMapped then q == Page(false, false, false, false, false, 0)
          else
            && q == Page(true, p.rw, true, p.accessed, p.dirty, q.frame)
            && q.frame != 0 && q.frame !in used && q.frame in frames.Used()
            && Span(ram.cells, q.frame * PAGE, PAGE) == Span(m, p.frame * PAGE, PAGE)
    {
      hide FrameSet.Used, Span;
    }

    // Every table of src is the kernel's.
    ghost predicate NothingPrivate(src: Directory)
      requires |src.tables| == ENTRIES == |kernelDirectory.tables|
      reads src, kernelDirectory
    {
      forall i :: 0 <= i < ENTRIES && src.tables[i] != null ==> src.tables[i] == kernelDirectory.tables[i]
    }

    lemma InvertedIsSameIff(src: Directory, dir: Directory, m: Bytes)
      requires src.Sized() && dir.Sized() && |kernelDirectory.tables| == ENTRIES && InvertedView(src, dir)
      requires forall v: nat :: v < ENTRIES * ENTRIES && !IsPrivate(src, v / ENTRIES) ==> EntryAt(dir, v) == EntryAt(src, v)
      ensures SameView(src, dir, m) <==> NothingPrivate(src)
    {
      hide EntryAt;
      if i :| 0 <= i < ENTRIES && src.tables[i] != null && src.tables[i] != kernelDirectory.tables[i] {
        var v := i * ENTRIES;
        assert v / ENTRIES == i;
        assert FrameAt(dir, v) != 0 <==> FrameAt(src, v) == 0;
        assert Read(dir, m, v, 0) != Read(src, m, v, 0);
      }
    }

    // After a clone, a store through a page of the child whose table the kernel's directory
    // does not share shows on no page of the parent, and a store through any page of the
    // parent shows on no such page of the child.
    lemma CloneIsIsolated(src: Directory, dir: Directory, m: Bytes, m': Bytes, v: nat, w: nat, off: nat)
      requires src.Sized() && dir.Sized() && |kernelDirectory.tables| == ENTRIES && OwnFrames(src, dir)
      requires v < ENTRIES * ENTRIES && w < ENTRIES * ENTRIES && off < PAGE
      requires src.tables[v / ENTRIES] != kernelDirectory.tables[v / ENTRIES] && FrameAt(dir, v) != 0
      ensures SameOutside(m, m', FrameAt(dir, v) * PAGE, FrameAt(dir, v) * PAGE + PAGE) ==>
        Read(src, m', w, off) == Read(src, m, w, off)
      ensures SameOutside(m, m', FrameAt(src, w) * PAGE, FrameAt(src, w) * PAGE + PAGE) ==>
        Read(dir, m', v, off) == Read(dir, m, v, off)
    {
      hide EntryAt, Read, SameOutside;
      assert FrameAt(dir, v) != FrameAt(src, w);
      if SameOutside(m, m', FrameAt(dir, v) * PAGE, FrameAt(dir, v) * PAGE + PAGE) {
        StoreNotSeen(dir, src, m, m', v, w, off);
      }
      if SameOutside(m, m', FrameAt(src, w) * PAGE, FrameAt(src, w) * PAGE + PAGE) {
        StoreNotSeen(src, dir, m, m', w, v, off);
      }
    }

    // clone_directory. False stands for the frames running out; phys gives the physical
    // addresses that kmalloc_ap reports for new tables.
    method CloneDirectory(src: Directory, phys: seq<u32>, ghost tables: set<PageTable>)
      returns (dir: Directory, ok: bool, ghost made: set<PageTable>)
      requires src.Valid() && kernelDirectory.Valid()
      requires PageAddresses(phys)
      requires 0 in frames.Used()
      requires forall i :: 0 <= i < ENTRIES && src.tables[i] != null ==> FramesUsed(src.tables[i].pages, frames.Used())
      modifies frames.words, ram
      ensures fresh(dir) && dir.Valid() && fresh(made)
      ensures old(frames.Used()) <= frames.Used() && KeepsFrames(old(ram.cells), ram.cells, old(frames.Used()))
      ensures ok <==> |old(frames.Used())| + TakenAll(clonesMapped, PrivatePages(src)) <= frames.Size()
      ensures ok ==> forall i :: 0 <= i < ENTRIES ==>
        SlotCloned(src, dir, i, old(frames.Used()), old(ram.cells)) && (IsPrivate(src, i) ==> dir.tables[i] in made)
      ensures forall i :: 0 <= i < ENTRIES && dir.tables[i] != null ==> dir.tablesPhysical[i] == dir.tables[i].physical + 7
      // Tables that the kernel's directory shares are shared, and every other one is new. The
      // entries of a new one are blank, or present, open to the user and like the source's, with
      // a frame that was not in use and holds the bytes of the source's.
      ensures ok ==> forall i :: 0 <= i < ENTRIES && (src.tables[i] == null || kernelDirectory.tables[i] == src.tables[i]) ==>
        dir.tables[i] == src.tables[i]
      ensures ok ==> forall i :: 0 <= i < ENTRIES && src.tables[i] != null && kernelDirectory.tables[i] != src.tables[i] ==>
        dir.tables[i] != null && fresh(dir.tables[i]) && forall k :: 0 <= k < ENTRIES ==>
          var p, q := src.tables[i].pages[k], dir.tables[i].pages[k];
          if (p.frame != 0) != clonesMapped then q == Page(false, false, false, false, false, 0)
          else
            && q == Page(true, p.rw, true, p.accessed, p.dirty, q.frame)
            && q.frame != 0 && q.frame !in old(frames.Used()) && q.frame in frames.Used()
            && Span(ram.cells, q.frame * PAGE, PAGE) == Span(old(ram.cells), p.frame * PAGE, PAGE)
      ensures old(Exclusive(Snap(tables), frames.Used())) ==> Exclusive(Snap(tables + made), frames.Used())
      // The child reads what the parent reads, unless clone_table is as committed.
      ensures ok && clonesMapped ==> SameView(src, dir, ram.cells)
      ensures ok && !clonesMapped ==> InvertedView(src, dir)
      ensures ok && !clonesMapped ==> (SameView(src, dir, ram.cells) <==> NothingPrivate(src))
      ensures ok ==> OwnFrames(src, dir)
      ensures src == kernelDirectory ==> ok && dir.tables == src.tables
    {
      hide Exclusive, TableCloned, KeepsFrames, TakenAll, Taken, FrameSet.Used, Contents, Snap, FramesUsed, NothingPrivate;
      ghost var used, m := frames.Used(), ram.cells;
      dir := new Directory.Blank();
      if src == kernelDirectory { KernelTakesNothing(src); }
      ok, made := CloneSlots(src, dir, phys, tables);
      if ok {
        ClonedViews(src, dir, used, m);
        forall i: nat | i < ENTRIES && SlotCloned(src, dir, i, used, m) {
          ClonedTable(src, dir, i, used, m);
        }
      }
    }

    // The kernel's own directory has no table to copy.
    lemma KernelTakesNothing(src: Directory)
      requires src == kernelDirectory && |src.tables| == ENTRIES
      ensures TakenAll(clonesMapped, PrivatePages(src)) == 0 && |frames.Used()| <= frames.Size()
    {
      AllEmptyTakesNothing(clonesMapped, PrivatePages(src));
      FullBySize(frames);
    }

    // clone_directory's loop. made are the tables that were made.
    method CloneSlots(src: Directory, dir: Directory, phys: seq<u32>, ghost tables: set<PageTable>) returns (ok: bool, ghost made: set<PageTable>)
      requires src.Valid() && kernelDirectory.Valid() && dir.Valid() && dir != src && dir != kernelDirectory
      requires PageAddresses(phys) && 0 in frames.Used() && forall i :: 0 <= i < ENTRIES ==> dir.tables[i] == null
      requires forall i :: 0 <= i < ENTRIES && src.tables[i] != null ==> FramesUsed(src.tables[i].pages, frames.Used())
      modifies dir, frames.words, ram
      ensures dir.Valid() && fresh(made)
      ensures old(frames.Used()) <= frames.Used() && KeepsFrames(old(ram.cells), ram.cells, old(frames.Used()))
      ensures ok <==> |old(frames.Used())| + TakenAll(clonesMapped, PrivatePages(src)) <= frames.Size()
      ensures ok ==> forall i :: 0 <= i < ENTRIES ==>
        SlotCloned(src, dir, i, old(frames.Used()), old(ram.cells)) && (IsPrivate(src, i) ==> dir.tables[i] in made)
      ensures old(Exclusive(Snap(tables), frames.Used())) ==> Exclusive(Snap(tables + made), frames.Used())
    {
      hide Exclusive, TableCloned, KeepsFrames, TakenAll, Taken, FrameSet.Used, Contents, Snap, FramesUsed;
      ghost var used, m, pss := frames.Used(), ram.cells, PrivatePages(src);
      made := {};
      assert tables + made == tables;
      NothingTaken(clonesMapped, pss, m, used);
      var i := 0;
      while i < ENTRIES
        invariant 0 <= i <= ENTRIES && fresh(made) && PrivatePages(src) == pss
        invariant dir.Valid() && (forall j :: i <= j < ENTRIES ==> dir.tables[j] == null)
        invariant forall j :: 0 <= j < i && dir.tables[j] != null ==> dir.tables[j] in made || dir.tables[j] == src.tables[j]
        invariant used <= frames.Used() && KeepsFrames(m, ram.cells, used)
        invariant |frames.Used()| == |used| + TakenAll(clonesMapped, pss[..i])
        invariant forall j :: 0 <= j < i ==> SlotCloned(src, dir, j, used, m) && (IsPrivate(src, j) ==> dir.tables[j] in made)
        invariant old(Exclusive(Snap(tables), frames.Used())) ==> Exclusive(Snap(tables + made), frames.Used())
      {
        TakenAllGrows(clonesMapped, pss, i);
        ghost var all := tables + made;
        ghost var more;
        ok, more := CloneSlot(src, dir, i, phys[i], all, used, m);
        assert all + more == tables + (made + more);
        made := made + more;
        if !ok { return; }
        assert SlotCloned(src, dir, i, used, m);
        i := i + 1;
      }
      assert pss[..i] == pss;
      FullBySize(frames);
      ok := true;
    }
  }

  // Every frame the pages name is in use.
  ghost predicate FramesUsed(pages: seq<Page>, used: set<nat>) {
    forall k :: 0 <= k < |pages| && pages[k].frame != 0 ==> pages[k].frame in used
  }

  // How a clone's entry relates to its source: blank, or a frame of its own with the
  // source's bytes. A clone is always present and always open to the user.
  ghost predicate ClonedEntry(clonesMapped: bool, p: Page, q: Page, used: set<nat>, used': set<nat>, m: Bytes, m': Bytes) {
    if (p.frame != 0) != clonesMapped then q == BLANK
    else
      && q == Page(true, p.rw, true, p.accessed, p.dirty, q.frame)
      && q.frame != 0 && q.frame !in used && q.frame in used'
      && Contents(m', q.frame) == Contents(m, p.frame)
  }

  ghost predicate TableCloned(clonesMapped: bool, ps: seq<Page>, qs: seq<Page>, used: set<nat>, used': set<nat>, m: Bytes, m': Bytes) {
    && |ps| == ENTRIES == |qs|
    && forall k :: 0 <= k < ENTRIES ==> ClonedEntry(clonesMapped, ps[k], qs[k], used, used', m, m')
  }

  // A clone stays one while more frames are taken and the frames in use are left alone.
  lemma TableStaysCloned(clonesMapped: bool, ps: seq<Page>, qs: seq<Page>, used: set<nat>, used': set<nat>, m: Bytes, m': Bytes,
                         used1: set<nat>, used2: set<nat>, m1: Bytes, m2: Bytes)
    requires TableCloned(clonesMapped, ps, qs, used, used', m, m') && FramesUsed(ps, used1) && 0 in used1
    requires used1 <= used && used' <= used2 && KeepsFrames(m1, m, used1) && KeepsFrames(m', m2, used')
    ensures TableCloned(clonesMapped, ps, qs, used1, used2, m1, m2)
  {
    hide Contents;
    forall k | 0 <= k < ENTRIES ensures ClonedEntry(clonesMapped, ps[k], qs[k], used1, used2, m1, m2) {
      assert ClonedEntry(clonesMapped, ps[k], qs[k], used, used', m, m');
    }
  }

  ghost function TakenAll(clonesMapped: bool, pss: seq<seq<Page>>): nat {
    if pss == [] then 0
    else TakenAll(clonesMapped, pss[..|pss| - 1]) + Taken(clonesMapped, pss[|pss| - 1])
  }

  lemma {:induction false} AllEmptyTakesNothing(clonesMapped: bool, pss: seq<seq<Page>>)
    requires forall i :: 0 <= i < |pss| ==> pss[i] == []
    ensures TakenAll(clonesMapped, pss) == 0
  {
    if pss != [] {
      var n := |pss| - 1;
      assert pss[n] == [];
      AllEmptyTakesNothing(clonesMapped, pss[..n]);
    }
  }

  lemma {:induction false} TakenAllGrows(clonesMapped: bool, pss: seq<seq<Page>>, i: nat)
    requires i < |pss|
    ensures TakenAll(clonesMapped, pss[..i + 1]) == TakenAll(clonesMapped, pss[..i]) + Taken(clonesMapped, pss[i])
    ensures TakenAll(clonesMapped, pss[..i + 1]) <= TakenAll(clonesMapped, pss)
    decreases |pss| - i
  {
    assert pss[..i + 1][..i] == pss[..i];
    if i + 1 < |pss| {
      TakenAllGrows(clonesMapped, pss, i + 1);
    } else {
      assert pss[..i + 1] == pss;
    }
  }

  lemma KeepsFramesTrans(m: Bytes, m1: Bytes, m2: Bytes, used: set<nat>, used1: set<nat>)
    requires KeepsFrames(m, m1, used) && KeepsFrames(m1, m2, used1) && used <= used1
    ensures KeepsFrames(m, m2, used)
  {
    hide Contents;
  }

  lemma KeepsSelf(m: Bytes, fs: set<nat>)
    ensures KeepsFrames(m, m, fs)
  {
  }

  lemma NothingTaken(clonesMapped: bool, pss: seq<seq<Page>>, m: Bytes, used: set<nat>)
    ensures TakenAll(clonesMapped, pss[..0]) == 0 && Taken(clonesMapped, []) == 0 && KeepsFrames(m, m, used)
  {
  }

  // How many entries of a table clone_table gives a frame.
  ghost function Taken(clonesMapped: bool, pages: seq<Page>): nat {
    if pages == [] then 0
    else
      var n := |pages| - 1;
      Taken(clonesMapped, pages[..n]) + if (pages[n].frame != 0) == clonesMapped then 1 else 0
  }

  lemma {:induction false} TakenGrows(clonesMapped: bool, pages: seq<Page>, i: nat)
    requires i < |pages|
    ensures Taken(clonesMapped, pages[..i + 1]) ==
            Taken(clonesMapped, pages[..i]) + if (pages[i].frame != 0) == clonesMapped then 1 else 0
    ensures Taken(clonesMapped, pages[..i + 1]) <= Taken(clonesMapped, pages)
    decreases |pages| - i
  {
    assert pages[..i + 1][..i] == pages[..i];
    if i + 1 < |pages| {
      TakenGrows(clonesMapped, pages, i + 1);
    } else {
      assert pages[..i + 1] == pages;
    }
  }

  lemma FullBySize(frames: FrameSet)
    ensures |frames.Used()| <= frames.Size()
    ensures frames.Full() <==> |frames.Used()| == frames.Size()
  {
    var all := Below(frames.Size());
    assert all == frames.Used() + (all - frames.Used());
    assert frames.Full() <==> all - frames.Used() == {};
  }

  ghost function Below(n: nat): (s: set<nat>)
    ensures |s| == n && forall f: nat :: f in s <==> f < n
  {
    if n == 0 then {} else Below(n - 1) + {n - 1}
  }

  lemma BlankHoldsNothing(s: Snapshot, table: PageTable, used: set<nat>)
    requires table !in s
    ensures Exclusive(s, used) ==> Exclusive(s[table := seq(ENTRIES, _ => BLANK)], used)
  {
    if Exclusive(s, used) {
      var s' := s[table := seq(ENTRIES, _ => BLANK)];
      forall u, l, f | f != 0 ensures Holds(s', u, l, f) <==> Holds(s, u, l, f) {}
      forall f | f != 0 ensures f in used <==> Held(s', f) {
        if Held(s, f) {
          var t, k :| Holds(s, t, k, f);
          assert Holds(s', t, k, f);
        }
      }
    }
  }

  lemma BlankTableJoins(tables: set<PageTable>, table: PageTable, used: set<nat>)
    requires table !in tables && table.pages == seq(ENTRIES, _ => BLANK)
    ensures Exclusive(Snap(tables), used) ==> Exclusive(Snap(tables + {table}), used)
  {
    hide Exclusive;
    assert Snap(tables + {table}) == Snap(tables)[table := seq(ENTRIES, _ => BLANK)];
    BlankHoldsNothing(Snap(tables), table, used);
  }

  // Entries cloned earlier stay as they are when entry i gets its frame.
  lemma EntriesCloned(clonesMapped: bool, ps: seq<Page>, qs: seq<Page>, qs': seq<Page>, i: nat, used: set<nat>, used1: set<nat>, used2: set<nat>,
                      m: Bytes, m1: Bytes, m2: Bytes)
    requires i < |ps| == |qs| && used <= used1 <= used2 && KeepsFrames(m, m1, used) && KeepsFrames(m1, m2, used1)
    requires forall k :: 0 <= k < i ==> ClonedEntry(clonesMapped, ps[k], qs[k], used, used1, m, m1)
    requires ps[i].frame in used && (ps[i].frame != 0) == clonesMapped
    requires |qs'| == |qs| && qs' == qs[i := Page(true, ps[i].rw, true, ps[i].accessed, ps[i].dirty, qs'[i].frame)]
    requires qs'[i].frame != 0 && qs'[i].frame !in used1 && qs'[i].frame in used2
    requires Contents(m2, qs'[i].frame) == Contents(m1, ps[i].frame)
    ensures KeepsFrames(m, m2, used)
    ensures forall k :: 0 <= k <= i ==> ClonedEntry(clonesMapped, ps[k], qs'[k], used, used2, m, m2)
  {
    hide Contents;
    forall k | 0 <= k < i ensures ClonedEntry(clonesMapped, ps[k], qs'[k], used, used2, m, m2) {
      assert ClonedEntry(clonesMapped, ps[k], qs[k], used, used1, m, m1);
    }
  }

  lemma NothingCloned(clonesMapped: bool, pages: seq<Page>, m: Bytes, used: set<nat>)
    ensures Taken(clonesMapped, pages[..0]) == 0 && KeepsFrames(m, m, used)
  {
  }

  lemma SkippedEntry(clonesMapped: bool, p: Page, used: set<nat>, used': set<nat>, m: Bytes, m': Bytes)
    requires (p.frame != 0) != clonesMapped
    ensures ClonedEntry(clonesMapped, p, BLANK, used, used', m, m')
  {
  }

  lemma OthersKeep(m: Bytes, m': Bytes, g: nat, fs: set<nat>)
    requires SameOutside(m, m', g * PAGE, g * PAGE + PAGE)
    ensures forall f :: f in fs && f != g ==> Contents(m', f) == Contents(m, f)
  {
    forall f | f in fs && f != g ensures Contents(m', f) == Contents(m, f) {
      WriteStaysPrivate(m, m', f, g);
    }
  }

  lemma SpanSplits(m: Bytes, a: int, n: nat, k: nat)
    ensures Span(m, a, n + k) == Span(m, a, n) + Span(m, a + n, k)
  {
  }

  // One word more of a copy; m0 is the memory at its start.
  lemma CopiedWord(m0: Bytes, m: Bytes, m': Bytes, src: int, dst: int, n: nat)
    requires src + n + 4 <= dst || dst + n + 4 <= src
    requires SameOutside(m0, m, dst, dst + n) && Span(m, dst, n) == Span(m0, src, n)
    requires SameOutside(m, m', dst + n, dst + n + 4) && Word(m', dst + n) == Word(m, src + n)
    ensures SameOutside(m0, m', dst, dst + n + 4) && Span(m', dst, n + 4) == Span(m0, src, n + 4)
  {
    hide Word;
    WordFixesBytes(m, src + n, m', dst + n);
    SpanSplits(m', dst, n, 4);
    SpanSplits(m0, src, n, 4);
    assert Span(m', dst, n) == Span(m, dst, n);
    assert Span(m, src + n, 4) == Span(m0, src + n, 4);
    SameOutsideTrans(m0, m, m', dst, dst + n, dst + n, dst + n + 4, dst, dst + n + 4);
  }

  lemma TablesAfter(ts: seq<PageTable?>, us: seq<PageTable?>, i: nat, t: PageTable)
    requires i < |ts| && ts[i] == null && us == ts[i := t]
    ensures forall u: PageTable :: u in us <==> u in ts || u == t
  {
    assert us[i] == t;
    forall u: PageTable | u in ts ensures u in us {
      var j :| 0 <= j < |ts| && ts[j] == u;
      assert us[j] == u;
    }
  }

  lemma NoTablesNoPages(dir: Directory)
    requires dir.Valid() && forall i :: 0 <= i < ENTRIES ==> dir.tables[i] == null
    ensures forall v: nat :: v < ENTRIES * ENTRIES ==> EntryAt(dir, v) == BLANK
  {
  }

  lemma WordFixesBytes(m: Bytes, a: int, m': Bytes, a': int)
    requires Word(m, a) == Word(m', a')
    ensures Span(m, a, 4) == Span(m', a', 4)
  {
    hide Word;
    WordBytes(m, a);
    WordBytes(m', a');
  }
}
