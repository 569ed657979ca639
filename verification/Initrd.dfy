/** The ramdisk: utils/mkinit.c packs files into an image, and sys/initrd.c reads them back
    from wherever the image was loaded. */
module Initrd {
  import opened Memory

  const SLOTS := 64
  const RECORD := 76   // struct initrd_header: magic, 64 bytes of name, padding, offset, length
  const OFFSET_AT := 68
  const LENGTH_AT := 72
  const DATA := 4868   // 4 + SLOTS * RECORD

  // Where file i starts in the image.
  function Start(files: seq<seq<byte>>, i: nat): (r: nat)
    requires i <= |files|
    ensures r >= DATA
  {
    if i == 0 then DATA else Start(files, i - 1) + |files[i - 1]|
  }

  lemma {:induction false} StartGrows(files: seq<seq<byte>>, i: nat, j: nat)
    requires i <= j <= |files|
    ensures Start(files, i) <= Start(files, j)
    decreases j - i
  {
    if i < j { StartGrows(files, i, j - 1); }
  }

  lemma StartStep(files: seq<seq<byte>>, i: nat)
    requires i < |files|
    ensures Start(files, i + 1) == Start(files, i) + |files[i]| <= Start(files, |files|)
  {
    StartGrows(files, i + 1, |files|);
  }

  // The bytes of a 32-bit word as fwrite puts them.
  function Bytes4(w: u32): (s: seq<byte>)
    ensures |s| == 4
  {
    var q := w / 0x100;
    var r := q / 0x100;
    [w % 0x100, q % 0x100, r % 0x100, r / 0x100]
  }

  datatype Header = Header(name: seq<byte>, offset: u32, length: u32)

  ghost predicate Sized(h: Header) { |h.name| == OFFSET_AT - 1 }

  // One header of the image; the name is taken with the padding behind it.
  function HeaderBytes(h: Header): seq<byte> {
    [0xBF] + h.name + Bytes4(h.offset) + Bytes4(h.length)
  }

  ghost predicate RecordIn(image: seq<byte>, files: seq<seq<byte>>, i: nat)
    requires i < |files|
  {
    var a := 4 + RECORD * i;
    && a + RECORD <= |image| && Start(files, i) < WORD && |files[i]| < WORD && image[a] == 0xBF
    && image[a + OFFSET_AT..a + OFFSET_AT + 4] == Bytes4(Start(files, i))
    && image[a + LENGTH_AT..a + LENGTH_AT + 4] == Bytes4(|files[i]|)
  }

  ghost predicate FileIn(image: seq<byte>, files: seq<seq<byte>>, i: nat)
    requires i < |files|
  {
    Start(files, i) + |files[i]| <= |image| && image[Start(files, i)..Start(files, i) + |files[i]|] == files[i]
  }

  ghost predicate ImageOf(image: seq<byte>, files: seq<seq<byte>>) {
    && |files| < WORD && |image| == Start(files, |files|) && image[..4] == Bytes4(|files|)
    && forall i: nat :: i < |files| ==> RecordIn(image, files, i) && FileIn(image, files, i)
  }

  // The files one after the other.
  ghost function Concat(files: seq<seq<byte>>): seq<byte> {
    if files == [] then [] else Concat(files[..|files| - 1]) + files[|files| - 1]
  }

  lemma {:induction false} StartIsSum(files: seq<seq<byte>>, i: nat)
    requires i <= |files|
    ensures Start(files, i) == 4868 + |Concat(files[..i])|
  {
    if i > 0 {
      StartIsSum(files, i - 1);
      assert files[..i][..i - 1] == files[..i - 1] && files[..i][i - 1] == files[i - 1];
    }
  }

  lemma {:induction false} DataBefore(image: seq<byte>, files: seq<seq<byte>>, i: nat)
    requires ImageOf(image, files) && i <= |files|
    ensures Start(files, i) <= |image|
    ensures image[4868..Start(files, i)] == Concat(files[..i])
  {
    StartGrows(files, i, |files|);
    if i > 0 {
      var j := i - 1;
      DataBefore(image, files, j);
      assert FileIn(image, files, j);
      assert files[..i][..j] == files[..j] && files[..i][j] == files[j];
      assert image[4868..Start(files, i)] == image[4868..Start(files, j)] + image[Start(files, j)..Start(files, i)];
    }
  }

  // An image is the number of files, 64 slots of 76 bytes, and the files without gaps; the
  // slot of file i has the magic byte first and the place and length of the file last.
  lemma ImageLayout(image: seq<byte>, files: seq<seq<byte>>)
    requires ImageOf(image, files)
    ensures |image| >= 4868 && image[4868..] == Concat(files) && image[..4] == Bytes4(|files|)
    ensures forall i: nat :: i < |files| ==>
      && 4 + 76 * i + 76 <= |image| && image[4 + 76 * i] == 0xBF && 4868 + |Concat(files[..i])| < WORD && |files[i]| < WORD
      && image[4 + 76 * i + 68..4 + 76 * i + 72] == Bytes4(4868 + |Concat(files[..i])|)
      && image[4 + 76 * i + 72..4 + 76 * i + 76] == Bytes4(|files[i]|)
  {
    hide Bytes4, Start;
    StartIsSum(files, |files|);
    DataBefore(image, files, |files|);
    assert files[..|files|] == files && image[4868..] == image[4868..|image|];
    hide Concat, RecordIn, FileIn, ImageOf;
    forall i: nat | i < |files|
      ensures 4 + 76 * i + 76 <= |image| && image[4 + 76 * i] == 0xBF && 4868 + |Concat(files[..i])| < WORD && |files[i]| < WORD
      ensures image[4 + 76 * i + 68..4 + 76 * i + 72] == Bytes4(4868 + |Concat(files[..i])|)
      ensures image[4 + 76 * i + 72..4 + 76 * i + 76] == Bytes4(|files[i]|)
    {
      SlotLayout(image, files, i);
    }
  }

  lemma SlotLayout(image: seq<byte>, files: seq<seq<byte>>, i: nat)
    requires ImageOf(image, files) && i < |files|
    ensures 4 + 76 * i + 76 <= |image| && image[4 + 76 * i] == 0xBF && 4868 + |Concat(files[..i])| < WORD && |files[i]| < WORD
    ensures image[4 + 76 * i + 68..4 + 76 * i + 72] == Bytes4(4868 + |Concat(files[..i])|)
    ensures image[4 + 76 * i + 72..4 + 76 * i + 76] == Bytes4(|files[i]|)
  {
    hide Bytes4, Start, Concat, FileIn;
    assert RecordIn(image, files, i);
    StartIsSum(files, i);
  }

  // ---------------------------------------------------------------- packing

  // The first loop of mkinit. Names and the contents of the unused slots are whatever the
  // stack holds.
  method MakeHeaders(files: seq<seq<byte>>, unset: seq<Header>) returns (headers: seq<Header>)
    requires |files| <= SLOTS == |unset| && Start(files, |files|) < WORD
    requires forall i :: 0 <= i < SLOTS ==> Sized(unset[i])
    ensures |headers| == SLOTS && forall j :: 0 <= j < SLOTS ==> Sized(headers[j])
    ensures forall j: nat :: j < |files| ==> headers[j].offset == Start(files, j) && headers[j].length == |files[j]|
  {
    hide Start, Sized;
    headers := unset;
    StartOfFirst(files);
    var off := RECORD * SLOTS + 4;
    var i := 0;
    while i < |files|
      invariant 0 <= i <= |files| && |headers| == SLOTS && off == Start(files, i) < WORD
      invariant forall j :: 0 <= j < SLOTS ==> Sized(headers[j])
      invariant forall j: nat :: j < i ==> headers[j].offset == Start(files, j) && headers[j].length == |files[j]|
    {
      StartStep(files, i);
      SameName(headers[i], off, |files[i]|);
      headers := headers[i := Header(headers[i].name, off, |files[i]|)];
      off := off + |files[i]|;
      i := i + 1;
    }
  }

  // The number of files and all the header slots.
  method WriteHeaders(files: seq<seq<byte>>, headers: seq<Header>) returns (image: seq<byte>)
    requires |files| <= SLOTS == |headers| && Start(files, |files|) < WORD
    requires forall j :: 0 <= j < SLOTS ==> Sized(headers[j])
    requires forall j: nat :: j < |files| ==> headers[j].offset == Start(files, j) && headers[j].length == |files[j]|
    ensures |image| == DATA && Bytes4(|files|) <= image
    ensures forall j: nat :: j < |files| ==> RecordIn(image, files, j)
  {
    hide RecordIn, HeaderBytes, Bytes4, Start, Sized;
    image := Bytes4(|files|);
    var i := 0;
    while i < SLOTS
      invariant 0 <= i <= SLOTS && |image| == 4 + RECORD * i && Bytes4(|files|) <= image
      invariant forall j: nat :: j < i && j < |files| ==> RecordIn(image, files, j)
    {
      var was := image;
      image := image + HeaderBytes(headers[i]);
      HeaderSize(headers[i]);
      RecordsKept(was, image, files, i);
      if i < |files| {
        StartStep(files, i);
        NewRecord(was, headers[i], files, i);
      }
      i := i + 1;
    }
  }

  // mkinit: the headers, and then the files one after the other.
  method MkInit(files: seq<seq<byte>>, unset: seq<Header>) returns (image: seq<byte>)
    requires |files| <= SLOTS == |unset| && Start(files, |files|) < WORD
    requires forall i :: 0 <= i < SLOTS ==> Sized(unset[i])
    ensures ImageOf(image, files)
  {
    hide RecordIn, FileIn, HeaderBytes, Bytes4, Start, Sized;
    var headers := MakeHeaders(files, unset);
    image := WriteHeaders(files, headers);
    StartOfFirst(files);
    var i := 0;
    while i < |files|
      invariant 0 <= i <= |files| && |image| == Start(files, i) && Bytes4(|files|) <= image
      invariant forall j: nat :: j < |files| ==> RecordIn(image, files, j)
      invariant forall j: nat :: j < i ==> FileIn(image, files, j)
    {
      var was := image;
      image := image + files[i];
      StartStep(files, i);
      RecordsKept(was, image, files, |files|);
      FilesKept(was, image, files, i);
      NewFile(was, files, i);
      i := i + 1;
    }
  }

  lemma StartOfFirst(files: seq<seq<byte>>)
    ensures Start(files, 0) == DATA == RECORD * SLOTS + 4
  {
  }

  lemma SameName(h: Header, offset: u32, length: u32)
    requires Sized(h)
    ensures Sized(Header(h.name, offset, length))
  {
  }

  lemma HeaderSize(h: Header)
    requires Sized(h)
    ensures |HeaderBytes(h)| == RECORD
  {
  }

  lemma NewFile(s: seq<byte>, files: seq<seq<byte>>, i: nat)
    requires i < |files| && |s| == Start(files, i)
    ensures FileIn(s + files[i], files, i)
  {
    assert (s + files[i])[|s|..|s| + |files[i]|] == files[i];
  }

  lemma RecordsKept(s: seq<byte>, t: seq<byte>, files: seq<seq<byte>>, n: nat)
    requires s <= t
    ensures forall j: nat :: j < n && j < |files| && RecordIn(s, files, j) ==> RecordIn(t, files, j)
  {
    forall j: nat | j < n && j < |files| && RecordIn(s, files, j) ensures RecordIn(t, files, j) {
      var a := 4 + RECORD * j;
      assert t[..|s|] == s;
      assert t[a] == t[..|s|][a];
      assert t[a + OFFSET_AT..a + OFFSET_AT + 4] == s[a + OFFSET_AT..a + OFFSET_AT + 4];
      assert t[a + LENGTH_AT..a + LENGTH_AT + 4] == s[a + LENGTH_AT..a + LENGTH_AT + 4];
    }
  }

  lemma FilesKept(s: seq<byte>, t: seq<byte>, files: seq<seq<byte>>, n: nat)
    requires s <= t
    ensures forall j: nat :: j < n && j < |files| && FileIn(s, files, j) ==> FileIn(t, files, j)
  {
    forall j: nat | j < n && j < |files| && FileIn(s, files, j) ensures FileIn(t, files, j) {
      var a, n := Start(files, j), |files[j]|;
      assert t[..|s|] == s;
      assert t[a..a + n] == s[a..a + n];
    }
  }

  lemma NewRecord(s: seq<byte>, h: Header, files: seq<seq<byte>>, i: nat)
    requires i < |files| && |s| == 4 + RECORD * i && Sized(h)
    requires h.offset == Start(files, i) && h.length == |files[i]|
    ensures RecordIn(s + HeaderBytes(h), files, i)
  {
    var t := s + HeaderBytes(h);
    var a := |s|;
    assert t[a + OFFSET_AT..a + OFFSET_AT + 4] == Bytes4(h.offset);
    assert t[a + LENGTH_AT..a + LENGTH_AT + 4] == Bytes4(h.length);
  }

  // ---------------------------------------------------------------- mounting

  function RecordAddr(location: int, i: nat): int { location + 4 + RECORD * i }

  // The kernel's view of file i once its header's offset is an address.
  ghost predicate FileMounted(m: Bytes, location: int, files: seq<seq<byte>>, i: nat)
    requires i < |files|
  {
    && Word(m, RecordAddr(location, i) + OFFSET_AT) == location + Start(files, i)
    && Word(m, RecordAddr(location, i) + LENGTH_AT) == |files[i]|
    && Span(m, location + Start(files, i), |files[i]|) == files[i]
  }

  ghost predicate Mounted(m: Bytes, location: int, files: seq<seq<byte>>) {
    |files| <= SLOTS && forall i: nat :: i < |files| ==> FileMounted(m, location, files, i)
  }

  // The same before initialise_initrd: offsets count from the start of the image.
  ghost predicate FileLoaded(m: Bytes, location: int, files: seq<seq<byte>>, i: nat)
    requires i < |files|
  {
    && Word(m, RecordAddr(location, i) + OFFSET_AT) == Start(files, i)
    && Word(m, RecordAddr(location, i) + LENGTH_AT) == |files[i]|
    && Span(m, location + Start(files, i), |files[i]|) == files[i]
  }

  lemma WordOfBytes(m: Bytes, a: int, w: u32)
    requires Span(m, a, 4) == Bytes4(w)
    ensures Word(m, a) == w
  {
    var s := Span(m, a, 4);
    assert s[0] == m(a) && s[1] == m(a + 1) && s[2] == m(a + 2) && s[3] == m(a + 3);
  }

  lemma SubSpan(m: Bytes, a: int, s: seq<byte>, i: nat, j: nat)
    requires Span(m, a, |s|) == s && i <= j <= |s|
    ensures Span(m, a + i, j - i) == s[i..j]
  {
    forall k | 0 <= k < j - i ensures Span(m, a + i, j - i)[k] == s[i..j][k] {
      assert Span(m, a, |s|)[i + k] == m(a + (i + k));
    }
  }

  lemma ImageLoads(m: Bytes, location: int, image: seq<byte>, files: seq<seq<byte>>)
    requires ImageOf(image, files) && Span(m, location, |image|) == image
    ensures Word(m, location) == |files| && forall i: nat :: i < |files| ==> FileLoaded(m, location, files, i)
  {
    hide Word;
    StartGrows(files, 0, |files|);
    SubSpan(m, location, image, 0, 4);
    WordOfBytes(m, location, |files|);
    forall i: nat | i < |files| ensures FileLoaded(m, location, files, i) {
      var a := 4 + RECORD * i;
      assert RecordIn(image, files, i) && FileIn(image, files, i);
      SubSpan(m, location, image, a + OFFSET_AT, a + OFFSET_AT + 4);
      WordOfBytes(m, RecordAddr(location, i) + OFFSET_AT, Start(files, i));
      SubSpan(m, location, image, a + LENGTH_AT, a + LENGTH_AT + 4);
      WordOfBytes(m, RecordAddr(location, i) + LENGTH_AT, |files[i]|);
      SubSpan(m, location, image, Start(files, i), Start(files, i) + |files[i]|);
    }
  }

  // A file's node, with the fields that reading depends on.
  datatype FileNode = FileNode(inode: nat, length: nat)

  // initialise_initrd: the headers, and the nodes of the files.
  method InitialiseInitrd(ram: Ram, location: u32, ghost image: seq<byte>, ghost files: seq<seq<byte>>)
    returns (rootNodes: seq<FileNode>)
    requires ImageOf(image, files) && |files| <= SLOTS && location + |image| < WORD
    requires Span(ram.cells, location, |image|) == image
    modifies ram
    ensures Mounted(ram.cells, location, files)
    // The record of each file now holds its address and length, and the file is there.
    ensures forall i: nat :: i < |files| ==>
      && Word(ram.cells, location + 4 + 76 * i + 68) == location + 4868 + |Concat(files[..i])|
      && Word(ram.cells, location + 4 + 76 * i + 72) == |files[i]|
      && Span(ram.cells, location + 4868 + |Concat(files[..i])|, |files[i]|) == files[i]
    ensures |rootNodes| == |files| && forall i: nat :: i < |files| ==> rootNodes[i] == FileNode(i, |files[i]|)
    ensures SameOutside(old(ram.cells), ram.cells, location + 4, RecordAddr(location, |files|))
  {
    hide Word, Start, Span;
    rootNodes := [];
    ImageLoads(ram.cells, location, image, files);
    var nfiles := Word(ram.cells, location);
    var counter := 0;
    while counter < nfiles
      invariant 0 <= counter <= nfiles == |files|
      invariant forall i: nat :: i < counter ==> FileMounted(ram.cells, location, files, i)
      invariant forall i: nat :: counter <= i < |files| ==> FileLoaded(ram.cells, location, files, i)
      invariant SameOutside(old(ram.cells), ram.cells, location + 4, RecordAddr(location, |files|))
      invariant |rootNodes| == counter && forall i: nat :: i < counter ==> rootNodes[i] == FileNode(i, |files[i]|)
    {
      var a := RecordAddr(location, counter) + OFFSET_AT;
      StartGrows(files, counter, |files|);
      assert FileLoaded(ram.cells, location, files, counter);
      ghost var m := ram.cells;
      ram.PutWord(a, Word(ram.cells, a) + location);
      OtherFilesKept(m, ram.cells, location, files, counter);
      DataKept(m, ram.cells, location, files, a, a + 4, counter);
      SameOutsideTrans(old(ram.cells), m, ram.cells, location + 4, RecordAddr(location, |files|), a, a + 4, location + 4, RecordAddr(location, |files|));
      WordKept(m, ram.cells, a, a + 4, RecordAddr(location, counter) + LENGTH_AT);
      rootNodes := rootNodes + [FileNode(counter, Word(ram.cells, RecordAddr(location, counter) + LENGTH_AT))];
      counter := counter + 1;
    }
    MountedAddresses(ram.cells, location, files);
  }

  lemma MountedAddresses(m: Bytes, location: int, files: seq<seq<byte>>)
    requires Mounted(m, location, files)
    ensures forall i: nat :: i < |files| ==>
      && Word(m, location + 4 + 76 * i + 68) == location + 4868 + |Concat(files[..i])|
      && Word(m, location + 4 + 76 * i + 72) == |files[i]|
      && Span(m, location + 4868 + |Concat(files[..i])|, |files[i]|) == files[i]
  {
    hide Word, Start, Concat, Span;
    forall i: nat | i < |files|
      ensures Word(m, location + 4 + 76 * i + 68) == location + 4868 + |Concat(files[..i])|
      ensures Word(m, location + 4 + 76 * i + 72) == |files[i]|
      ensures Span(m, location + 4868 + |Concat(files[..i])|, |files[i]|) == files[i]
    {
      assert FileMounted(m, location, files, i);
      StartIsSum(files, i);
    }
  }

  lemma DataKept(m: Bytes, m': Bytes, location: int, files: seq<seq<byte>>, lo: int, hi: int, i: nat)
    requires SameOutside(m, m', lo, hi) && i < |files|
    requires hi <= location + Start(files, i) || location + Start(files, i) + |files[i]| <= lo
    ensures Span(m', location + Start(files, i), |files[i]|) == Span(m, location + Start(files, i), |files[i]|)
  {
    hide Start;
    SpanKept(m, m', lo, hi, location + Start(files, i), |files[i]|);
  }

  lemma SpanKept(m: Bytes, m': Bytes, lo: int, hi: int, a: int, n: nat)
    requires SameOutside(m, m', lo, hi) && (hi <= a || a + n <= lo)
    ensures Span(m', a, n) == Span(m, a, n)
  {
  }

  lemma OtherFileKept(m: Bytes, m': Bytes, location: int, files: seq<seq<byte>>, lo: int, hi: int, i: nat)
    requires SameOutside(m, m', lo, hi) && i < |files|
    requires hi <= RecordAddr(location, i) + OFFSET_AT || RecordAddr(location, i) + RECORD <= lo
    requires hi <= location + Start(files, i) || location + Start(files, i) + |files[i]| <= lo
    ensures FileMounted(m, location, files, i) ==> FileMounted(m', location, files, i)
    ensures FileLoaded(m, location, files, i) ==> FileLoaded(m', location, files, i)
  {
    hide Word, Span, Start, SameOutside;
    WordKept(m, m', lo, hi, RecordAddr(location, i) + OFFSET_AT);
    WordKept(m, m', lo, hi, RecordAddr(location, i) + LENGTH_AT);
    DataKept(m, m', location, files, lo, hi, i);
  }

  // The new address of file n harms no other file.
  lemma OtherFilesKept(m: Bytes, m': Bytes, location: int, files: seq<seq<byte>>, n: nat)
    requires n < |files| <= SLOTS
    requires SameOutside(m, m', RecordAddr(location, n) + OFFSET_AT, RecordAddr(location, n) + OFFSET_AT + 4)
    ensures forall i: nat :: i < |files| && i != n && FileMounted(m, location, files, i) ==> FileMounted(m', location, files, i)
    ensures forall i: nat :: i < |files| && i != n && FileLoaded(m, location, files, i) ==> FileLoaded(m', location, files, i)
  {
    hide FileMounted, FileLoaded, SameOutside, Start;
    var a := RecordAddr(location, n) + OFFSET_AT;
    forall i: nat | i < |files| && i != n
      ensures FileMounted(m, location, files, i) ==> FileMounted(m', location, files, i)
      ensures FileLoaded(m, location, files, i) ==> FileLoaded(m', location, files, i)
    {
      OtherFileKept(m, m', location, files, a, a + 4, i);
    }
  }

  // ---------------------------------------------------------------- reading

  // How much initrd_read copies; the sum is taken in 32 bits.
  function ReadCount(length: u32, offset: u32, size: u32): nat {
    if offset > length then 0
    else if (offset + size) % WORD > length then length - offset
    else size
  }

  // It is the smaller of the request and what is left, exactly unless the sum wraps to a
  // value inside the file.
  lemma ReadCountIsMinIff(length: u32, offset: u32, size: u32)
    requires offset <= length
    ensures ReadCount(length, offset, size) == (if size < length - offset then size else length - offset) <==>
            offset + size < WORD || (offset + size) % WORD > length
  {
  }

  // A file of 100 bytes, read from offset 50 with a size that wraps the sum to 40.
  lemma ReadCountCanWrap()
    ensures ReadCount(100, 50, WORD - 10) == WORD - 10
  {
  }

  // initrd_read; file_headers starts four bytes into the image. The buffer is outside the
  // image and does not overlap what is copied.
  method Read(ram: Ram, location: u32, inode: nat, offset: u32, size: u32, buffer: int, ghost files: seq<seq<byte>>) returns (n: nat)
    requires Mounted(ram.cells, location, files) && inode < |files| && |files[inode]| < WORD
    // The sum does not wrap to a value inside the file.
    requires offset <= |files[inode]| ==> offset + size < WORD || (offset + size) % WORD > |files[inode]|
    requires buffer + ReadCount(|files[inode]|, offset, size) <= location || location + Start(files, |files|) <= buffer
    modifies ram
    ensures Mounted(ram.cells, location, files)
    ensures n == ReadCount(|files[inode]|, offset, size)
    ensures offset > |files[inode]| ==> n == 0
    ensures offset <= |files[inode]| ==> n == if size < |files[inode]| - offset then size else |files[inode]| - offset
    ensures n > 0 ==> Span(ram.cells, buffer, n) == files[inode][offset..offset + n]
    ensures SameOutside(old(ram.cells), ram.cells, buffer, buffer + n)
  {
    hide Word;
    ghost var m := ram.cells;
    assert FileMounted(m, location, files, inode);
    var length := Word(ram.cells, RecordAddr(location, inode) + LENGTH_AT);
    var start := Word(ram.cells, RecordAddr(location, inode) + OFFSET_AT);
    if offset > length { return 0; }
    var count := size;
    if (offset + count) % WORD > length {
      count := length - offset;
    }
    StartGrows(files, inode + 1, |files|);
    SubSpan(m, location + Start(files, inode), files[inode], offset, offset + count);
    ram.MemCpy(buffer, start + offset, count);
    StaysMounted(m, ram.cells, location, files, buffer, buffer + count);
    n := count;
  }

  lemma StaysMounted(m: Bytes, m': Bytes, location: int, files: seq<seq<byte>>, lo: int, hi: int)
    requires Mounted(m, location, files) && SameOutside(m, m', lo, hi)
    requires hi <= location || location + Start(files, |files|) <= lo
    ensures Mounted(m', location, files)
  {
    forall i: nat | i < |files| ensures FileMounted(m', location, files, i) {
      assert FileMounted(m, location, files, i);
      StartGrows(files, i + 1, |files|);
      OtherFileKept(m, m', location, files, lo, hi, i);
    }
  }

  function Total(sizes: seq<nat>): nat {
    if sizes == [] then 0 else Total(sizes[..|sizes| - 1]) + sizes[|sizes| - 1]
  }

  // Consecutive reads, split in any way, yield the bytes of the file in order, up to its end.
  method ReadSplit(ram: Ram, location: u32, inode: nat, sizes: seq<nat>, buffer: int, ghost files: seq<seq<byte>>) returns (data: seq<byte>)
    requires Mounted(ram.cells, location, files) && inode < |files| && |files[inode]| < WORD
    requires forall k :: 0 <= k < |sizes| ==> sizes[k] + |files[inode]| < WORD
    requires forall k :: 0 <= k < |sizes| ==> buffer + sizes[k] <= location || location + Start(files, |files|) <= buffer
    modifies ram
    ensures Mounted(ram.cells, location, files)
    ensures data == if Total(sizes) < |files[inode]| then files[inode][..Total(sizes)] else files[inode]
  {
    data := [];
    var offset, k := 0, 0;
    ghost var file := files[inode];
    assert sizes[..0] == [];
    while k < |sizes|
      invariant 0 <= k <= |sizes| && Mounted(ram.cells, location, files)
      invariant offset == (if Total(sizes[..k]) < |file| then Total(sizes[..k]) else |file|) && data == file[..offset]
    {
      assert sizes[..k + 1][..k] == sizes[..k];
      var n := Read(ram, location, inode, offset, sizes[k], buffer, files);
      data := data + Span(ram.cells, buffer, n);
      assert file[..offset] + file[offset..offset + n] == file[..offset + n];
      offset := offset + n;
      k := k + 1;
    }
    assert sizes[..k] == sizes;
  }
}
