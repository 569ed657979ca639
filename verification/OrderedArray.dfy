/** The insertion-sorted array of sys/ordered_array.c. */
module OrderedArrays {
  import opened Memory

  // What the array's comparison must satisfy: a strict weak order.
  ghost predicate StrictWeak(less: (u32, u32) -> bool) {
    && (forall a, b :: less(a, b) ==> !less(b, a))
    && (forall a, b, c :: !less(a, b) && !less(b, c) ==> !less(a, c))
  }

  ghost predicate Sorted(s: seq<u32>, less: (u32, u32) -> bool) {
    forall i, j :: 0 <= i < j < |s| ==> !less(s[j], s[i])
  }

  ghost predicate Distinct(s: seq<u32>) {
    forall i, j :: 0 <= i < j < |s| ==> s[i] != s[j]
  }

  // The first position whose entry is not less than item.
  function InsertPos(s: seq<u32>, item: u32, less: (u32, u32) -> bool): (p: nat)
    ensures p <= |s|
    ensures forall k :: 0 <= k < p ==> less(s[k], item)
    ensures p < |s| ==> !less(s[p], item)
  {
    if s == [] || !less(s[0], item) then 0 else 1 + InsertPos(s[1..], item, less)
  }

  function Inserted(s: seq<u32>, item: u32, less: (u32, u32) -> bool): (t: seq<u32>)
    ensures |t| == |s| + 1
  {
    var p := InsertPos(s, item, less);
    s[..p] + [item] + s[p..]
  }

  function Without(s: seq<u32>, i: nat): (t: seq<u32>)
    requires i < |s|
    ensures |t| == |s| - 1
  {
    s[..i] + s[i + 1..]
  }

  // The insertion position separates the entries below item from those that are not.
  lemma InsertPosSeparates(s: seq<u32>, item: u32, less: (u32, u32) -> bool)
    requires StrictWeak(less) && Sorted(s, less)
    ensures forall k :: 0 <= k < InsertPos(s, item, less) ==> !less(item, s[k])
    ensures forall k :: InsertPos(s, item, less) <= k < |s| ==> !less(s[k], item)
  {
    var p := InsertPos(s, item, less);
    forall k | p <= k < |s| ensures !less(s[k], item) {
      assert k > p ==> !less(s[k], s[p]);
    }
  }

  lemma InsertedInOrder(s: seq<u32>, item: u32, less: (u32, u32) -> bool)
    requires StrictWeak(less) && Sorted(s, less)
    ensures Sorted(Inserted(s, item, less), less)
  {
    hide StrictWeak, Inserted, InsertPos;
    var t := Inserted(s, item, less);
    InsertPosSeparates(s, item, less);
    forall i, j | 0 <= i < j < |t| ensures !less(t[j], t[i]) {
      InsertedAt(s, item, less, i);
      InsertedAt(s, item, less, j);
    }
  }

  // What an insertion leaves in order was in order.
  lemma OrderFromInserted(s: seq<u32>, item: u32, less: (u32, u32) -> bool)
    requires Sorted(Inserted(s, item, less), less)
    ensures Sorted(s, less)
  {
    hide Inserted, InsertPos;
    var p, t := InsertPos(s, item, less), Inserted(s, item, less);
    forall i, j | 0 <= i < j < |s| ensures !less(s[j], s[i]) {
      var i', j' := if i < p then i else i + 1, if j < p then j else j + 1;
      InsertedAt(s, item, less, i');
      InsertedAt(s, item, less, j');
      assert !less(t[j'], t[i']);
    }
  }

  lemma InsertedMultiset(s: seq<u32>, item: u32, less: (u32, u32) -> bool)
    ensures multiset(Inserted(s, item, less)) == multiset(s) + multiset{item}
  {
    var p := InsertPos(s, item, less);
    assert s == s[..p] + s[p..];
    assert multiset(s[..p] + [item] + s[p..]) == multiset(s[..p]) + multiset{item} + multiset(s[p..]);
  }

  lemma InsertKeepsOrder(s: seq<u32>, item: u32, less: (u32, u32) -> bool)
    requires StrictWeak(less) && Sorted(s, less)
    ensures Sorted(Inserted(s, item, less), less)
    ensures multiset(Inserted(s, item, less)) == multiset(s) + multiset{item}
  {
    hide StrictWeak, Sorted, Inserted;
    InsertedInOrder(s, item, less);
    InsertedMultiset(s, item, less);
  }

  lemma RemoveKeepsOrder(s: seq<u32>, i: nat, less: (u32, u32) -> bool)
    requires i < |s| && Sorted(s, less)
    ensures Sorted(Without(s, i), less)
    ensures multiset(Without(s, i)) + multiset{s[i]} == multiset(s)
  {
    assert s == s[..i] + [s[i]] + s[i + 1..];
  }

  ghost function Position(s: seq<u32>, a: u32): (p: nat)
    requires a in s
    ensures p < |s| && s[p] == a
  {
    var p :| 0 <= p < |s| && s[p] == a;
    p
  }

  // s without its entry a, if it has one.
  ghost function Unlisted(s: seq<u32>, a: int): seq<u32> {
    if a in s then Without(s, Position(s, a)) else s
  }

  lemma InsertedAt(s: seq<u32>, item: u32, less: (u32, u32) -> bool, i: nat)
    requires i <= |s|
    ensures var p := InsertPos(s, item, less);
      Inserted(s, item, less)[i] == if i < p then s[i] else if i == p then item else s[i - 1]
  {
  }

  lemma InsertKeepsDistinct(s: seq<u32>, item: u32, less: (u32, u32) -> bool)
    requires Distinct(s) && item !in s
    ensures Distinct(Inserted(s, item, less))
    ensures forall a :: a in Inserted(s, item, less) <==> a in s || a == item
  {
    hide Inserted, InsertPos;
    var p, t := InsertPos(s, item, less), Inserted(s, item, less);
    forall i, j | 0 <= i < j < |t| ensures t[i] != t[j] {
      InsertedAt(s, item, less, i);
      InsertedAt(s, item, less, j);
    }
    InsertedLists(s, item, less);
  }

  lemma InsertedLists(s: seq<u32>, item: u32, less: (u32, u32) -> bool)
    ensures forall a :: a in Inserted(s, item, less) <==> a in s || a == item
  {
    var p := InsertPos(s, item, less);
    assert s == s[..p] + s[p..];
  }

  lemma RemoveKeepsDistinct(s: seq<u32>, i: nat)
    requires i < |s| && Distinct(s)
    ensures Distinct(Without(s, i))
    ensures forall a :: a in Without(s, i) <==> a in s && a != s[i]
  {
    assert s == s[..i] + [s[i]] + s[i + 1..];
  }

  // Removing what an insertion put in gives the sequence back.
  lemma RemoveUndoesInsert(s: seq<u32>, item: u32, less: (u32, u32) -> bool)
    ensures Without(Inserted(s, item, less), InsertPos(s, item, less)) == s
  {
    var p := InsertPos(s, item, less);
    assert Without(Inserted(s, item, less), p) == s[..p] + s[p..] == s;
  }

  // The order by size, said of a size function.
  ghost predicate SortedOn(s: seq<u32>, size: u32 -> int) {
    forall i, j :: 0 <= i < j < |s| ==> size(s[i]) <= size(s[j])
  }

  // Resizing entry k in place, as the heap does, keeps the order exactly when the entry
  // still fits between its two neighbours.
  lemma ResizeInPlaceKeepsOrderIff(s: seq<u32>, k: nat, size: u32 -> int, size': u32 -> int)
    requires k < |s| && SortedOn(s, size)
    requires forall i :: 0 <= i < |s| && i != k ==> size'(s[i]) == size(s[i])
    ensures SortedOn(s, size') <==> FitsAt(s, k, size, size'(s[k]))
  {
    if FitsAt(s, k, size, size'(s[k])) {
      forall i, j | 0 <= i < j < |s| ensures size'(s[i]) <= size'(s[j]) {
        assert j == k && i < k - 1 ==> size(s[i]) <= size(s[k - 1]);
        assert i == k && k + 1 < j ==> size(s[k + 1]) <= size(s[j]);
      }
    }
    if SortedOn(s, size') {
      assert k > 0 ==> size'(s[k - 1]) <= size'(s[k]);
      assert k + 1 < |s| ==> size'(s[k]) <= size'(s[k + 1]);
    }
  }

  // A size lies between those of the neighbours of entry k.
  predicate FitsAt(s: seq<u32>, k: nat, size: u32 -> int, n: int)
    requires k < |s|
  {
    (k > 0 ==> size(s[k - 1]) <= n) && (k + 1 < |s| ==> n <= size(s[k + 1]))
  }

  class OrderedArray {
    const elems: array<u32>
    var size: nat

    ghost predicate Valid()
      reads this
    {
      size <= elems.Length
    }

    ghost function Contents(): (s: seq<u32>)
      requires Valid()
      reads this, elems
    {
      elems[..size]
    }

    constructor Place(maxSize: nat)
      ensures Valid() && fresh(elems) && elems.Length == maxSize
      ensures Contents() == []
    {
      elems := new u32[maxSize](_ => 0);
      size := 0;
    }

    method Lookup(i: nat) returns (x: u32)
      requires Valid() && i < size
      ensures x == Contents()[i]
    {
      x := elems[i];
    }

    method Insert(item: u32, less: (u32, u32) -> bool)
      requires Valid() && size < elems.Length
      modifies this, elems
      ensures Valid()
      ensures Contents() == Inserted(old(Contents()), item, less)
    {
      ghost var s := Contents();
      var i := 0;
      while i < size && less(elems[i], item)
        invariant i <= size
        invariant forall k :: 0 <= k < i ==> less(s[k], item)
      {
        i := i + 1;
      }
      assert i == InsertPos(s, item, less);
      if i == size {
        elems[size] := item;
        size := size + 1;
      } else {
        ShiftUp(i, item);
        size := size + 1;
        assert elems[..size] == s[..i] + [item] + s[i..];
      }
    }

    // The shifting loop of insert_ordered_array: item goes to position from, and what was
    // there and behind it moves up by one.
    method ShiftUp(from: nat, item: u32)
      requires Valid() && from < size < elems.Length
      modifies elems
      ensures elems[..size + 1] == old(elems[..from]) + [item] + old(elems[from..size])
    {
      ghost var s := elems[..size];
      var i := from;
      var temp := elems[i];
      elems[i] := item;
      while i < size
        invariant from <= i <= size == |s| < elems.Length
        invariant i < size ==> temp == s[i]
        invariant elems[from] == item && forall k :: 0 <= k < from ==> elems[k] == s[k]
        invariant forall k :: from < k <= i ==> elems[k] == s[k - 1]
        invariant forall k :: i < k < size ==> elems[k] == s[k]
      {
        i := i + 1;
        var temp2 := elems[i];
        elems[i] := temp;
        temp := temp2;
      }
    }

    // The shared shifting loop of remove_ordered_array: one entry past the end is read.
    method ShiftDown(from: nat)
      requires Valid() && from < size < elems.Length
      modifies elems
      ensures elems[..size] == old(elems[..from] + elems[from + 1..size + 1])
      ensures elems[size..] == old(elems[size..])
    {
      ghost var raw := elems[..];
      var i := from;
      while i < size
        invariant from <= i <= size
        invariant forall k :: 0 <= k < from ==> elems[k] == raw[k]
        invariant forall k :: from <= k < i ==> elems[k] == raw[k + 1]
        invariant forall k :: i <= k < elems.Length ==> elems[k] == raw[k]
      {
        elems[i] := elems[i + 1];
        i := i + 1;
      }
    }

    // remove_ordered_array with the repair every caller needs: the size goes down by one.
    method Remove(i: nat)
      requires Valid() && i < size < elems.Length
      modifies this, elems
      ensures Valid()
      ensures Contents() == Without(old(Contents()), i)
    {
      ghost var s := Contents();
      ShiftDown(i);
      assert elems[..size - 1] == elems[..size][..size - 1] == s[..i] + s[i + 1..];
      size := size - 1;
    }

    // remove_ordered_array as committed: the size goes up, so the array ends up with two
    // more entries than it should hold, both copies of the stale slot past the old end. An
    // index with an entry twice lists no set of holes.
    method RemoveAsWritten(i: nat)
      requires Valid() && i < size < elems.Length
      modifies this, elems
      ensures Valid() && size == old(size) + 1
      ensures Contents() == Without(old(Contents()), i) + [old(elems[size]), old(elems[size])]
      ensures Contents() != Without(old(Contents()), i) && !Distinct(Contents())
    {
      ghost var stale := elems[size];
      ghost var s := Contents();
      ShiftDown(i);
      assert elems[size] == stale by { assert elems[size..][0] == stale; }
      assert elems[..size] == Without(s, i) + [stale];
      size := size + 1;
      assert elems[..size] == elems[..size - 1] + [stale];
      assert Contents()[size - 2] == Contents()[size - 1];
    }
  }
}
