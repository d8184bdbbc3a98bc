/** src/ordered_array.c: a fixed-capacity array of pointers kept sorted by a caller-supplied
    comparison. Pointers are addresses; the comparison is passed at each call because the
    kernel heap's callback reads sizes out of memory that changes between calls. */
module OrderedArrays {

  type Less = (int, int) -> bool

  /** Position of the first entry that does not sort before `item`. */
  function Rank(s: seq<int>, item: int, less: Less): (p: nat)
    ensures p <= |s|
    ensures forall k :: 0 <= k < p ==> less(s[k], item)
    ensures p < |s| ==> !less(s[p], item)
  {
    if s == [] || !less(s[0], item) then 0 else
      var p := Rank(s[1..], item, less);
      1 + p
  }

  function Inserted(s: seq<int>, item: int, less: Less): seq<int> {
    var p := Rank(s, item, less);
    s[..p] + [item] + s[p..]
  }

  function Removed(s: seq<int>, i: nat): seq<int>
    requires i < |s|
  {
    s[..i] + s[i + 1..]
  }

  /** The comparison orders items by a numeric key, as the heap's orders holes by size. */
  ghost predicate ByKey(less: Less, key: int -> int) {
    forall a, b :: less(a, b) <==> key(a) < key(b)
  }

  ghost predicate Sorted(s: seq<int>, key: int -> int) {
    forall i, j :: 0 <= i < j < |s| ==> key(s[i]) <= key(s[j])
  }

  lemma InsertedSorted(s: seq<int>, item: int, less: Less, key: int -> int)
    requires Sorted(s, key) && ByKey(less, key)
    ensures Sorted(Inserted(s, item, less), key)
  {
    var p := Rank(s, item, less);
    var r := Inserted(s, item, less);
    forall i, j | 0 <= i < j < |r| ensures key(r[i]) <= key(r[j]) {
      if i < p <= j {
        var x := s[i];
        assert less(x, item) && r[i] == x;
        if j > p {
          var y := s[p];
          assert !less(y, item) && key(y) <= key(s[j - 1]);
        }
      } else if i == p {
        var y := s[p];
        assert !less(y, item) && key(y) <= key(s[j - 1]);
      }
    }
  }

  lemma InsertedContents(s: seq<int>, item: int, less: Less)
    ensures multiset(Inserted(s, item, less)) == multiset(s) + multiset{item}
  {
    var p := Rank(s, item, less);
    assert s == s[..p] + s[p..];
  }

  lemma RemovedSorted(s: seq<int>, i: nat, key: int -> int)
    requires i < |s| && Sorted(s, key)
    ensures Sorted(Removed(s, i), key)
  {
  }

  lemma RemovedContents(s: seq<int>, i: nat)
    requires i < |s|
    ensures multiset(s) == multiset(Removed(s, i)) + multiset{s[i]}
  {
    assert s == s[..i] + [s[i]] + s[i + 1..];
  }

  class OrderedArray {
    const data: array<int>
    var size: nat

    ghost predicate Valid()
      reads this
    {
      size <= data.Length
    }

    function Contents(): (s: seq<int>)
      requires Valid()
      reads this, data
      ensures |s| == size
    {
      data[..size]
    }

    /** `place_ordered_array`: zeroed storage for `capacity` pointers. */
    constructor (capacity: nat)
      ensures Valid() && fresh(data) && data.Length == capacity && Contents() == []
    {
      data := new int[capacity](_ => 0);
      size := 0;
    }

    method Insert(item: int, less: Less)
      requires Valid() && size < data.Length
      modifies this`size, data
      ensures Valid() && Contents() == Inserted(old(Contents()), item, less)
    {
      hide Rank;
      var slot := FindSlot(item, less);
      ShiftUp(slot);
      ghost var left, right := data[..slot], data[slot + 1..size + 1];
      data[slot] := item;
      size := size + 1;
      assert data[..slot] == left && data[slot + 1..size] == right;
      assert data[..size] == left + [item] + right;
    }

    /** Scan for the first entry that does not sort before the new item. */
    method FindSlot(item: int, less: Less) returns (slot: nat)
      requires Valid()
      ensures slot == Rank(Contents(), item, less)
    {
      slot := 0;
      while slot < size && less(data[slot], item)
        invariant slot <= size && slot <= Rank(Contents(), item, less)
      {
        RankPast(Contents(), item, less, slot);
        slot := slot + 1;
      }
    }

    /** Make room at `slot` by moving every later entry one place on. */
    method ShiftUp(slot: nat)
      requires Valid() && slot <= size < data.Length
      modifies data
      ensures data[..slot] == old(Contents())[..slot] && data[slot + 1..size + 1] == old(Contents())[slot..]
    {
      ghost var was := data[..size];
      var destination := size;
      while destination > slot
        invariant slot <= destination <= size
        invariant forall k :: 0 <= k < destination ==> data[k] == was[k]
        invariant forall k :: destination < k <= size ==> data[k] == was[k - 1]
      {
        data[destination] := data[destination - 1];
        destination := destination - 1;
      }
    }

    method Lookup(i: nat) returns (item: int)
      requires Valid() && i < size
      ensures item == Contents()[i]
    {
      item := data[i];
    }

    method Remove(i: nat)
      requires Valid() && i < size
      modifies this`size, data
      ensures Valid() && Contents() == Removed(old(Contents()), i)
    {
      ghost var was := Contents();
      var k := i;
      while k + 1 < size
        invariant i <= k < size == |was|
        invariant forall j :: 0 <= j < i ==> data[j] == was[j]
        invariant forall j :: i <= j < k ==> data[j] == was[j + 1]
        invariant forall j :: k <= j < size ==> data[j] == was[j]
      {
        data[k] := data[k + 1];
        k := k + 1;
      }
      size := size - 1;
      data[size] := 0;
    }
  }

  /** The insertion scan moves past an entry only when `Rank` does too. */
  lemma RankPast(s: seq<int>, item: int, less: Less, p: nat)
    requires p < |s| && p <= Rank(s, item, less) && less(s[p], item)
    ensures p < Rank(s, item, less)
  {
  }
}
