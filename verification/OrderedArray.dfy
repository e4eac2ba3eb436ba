/** The array that keeps its elements ordered by a caller-supplied less-than test. */
module OrderedArrays {

  /** The first position whose element is not less than `item`. */
  function Place<T>(s: seq<T>, item: T, less: (T, T) -> bool): (p: nat)
    ensures p <= |s|
    ensures forall i :: 0 <= i < p ==> less(s[i], item)
    ensures p < |s| ==> !less(s[p], item)
  {
    if s == [] || !less(s[0], item) then 0 else 1 + Place(s[1..], item, less)
  }

  function Inserted<T>(s: seq<T>, item: T, less: (T, T) -> bool): seq<T> {
    var p := Place(s, item, less);
    s[..p] + [item] + s[p..]
  }

  /** Deletes position `i`; a position past the end deletes the last element instead,
      because only the size is decremented. */
  function Removed<T>(s: seq<T>, i: nat): seq<T>
    requires s != []
  {
    if i < |s| then s[..i] + s[i + 1..] else s[..|s| - 1]
  }

  /** The array has `maxSize` places; one more stands for the word behind it, which the shifting
      loops reach when the array is full. */
  class OrderedArray<T(0)> {
    const maxSize: nat
    var items: array<T>
    var size: nat

    ghost predicate Valid()
      reads this
    {
      size <= items.Length == maxSize + 1
    }

    ghost function Live(): seq<T>
      requires Valid()
      reads this, items
    {
      items[..size]
    }

    constructor PlaceAt(maxSize: nat, zero: T)
      ensures Valid() && Live() == [] && this.maxSize == maxSize && fresh(items)
      ensures forall i :: 0 <= i < maxSize ==> items[i] == zero
    {
      this.maxSize := maxSize;
      items := new T[maxSize + 1](_ => zero);
      size := 0;
    }

    method Lookup(i: nat) returns (item: T)
      requires Valid() && i < size
      ensures item == Live()[i]
    {
      item := items[i];
    }

    /** An insertion into a full array writes the word behind it. */
    method Insert(item: T, less: (T, T) -> bool)
      requires Valid() && size <= maxSize
      modifies this`size, items
      ensures Valid() && items == old(items)
      ensures Live() == Inserted(old(Live()), item, less) && size == old(size) + 1
    {
      ghost var was := Live();
      ghost var p := Place(was, item, less);
      var it := 0;
      while it < size && less(items[it], item)
        invariant it <= p
        invariant size == |was| && items[..size] == was
      {
        assert items[it] == was[it];
        it := it + 1;
      }
      assert it == p;
      if it == size {
        items[size] := item;
        size := size + 1;
      } else {
        Shift(it, item);
        size := size + 1;
      }
    }

    /** Moves the elements from `place` on up by one and puts the item there. */
    method Shift(place: nat, item: T)
      requires Valid() && place < size <= maxSize
      modifies items
      ensures items[..size + 1] == old(items[..place]) + [item] + old(items[place..size])
    {
      ghost var was := items[..size];
      var it := place;
      var tmp := items[it];
      items[it] := item;
      while it < size
        invariant place <= it <= size == |was| < items.Length
        invariant it < size ==> tmp == was[it]
        invariant forall k :: 0 <= k < place ==> items[k] == was[k]
        invariant items[place] == item
        invariant forall k :: place < k <= it ==> items[k] == was[k - 1]
        invariant forall k :: it < k < size ==> items[k] == was[k]
      {
        it := it + 1;
        var tmp2 := items[it];
        items[it] := tmp;
        tmp := tmp2;
      }
      assert old(items[..place]) == was[..place] && old(items[place..size]) == was[place..];
    }

    method Remove(i: nat)
      requires Valid() && 0 < size <= maxSize
      modifies this`size, items
      ensures Valid() && items == old(items)
      ensures Live() == Removed(old(Live()), i) && size == old(size) - 1
    {
      ghost var was := Live();
      var k := i;
      while k < size
        invariant i <= k && size == |was| < items.Length
        invariant i < size ==> k <= size
        invariant forall j :: 0 <= j < i && j < size ==> items[j] == was[j]
        invariant forall j :: i <= j < k && j + 1 < size ==> items[j] == was[j + 1]
        invariant forall j :: k <= j < size ==> items[j] == was[j]
      {
        items[k] := items[k + 1];
        k := k + 1;
      }
      size := size - 1;
      assert i < |was| ==> items[..size] == was[..i] + was[i + 1..];
      assert i >= |was| ==> items[..size] == was[..|was| - 1];
    }
  }

  ghost predicate StrictWeakOrder<T(!new)>(less: (T, T) -> bool) {
    && (forall a, b :: less(a, b) ==> !less(b, a))
    && (forall a, b, c :: !less(a, b) && !less(b, c) ==> !less(a, c))
  }

  ghost predicate Sorted<T>(s: seq<T>, less: (T, T) -> bool) {
    forall i, j :: 0 <= i < j < |s| ==> !less(s[j], s[i])
  }

  /** Insertion keeps the order, adds exactly the item, and puts it before its equals. */
  lemma InsertKeepsSorted<T(!new)>(s: seq<T>, item: T, less: (T, T) -> bool)
    requires StrictWeakOrder(less) && Sorted(s, less)
    ensures Sorted(Inserted(s, item, less), less)
    ensures multiset(Inserted(s, item, less)) == multiset(s) + multiset{item}
    ensures forall i :: 0 <= i < |s| ==> (less(s[i], item) <==> i < Place(s, item, less))
  {
    var p := Place(s, item, less);
    forall j | p <= j < |s|
      ensures !less(s[j], item)
    {
      assert j > p ==> !less(s[j], s[p]);
    }
    InsertMultiset(s, item, less);
    SortedSplice(s, p, item, less);
  }

  lemma SortedSplice<T>(s: seq<T>, p: nat, item: T, less: (T, T) -> bool)
    requires p <= |s| && Sorted(s, less)
    requires forall i :: 0 <= i < p ==> !less(item, s[i])
    requires forall j :: p <= j < |s| ==> !less(s[j], item)
    ensures Sorted(s[..p] + [item] + s[p..], less)
  {
    var r := s[..p] + [item] + s[p..];
    forall i, j | 0 <= i < j < |r|
      ensures !less(r[j], r[i])
    {
      assert i < p ==> r[i] == s[i];
      assert i > p ==> r[i] == s[i - 1];
      assert j < p ==> r[j] == s[j];
      assert j > p ==> r[j] == s[j - 1];
    }
  }

  lemma InsertMultiset<T>(s: seq<T>, item: T, less: (T, T) -> bool)
    ensures multiset(Inserted(s, item, less)) == multiset(s) + multiset{item}
    ensures |Inserted(s, item, less)| == |s| + 1
  {
    var p := Place(s, item, less);
    assert s == s[..p] + s[p..];
  }

  lemma RemoveMultiset<T>(s: seq<T>, i: nat)
    requires i < |s|
    ensures multiset(Removed(s, i)) == multiset(s) - multiset{s[i]}
    ensures |Removed(s, i)| == |s| - 1
  {
    assert s == s[..i] + [s[i]] + s[i + 1..];
  }

  /** Removal keeps the order of what is left, whatever the test. */
  lemma RemoveKeepsSorted<T>(s: seq<T>, i: nat, less: (T, T) -> bool)
    requires s != [] && Sorted(s, less)
    ensures Sorted(Removed(s, i), less)
  {
  }

  /** Removing at the place of an insertion undoes it. */
  lemma InsertThenRemove<T>(s: seq<T>, item: T, less: (T, T) -> bool)
    ensures Removed(Inserted(s, item, less), Place(s, item, less)) == s
  {
    var p := Place(s, item, less);
    var a, b := s[..p], s[p..];
    assert s == a + b;
    assert (a + [item] + b)[..p] == a && (a + [item] + b)[p + 1..] == b;
  }
}
