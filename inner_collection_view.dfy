/** `MultiValueDictionary.InnerCollectionView`: the object through which one key's
    backing collection is reached. The dictionary hands out the view itself, so
    every holder of it sees later changes the dictionary makes through it. */
module InnerView {
  import opened Wrappers
  import Backing

  class InnerCollectionView<K, V(==)> {
    /** The key this collection belongs to; set at construction, never changed. */
    const key: K
    /** The type of the backing collection the factory produced. */
    const kind: Backing.Kind
    /** The contents of the backing collection `_collection`, in enumeration order. */
    var items: seq<V>

    /** The backing collection obeys its kind: a HashSet holds no duplicate. */
    ghost predicate Valid()
      reads this
    {
      Backing.Consistent(kind, items)
    }

    /** Wraps a fresh, empty collection of the given kind for `key`. */
    constructor (key: K, kind: Backing.Kind)
      ensures this.key == key && this.kind == kind
      ensures items == [] && Valid()
    {
      this.key := key;
      this.kind := kind;
      items := [];
    }

    /** `Count`: the number of elements in the backing collection. */
    function Count(): (n: nat)
      reads this
      ensures n == |items|
      ensures n == 0 <==> items == []
    {
      |items|
    }

    /** `IsReadOnly`: a view always reports itself read-only to callers. */
    predicate IsReadOnly()
      ensures IsReadOnly()
    {
      true
    }

    /** `Contains`: some element of the backing collection equals `item`. */
    function Contains(item: V): (r: bool)
      reads this
      ensures r <==> exists i :: 0 <= i < |items| && items[i] == item
    {
      item in items
    }

    /** `Add`: a list appends `item`; a set adds it when it is new. */
    method Add(item: V)
      requires Valid()
      modifies this
      ensures Valid()
      ensures items == Backing.Add(kind, old(items), item)
    {
      Backing.AddSpec(kind, items, item);
      if !(kind.HashSet? && item in items) {
        items := items + [item];
      }
    }

    /** `Remove`: drops the first element equal to `item` and reports whether
        there was one. */
    method Remove(item: V) returns (removed: bool)
      requires Valid()
      modifies this
      ensures Valid()
      ensures removed <==> item in old(items)
      ensures items == Backing.RemoveFirst(old(items), item)
      ensures removed ==> |items| == |old(items)| - 1
      ensures !removed ==> items == old(items)
    {
      var i := 0;
      while i < |items| && items[i] != item
        invariant 0 <= i <= |items|
        invariant item !in items[..i]
      {
        i := i + 1;
      }
      if i == |items| {
        assert items[..i] == items;
        Backing.RemoveFirstSpec(items, item);
        removed := false;
      } else {
        ghost var before := items;
        Backing.RemoveFirstAt(before, item, i);
        Backing.RemoveFirstSpec(before, item);
        if kind.HashSet? {
          Backing.RemoveFromSet(before, item);
        }
        items := items[..i] + items[i + 1..];
        removed := true;
      }
    }

    /** `Clear`: empties the backing collection. */
    method Clear()
      modifies this
      ensures items == [] && Valid()
    {
      items := [];
    }

    /** `CopyTo`: rejects a negative `arrayIndex`, one beyond the array's end and
        a tail too short for the collection, leaving the array as it was;
        otherwise writes the elements in order from `arrayIndex` on and leaves
        every other slot as it was. */
    method CopyTo(target: array<V>, arrayIndex: Int32) returns (r: Outcome)
      modifies target
      ensures r.Fails? <==>
        arrayIndex < 0 || arrayIndex > target.Length || target.Length - arrayIndex < |items|
      ensures r.Fails? ==> r.error == ArgumentOutOfRangeException && target[..] == old(target[..])
      ensures r.Done? ==>
        target[..] == old(target[..arrayIndex]) + items + old(target[arrayIndex + |items|..])
    {
      if arrayIndex < 0 || arrayIndex > target.Length || target.Length - arrayIndex < |items| {
        return Fails(ArgumentOutOfRangeException);
      }
      var n := |items|;
      var i := 0;
      while i < n
        invariant 0 <= i <= n
        invariant forall j | 0 <= j < target.Length ::
          target[j] == if arrayIndex <= j < arrayIndex + i then items[j - arrayIndex] else old(target[j])
      {
        target[arrayIndex + i] := items[i];
        i := i + 1;
      }
      assert target[..] == old(target[..arrayIndex]) + items + old(target[arrayIndex + |items|..]);
      r := Done;
    }
  }
}
