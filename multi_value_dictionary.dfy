/** `MultiValueDictionary<TKey, TValue>`: a dictionary from each key to a
    collection of values, reached through one shared `InnerCollectionView` per key.
    The abstract state is `Contents()`, a `MultiMap.Entries`; every mutating method
    is proved against the matching function of module `MultiMap`. */
module Dictionary {
  import opened Wrappers
  import Backing
  import MultiMap
  import opened InnerView

  class MultiValueDictionary<K(==), V(==)> {
    /** The collection type `_newCollectionFactory` produces for every new key. */
    const kind: Backing.Kind
    /** `_dictionary`: each present key's view. */
    var dict: map<K, InnerCollectionView<K, V>>
    /** `_version`: bumped by mutations to invalidate running enumerations. */
    var version: Int32

    /** Each view belongs to its key, has the dictionary's collection type and
        obeys it, and no view is shared by two keys. */
    ghost predicate Valid()
      reads this`dict, dict.Values
    {
      && (forall k | k in dict :: dict[k].key == k && dict[k].kind == kind && dict[k].Valid())
      && (forall k1, k2 | k1 in dict && k2 in dict && k1 != k2 :: dict[k1] != dict[k2])
    }

    /** The abstract state: each present key and the contents of its collection. */
    ghost function Contents(): MultiMap.Entries<K, V>
      reads this`dict, dict.Values
    {
      map k | k in dict :: dict[k].items
    }

    /** The parameterless constructor: empty, backed by `List<T>`. */
    constructor ()
      ensures Valid() && kind == Backing.List
      ensures dict == map[] && Contents() == map[] && version == 0
    {
      kind := Backing.List;
      dict := map[];
      version := 0;
    }

    /** An empty dictionary whose collection factory produces `kind` collections. */
    constructor WithCollection(kind: Backing.Kind)
      ensures Valid() && this.kind == kind
      ensures dict == map[] && Contents() == map[] && version == 0
    {
      this.kind := kind;
      dict := map[];
      version := 0;
    }

    /** The capacity constructor: a negative capacity throws; otherwise an empty
        `List`-backed dictionary (the capacity is only a sizing hint). */
    static method WithCapacity(capacity: Int32) returns (r: Result<MultiValueDictionary<K, V>>)
      ensures r.Throws? <==> capacity < 0
      ensures r.Throws? ==> r.error == ArgumentOutOfRangeException
      ensures r.Ok? ==> fresh(r.value) && r.value.Valid() && r.value.kind == Backing.List
      ensures r.Ok? ==> r.value.dict == map[] && r.value.version == 0
    {
      if capacity < 0 {
        return Throws(ArgumentOutOfRangeException);
      }
      var d := new MultiValueDictionary();
      r := Ok(d);
    }

    /** The copy constructor: a null source throws; otherwise a fresh `List`-backed
        dictionary filled by one `AddRange` per pair, in order, into fresh views, so
        it shares no collection with the source. */
    static method FromPairs(pairs: Option<seq<(K, seq<V>)>>) returns (r: Result<MultiValueDictionary<K, V>>)
      ensures pairs.None? <==> r.Throws?
      ensures r.Throws? ==> r.error == ArgumentNullException
      ensures r.Ok? ==> fresh(r.value) && r.value.Valid() && r.value.kind == Backing.List
      ensures r.Ok? ==> r.value.Contents() == MultiMap.FromPairs(Backing.List, pairs.value)
      ensures r.Ok? ==> r.value.version == MultiMap.BumpN(0, |pairs.value|)
      ensures r.Ok? ==> forall k | k in r.value.dict :: fresh(r.value.dict[k])
    {
      if pairs.None? {
        return Throws(ArgumentNullException);
      }
      var ps := pairs.value;
      var d := new MultiValueDictionary();
      var i := 0;
      while i < |ps|
        invariant 0 <= i <= |ps|
        invariant fresh(d) && d.Valid() && d.kind == Backing.List
        invariant forall k | k in d.dict :: fresh(d.dict[k])
        invariant d.Contents() == MultiMap.FromPairs(Backing.List, ps[..i])
        invariant d.version == MultiMap.BumpN(0, i)
      {
        MultiMap.FromPairsPrefix(Backing.List, ps, i);
        var _ := d.AddRange(Some(ps[i].0), Some(ps[i].1));
        i := i + 1;
      }
      assert ps[..i] == ps;
      r := Ok(d);
    }

    /** `Count`: the number of keys present (not the number of values). */
    function Count(): (n: nat)
      reads this`dict, dict.Values
      ensures n == |Contents().Keys|
    {
      assert Contents().Keys == dict.Keys;
      |dict|
    }

    /** The indexer: a null key throws `ArgumentNullException`, an absent one
        `KeyNotFoundException`; a present key yields its live view itself. */
    function Item(key: Option<K>): (r: Result<InnerCollectionView<K, V>>)
      reads this`dict, dict.Values
      ensures key.None? ==> r == Throws(ArgumentNullException)
      ensures key.Some? && key.value !in Contents() ==> r == Throws(KeyNotFoundException)
      ensures key.Some? && key.value in Contents() ==>
        r.Ok? && r.value == dict[key.value] && r.value.items == Contents()[key.value]
    {
      if key.None? then Throws(ArgumentNullException)
      else if key.value in dict then Ok(dict[key.value])
      else Throws(KeyNotFoundException)
    }

    /** `TryGetValue`: a null key throws; otherwise reports the key's view when
        present (the same object the indexer yields) and no view when absent. */
    function TryGetValue(key: Option<K>): (r: Result<Option<InnerCollectionView<K, V>>>)
      reads this`dict, dict.Values
      ensures key.None? ==> r == Throws(ArgumentNullException)
      ensures key.Some? ==> r.Ok? && (r.value.Some? <==> key.value in Contents())
      ensures key.Some? && r.value.Some? ==>
        Item(key) == Ok(r.value.value) && r.value.value.items == Contents()[key.value]
    {
      if key.None? then Throws(ArgumentNullException)
      else if key.value in dict then Ok(Some(dict[key.value]))
      else Ok(None)
    }

    /** `ContainsKey`: a null key throws; otherwise whether the key is present. */
    function ContainsKey(key: Option<K>): (r: Result<bool>)
      reads this`dict, dict.Values
      ensures key.None? ==> r == Throws(ArgumentNullException)
      ensures key.Some? ==> r == Ok(key.value in Contents())
    {
      if key.None? then Throws(ArgumentNullException) else Ok(key.value in dict)
    }

    /** `Contains(key, value)`: a null key throws; otherwise whether the key is
        present and its collection holds the value. */
    function Contains(key: Option<K>, value: V): (r: Result<bool>)
      reads this`dict, dict.Values
      ensures key.None? ==> r == Throws(ArgumentNullException)
      ensures key.Some? ==> r == Ok(MultiMap.HoldsPair(Contents(), key.value, value))
    {
      if key.None? then Throws(ArgumentNullException)
      else if key.value in dict then Ok(dict[key.value].Contains(value))
      else Ok(false)
    }

    /** `ContainsValue`: a null value throws (although `Add` accepts one);
        otherwise scans the views until one holds the value. */
    method ContainsValue(value: Option<V>) returns (r: Result<bool>)
      ensures value.None? ==> r == Throws(ArgumentNullException)
      ensures value.Some? ==> r == Ok(MultiMap.HoldsValue(Contents(), value.value))
    {
      if value.None? {
        return Throws(ArgumentNullException);
      }
      var v := value.value;
      var pending := dict.Keys;
      while pending != {}
        invariant pending <= dict.Keys
        invariant forall k | k in dict.Keys - pending :: v !in dict[k].items
        decreases pending
      {
        var k :| k in pending;
        if dict[k].Contains(v) {
          assert k in Contents() && v in Contents()[k];
          return Ok(true);
        }
        pending := pending - {k};
      }
      return Ok(false);
    }

    /** `Add(key, value)`: a null key throws and changes nothing; otherwise a new
        key gets a fresh view, the value is added to the key's collection, every
        view obtained earlier stays the key's view, and the version is bumped. */
    method Add(key: Option<K>, value: V) returns (r: Outcome)
      requires Valid()
      modifies this, dict.Values
      ensures Valid()
      ensures key.None? ==> r == Fails(ArgumentNullException)
      ensures key.None? ==> dict == old(dict) && version == old(version) && Contents() == old(Contents())
      ensures key.Some? ==> r == Done && version == MultiMap.Bump(old(version))
      ensures key.Some? ==> Contents() == MultiMap.AddPair(kind, old(Contents()), key.value, value)
      ensures key.Some? && key.value in old(dict) ==> dict == old(dict)
      ensures key.Some? ==> key.value in dict
      ensures key.Some? && key.value !in old(dict) ==>
        fresh(dict[key.value]) && dict == old(dict)[key.value := dict[key.value]]
    {
      if key.None? {
        return Fails(ArgumentNullException);
      }
      var k := key.value;
      ghost var before := old(Contents());
      var view := GetOrCreate(k);
      ghost var start := view.items;
      assert forall j | j in dict && j != k :: dict[j] != view;
      label Created:
      view.Add(value);
      version := MultiMap.Bump(version);
      OnlyViewChanged@Created(k);
      MultiMap.Reassign(before, k, start, view.items);
      r := Done;
    }

    /** After a change to the items of `k`'s view alone, which keeps that view
        valid, the dictionary is valid and only `k`'s entry has changed. */
    twostate lemma OnlyViewChanged(k: K)
      requires old(Valid()) && k in dict && dict == old(dict)
      requires dict[k].Valid() && dict[k].key == k && dict[k].kind == kind
      requires forall j | j in dict && j != k :: dict[j].items == old(dict[j].items)
      ensures Valid()
      ensures Contents() == old(Contents())[k := dict[k].items]
    {
    }

    /** The shared first step of `Add` and `AddRange`: the key's view, created
        empty and inserted when the key is absent. */
    method GetOrCreate(k: K) returns (view: InnerCollectionView<K, V>)
      requires Valid()
      modifies this
      ensures Valid() && version == old(version) && k in dict && view == dict[k]
      ensures k in old(dict) ==> dict == old(dict)
      ensures k !in old(dict) ==> fresh(view) && dict == old(dict)[k := view]
      ensures Contents() == old(Contents())[k := MultiMap.Lookup(old(Contents()), k)]
      ensures view.items == MultiMap.Lookup(old(Contents()), k)
    {
      if k in dict {
        view := dict[k];
      } else {
        view := new InnerCollectionView(k, kind);
        dict := dict[k := view];
      }
    }

    /** `AddRange(key, values)`: a null key or sequence throws and changes
        nothing; otherwise the key is inserted if absent, even for an empty
        sequence, the values are added in order, and the version is always bumped. */
    method AddRange(key: Option<K>, values: Option<seq<V>>) returns (r: Outcome)
      requires Valid()
      modifies this, dict.Values
      ensures Valid()
      ensures key.None? || values.None? ==> r == Fails(ArgumentNullException)
      ensures key.None? || values.None? ==>
        dict == old(dict) && version == old(version) && Contents() == old(Contents())
      ensures key.Some? && values.Some? ==> r == Done && version == MultiMap.Bump(old(version))
      ensures key.Some? && values.Some? ==>
        Contents() == MultiMap.AddRange(kind, old(Contents()), key.value, values.value)
      ensures key.Some? && values.Some? && key.value in old(dict) ==> dict == old(dict)
      ensures key.Some? && values.Some? ==> key.value in dict
      ensures key.Some? && values.Some? && key.value !in old(dict) ==>
        fresh(dict[key.value]) && dict == old(dict)[key.value := dict[key.value]]
    {
      if key.None? || values.None? {
        return Fails(ArgumentNullException);
      }
      AddValues(key.value, values.value);
      r := Done;
    }

    /** The body of `AddRange` once both arguments are known to be present. */
    method AddValues(k: K, vs: seq<V>)
      requires Valid()
      modifies this, dict.Values
      ensures Valid() && version == MultiMap.Bump(old(version))
      ensures Contents() == MultiMap.AddRange(kind, old(Contents()), k, vs)
      ensures k in dict
      ensures k in old(dict) ==> dict == old(dict)
      ensures k !in old(dict) ==> fresh(dict[k]) && dict == old(dict)[k := dict[k]]
    {
      ghost var before := old(Contents());
      var view := GetOrCreate(k);
      ghost var start := view.items;
      assert forall j | j in dict && j != k :: dict[j] != view;
      label Created:
      AddEach(view, vs);
      version := MultiMap.Bump(version);
      OnlyViewChanged@Created(k);
      MultiMap.Reassign(before, k, start, view.items);
    }

    /** `Remove(key)`: a null key throws; otherwise reports whether the key was
        present, removes it with its whole collection, bumps the version only then,
        and leaves every other key and its view as it was. */
    method RemoveKey(key: Option<K>) returns (r: Result<bool>)
      requires Valid()
      modifies this
      ensures Valid()
      ensures key.None? ==> r == Throws(ArgumentNullException) && dict == old(dict) && version == old(version)
      ensures key.Some? ==> r == Ok(key.value in old(dict))
      ensures key.Some? ==> dict == old(dict) - {key.value}
      ensures key.Some? ==> Contents() == old(Contents()) - {key.value}
      ensures key.Some? ==> version == if key.value in old(dict) then MultiMap.Bump(old(version)) else old(version)
    {
      if key.None? {
        return Throws(ArgumentNullException);
      }
      var k := key.value;
      if k in dict {
        dict := dict - {k};
        version := MultiMap.Bump(version);
        return Ok(true);
      }
      assert dict - {k} == dict;
      return Ok(false);
    }

    /** `Remove(key, value)`: a null key throws; otherwise removes the first copy
        of the value from the key's collection, drops the key when its collection
        becomes empty, and bumps the version only when a copy was removed. */
    method RemovePair(key: Option<K>, value: V) returns (r: Result<bool>)
      requires Valid()
      modifies this, dict.Values
      ensures Valid()
      ensures key.None? ==> r == Throws(ArgumentNullException)
      ensures key.None? ==> dict == old(dict) && version == old(version) && Contents() == old(Contents())
      ensures key.Some? ==>
        var (removed, after) := MultiMap.RemovePair(old(Contents()), key.value, value);
        && r == Ok(removed)
        && Contents() == after
        && version == (if removed then MultiMap.Bump(old(version)) else old(version))
        && dict == (if key.value in after || !removed then old(dict) else old(dict) - {key.value})
    {
      if key.None? {
        return Throws(ArgumentNullException);
      }
      var k := key.value;
      if k in dict {
        var view := dict[k];
        assert forall j | j in dict && j != k :: dict[j] != view;
        label Found:
        var removed := view.Remove(value);
        if removed {
          if view.Count() == 0 {
            dict := dict - {k};
          }
          version := MultiMap.Bump(version);
          if k in dict {
            OnlyViewChanged@Found(k);
          } else {
            KeyDropped@Found(k);
          }
          return Ok(true);
        }
        OnlyViewChanged@Found(k);
      }
      return Ok(false);
    }

    /** After `k` is dropped and no other view changes, the dictionary is valid
        and only `k`'s entry is gone. */
    twostate lemma KeyDropped(k: K)
      requires old(Valid()) && k in old(dict) && dict == old(dict) - {k}
      requires forall j | j in dict :: dict[j].items == old(dict[j].items)
      ensures Valid()
      ensures Contents() == old(Contents()) - {k}
    {
    }

    /** `Clear`: removes every key and bumps the version; views handed out earlier
        keep the values they held. */
    method Clear()
      modifies this
      ensures Valid() && dict == map[] && Contents() == map[] && Count() == 0
      ensures version == MultiMap.Bump(old(version))
    {
      dict := map[];
      version := MultiMap.Bump(version);
    }
  }

  /** The loop of `AddRange`: each value in turn is added to the view. */
  method AddEach<K, V(==)>(view: InnerCollectionView<K, V>, vs: seq<V>)
    requires view.Valid()
    modifies view
    ensures view.Valid()
    ensures view.items == Backing.AddAll(view.kind, old(view.items), vs)
  {
    ghost var start := view.items;
    var i := 0;
    while i < |vs|
      invariant 0 <= i <= |vs|
      invariant view.Valid()
      invariant view.items == Backing.AddAll(view.kind, start, vs[..i])
    {
      Backing.AddAllPrefix(view.kind, start, vs, i);
      view.Add(vs[i]);
      i := i + 1;
    }
    assert vs[..i] == vs;
  }
}
