/** The abstract state of a MultiValueDictionary: each key present maps to the
    contents of its collection. The functions here say what each mutating
    operation does to that state; the lemmas state what the dictionary promises. */
module MultiMap {
  import opened Wrappers
  import Backing

  /** Key to contents of that key's collection. */
  type Entries<K, V> = map<K, seq<V>>

  /** The contents held for `k`, or nothing when `k` is absent. */
  function Lookup<K, V>(m: Entries<K, V>, k: K): seq<V> {
    if k in m then m[k] else []
  }

  /** `Add(k, v)`: `k` gets a collection if it had none, then `v` is added to it. */
  function AddPair<K, V(==)>(kind: Backing.Kind, m: Entries<K, V>, k: K, v: V): Entries<K, V> {
    m[k := Backing.Add(kind, Lookup(m, k), v)]
  }

  /** `AddRange(k, vs)`: `k` gets a collection if it had none, even when `vs` is
      empty, then every element of `vs` is added in order. */
  function AddRange<K, V(==)>(kind: Backing.Kind, m: Entries<K, V>, k: K, vs: seq<V>): Entries<K, V> {
    m[k := Backing.AddAll(kind, Lookup(m, k), vs)]
  }

  /** `Remove(k, v)`: whether a copy of `v` was removed from `k`'s collection, and
      the new state; a collection left empty takes its key with it. */
  function RemovePair<K, V(==)>(m: Entries<K, V>, k: K, v: V): (bool, Entries<K, V>) {
    if k in m && v in m[k] then
      var rest := Backing.RemoveFirst(m[k], v);
      (true, if rest == [] then m - {k} else m[k := rest])
    else
      (false, m)
  }

  /** `k` is present and its collection holds `v`. */
  predicate HoldsPair<K, V(==)>(m: Entries<K, V>, k: K, v: V) {
    k in m && v in m[k]
  }

  /** Some key's collection holds `v`. */
  ghost predicate HoldsValue<K, V>(m: Entries<K, V>, v: V) {
    exists k :: k in m && v in m[k]
  }

  /** No key is mapped to an empty collection. */
  ghost predicate NoEmpty<K, V>(m: Entries<K, V>) {
    forall k | k in m :: m[k] != []
  }

  /** Every collection obeys the kind of collection it is. */
  ghost predicate AllConsistent<K, V>(kind: Backing.Kind, m: Entries<K, V>) {
    forall k | k in m :: Backing.Consistent(kind, m[k])
  }

  /** The number of key/value pairs: the sum of the collection sizes. */
  ghost function PairsCount<K, V>(m: Entries<K, V>): nat
    decreases |m.Keys|
  {
    if m == map[] then 0
    else
      var k :| k in m;
      |m[k]| + PairsCount(m - {k})
  }

  /** The copy constructor: `AddRange` of every pair in order, into an empty map. */
  function FromPairs<K, V(==)>(kind: Backing.Kind, pairs: seq<(K, seq<V>)>): Entries<K, V>
    decreases |pairs|
  {
    if pairs == [] then map[]
    else
      var last := pairs[|pairs| - 1];
      AddRange(kind, FromPairs(kind, pairs[..|pairs| - 1]), last.0, last.1)
  }

  /** Each further pair is one more `AddRange` on the entries built so far. */
  lemma FromPairsPrefix<K, V>(kind: Backing.Kind, pairs: seq<(K, seq<V>)>, i: nat)
    requires i < |pairs|
    ensures FromPairs(kind, pairs[..i + 1]) == AddRange(kind, FromPairs(kind, pairs[..i]), pairs[i].0, pairs[i].1)
  {
    assert pairs[..i + 1][..i] == pairs[..i];
  }

  /** `_version++` on a C# `int`: wraps from the largest value to the smallest. */
  function Bump(version: Int32): (r: Int32)
    ensures version < 0x7FFF_FFFF ==> r == version + 1
    ensures version == 0x7FFF_FFFF ==> r == -0x8000_0000
  {
    if version == 0x7FFF_FFFF then -0x8000_0000 else version + 1
  }

  /** `n` increments in a row. */
  function BumpN(version: Int32, n: nat): Int32 {
    if n == 0 then version else Bump(BumpN(version, n - 1))
  }

  /** A second update of the same key replaces the first. */
  lemma Reassign<K, V>(m: Entries<K, V>, k: K, s: seq<V>, t: seq<V>)
    ensures m[k := s][k := t] == m[k := t]
  {
  }

  /** Below the wrap-around point, `n` increments add `n`. */
  lemma {:induction false} BumpNAdds(n: nat)
    requires n < 0x8000_0000
    ensures BumpN(0, n) == n
  {
    if n > 0 { BumpNAdds(n - 1); }
  }

  /** The pair count splits into any one key's collection plus all the rest. */
  lemma {:induction false} PairsCountSplit<K, V>(m: Entries<K, V>, k: K)
    requires k in m
    ensures PairsCount(m) == |m[k]| + PairsCount(m - {k})
    decreases |m.Keys|
  {
    var j :| j in m && PairsCount(m) == |m[j]| + PairsCount(m - {j});
    if j != k {
      var mj := m - {j};
      var mk := m - {k};
      PairsCountSplit(mj, k);
      PairsCountSplit(mk, j);
      assert mj - {k} == mk - {j};
    }
  }

  /** Replacing one key's collection changes the pair count by the size difference. */
  lemma PairsCountUpdate<K, V>(m: Entries<K, V>, k: K, s: seq<V>)
    ensures PairsCount(m[k := s]) + |Lookup(m, k)| == PairsCount(m) + |s|
  {
    var u := m[k := s];
    PairsCountSplit(u, k);
    assert u - {k} == m - {k};
    if k in m {
      PairsCountSplit(m, k);
    } else {
      assert m - {k} == m;
    }
  }

  /** `Add(k, v)`: `k` is present afterwards; the key count grows by one exactly
      when `k` was absent; no other key changes; a list-backed key gains `v` at the
      end and one more pair in all; a set-backed key keeps distinct values. */
  lemma AddPairSpec<K, V>(kind: Backing.Kind, m: Entries<K, V>, k: K, v: V)
    requires AllConsistent(kind, m)
    ensures var r := AddPair(kind, m, k, v);
      && HoldsPair(r, k, v)
      && |r.Keys| == (if k in m then |m.Keys| else |m.Keys| + 1)
      && (forall j | j != k :: (j in r <==> j in m) && (j in m ==> r[j] == m[j]))
      && AllConsistent(kind, r)
      && (kind.List? ==> r[k] == Lookup(m, k) + [v] && PairsCount(r) == PairsCount(m) + 1)
  {
    AddPairKeys(kind, m, k, v);
    AddPairValues(kind, m, k, v);
  }

  /** The keys `Add(k, v)` leaves: `k` joins them, and the others keep their collections. */
  lemma AddPairKeys<K, V>(kind: Backing.Kind, m: Entries<K, V>, k: K, v: V)
    ensures var r := AddPair(kind, m, k, v);
      && |r.Keys| == (if k in m then |m.Keys| else |m.Keys| + 1)
      && (forall j | j != k :: (j in r <==> j in m) && (j in m ==> r[j] == m[j]))
  {
    var r := AddPair(kind, m, k, v);
    if k !in m {
      assert r.Keys == m.Keys + {k};
    } else {
      assert r.Keys == m.Keys;
    }
  }

  /** The values `Add(k, v)` leaves: `k`'s collection holds `v` and obeys its kind. */
  lemma AddPairValues<K, V>(kind: Backing.Kind, m: Entries<K, V>, k: K, v: V)
    requires AllConsistent(kind, m)
    ensures var r := AddPair(kind, m, k, v);
      && HoldsPair(r, k, v)
      && AllConsistent(kind, r)
      && (kind.List? ==> r[k] == Lookup(m, k) + [v] && PairsCount(r) == PairsCount(m) + 1)
  {
    var r := AddPair(kind, m, k, v);
    Backing.AddSpec(kind, Lookup(m, k), v);
    PairsCountUpdate(m, k, r[k]);
  }

  /** Adding the same pair to a set-backed map a second time changes nothing, so
      however often it is added the key holds it once. */
  lemma AddPairToSetIdempotent<K, V>(m: Entries<K, V>, k: K, v: V)
    ensures AddPair(Backing.HashSet, AddPair(Backing.HashSet, m, k, v), k, v)
         == AddPair(Backing.HashSet, m, k, v)
    ensures k !in m ==> AddPair(Backing.HashSet, m, k, v)[k] == [v]
  {
    Backing.AddToSetIdempotent(Lookup(m, k), v);
  }

  /** `AddRange(k, vs)`: `k` is present afterwards even when `vs` is empty; the
      earlier values stay and `vs`'s values join them; a list-backed key gains `vs`
      in order at the end and the pair count grows by `|vs|`; no other key changes. */
  lemma AddRangeSpec<K, V>(kind: Backing.Kind, m: Entries<K, V>, k: K, vs: seq<V>)
    requires AllConsistent(kind, m)
    ensures var r := AddRange(kind, m, k, vs);
      && k in r
      && (forall x :: x in r[k] <==> x in Lookup(m, k) || x in vs)
      && (forall j | j != k :: (j in r <==> j in m) && (j in m ==> r[j] == m[j]))
      && AllConsistent(kind, r)
      && (kind.List? ==> r[k] == Lookup(m, k) + vs && PairsCount(r) == PairsCount(m) + |vs|)
  {
    var r := AddRange(kind, m, k, vs);
    Backing.AddAllElements(kind, Lookup(m, k), vs);
    if kind.List? {
      Backing.AddAllToList(Lookup(m, k), vs);
      PairsCountUpdate(m, k, r[k]);
    }
  }

  /** An empty range on an absent key leaves that key mapped to an empty
      collection: the dictionary does not keep every collection non-empty. */
  lemma AddEmptyRangeLeavesEmptyCollection<K, V>(kind: Backing.Kind, k: K)
    ensures AddRange<K, V>(kind, map[], k, []) == map[k := []]
    ensures !NoEmpty(AddRange<K, V>(kind, map[], k, []))
  {
    assert AddRange<K, V>(kind, map[], k, [])[k] == [];
  }

  /** `Remove(k, v)`: reports exactly whether `k` held `v`; a false report changes
      nothing; a true one takes one copy of `v` from `k`'s collection, one pair in
      all, and removes `k` when nothing is left; no other key changes. */
  lemma RemovePairSpec<K, V>(kind: Backing.Kind, m: Entries<K, V>, k: K, v: V)
    requires AllConsistent(kind, m)
    ensures var (removed, r) := RemovePair(m, k, v);
      && (removed <==> HoldsPair(m, k, v))
      && (!removed ==> r == m)
      && (removed ==>
            && multiset(Lookup(r, k)) == multiset(m[k]) - multiset{v}
            && PairsCount(r) == PairsCount(m) - 1
            && (k in r <==> |m[k]| > 1))
      && (forall j | j != k :: (j in r <==> j in m) && (j in m ==> r[j] == m[j]))
      && AllConsistent(kind, r)
  {
    var (removed, r) := RemovePair(m, k, v);
    if removed {
      var rest := Backing.RemoveFirst(m[k], v);
      Backing.RemoveFirstSpec(m[k], v);
      if kind.HashSet? { Backing.RemoveFromSet(m[k], v); }
      PairsCountSplit(m, k);
      if rest == [] {
        assert r == m - {k};
      } else {
        PairsCountUpdate(m, k, rest);
      }
    }
  }

  /** Removing a list's duplicate takes only its first copy: a key holding `v`
      twice still holds it afterwards. */
  lemma RemovePairKeepsSecondCopy<K, V>(m: Entries<K, V>, k: K, v: V)
    requires k in m && multiset(m[k])[v] >= 2
    ensures var (removed, r) := RemovePair(m, k, v);
      removed && HoldsPair(r, k, v)
  {
    assert v in multiset(m[k]);
    Backing.RemoveFirstSpec(m[k], v);
    var rest := Backing.RemoveFirst(m[k], v);
    assert v in multiset(rest);
  }

  /** `Add` and `Remove` keep every collection non-empty when all were. */
  lemma NoEmptyPreserved<K, V>(m: Entries<K, V>, kind: Backing.Kind, k: K, v: V)
    requires NoEmpty(m)
    ensures NoEmpty(AddPair(kind, m, k, v))
    ensures NoEmpty(RemovePair(m, k, v).1)
    ensures NoEmpty(m - {k})
  {
  }

  /** The copy constructor, given pairs with distinct keys (as enumerating a
      dictionary yields), holds exactly those keys, each with a copy of its values. */
  lemma {:induction false} FromDistinctPairs<K, V>(pairs: seq<(K, seq<V>)>)
    requires forall i, j | 0 <= i < j < |pairs| :: pairs[i].0 != pairs[j].0
    ensures var r := FromPairs(Backing.List, pairs);
      && (forall k :: k in r <==> exists i :: 0 <= i < |pairs| && pairs[i].0 == k)
      && (forall i | 0 <= i < |pairs| :: r[pairs[i].0] == pairs[i].1)
    decreases |pairs|
  {
    if pairs != [] {
      var init := pairs[..|pairs| - 1];
      assert forall i | 0 <= i < |init| :: init[i] == pairs[i];
      FromDistinctPairs(init);
      FromDistinctPairsStep(pairs);
    }
  }

  /** One step of the above: the last pair's key is new, so its `AddRange` adds
      exactly that key with a copy of its values. */
  lemma FromDistinctPairsStep<K, V>(pairs: seq<(K, seq<V>)>)
    requires pairs != []
    requires forall i, j | 0 <= i < j < |pairs| :: pairs[i].0 != pairs[j].0
    requires var init := pairs[..|pairs| - 1];
      var prev := FromPairs(Backing.List, init);
      && (forall k :: k in prev <==> exists i :: 0 <= i < |init| && init[i].0 == k)
      && (forall i | 0 <= i < |init| :: prev[init[i].0] == init[i].1)
    ensures var r := FromPairs(Backing.List, pairs);
      && (forall k :: k in r <==> exists i :: 0 <= i < |pairs| && pairs[i].0 == k)
      && (forall i | 0 <= i < |pairs| :: r[pairs[i].0] == pairs[i].1)
  {
    var n := |pairs| - 1;
    var init := pairs[..n];
    var prev := FromPairs(Backing.List, init);
    assert forall i | 0 <= i < |init| :: init[i] == pairs[i];
    assert pairs[n].0 !in prev;
    Backing.AddAllToList([], pairs[n].1);
    var r := FromPairs(Backing.List, pairs);
    assert Lookup(prev, pairs[n].0) == [];
    assert [] + pairs[n].1 == pairs[n].1;
    assert r == prev[pairs[n].0 := pairs[n].1];
    forall k ensures k in r <==> exists i :: 0 <= i < |pairs| && pairs[i].0 == k {
      if k in r && k != pairs[n].0 {
        var i :| 0 <= i < |init| && init[i].0 == k;
        assert pairs[i].0 == k;
      }
    }
  }
}
