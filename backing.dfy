/** The two backing collections a MultiValueDictionary is used with: an ordered
    `List<T>` that keeps duplicates, and a `HashSet<T>` whose `Add` is idempotent.
    A collection's contents are a sequence; a HashSet's sequence never holds a
    value twice. */
module Backing {

  /** Which collection type the dictionary's collection factory produces. */
  datatype Kind = List | HashSet

  /** No element occurs twice. */
  predicate NoDup<T(==)>(s: seq<T>) {
    forall i, j | 0 <= i < j < |s| :: s[i] != s[j]
  }

  /** `ICollection<T>.Add`: a list appends, a set appends only a new element. */
  function Add<T(==)>(kind: Kind, s: seq<T>, x: T): seq<T> {
    if kind.HashSet? && x in s then s else s + [x]
  }

  /** `Add` applied to every element of `xs`, in order. */
  function AddAll<T(==)>(kind: Kind, s: seq<T>, xs: seq<T>): seq<T>
    decreases |xs|
  {
    if xs == [] then s else AddAll(kind, Add(kind, s, xs[0]), xs[1..])
  }

  /** `ICollection<T>.Remove` on the contents: drop the first element equal to `x`. */
  function RemoveFirst<T(==)>(s: seq<T>, x: T): seq<T> {
    if s == [] then []
    else if s[0] == x then s[1..]
    else [s[0]] + RemoveFirst(s[1..], x)
  }

  /** The sequence holding `x` exactly `n` times. */
  function Repeat<T>(x: T, n: nat): (r: seq<T>)
    ensures |r| == n && forall i | 0 <= i < n :: r[i] == x
  {
    seq(n, _ => x)
  }

  /** The contents every collection kind keeps: the set kind never holds a duplicate. */
  predicate Consistent<T(==)>(kind: Kind, s: seq<T>) {
    kind.HashSet? ==> NoDup(s)
  }

  /** Adding one element: it is present afterwards and nothing else is added; a list
      grows by exactly that element at its end; a set keeps its elements distinct
      and already holds `x` if it grows by nothing. */
  lemma AddSpec<T>(kind: Kind, s: seq<T>, x: T)
    requires Consistent(kind, s)
    ensures var r := Add(kind, s, x);
      && Consistent(kind, r)
      && (forall y :: y in r <==> y in s || y == x)
      && (kind.List? ==> r == s + [x] && multiset(r) == multiset(s) + multiset{x})
      && (kind.HashSet? ==> |r| == if x in s then |s| else |s| + 1)
  {
    var r := Add(kind, s, x);
    if kind.HashSet? && x !in s {
      forall i, j | 0 <= i < j < |r| ensures r[i] != r[j] {
        if j == |s| { assert r[i] == s[i]; }
      }
    }
  }

  /** Adding to a set twice is adding once. */
  lemma AddToSetIdempotent<T>(s: seq<T>, x: T)
    ensures Add(HashSet, Add(HashSet, s, x), x) == Add(HashSet, s, x)
  {
    assert x in Add(HashSet, s, x);
  }

  /** A list appends the whole range, in order. */
  lemma {:induction false} AddAllToList<T>(s: seq<T>, xs: seq<T>)
    ensures AddAll(List, s, xs) == s + xs
    decreases |xs|
  {
    if xs != [] {
      AddAllToList(s + [xs[0]], xs[1..]);
      assert s + [xs[0]] + xs[1..] == s + xs;
    }
  }

  /** Adding a range one element more is adding that element afterwards. */
  lemma {:induction false} AddAllSnoc<T>(kind: Kind, s: seq<T>, xs: seq<T>, x: T)
    ensures AddAll(kind, s, xs + [x]) == Add(kind, AddAll(kind, s, xs), x)
    decreases |xs|
  {
    if xs == [] {
      assert xs + [x] == [x];
    } else {
      assert (xs + [x])[0] == xs[0] && (xs + [x])[1..] == xs[1..] + [x];
      AddAllSnoc(kind, Add(kind, s, xs[0]), xs[1..], x);
    }
  }

  /** The same step for a growing prefix of a range. */
  lemma AddAllPrefix<T>(kind: Kind, s: seq<T>, xs: seq<T>, i: nat)
    requires i < |xs|
    ensures AddAll(kind, s, xs[..i + 1]) == Add(kind, AddAll(kind, s, xs[..i]), xs[i])
  {
    assert xs[..i + 1] == xs[..i] + [xs[i]];
    AddAllSnoc(kind, s, xs[..i], xs[i]);
  }

  /** Whatever the kind, a range add holds exactly the old elements and the range's,
      and keeps the collection consistent with its kind. */
  lemma {:induction false} AddAllElements<T>(kind: Kind, s: seq<T>, xs: seq<T>)
    requires Consistent(kind, s)
    ensures Consistent(kind, AddAll(kind, s, xs))
    ensures forall y :: y in AddAll(kind, s, xs) <==> y in s || y in xs
    decreases |xs|
  {
    if xs != [] {
      AddSpec(kind, s, xs[0]);
      AddAllElements(kind, Add(kind, s, xs[0]), xs[1..]);
      assert forall y :: y in xs <==> y == xs[0] || y in xs[1..];
    }
  }

  /** Adding the same value `n` times: a list grows by `n`, an empty set ends up
      holding that value once. */
  lemma AddRepeated<T>(kind: Kind, x: T, n: nat)
    ensures kind.List? ==> AddAll(kind, [], Repeat(x, n)) == Repeat(x, n)
    ensures kind.HashSet? && n > 0 ==> AddAll(kind, [], Repeat(x, n)) == [x]
  {
    if kind.List? {
      AddAllToList([], Repeat(x, n));
    } else if n > 0 {
      var r := Repeat(x, n);
      assert r[0] == x && r[1..] == Repeat(x, n - 1);
      assert Add(HashSet, [], x) == [x];
      assert AddAll(HashSet, [], r) == AddAll(HashSet, [x], r[1..]);
      AddRepeatedToSet(x, [x], n - 1);
    }
  }

  /** Helper for `AddRepeated`: once a set holds `x`, adding `x` again changes nothing. */
  lemma {:induction false} AddRepeatedToSet<T>(x: T, s: seq<T>, n: nat)
    requires x in s
    ensures AddAll(HashSet, s, Repeat(x, n)) == s
    decreases n
  {
    if n > 0 {
      assert Repeat(x, n)[1..] == Repeat(x, n - 1);
      AddRepeatedToSet(x, s, n - 1);
    }
  }

  /** Removing: the result is the contents with one copy of `x` fewer when `x` was
      there, and the unchanged contents otherwise. */
  lemma {:induction false} RemoveFirstSpec<T>(s: seq<T>, x: T)
    ensures multiset(RemoveFirst(s, x)) == multiset(s) - multiset{x}
    ensures x in s ==> |RemoveFirst(s, x)| == |s| - 1
    ensures x !in s ==> RemoveFirst(s, x) == s
  {
    if s != [] {
      assert s == [s[0]] + s[1..];
      if s[0] != x {
        RemoveFirstSpec(s[1..], x);
      }
    }
  }

  /** Removing when `i` is the first position of `x`: exactly that position goes. */
  lemma {:induction false} RemoveFirstAt<T>(s: seq<T>, x: T, i: nat)
    requires i < |s| && s[i] == x && x !in s[..i]
    ensures RemoveFirst(s, x) == s[..i] + s[i + 1..]
  {
    if i > 0 {
      assert s[1..][..i - 1] == s[1..i];
      assert x !in s[1..][..i - 1];
      RemoveFirstAt(s[1..], x, i - 1);
      assert s[..i] == [s[0]] + s[1..][..i - 1];
    }
  }

  /** Removing from a set: `x` is gone, every other element stays, and the contents
      stay duplicate-free. */
  lemma RemoveFromSet<T>(s: seq<T>, x: T)
    requires NoDup(s)
    ensures NoDup(RemoveFirst(s, x))
    ensures forall y :: y in RemoveFirst(s, x) <==> y in s && y != x
  {
    RemoveFirstSpec(s, x);
    var r := RemoveFirst(s, x);
    forall y ensures y in r <==> y in s && y != x {
      assert y in r <==> y in multiset(r);
      assert y in s <==> y in multiset(s);
      if y == x && x in s { DistinctOnce(s, x); }
    }
    forall i, j | 0 <= i < j < |r| ensures r[i] != r[j] {
      if r[i] == r[j] {
        assert multiset(r)[r[i]] >= 2 by { TwiceInMultiset(r, i, j); }
        DistinctOnce(s, r[i]);
        assert false;
      }
    }
  }

  /** In a duplicate-free sequence, every element occurs at most once. */
  lemma {:induction false} DistinctOnce<T>(s: seq<T>, x: T)
    requires NoDup(s)
    ensures multiset(s)[x] <= 1
  {
    if s != [] {
      assert s == [s[0]] + s[1..];
      DistinctOnce(s[1..], x);
      if s[0] == x {
        assert x !in s[1..];
      }
    }
  }

  /** An element found at two positions occurs at least twice. */
  lemma {:induction false} TwiceInMultiset<T>(s: seq<T>, i: nat, j: nat)
    requires i < j < |s| && s[i] == s[j]
    ensures multiset(s)[s[i]] >= 2
  {
    assert s == s[..j] + [s[j]] + s[j + 1..];
    assert s[i] in s[..j];
  }
}
