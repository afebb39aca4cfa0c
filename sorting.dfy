/**
 * Python's `sorted(xs, key=...)` for the keys the index sorts by: a rank
 * followed by a name, compared as a tuple.
 */
module Sorting {
  import Strings

  /** A sort key `(rank, name)`. */
  datatype RankKey = RankKey(rank: nat, name: string)

  /** Tuple comparison `a < b`. */
  predicate KeyLess(a: RankKey, b: RankKey)
  {
    a.rank < b.rank || (a.rank == b.rank && Strings.Less(a.name, b.name))
  }

  lemma KeyLessTransitive(a: RankKey, b: RankKey, c: RankKey)
    requires KeyLess(a, b) && KeyLess(b, c)
    ensures KeyLess(a, c)
  {
    if a.rank == b.rank == c.rank {
      Strings.LessTransitive(a.name, b.name, c.name);
    }
  }

  lemma KeyLessTotal(a: RankKey, b: RankKey)
    ensures a == b || KeyLess(a, b) || KeyLess(b, a)
  {
    Strings.LessTotal(a.name, b.name);
  }

  lemma KeyLessIrreflexive(a: RankKey)
    ensures !KeyLess(a, a)
  {
    Strings.LessIrreflexive(a.name);
  }

  /** No element is smaller than one before it. */
  ghost predicate Sorted<T>(s: seq<T>, key: T -> RankKey)
  {
    forall i, j :: 0 <= i < j < |s| ==> !KeyLess(key(s[j]), key(s[i]))
  }

  /** Every element is smaller than every one after it. */
  ghost predicate StrictlySorted<T>(s: seq<T>, key: T -> RankKey)
  {
    forall i, j :: 0 <= i < j < |s| ==> KeyLess(key(s[i]), key(s[j]))
  }

  /** Places `x` after every element whose key is not greater, so equal keys keep their order. */
  function Insert<T(==)>(x: T, s: seq<T>, key: T -> RankKey): (r: seq<T>)
    requires Sorted(s, key)
    ensures Sorted(r, key)
    ensures multiset(r) == multiset(s) + multiset{x}
    ensures |r| == |s| + 1
  {
    if s == [] then [x]
    else if KeyLess(key(x), key(s[0])) then
      forall j | 0 <= j < |s| && KeyLess(key(s[j]), key(x)) ensures false {
        KeyLessTransitive(key(s[j]), key(x), key(s[0]));
        if j == 0 { KeyLessIrreflexive(key(s[0])); }
      }
      [x] + s
    else
      var rest := Insert(x, s[1..], key);
      forall j | 0 <= j < |rest| ensures !KeyLess(key(rest[j]), key(s[0])) {
        assert rest[j] in multiset(rest);
        if rest[j] != x { assert rest[j] in s[1..]; }
      }
      assert s == [s[0]] + s[1..];
      [s[0]] + rest
  }

  /** A stable sort by `key`: the same elements, in non-decreasing key order. */
  function SortBy<T(==)>(s: seq<T>, key: T -> RankKey): (r: seq<T>)
    ensures Sorted(r, key)
    ensures multiset(r) == multiset(s)
    ensures |r| == |s|
  {
    if s == [] then []
    else
      assert s == s[..|s| - 1] + [s[|s| - 1]];
      Insert(s[|s| - 1], SortBy(s[..|s| - 1], key), key)
  }

  /** With pairwise different keys, a sorted sequence is strictly increasing. */
  lemma SortedDistinctIsStrict<T>(s: seq<T>, key: T -> RankKey)
    requires Sorted(s, key)
    requires forall i, j :: 0 <= i < j < |s| ==> key(s[i]) != key(s[j])
    ensures StrictlySorted(s, key)
  {
    forall i, j | 0 <= i < j < |s| ensures KeyLess(key(s[i]), key(s[j])) {
      KeyLessTotal(key(s[i]), key(s[j]));
    }
  }

  predicate Distinct<T(==)>(s: seq<T>)
  {
    forall i, j :: 0 <= i < j < |s| ==> s[i] != s[j]
  }

  lemma {:induction false} DistinctCount<T>(s: seq<T>, x: T)
    requires Distinct(s)
    ensures multiset(s)[x] <= 1
    decreases |s|
  {
    if s != [] {
      var init := s[..|s| - 1];
      assert s == init + [s[|s| - 1]];
      DistinctCount(init, x);
      if s[|s| - 1] == x {
        assert x !in init;
      }
    }
  }

  lemma CountTwice<T>(b: seq<T>, i: nat, j: nat)
    requires i < j < |b| && b[i] == b[j]
    ensures multiset(b)[b[i]] >= 2
  {
    assert b == b[..j] + b[j..];
    assert b[i] in b[..j];
    assert multiset(b)[b[i]] == multiset(b[..j])[b[i]] + multiset(b[j..])[b[i]];
  }

  /** A rearrangement of pairwise different elements has pairwise different elements. */
  lemma PermutationKeepsDistinct<T>(a: seq<T>, b: seq<T>)
    requires multiset(a) == multiset(b)
    requires Distinct(a)
    ensures Distinct(b)
  {
    forall i, j | 0 <= i < j < |b| ensures b[i] != b[j] {
      if b[i] == b[j] {
        CountTwice(b, i, j);
        DistinctCount(a, b[i]);
      }
    }
  }
}
