/** Sequence operations that stand for the table operations of the Python
    code: boolean-mask filtering, `unique()` and sorting by a column. */
module Seqs {

  /** A boolean-mask filter (`df[mask]`): the rows satisfying `p`, in their
      original order. */
  function Filter<T(!new)>(s: seq<T>, p: T -> bool): (r: seq<T>)
    ensures |r| <= |s|
    ensures forall x :: x in r <==> x in s && p(x)
    ensures forall i :: 0 <= i < |r| ==> p(r[i])
  {
    if s == [] then []
    else if p(s[0]) then [s[0]] + Filter(s[1..], p)
    else Filter(s[1..], p)
  }

  /** Filtering distributes over concatenation, so it keeps the relative order
      of the rows it retains. */
  lemma {:induction false} FilterAppend<T(!new)>(s: seq<T>, t: seq<T>, p: T -> bool)
    ensures Filter(s + t, p) == Filter(s, p) + Filter(t, p)
  {
    if s == [] {
      assert s + t == t;
    } else {
      assert (s + t)[1..] == s[1..] + t;
      FilterAppend(s[1..], t, p);
    }
  }

  /** Filtering keeps multiplicities of the retained rows and drops the rest. */
  lemma {:induction false} FilterMultiset<T(!new)>(s: seq<T>, p: T -> bool, x: T)
    ensures multiset(Filter(s, p))[x] == if p(x) then multiset(s)[x] else 0
  {
    if s != [] {
      FilterMultiset(s[1..], p, x);
      assert s == [s[0]] + s[1..];
      assert multiset(s) == multiset{s[0]} + multiset(s[1..]);
      if p(s[0]) {
        assert multiset(Filter(s, p)) == multiset{s[0]} + multiset(Filter(s[1..], p));
      } else {
        assert Filter(s, p) == Filter(s[1..], p);
      }
    }
  }

  /** Filtering twice with the same mask changes nothing. */
  lemma {:induction false} FilterIdempotent<T(!new)>(s: seq<T>, p: T -> bool)
    ensures Filter(Filter(s, p), p) == Filter(s, p)
  {
    if s != [] {
      FilterIdempotent(s[1..], p);
    }
  }

  /** Masks that agree on every row select the same rows. */
  lemma {:induction false} FilterCongruent<T(!new)>(s: seq<T>, p: T -> bool, q: T -> bool)
    requires forall x :: x in s ==> p(x) == q(x)
    ensures Filter(s, p) == Filter(s, q)
  {
    if s != [] {
      FilterCongruent(s[1..], p, q);
    }
  }

  /** A mask that no row satisfies selects nothing. */
  lemma {:induction false} FilterNone<T(!new)>(s: seq<T>, p: T -> bool)
    requires forall x :: x in s ==> !p(x)
    ensures Filter(s, p) == []
  {
    if s != [] {
      assert s[0] in s;
      FilterNone(s[1..], p);
    }
  }

  /** The number of rows satisfying `p` (a boolean column's `sum()`). */
  function Count<T(!new)>(s: seq<T>, p: T -> bool): (n: nat)
    ensures n <= |s|
    ensures n == |Filter(s, p)|
  {
    if s == [] then 0 else (if p(s[0]) then 1 else 0) + Count(s[1..], p)
  }

  predicate NoDuplicates<T(==)>(s: seq<T>) {
    forall i, j :: 0 <= i < j < |s| ==> s[i] != s[j]
  }

  lemma {:induction false} DistinctMultiplicity<T>(s: seq<T>, x: T)
    requires NoDuplicates(s)
    ensures multiset(s)[x] <= 1
  {
    if s != [] {
      assert s == [s[0]] + s[1..];
      assert NoDuplicates(s[1..]);
      DistinctMultiplicity(s[1..], x);
      if x == s[0] {
        assert x !in s[1..];
      }
    }
  }

  /** A permutation of a sequence without duplicates has none either. */
  lemma NoDuplicatesPermutation<T>(s: seq<T>, t: seq<T>)
    requires NoDuplicates(s) && multiset(s) == multiset(t)
    ensures NoDuplicates(t)
  {
    forall i, j | 0 <= i < j < |t| ensures t[i] != t[j] {
      if t[i] == t[j] {
        assert t == t[..i] + [t[i]] + t[i + 1..j] + [t[j]] + t[j + 1..];
        assert multiset(t)[t[i]] >= 2;
        DistinctMultiplicity(s, t[i]);
      }
    }
  }

  /** A permutation has the same elements. */
  lemma PermutationMembership<T>(s: seq<T>, t: seq<T>)
    requires multiset(s) == multiset(t)
    ensures forall x :: x in s <==> x in t
  {
    assert forall x :: x in s <==> x in multiset(s);
    assert forall x :: x in t <==> x in multiset(t);
  }

  /** `unique()`: one copy of every distinct row, first occurrences kept. */
  function Dedup<T(==,!new)>(s: seq<T>): (r: seq<T>)
    ensures NoDuplicates(r)
    ensures forall x :: x in r <==> x in s
    ensures |r| <= |s|
  {
    if s == [] then []
    else
      var rest := Dedup(s[..|s| - 1]);
      assert forall x :: x in s <==> x in s[..|s| - 1] || x == s[|s| - 1] by {
        assert s == s[..|s| - 1] + [s[|s| - 1]];
      }
      if s[|s| - 1] in rest then rest else rest + [s[|s| - 1]]
  }

  /** A sequence without duplicates is left unchanged by `unique()`. */
  lemma {:induction false} DedupOfDistinct<T(!new)>(s: seq<T>)
    requires NoDuplicates(s)
    ensures Dedup(s) == s
  {
    if s != [] {
      var init := s[..|s| - 1];
      assert NoDuplicates(init);
      DedupOfDistinct(init);
      assert s[|s| - 1] !in init;
      assert s == init + [s[|s| - 1]];
    }
  }

  predicate SortedBy<T>(s: seq<T>, key: T -> real) {
    forall i, j :: 0 <= i < j < |s| ==> key(s[i]) <= key(s[j])
  }

  /** Inserts `x` after every element whose key is not greater than its own. */
  function Insert<T>(x: T, s: seq<T>, key: T -> real): (r: seq<T>)
    requires SortedBy(s, key)
    ensures SortedBy(r, key)
    ensures multiset(r) == multiset(s) + multiset{x}
    ensures |r| == |s| + 1
  {
    if s == [] then [x]
    else if key(x) < key(s[0]) then
      assert forall z :: z in s ==> key(x) <= key(z);
      SortedCons(x, s, key);
      [x] + s
    else
      var t := Insert(x, s[1..], key);
      assert s == [s[0]] + s[1..];
      assert forall z :: z in t ==> key(s[0]) <= key(z) by {
        forall z | z in t ensures key(s[0]) <= key(z) {
          assert z in multiset(t);
          assert z == x || z in multiset(s[1..]);
        }
      }
      SortedCons(s[0], t, key);
      [s[0]] + t
  }

  /** An element whose key is not above any key of a sorted sequence can
      start it. */
  lemma SortedCons<T>(y: T, t: seq<T>, key: T -> real)
    requires SortedBy(t, key) && forall z :: z in t ==> key(y) <= key(z)
    ensures SortedBy([y] + t, key)
  {
    var g := [y] + t;
    forall i, j | 0 <= i < j < |g| ensures key(g[i]) <= key(g[j]) {
      assert g[j] == t[j - 1];
      if i > 0 {
        assert g[i] == t[i - 1];
      }
    }
  }

  /** A stable sort by `key`. It stands for `sort('DT_COMPTC')`,
      `sort_index()` and the ordering of `nlargest`/`nsmallest`; where those
      leave the order of equal keys open, the stable order is one of the
      orders they may give. */
  function SortBy<T>(s: seq<T>, key: T -> real): (r: seq<T>)
    ensures SortedBy(r, key)
    ensures multiset(r) == multiset(s)
    ensures |r| == |s|
  {
    if s == [] then []
    else
      assert s == s[..|s| - 1] + [s[|s| - 1]];
      Insert(s[|s| - 1], SortBy(s[..|s| - 1], key), key)
  }

  /** The elements whose key is `v`. */
  function KeyIs<T>(key: T -> real, v: real): T -> bool {
    x => key(x) == v
  }

  /** Filtering a sequence with a new first element. */
  lemma FilterCons<T(!new)>(x: T, s: seq<T>, p: T -> bool)
    ensures Filter([x] + s, p) == (if p(x) then [x] else []) + Filter(s, p)
  {
    assert ([x] + s)[0] == x && ([x] + s)[1..] == s;
  }

  /** Inserting into a sorted sequence puts the new element after the
      elements of equal key. */
  lemma {:induction false} InsertStable<T(!new)>(x: T, s: seq<T>, key: T -> real, v: real)
    requires SortedBy(s, key)
    ensures Filter(Insert(x, s, key), KeyIs(key, v)) ==
      Filter(s, KeyIs(key, v)) + (if key(x) == v then [x] else [])
    decreases |s|
  {
    if s == [] {
      assert Insert(x, s, key) == [x];
      FilterCons(x, [], KeyIs(key, v));
    } else if key(x) < key(s[0]) {
      assert Insert(x, s, key) == [x] + s;
      InsertFront(x, s, key, v);
    } else {
      SortedTail(s, key);
      InsertStable(x, s[1..], key, v);
      InsertLater(x, s, key, v);
    }
  }

  /** The tail of a sorted sequence is sorted. */
  lemma SortedTail<T>(s: seq<T>, key: T -> real)
    requires SortedBy(s, key) && s != []
    ensures SortedBy(s[1..], key)
  {
    forall i, j | 0 <= i < j < |s| - 1 ensures key(s[1..][i]) <= key(s[1..][j]) {
      assert s[1..][i] == s[i + 1] && s[1..][j] == s[j + 1];
    }
  }

  /** An element inserted past the head of a sorted sequence: the head is
      filtered first and the rest as for the tail. */
  lemma InsertLater<T(!new)>(x: T, s: seq<T>, key: T -> real, v: real)
    requires SortedBy(s, key) && s != [] && key(s[0]) <= key(x)
    requires SortedBy(s[1..], key)
    requires Filter(Insert(x, s[1..], key), KeyIs(key, v)) ==
      Filter(s[1..], KeyIs(key, v)) + (if key(x) == v then [x] else [])
    ensures Filter(Insert(x, s, key), KeyIs(key, v)) ==
      Filter(s, KeyIs(key, v)) + (if key(x) == v then [x] else [])
  {
    var k := KeyIs(key, v);
    var t := Insert(x, s[1..], key);
    var tail := if key(x) == v then [x] else [];
    assert Insert(x, s, key) == [s[0]] + t;
    FilterCons(s[0], t, k);
    FilterHead(s, k);
    var head := if k(s[0]) then [s[0]] else [];
    ConcatAssoc(head, Filter(s[1..], k), tail);
  }

  /** Concatenation is associative. */
  lemma ConcatAssoc<T>(a: seq<T>, b: seq<T>, c: seq<T>)
    ensures a + (b + c) == (a + b) + c
  {
  }

  /** Filtering a non-empty sequence filters its head, then its tail. */
  lemma FilterHead<T(!new)>(s: seq<T>, p: T -> bool)
    requires s != []
    ensures Filter(s, p) == (if p(s[0]) then [s[0]] else []) + Filter(s[1..], p)
  {
  }

  /** An element placed before a sorted sequence of larger keys comes after
      the (no) elements of its own key. */
  lemma InsertFront<T(!new)>(x: T, s: seq<T>, key: T -> real, v: real)
    requires SortedBy(s, key) && s != [] && key(x) < key(s[0])
    ensures Filter([x] + s, KeyIs(key, v)) ==
      Filter(s, KeyIs(key, v)) + (if key(x) == v then [x] else [])
  {
    var k := KeyIs(key, v);
    FilterCons(x, s, k);
    if key(x) == v {
      forall z | z in s ensures !k(z) {
        var i :| 0 <= i < |s| && s[i] == z;
        assert key(s[0]) <= key(s[i]);
      }
      FilterNone(s, k);
      assert Filter(s, k) + [x] == [x];
    } else {
      assert Filter(s, k) + [] == Filter(s, k);
    }
  }

  /** The sort is stable: the elements of one key keep their order. */
  lemma {:induction false} SortByStable<T(!new)>(s: seq<T>, key: T -> real, v: real)
    ensures Filter(SortBy(s, key), KeyIs(key, v)) == Filter(s, KeyIs(key, v))
    decreases |s|
  {
    if s != [] {
      var init, last := s[..|s| - 1], s[|s| - 1];
      SortByStable(init, key, v);
      SortByLast(s, key, v);
    }
  }

  /** One step of the sort: inserting the last element keeps the order of
      each key when sorting the others did. */
  lemma SortByLast<T(!new)>(s: seq<T>, key: T -> real, v: real)
    requires s != []
    requires Filter(SortBy(s[..|s| - 1], key), KeyIs(key, v)) == Filter(s[..|s| - 1], KeyIs(key, v))
    ensures Filter(SortBy(s, key), KeyIs(key, v)) == Filter(s, KeyIs(key, v))
  {
    var k := KeyIs(key, v);
    var init, last := s[..|s| - 1], s[|s| - 1];
    var sorted := SortBy(init, key);
    assert SortBy(s, key) == Insert(last, sorted, key);
    InsertStable(last, sorted, key, v);
    FilterLast(s, k);
  }

  /** Filtering a non-empty sequence filters all but its last element, then
      the last. */
  lemma FilterLast<T(!new)>(s: seq<T>, p: T -> bool)
    requires s != []
    ensures Filter(s, p) == Filter(s[..|s| - 1], p) + (if p(s[|s| - 1]) then [s[|s| - 1]] else [])
  {
    var init, last := s[..|s| - 1], s[|s| - 1];
    assert s == init + [last];
    FilterAppend(init, [last], p);
    FilterCons(last, [], p);
    assert [last] + [] == [last];
  }

  /** The filter of a prefix is a prefix of the filter. */
  lemma FilterPrefix<T(!new)>(s: seq<T>, m: nat, p: T -> bool)
    requires m <= |s|
    ensures |Filter(s[..m], p)| <= |Filter(s, p)|
    ensures Filter(s[..m], p) == Filter(s, p)[..|Filter(s[..m], p)|]
  {
    assert s == s[..m] + s[m..];
    FilterAppend(s[..m], s[m..], p);
  }

  /** Filtering by a narrower mask after a wider one is filtering by the
      narrower one. */
  lemma {:induction false} FilterNarrows<T(!new)>(s: seq<T>, p: T -> bool, q: T -> bool)
    requires forall x :: x in s && q(x) ==> p(x)
    ensures Filter(Filter(s, p), q) == Filter(s, q)
  {
    if s != [] {
      FilterNarrows(s[1..], p, q);
    }
  }

  /** A mask and its complement split a sequence's elements. */
  lemma {:induction false} FilterSplit<T(!new)>(s: seq<T>, p: T -> bool, q: T -> bool)
    requires forall x :: x in s ==> q(x) == !p(x)
    ensures multiset(Filter(s, p)) + multiset(Filter(s, q)) == multiset(s)
    ensures |Filter(s, p)| + |Filter(s, q)| == |s|
  {
    if s != [] {
      FilterSplit(s[1..], p, q);
      assert s == [s[0]] + s[1..];
    }
  }

  /** The first `n` elements, or all of them when there are fewer. */
  function Take<T>(s: seq<T>, n: nat): (r: seq<T>)
    ensures |r| == if n < |s| then n else |s|
    ensures r == s[..|r|]
  {
    if n < |s| then s[..n] else s
  }

  function Reverse<T>(s: seq<T>): (r: seq<T>)
    ensures |r| == |s|
    ensures forall i :: 0 <= i < |s| ==> r[i] == s[|s| - 1 - i]
  {
    if s == [] then [] else Reverse(s[1..]) + [s[0]]
  }

  function Map<T, U>(s: seq<T>, f: T -> U): (r: seq<U>)
    ensures |r| == |s|
    ensures forall i :: 0 <= i < |s| ==> r[i] == f(s[i])
  {
    seq(|s|, i requires 0 <= i < |s| => f(s[i]))
  }

  /** Mapping distributes over concatenation. */
  lemma MapAppend<T, U>(s: seq<T>, t: seq<T>, f: T -> U)
    ensures Map(s + t, f) == Map(s, f) + Map(t, f)
  {
    assert forall i :: 0 <= i < |s + t| ==> Map(s + t, f)[i] == (Map(s, f) + Map(t, f))[i];
  }

  /** The mapped sequence holds exactly the images of the elements. */
  lemma MapMembership<T, U>(s: seq<T>, f: T -> U, y: U)
    ensures y in Map(s, f) <==> exists x :: x in s && y == f(x)
  {
    if y in Map(s, f) {
      var i :| 0 <= i < |s| && Map(s, f)[i] == y;
      assert s[i] in s;
    }
    if exists x :: x in s && y == f(x) {
      var x :| x in s && y == f(x);
      var i :| 0 <= i < |s| && s[i] == x;
      assert Map(s, f)[i] == y;
    }
  }
}
