/** Facts about sequences used throughout: distinctness, and Python's `sorted` on integers. */
module Seqs {

  predicate Distinct<T(==)>(s: seq<T>) {
    forall i, j :: 0 <= i < j < |s| ==> s[i] != s[j]
  }

  predicate SortedAsc(s: seq<nat>) {
    forall i, j :: 0 <= i < j < |s| ==> s[i] <= s[j]
  }

  /** Inserts `x` into the sorted sequence `s` at its place. */
  function Insert(x: nat, s: seq<nat>): (r: seq<nat>)
    requires SortedAsc(s)
    ensures SortedAsc(r)
    ensures multiset(r) == multiset(s) + multiset{x}
    decreases |s|
  {
    if s == [] then [x]
    else if x <= s[0] then
      InsertFront(x, s);
      [x] + s
    else
      var rest := Insert(x, s[1..]);
      InsertBelow(x, s, rest);
      [s[0]] + rest
  }

  lemma InsertFront(x: nat, s: seq<nat>)
    requires SortedAsc(s) && s != [] && x <= s[0]
    ensures SortedAsc([x] + s)
  {
    forall i, j | 0 <= i < j < |[x] + s|
      ensures ([x] + s)[i] <= ([x] + s)[j]
    {
      if i == 0 {
        assert ([x] + s)[j] == s[j - 1] >= s[0];
      } else {
        assert ([x] + s)[i] == s[i - 1] && ([x] + s)[j] == s[j - 1];
      }
    }
  }

  lemma InsertBelow(x: nat, s: seq<nat>, rest: seq<nat>)
    requires SortedAsc(s) && s != [] && s[0] < x
    requires SortedAsc(rest)
    requires multiset(rest) == multiset(s[1..]) + multiset{x}
    ensures SortedAsc([s[0]] + rest)
    ensures multiset([s[0]] + rest) == multiset(s) + multiset{x}
  {
    assert s == [s[0]] + s[1..];
    forall y | y in rest
      ensures s[0] <= y
    {
      assert y in multiset(rest);
      if y != x {
        assert y in multiset(s[1..]);
        var k :| 0 <= k < |s[1..]| && s[1..][k] == y;
        assert s[k + 1] == y;
      }
    }
    forall i, j | 0 <= i < j < |[s[0]] + rest|
      ensures ([s[0]] + rest)[i] <= ([s[0]] + rest)[j]
    {
      if i == 0 {
        assert ([s[0]] + rest)[j] == rest[j - 1];
        assert rest[j - 1] in rest;
      } else {
        assert ([s[0]] + rest)[i] == rest[i - 1] && ([s[0]] + rest)[j] == rest[j - 1];
      }
    }
  }

  /** Python's `sorted` on a list of integers: the ascending permutation of `s`. */
  function Sort(s: seq<nat>): (r: seq<nat>)
    ensures SortedAsc(r)
    ensures multiset(r) == multiset(s)
    decreases |s|
  {
    if s == [] then []
    else
      assert s == [s[0]] + s[1..];
      Insert(s[0], Sort(s[1..]))
  }

  /** There is only one ascending arrangement of a multiset, so `sorted` depends on nothing else. */
  lemma {:induction false} SortedUnique(a: seq<nat>, b: seq<nat>)
    requires SortedAsc(a) && SortedAsc(b)
    requires multiset(a) == multiset(b)
    ensures a == b
    decreases |a|
  {
    if a == [] {
      assert |multiset(b)| == 0;
    } else {
      SortedUniqueStep(a, b);
      SortedUnique(a[1..], b[1..]);
      SeqHeadTail(a);
      SeqHeadTail(b);
    }
  }

  lemma SortedUniqueStep(a: seq<nat>, b: seq<nat>)
    requires SortedAsc(a) && SortedAsc(b) && a != []
    requires multiset(a) == multiset(b)
    ensures b != [] && a[0] == b[0]
    ensures SortedAsc(a[1..]) && SortedAsc(b[1..])
    ensures multiset(a[1..]) == multiset(b[1..])
  {
    assert a[0] in multiset(a);
    assert b != [];
    assert b[0] in multiset(b);
    SortedHeadIsLeast(a, b[0]);
    SortedHeadIsLeast(b, a[0]);
    MultisetTail(a);
    MultisetTail(b);
    SortedTail(a);
    SortedTail(b);
  }

  lemma SortedTail(a: seq<nat>)
    requires SortedAsc(a) && a != []
    ensures SortedAsc(a[1..])
  {
  }

  lemma SeqHeadTail(a: seq<nat>)
    requires a != []
    ensures a == [a[0]] + a[1..]
  {
  }

  lemma MultisetTail(a: seq<nat>)
    requires a != []
    ensures multiset(a[1..]) == multiset(a) - multiset{a[0]}
  {
    assert a == [a[0]] + a[1..];
  }

  /** The head of an ascending sequence is its least element. */
  lemma SortedHeadIsLeast(a: seq<nat>, x: nat)
    requires SortedAsc(a) && x in multiset(a)
    ensures a != [] && a[0] <= x
  {
    var k :| 0 <= k < |a| && a[k] == x;
  }

  /** In a sequence without repetitions each value occurs at most once. */
  lemma {:induction false} DistinctCount<T>(s: seq<T>, x: T)
    requires Distinct(s)
    ensures multiset(s)[x] <= 1
    ensures x in s ==> multiset(s)[x] == 1
    decreases |s|
  {
    if s != [] {
      assert s == [s[0]] + s[1..];
      DistinctCount(s[1..], x);
      if x == s[0] {
        assert x !in s[1..];
      }
    }
  }

  /** A value at two positions occurs at least twice. */
  lemma TwiceCount<T>(s: seq<T>, i: nat, j: nat)
    requires i < j < |s| && s[i] == s[j]
    ensures multiset(s)[s[i]] >= 2
  {
    assert s == s[..i] + [s[i]] + s[i + 1..j] + [s[j]] + s[j + 1..];
  }

  /** Being free of repetitions depends only on the multiset. */
  lemma DistinctPermutation<T>(s: seq<T>, t: seq<T>)
    requires Distinct(s) && multiset(s) == multiset(t)
    ensures Distinct(t)
  {
    forall i, j | 0 <= i < j < |t|
      ensures t[i] != t[j]
    {
      if t[i] == t[j] {
        TwiceCount(t, i, j);
        DistinctCount(s, t[i]);
      }
    }
  }

  /** Two sequences without repetitions that hold the same values are permutations of each other. */
  lemma SameElementsPermutation<T>(s: seq<T>, t: seq<T>)
    requires Distinct(s) && Distinct(t)
    requires forall x :: x in s <==> x in t
    ensures multiset(s) == multiset(t)
  {
    forall x
      ensures multiset(s)[x] == multiset(t)[x]
    {
      DistinctCount(s, x);
      DistinctCount(t, x);
    }
  }

  lemma DistinctConcat<T>(a: seq<T>, b: seq<T>)
    requires Distinct(a) && Distinct(b)
    requires forall x :: x in a ==> x !in b
    ensures Distinct(a + b)
  {
    forall i, j | 0 <= i < j < |a + b|
      ensures (a + b)[i] != (a + b)[j]
    {
      if j < |a| {
        assert (a + b)[i] == a[i] && (a + b)[j] == a[j];
      } else if i >= |a| {
        assert (a + b)[i] == b[i - |a|] && (a + b)[j] == b[j - |a|];
      } else {
        assert (a + b)[i] == a[i] && a[i] in a;
        assert (a + b)[j] == b[j - |a|] && b[j - |a|] in b;
      }
    }
  }
}
