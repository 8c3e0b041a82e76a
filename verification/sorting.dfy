/** Sorting by a token key, enumeration of finite sets, and equality of
    maps.

    `Elements` stands for Go's map iteration: it lists a set in some order the
    model does not pin down, and every operation that iterates a map either
    sorts the listing or is shown not to depend on its order. */
module Sorting {
  import opened Strings

  /** Some element of a non-empty set. */
  ghost function Pick<T>(s: set<T>): (x: T)
    requires s != {}
    ensures x in s
  {
    var x :| x in s; x
  }

  /** Two maps with the same keys and the same value at each key are equal. */
  lemma SameEntries<K, V>(a: map<K, V>, b: map<K, V>)
    requires forall k :: k in a <==> k in b
    requires forall k :: k in a ==> a[k] == b[k]
    ensures a == b
  {
  }

  ghost function Elements<T(!new)>(s: set<T>): (r: seq<T>)
    ensures |r| == |s|
    ensures forall x :: x in r <==> x in s
    decreases |s|
  {
    if s == {} then []
    else
      var x := Pick(s);
      [x] + Elements(s - {x})
  }

  /** The listing names each element once. */
  lemma {:induction false} ElementsDistinct<T(!new)>(s: set<T>)
    ensures forall i, j :: 0 <= i < j < |Elements(s)| ==> Elements(s)[i] != Elements(s)[j]
    decreases |s|
  {
    if s != {} {
      var x := Pick(s);
      var rest := Elements(s - {x});
      ElementsDistinct(s - {x});
      assert x !in rest;
      assert Elements(s) == [x] + rest;
    }
  }

  /** Non-decreasing by key. */
  ghost predicate SortedBy<T>(xs: seq<T>, key: T -> seq<Token>) {
    forall i, j :: 0 <= i < j < |xs| ==> !LexLess(key(xs[j]), key(xs[i]))
  }

  /** Strictly increasing by key. */
  ghost predicate StrictlySortedBy<T>(xs: seq<T>, key: T -> seq<Token>) {
    forall i, j :: 0 <= i < j < |xs| ==> LexLess(key(xs[i]), key(xs[j]))
  }

  /** Inserts `x` in front of the first element whose key is not below its own. */
  function Insert<T>(x: T, ys: seq<T>, key: T -> seq<Token>): (r: seq<T>)
    ensures |r| == |ys| + 1
  {
    if ys == [] then [x]
    else if LexLess(key(ys[0]), key(x)) then
      [ys[0]] + Insert(x, ys[1..], key)
    else
      [x] + ys
  }

  /** Inserting adds `x` and loses nothing. */
  lemma {:induction false} InsertPerm<T>(x: T, ys: seq<T>, key: T -> seq<Token>)
    ensures multiset(Insert(x, ys, key)) == multiset(ys) + multiset{x}
    decreases |ys|
  {
    if ys != [] && LexLess(key(ys[0]), key(x)) {
      InsertPerm(x, ys[1..], key);
      assert ys == [ys[0]] + ys[1..];
    }
  }

  /** Inserting into a sorted list keeps it sorted. */
  lemma {:induction false} InsertSorted<T>(x: T, ys: seq<T>, key: T -> seq<Token>)
    requires SortedBy(ys, key)
    ensures SortedBy(Insert(x, ys, key), key)
    decreases |ys|
  {
    if ys != [] {
      if LexLess(key(ys[0]), key(x)) {
        var rest := Insert(x, ys[1..], key);
        InsertSorted(x, ys[1..], key);
        InsertPerm(x, ys[1..], key);
        assert ys == [ys[0]] + ys[1..];
        LexAsymmetric(key(ys[0]), key(x));
        InsertedNotBelow(x, ys[1..], rest, key, key(ys[0]));
        ConsSorted(ys[0], rest, key);
      } else {
        HeadNotAbove(x, ys, key);
        ConsSorted(x, ys, key);
      }
    }
  }

  /** An element not above any element of a sorted list can go in front. */
  lemma ConsSorted<T>(x: T, xs: seq<T>, key: T -> seq<Token>)
    requires SortedBy(xs, key)
    requires forall j :: 0 <= j < |xs| ==> !LexLess(key(xs[j]), key(x))
    ensures SortedBy([x] + xs, key)
  {
    var r := [x] + xs;
    forall i, j | 0 <= i < j < |r|
      ensures !LexLess(key(r[j]), key(r[i]))
    {
      assert r[j] == xs[j - 1];
      if i > 0 {
        assert r[i] == xs[i - 1];
      }
    }
  }

  /** A bound no element of `ys` and not `x` is below is a bound for any
      rearrangement of `ys` with `x` added. */
  lemma InsertedNotBelow<T>(x: T, ys: seq<T>, rest: seq<T>, key: T -> seq<Token>, b: seq<Token>)
    requires multiset(rest) == multiset(ys) + multiset{x}
    requires !LexLess(key(x), b) && forall k :: 0 <= k < |ys| ==> !LexLess(key(ys[k]), b)
    ensures forall j :: 0 <= j < |rest| ==> !LexLess(key(rest[j]), b)
  {
    forall j | 0 <= j < |rest|
      ensures !LexLess(key(rest[j]), b)
    {
      assert rest[j] in multiset(rest);
      if rest[j] != x {
        assert rest[j] in multiset(ys);
        var k :| 0 <= k < |ys| && ys[k] == rest[j];
      }
    }
  }

  /** An element not below the head of a sorted list is not below any of it. */
  lemma HeadNotAbove<T>(x: T, ys: seq<T>, key: T -> seq<Token>)
    requires SortedBy(ys, key) && ys != [] && !LexLess(key(ys[0]), key(x))
    ensures forall j :: 0 <= j < |ys| ==> !LexLess(key(ys[j]), key(x))
  {
    forall j | 0 < j < |ys|
      ensures !LexLess(key(ys[j]), key(x))
    {
      LexNotLessTransitive(key(x), key(ys[0]), key(ys[j]));
    }
  }

  /** Insertion sort; ties keep their input order. */
  function SortBy<T>(xs: seq<T>, key: T -> seq<Token>): (r: seq<T>)
    ensures |r| == |xs|
  {
    if xs == [] then []
    else Insert(xs[0], SortBy(xs[1..], key), key)
  }

  /** The sort rearranges its input: nothing is added or lost. */
  lemma {:induction false} SortByPerm<T>(xs: seq<T>, key: T -> seq<Token>)
    ensures multiset(SortBy(xs, key)) == multiset(xs)
    decreases |xs|
  {
    if xs != [] {
      SortByPerm(xs[1..], key);
      InsertPerm(xs[0], SortBy(xs[1..], key), key);
      assert xs == [xs[0]] + xs[1..];
    }
  }

  /** The sort's result is in key order. */
  lemma {:induction false} SortBySorted<T>(xs: seq<T>, key: T -> seq<Token>)
    ensures SortedBy(SortBy(xs, key), key)
    decreases |xs|
  {
    if xs != [] {
      SortBySorted(xs[1..], key);
      InsertSorted(xs[0], SortBy(xs[1..], key), key);
    }
  }

  /** With a key that separates the elements, the sort is strictly increasing. */
  lemma SortedDistinctIsStrict<T>(xs: seq<T>, key: T -> seq<Token>)
    requires SortedBy(xs, key)
    requires forall i, j :: 0 <= i < j < |xs| ==> key(xs[i]) != key(xs[j])
    ensures StrictlySortedBy(xs, key)
  {
    forall i, j | 0 <= i < j < |xs|
      ensures LexLess(key(xs[i]), key(xs[j]))
    {
      LexTotal(key(xs[i]), key(xs[j]));
    }
  }

  lemma {:induction false} DistinctCount<T>(xs: seq<T>, v: T)
    requires forall i, j :: 0 <= i < j < |xs| ==> xs[i] != xs[j]
    ensures multiset(xs)[v] <= 1
    decreases |xs|
  {
    if xs != [] {
      assert xs == [xs[0]] + xs[1..];
      DistinctCount(xs[1..], v);
      if xs[0] == v {
        assert v !in xs[1..];
      }
    }
  }

  /** A permutation of a list without repeats has no repeats. */
  lemma DistinctByMultiset<T>(xs: seq<T>, ys: seq<T>)
    requires multiset(xs) == multiset(ys)
    requires forall i, j :: 0 <= i < j < |xs| ==> xs[i] != xs[j]
    ensures forall i, j :: 0 <= i < j < |ys| ==> ys[i] != ys[j]
  {
    forall i, j | 0 <= i < j < |ys|
      ensures ys[i] != ys[j]
    {
      if ys[i] == ys[j] {
        var v := ys[i];
        assert ys == ys[..j] + ys[j..];
        assert v in ys[..j] && v in ys[j..];
        assert multiset(ys)[v] == multiset(ys[..j])[v] + multiset(ys[j..])[v];
        DistinctCount(xs, v);
      }
    }
  }

  /** A strictly increasing listing of a collection is unique. */
  lemma {:induction false} StrictlySortedUnique<T>(xs: seq<T>, ys: seq<T>, key: T -> seq<Token>)
    requires StrictlySortedBy(xs, key) && StrictlySortedBy(ys, key)
    requires |xs| == |ys| && forall x :: x in xs <==> x in ys
    ensures xs == ys
    decreases |xs|
  {
    if xs != [] {
      if xs[0] != ys[0] {
        assert xs[0] in ys && ys[0] in xs;
        var j :| 0 <= j < |ys| && ys[j] == xs[0];
        var i :| 0 <= i < |xs| && xs[i] == ys[0];
        LexAsymmetric(key(xs[0]), key(ys[0]));
        assert false;
      }
      forall x
        ensures x in xs[1..] <==> x in ys[1..]
      {
        if x in xs[1..] {
          var i :| 1 <= i < |xs| && xs[i] == x;
          LexIrreflexive(key(xs[0]));
          assert x in ys;
          var j :| 0 <= j < |ys| && ys[j] == x;
          assert j != 0;
          assert ys[1..][j - 1] == x;
        }
        if x in ys[1..] {
          var j :| 1 <= j < |ys| && ys[j] == x;
          LexIrreflexive(key(ys[0]));
          assert x in xs;
          var i :| 0 <= i < |xs| && xs[i] == x;
          assert i != 0;
          assert xs[1..][i - 1] == x;
        }
      }
      StrictlySortedUnique(xs[1..], ys[1..], key);
      assert xs == [xs[0]] + xs[1..] && ys == [ys[0]] + ys[1..];
    }
  }
}
