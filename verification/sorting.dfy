/** The stable sort behind sortPersons (List.sort with a caller-supplied
    comparator). A comparator answers like Java's compare: negative, zero or
    positive. */
module Sorting {
  import opened UniqueList

  /** Any two elements can be put in some order by the comparator. */
  ghost predicate IsTotal<T(!new)>(cmp: (T, T) -> int) {
    forall a, b :: cmp(a, b) <= 0 || cmp(b, a) <= 0
  }

  /** Every element is ordered no later than its successor. */
  predicate Sorted<T>(s: seq<T>, cmp: (T, T) -> int) {
    forall i :: 0 <= i < |s| - 1 ==> cmp(s[i], s[i + 1]) <= 0
  }

  /** Inserts x in front of the first element it does not come after, so x
      precedes every element it ties with. */
  function Insert<T>(x: T, s: seq<T>, cmp: (T, T) -> int): (r: seq<T>)
    ensures multiset(r) == multiset(s) + multiset{x}
    ensures r[0] == x || (s != [] && r[0] == s[0])
  {
    if s == [] || cmp(x, s[0]) <= 0 then [x] + s
    else
      var rest := Insert(x, s[1..], cmp);
      assert s == [s[0]] + s[1..];
      [s[0]] + rest
  }

  /** Under a total comparator, inserting into a sorted list keeps it
      sorted. */
  lemma {:induction false} InsertKeepsSorted<T(!new)>(x: T, s: seq<T>, cmp: (T, T) -> int)
    ensures IsTotal(cmp) && Sorted(s, cmp) ==> Sorted(Insert(x, s, cmp), cmp)
  {
    if IsTotal(cmp) && Sorted(s, cmp) && s != [] && cmp(x, s[0]) > 0 {
      var rest := Insert(x, s[1..], cmp);
      InsertKeepsSorted(x, s[1..], cmp);
      var r := [s[0]] + rest;
      assert cmp(s[0], x) <= 0;
      assert |s| > 1 ==> cmp(s[0], s[1]) <= 0;
      forall i | 0 <= i < |r| - 1 ensures cmp(r[i], r[i + 1]) <= 0 {
        if i > 0 {
          assert r[i] == rest[i - 1] && r[i + 1] == rest[i];
        }
      }
    }
  }

  /** Insertion sort: a permutation of s, ordered by cmp. Each element is
      inserted ahead of the later elements it ties with. */
  function Sort<T(!new)>(s: seq<T>, cmp: (T, T) -> int): (r: seq<T>)
    ensures multiset(r) == multiset(s)
    ensures IsTotal(cmp) ==> Sorted(r, cmp)
  {
    if s == [] then []
    else
      assert s == [s[0]] + s[1..];
      var rest := Sort(s[1..], cmp);
      InsertKeepsSorted(s[0], rest, cmp);
      Insert(s[0], rest, cmp)
  }

  /** Two elements given out of order come back swapped. */
  lemma SortSwapsPair<T(!new)>(x: T, y: T, cmp: (T, T) -> int)
    requires cmp(x, y) > 0
    ensures Sort([x, y], cmp) == [y, x]
  {
    var s := [x, y];
    assert s[0] == x && s[1..] == [y];
    assert Sort([y], cmp) == [y];
    assert Insert(x, [y], cmp) == [y] + Insert(x, [], cmp);
  }

  /** x duplicates no element of s, in either argument order. Contains asks
      only same(s[i], x); an insertion can put x before or after any element,
      and same need not be symmetric, so both orders are needed here. */
  ghost predicate Fresh<T>(x: T, s: seq<T>, same: (T, T) -> bool) {
    forall i :: 0 <= i < |s| ==> !same(x, s[i]) && !same(s[i], x)
  }

  lemma {:induction false} InsertPreservesUnique<T(!new)>(x: T, s: seq<T>, cmp: (T, T) -> int, same: (T, T) -> bool)
    requires Unique(s, same) && Fresh(x, s, same)
    ensures Unique(Insert(x, s, cmp), same)
  {
    if s != [] && cmp(x, s[0]) > 0 {
      var rest := Insert(x, s[1..], cmp);
      InsertPreservesUnique(x, s[1..], cmp, same);
      var r := [s[0]] + rest;
      forall i, j | 0 <= i < j < |r| ensures !same(r[i], r[j]) {
        if i == 0 {
          var y := rest[j - 1];
          assert y in multiset(s[1..]) + multiset{x};
          if y != x {
            assert y in s[1..];
            var m :| 0 <= m < |s[1..]| && s[1..][m] == y;
            assert s[m + 1] == y;
          }
        } else {
          assert r[i] == rest[i - 1] && r[j] == rest[j - 1];
        }
      }
    }
  }

  /** Sorting a duplicate-free list under a symmetric test keeps it
      duplicate-free. */
  lemma {:induction false} SortPreservesUnique<T(!new)>(s: seq<T>, cmp: (T, T) -> int, same: (T, T) -> bool)
    requires forall a, b :: same(a, b) ==> same(b, a)
    ensures Unique(s, same) ==> Unique(Sort(s, cmp), same)
  {
    if s != [] && Unique(s, same) {
      var t := Sort(s[1..], cmp);
      SortPreservesUnique(s[1..], cmp, same);
      forall i | 0 <= i < |t| ensures !same(s[0], t[i]) && !same(t[i], s[0]) {
        assert t[i] in multiset(s[1..]);
        var m :| 0 <= m < |s[1..]| && s[1..][m] == t[i];
        assert s[m + 1] == t[i];
      }
      InsertPreservesUnique(s[0], t, cmp, same);
    }
  }

  /** cmp never lets a before b and b before c put c before a. */
  ghost predicate IsTransitive<T(!new)>(cmp: (T, T) -> int) {
    forall a, b, c :: cmp(a, b) <= 0 && cmp(b, c) <= 0 ==> cmp(a, c) <= 0
  }

  /** Inserting x puts it ahead of every element of a class whose members
      all come no later than each other, so the class's order in the result
      is x (if it belongs) followed by the class's order in s. */
  lemma {:induction false} FilterInsert<T(!new)>(x: T, s: seq<T>, cmp: (T, T) -> int, inClass: T -> bool)
    requires forall a, b :: inClass(a) && inClass(b) ==> cmp(a, b) <= 0
    ensures Filter(Insert(x, s, cmp), inClass) == (if inClass(x) then [x] else []) + Filter(s, inClass)
  {
    if s == [] || cmp(x, s[0]) <= 0 {
      assert ([x] + s)[1..] == s;
    } else {
      var rest := Insert(x, s[1..], cmp);
      FilterInsert(x, s[1..], cmp, inClass);
      assert ([s[0]] + rest)[1..] == rest;
      assert s == [s[0]] + s[1..];
      assert inClass(x) ==> !inClass(s[0]);
    }
  }

  /** Stability: the sort keeps the input order of every class of elements
      that all come no later than each other. */
  lemma {:induction false} SortIsStable<T(!new)>(s: seq<T>, cmp: (T, T) -> int, inClass: T -> bool)
    requires forall a, b :: inClass(a) && inClass(b) ==> cmp(a, b) <= 0
    ensures Filter(Sort(s, cmp), inClass) == Filter(s, inClass)
  {
    if s != [] {
      SortIsStable(s[1..], cmp, inClass);
      FilterInsert(s[0], Sort(s[1..], cmp), cmp, inClass);
      assert s == [s[0]] + s[1..];
    }
  }

  /** The class of elements that tie with pivot under cmp. */
  function TiesWith<T>(cmp: (T, T) -> int, pivot: T): T -> bool {
    y => cmp(y, pivot) <= 0 && cmp(pivot, y) <= 0
  }

  /** Under a transitive comparator, the elements that tie with any pivot
      leave the sort in the order they had on entry. */
  lemma TiesKeepInputOrder<T(!new)>(s: seq<T>, cmp: (T, T) -> int, pivot: T)
    requires IsTransitive(cmp)
    ensures Filter(Sort(s, cmp), TiesWith(cmp, pivot)) == Filter(s, TiesWith(cmp, pivot))
  {
    var tie := TiesWith(cmp, pivot);
    forall a, b | tie(a) && tie(b) ensures cmp(a, b) <= 0 {
      assert cmp(a, pivot) <= 0 && cmp(pivot, b) <= 0;
    }
    SortIsStable(s, cmp, tie);
  }
}
