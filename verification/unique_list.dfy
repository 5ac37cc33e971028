/** The ordered collection behind persons, relationships, events and event
    contacts: no two elements may be related by the list's duplicate test,
    and elements keep their insertion order. The duplicate test is a
    parameter, so each kind of element brings its own. */
module UniqueList {
  import opened Results

  /** A duplicate test that behaves like an equality: reflexive, symmetric,
      transitive. */
  ghost predicate IsEquivalence<T(!new)>(same: (T, T) -> bool) {
    && (forall x :: same(x, x))
    && (forall x, y :: same(x, y) ==> same(y, x))
    && (forall x, y, z :: same(x, y) && same(y, z) ==> same(x, z))
  }

  /** No two positions hold duplicates of each other. */
  predicate Unique<T>(s: seq<T>, same: (T, T) -> bool) {
    forall i, j :: 0 <= i < j < |s| ==> !same(s[i], s[j])
  }

  /** Some element is a duplicate of x (the list's contains check). */
  predicate Contains<T>(s: seq<T>, x: T, same: (T, T) -> bool) {
    exists i :: 0 <= i < |s| && same(s[i], x)
  }

  datatype ListError = DuplicateEntry | EntryNotFound

  /** Appends x unless a duplicate of it is already present. */
  function Add<T>(s: seq<T>, x: T, same: (T, T) -> bool): (r: Result<seq<T>, ListError>)
    ensures r.Failure? <==> Contains(s, x, same)
    ensures r.Failure? ==> r.error == DuplicateEntry
    ensures r.Success? ==> |r.value| == |s| + 1 && r.value[..|s|] == s && r.value[|s|] == x
    ensures r.Success? && Unique(s, same) ==> Unique(r.value, same)
  {
    if Contains(s, x, same) then Failure(DuplicateEntry)
    else
      assert (s + [x])[..|s|] == s;
      Success(s + [x])
  }

  /** Position of the first occurrence of x (List.indexOf on a present x). */
  function FirstIndex<T(==)>(s: seq<T>, x: T): (k: nat)
    requires x in s
    ensures k < |s| && s[k] == x
    ensures forall j :: 0 <= j < k ==> s[j] != x
  {
    if s[0] == x then 0 else 1 + FirstIndex(s[1..], x)
  }

  /** Puts replacement where the first occurrence of target sits; every other
      position keeps its element. */
  function ReplaceFirst<T(==)>(s: seq<T>, target: T, replacement: T): (r: seq<T>)
    requires target in s
    ensures |r| == |s|
    ensures r[FirstIndex(s, target)] == replacement
    ensures forall j :: 0 <= j < |s| && j != FirstIndex(s, target) ==> r[j] == s[j]
  {
    s[FirstIndex(s, target) := replacement]
  }

  /** Some element other than the one at position k is a duplicate of x. */
  predicate CollidesElsewhere<T>(s: seq<T>, k: int, x: T, same: (T, T) -> bool) {
    exists j :: 0 <= j < |s| && j != k && same(s[j], x)
  }

  /** The list's setItem: target must be present, and replacement must not
      duplicate any element other than target; then it takes target's place. */
  function SetItem<T(==, !new)>(s: seq<T>, target: T, replacement: T, same: (T, T) -> bool): (r: Result<seq<T>, ListError>)
    ensures target !in s ==> r == Failure(EntryNotFound)
    ensures target in s ==> (r.Failure? <==> CollidesElsewhere(s, FirstIndex(s, target), replacement, same))
    ensures r.Failure? ==> (r.error == EntryNotFound <==> target !in s)
    ensures r.Success? ==> target in s && r.value == ReplaceFirst(s, target, replacement)
    ensures r.Success? && IsEquivalence(same) && Unique(s, same) ==> Unique(r.value, same)
  {
    if target !in s then Failure(EntryNotFound)
    else
      var k := FirstIndex(s, target);
      if CollidesElsewhere(s, k, replacement, same) then Failure(DuplicateEntry)
      else
        var r := ReplaceFirst(s, target, replacement);
        ReplacePreservesUnique(s, k, replacement, r, same);
        Success(r)
  }

  lemma ReplacePreservesUnique<T(!new)>(s: seq<T>, k: int, x: T, r: seq<T>, same: (T, T) -> bool)
    requires 0 <= k < |s| && r == s[k := x]
    requires !CollidesElsewhere(s, k, x, same)
    ensures IsEquivalence(same) && Unique(s, same) ==> Unique(r, same)
  {
    if IsEquivalence(same) && Unique(s, same) {
      forall i, j | 0 <= i < j < |r| ensures !same(r[i], r[j]) {
        if j == k {
          assert !same(s[i], x);
        } else if i == k {
          assert !same(s[j], x);
        }
      }
    }
  }

  /** The list's remove: takes out the first occurrence of x, failing when
      there is none. */
  function Remove<T(==)>(s: seq<T>, x: T): (r: Result<seq<T>, ListError>)
    ensures r.Failure? <==> x !in s
    ensures r.Failure? ==> r.error == EntryNotFound
    ensures r.Success? ==> multiset(r.value) == multiset(s) - multiset{x}
    ensures r.Success? ==> exists k :: 0 <= k < |s| && s[k] == x && x !in s[..k] && r.value == s[..k] + s[k + 1..]
  {
    if x !in s then Failure(EntryNotFound)
    else
      var k := FirstIndex(s, x);
      assert s == s[..k] + [x] + s[k + 1..];
      assert x !in s[..k];
      Success(s[..k] + s[k + 1..])
  }

  lemma RemovePreservesUnique<T>(s: seq<T>, x: T, same: (T, T) -> bool)
    requires Unique(s, same) && Remove(s, x).Success?
    ensures Unique(Remove(s, x).value, same)
  {
    var k := FirstIndex(s, x);
    assert Remove(s, x).value == s[..k] + s[k + 1..];
    DeleteAtPreservesUnique(s, k, same);
  }

  lemma DeleteAtPreservesUnique<T>(s: seq<T>, k: nat, same: (T, T) -> bool)
    requires Unique(s, same) && k < |s|
    ensures Unique(s[..k] + s[k + 1..], same)
  {
    var r := s[..k] + s[k + 1..];
    forall i, j | 0 <= i < j < |r| ensures !same(r[i], r[j]) {
      var i' := if i < k then i else i + 1;
      var j' := if j < k then j else j + 1;
      assert r[i] == s[i'] && r[j] == s[j'] && i' < j';
    }
  }

  /** r can be obtained from s by deleting elements: r's elements occur in s
      in the same order. */
  predicate IsSubsequence<T(==)>(r: seq<T>, s: seq<T>) {
    r == [] || (s != [] && ((r[0] == s[0] && IsSubsequence(r[1..], s[1..])) || IsSubsequence(r, s[1..])))
  }

  /** Keeps, in order, the elements that satisfy keep. */
  function Filter<T(==)>(s: seq<T>, keep: T -> bool): (r: seq<T>)
    ensures |r| <= |s|
    ensures forall i :: 0 <= i < |r| ==> keep(r[i]) && r[i] in s
    ensures forall i :: 0 <= i < |s| && keep(s[i]) ==> s[i] in r
  {
    if s == [] then []
    else
      var rest := Filter(s[1..], keep);
      if keep(s[0]) then [s[0]] + rest else rest
  }

  /** Filter keeps every copy of a kept value and no copy of any other. */
  lemma {:induction false} FilterCount<T>(s: seq<T>, keep: T -> bool, x: T)
    ensures multiset(Filter(s, keep))[x] == if keep(x) then multiset(s)[x] else 0
  {
    if s != [] {
      FilterCount(s[1..], keep, x);
      assert s == [s[0]] + s[1..];
      assert multiset(s)[x] == multiset([s[0]])[x] + multiset(s[1..])[x];
      if keep(s[0]) {
        var rest := Filter(s[1..], keep);
        assert multiset([s[0]] + rest)[x] == multiset([s[0]])[x] + multiset(rest)[x];
      }
    }
  }

  /** Filter reorders nothing: its result is a subsequence of its input. */
  lemma {:induction false} FilterIsSubsequence<T>(s: seq<T>, keep: T -> bool)
    ensures IsSubsequence(Filter(s, keep), s)
  {
    if s != [] {
      var rest := Filter(s[1..], keep);
      FilterIsSubsequence(s[1..], keep);
      if keep(s[0]) {
        assert ([s[0]] + rest)[1..] == rest;
      }
    }
  }

  /** Filter loses nothing it should keep and reorders nothing: every copy of
      a kept value survives, no copy of another value does, and the survivors
      keep their relative order. */
  lemma FilterSelects<T>(s: seq<T>, keep: T -> bool)
    ensures forall i :: 0 <= i < |s| ==>
      multiset(Filter(s, keep))[s[i]] == if keep(s[i]) then multiset(s)[s[i]] else 0
    ensures IsSubsequence(Filter(s, keep), s)
  {
    forall i | 0 <= i < |s|
      ensures multiset(Filter(s, keep))[s[i]] == if keep(s[i]) then multiset(s)[s[i]] else 0
    {
      FilterCount(s, keep, s[i]);
    }
    FilterIsSubsequence(s, keep);
  }

  /** Filtering distributes over concatenation, so the kept elements of a
      prefix come before those of the rest. */
  lemma {:induction false} FilterAppend<T>(a: seq<T>, b: seq<T>, keep: T -> bool)
    ensures Filter(a + b, keep) == Filter(a, keep) + Filter(b, keep)
  {
    if a == [] {
      assert a + b == b;
    } else {
      assert (a + b)[1..] == a[1..] + b;
      FilterAppend(a[1..], b, keep);
      if keep(a[0]) {
        assert Filter(a + b, keep) == [a[0]] + Filter(a[1..] + b, keep);
        assert Filter(a, keep) == [a[0]] + Filter(a[1..], keep);
      }
    }
  }

  /** Leaving elements out never creates a duplicate. */
  lemma {:induction false} FilterPreservesUnique<T>(s: seq<T>, keep: T -> bool, same: (T, T) -> bool)
    ensures Unique(s, same) ==> Unique(Filter(s, keep), same)
  {
    if s != [] && Unique(s, same) {
      var rest := Filter(s[1..], keep);
      FilterPreservesUnique(s[1..], keep, same);
      if keep(s[0]) {
        var r := [s[0]] + rest;
        forall i, j | 0 <= i < j < |r| ensures !same(r[i], r[j]) {
          if i == 0 {
            var m :| 0 <= m < |s[1..]| && s[1..][m] == r[j];
            assert s[m + 1] == r[j];
          } else {
            assert r[i] == rest[i - 1] && r[j] == rest[j - 1];
          }
        }
      }
    }
  }

  /** In a duplicate-free list under a symmetric test, removing x leaves
      nothing that duplicates x. */
  lemma RemoveLeavesNoDuplicate<T>(s: seq<T>, x: T, same: (T, T) -> bool)
    requires Unique(s, same) && x in s
    requires forall a, b :: same(a, b) ==> same(b, a)
    ensures Remove(s, x).Success? && !Contains(Remove(s, x).value, x, same)
  {
    var k := FirstIndex(s, x);
    var r := Remove(s, x).value;
    assert r == s[..k] + s[k + 1..];
    forall i | 0 <= i < |r| ensures !same(r[i], x) {
      if i < k {
        assert r[i] == s[i];
      } else {
        assert r[i] == s[i + 1];
        assert !same(s[k], s[i + 1]);
      }
    }
  }

  /** In a duplicate-free list under a reflexive test, every element sits at
      exactly one position. */
  lemma OccursOnce<T>(s: seq<T>, k: int, same: (T, T) -> bool)
    requires Unique(s, same) && 0 <= k < |s| && same(s[k], s[k])
    ensures forall j :: 0 <= j < |s| && j != k ==> s[j] != s[k]
  {
  }
}
