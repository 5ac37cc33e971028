/** Trimming and splitting of command arguments: String.trim, which strips
    every character up to U+0020 from both ends, and String.split("\\s+"),
    which cuts at maximal runs of the six characters of the class \s. */
module Tokens {

  /** The characters String.trim removes. */
  predicate IsTrimmable(c: char) {
    c <= ' '
  }

  /** The characters of the regular-expression class \s. */
  predicate IsSpace(c: char) {
    c == ' ' || c == '\t' || c == '\n' || c == '\U{000B}' || c == '\U{000C}' || c == '\r'
  }

  predicate AllTrimmable(s: string) {
    forall i :: 0 <= i < |s| ==> IsTrimmable(s[i])
  }

  predicate NoSpace(s: string) {
    forall i :: 0 <= i < |s| ==> !IsSpace(s[i])
  }

  lemma SpaceIsTrimmable(c: char)
    ensures IsSpace(c) ==> IsTrimmable(c)
  {
  }

  // ---------------------------------------------------------------- trim

  /** The first index at or after st that holds a non-trimmable character,
      or |s| when there is none (the first loop of String.trim). */
  function TrimStartIndex(s: string, st: nat): (r: nat)
    requires st <= |s|
    ensures st <= r <= |s|
    ensures forall k :: st <= k < r ==> IsTrimmable(s[k])
    ensures r < |s| ==> !IsTrimmable(s[r])
    decreases |s| - st
  {
    if st < |s| && IsTrimmable(s[st]) then TrimStartIndex(s, st + 1) else st
  }

  /** Moves len down past trimmable characters, never below st (the second
      loop of String.trim). */
  function TrimEndIndex(s: string, st: nat, len: nat): (r: nat)
    requires st <= len <= |s|
    ensures st <= r <= len
    ensures forall k :: r <= k < len ==> IsTrimmable(s[k])
    ensures st < r ==> !IsTrimmable(s[r - 1])
    decreases len
  {
    if st < len && IsTrimmable(s[len - 1]) then TrimEndIndex(s, st, len - 1) else len
  }

  /** r sits at position i of s, and everything of s before and after it is
      trimmable. */
  predicate TrimmedAt(s: string, r: string, i: int) {
    && 0 <= i && i + |r| <= |s| && s[i..i + |r|] == r
    && (forall k :: 0 <= k < i ==> IsTrimmable(s[k]))
    && (forall k :: i + |r| <= k < |s| ==> IsTrimmable(s[k]))
  }

  /** Neither end of r is trimmable. */
  predicate Untrimmable(r: string) {
    r == [] || (!IsTrimmable(r[0]) && !IsTrimmable(r[|r| - 1]))
  }

  /** String.trim: s minus its longest trimmable prefix and suffix; empty
      exactly when s holds nothing else. */
  function Trim(s: string): (r: string)
    ensures r == [] <==> AllTrimmable(s)
    ensures Untrimmable(r)
    ensures exists i :: TrimmedAt(s, r, i)
  {
    var st := TrimStartIndex(s, 0);
    var len := TrimEndIndex(s, st, |s|);
    var r := s[st..len];
    assert TrimmedAt(s, r, st);
    assert r == [] ==> AllTrimmable(s);
    r
  }

  /** Trim is the only untrimmable infix whose surroundings are trimmable. */
  lemma TrimUnique(s: string, t: string, i: int)
    requires TrimmedAt(s, t, i) && Untrimmable(t)
    ensures t == Trim(s)
  {
    var r := Trim(s);
    var j :| TrimmedAt(s, r, j);
    if t == [] {
      forall k | 0 <= k < |s| ensures IsTrimmable(s[k]) {
        if k >= i {
          assert i + |t| <= k;
        }
      }
    } else {
      assert s[i] == t[0];
      assert !AllTrimmable(s);
      assert s[j] == r[0];
      assert s[i + |t| - 1] == t[|t| - 1];
      assert s[j + |r| - 1] == r[|r| - 1];
      assert i == j && |t| == |r|;
    }
  }

  /** Surrounding trimmable characters never change what trim returns. */
  lemma TrimIgnoresSurrounding(pre: string, s: string, post: string)
    requires AllTrimmable(pre) && AllTrimmable(post)
    ensures Trim(pre + s + post) == Trim(s)
  {
    var r := Trim(s);
    var i :| TrimmedAt(s, r, i);
    var x := pre + s + post;
    var j := |pre| + i;
    InfixShift(pre, s, post, i, |r|);
    PrefixStaysTrimmable(pre, s, post, i);
    SuffixStaysTrimmable(pre, s, post, i + |r|);
    assert TrimmedAt(x, r, j);
    TrimUnique(x, r, j);
  }

  lemma InfixShift(pre: string, s: string, post: string, i: nat, m: nat)
    requires i + m <= |s|
    ensures (pre + s + post)[|pre| + i..|pre| + i + m] == s[i..i + m]
  {
    var x := pre + s + post;
    forall k | |pre| + i <= k < |pre| + i + m ensures x[k] == s[k - |pre|] {
    }
  }

  lemma PrefixStaysTrimmable(pre: string, s: string, post: string, i: nat)
    requires AllTrimmable(pre) && i <= |s|
    requires forall k :: 0 <= k < i ==> IsTrimmable(s[k])
    ensures forall k :: 0 <= k < |pre| + i ==> IsTrimmable((pre + s + post)[k])
  {
    var x := pre + s + post;
    forall k | 0 <= k < |pre| + i ensures IsTrimmable(x[k]) {
      if k < |pre| {
        assert x[k] == pre[k];
      } else {
        assert x[k] == s[k - |pre|];
      }
    }
  }

  lemma SuffixStaysTrimmable(pre: string, s: string, post: string, e: nat)
    requires AllTrimmable(post) && e <= |s|
    requires forall k :: e <= k < |s| ==> IsTrimmable(s[k])
    ensures forall k :: |pre| + e <= k < |pre + s + post| ==> IsTrimmable((pre + s + post)[k])
  {
    var x := pre + s + post;
    forall k | |pre| + e <= k < |x| ensures IsTrimmable(x[k]) {
      if k < |pre| + |s| {
        assert x[k] == s[k - |pre|];
      } else {
        assert x[k] == post[k - |pre| - |s|];
      }
    }
  }

  // ---------------------------------------------------------------- split

  /** Length of the longest prefix of s holding no \s character. */
  function WordLength(s: string): (n: nat)
    ensures n <= |s|
    ensures forall i :: 0 <= i < n ==> !IsSpace(s[i])
    ensures n < |s| ==> IsSpace(s[n])
  {
    if s == [] || IsSpace(s[0]) then 0 else 1 + WordLength(s[1..])
  }

  /** Drops the leading run of \s characters. */
  function SkipSpaces(s: string): (r: string)
    ensures |r| <= |s| && r == s[|s| - |r|..]
    ensures r == [] || !IsSpace(r[0])
    ensures forall i :: 0 <= i < |s| - |r| ==> IsSpace(s[i])
  {
    if s != [] && IsSpace(s[0]) then
      var r := SkipSpaces(s[1..]);
      assert r == s[|s| - |r|..];
      r
    else s
  }

  /** The pieces between maximal runs of \s characters, empty pieces kept: a
      run at the very start gives a leading empty piece, a run at the very end
      a trailing one. */
  function Pieces(s: string): (r: seq<string>)
    ensures |r| >= 1
    decreases |s|
  {
    if WordLength(s) == |s| then [s]
    else [Word(s)] + Pieces(After(s))
  }

  /** The first piece of s. */
  function Word(s: string): string {
    s[..WordLength(s)]
  }

  /** What follows the first \s run of s, where the next piece starts. */
  function After(s: string): (r: string)
    requires WordLength(s) < |s|
    ensures |r| < |s|
  {
    SkipSpaces(s[WordLength(s) + 1..])
  }

  /** The longest prefix of p that does not end in an empty string; what is
      dropped is empty strings only. */
  function DropTrailingEmpty(p: seq<string>): (r: seq<string>)
    ensures |r| <= |p| && r == p[..|r|]
    ensures r == [] || r[|r| - 1] != []
    ensures forall i :: |r| <= i < |p| ==> p[i] == []
  {
    if p != [] && p[|p| - 1] == [] then DropTrailingEmpty(p[..|p| - 1]) else p
  }

  /** String.split("\\s+"): without any match the whole input is the only
      piece; otherwise the pieces, with trailing empty ones removed. No piece
      holds a \s character, and after a match the last piece is non-empty. */
  function SplitOnSpaces(s: string): (r: seq<string>)
    ensures NoSpace(s) ==> r == [s]
    ensures !NoSpace(s) ==> r == [] || r[|r| - 1] != []
    ensures forall i :: 0 <= i < |r| ==> NoSpace(r[i])
  {
    WholeWordIsNoSpace(s);
    if WordLength(s) == |s| then [s]
    else
      var p := Pieces(s);
      PiecesHaveNoSpace(s);
      DropKeepsNoSpace(p);
      DropTrailingEmpty(p)
  }

  lemma DropKeepsNoSpace(p: seq<string>)
    requires forall i :: 0 <= i < |p| ==> NoSpace(p[i])
    ensures forall i :: 0 <= i < |DropTrailingEmpty(p)| ==> NoSpace(DropTrailingEmpty(p)[i])
  {
    var r := DropTrailingEmpty(p);
    forall i | 0 <= i < |r| ensures NoSpace(r[i]) {
      assert r[i] == p[i];
    }
  }

  /** The first piece is the whole string exactly when s holds no \s
      character. */
  lemma WholeWordIsNoSpace(s: string)
    ensures WordLength(s) == |s| <==> NoSpace(s)
  {
    var n := WordLength(s);
    if n < |s| {
      assert IsSpace(s[n]);
    }
  }

  /** Independent reference: s with every maximal run of \s characters
      replaced by one space. */
  function CollapseSpaces(s: string): string
    decreases |s|
  {
    if s == [] then []
    else if IsSpace(s[0]) then " " + CollapseSpaces(SkipSpaces(s[1..]))
    else [s[0]] + CollapseSpaces(s[1..])
  }

  /** String.join(" ", words). */
  function JoinWithSpace(words: seq<string>): string {
    if |words| == 0 then ""
    else if |words| == 1 then words[0]
    else words[0] + " " + JoinWithSpace(words[1..])
  }

  lemma {:induction false} CollapseWordPrefix(s: string, n: nat)
    requires n <= |s| && forall i :: 0 <= i < n ==> !IsSpace(s[i])
    ensures CollapseSpaces(s) == s[..n] + CollapseSpaces(s[n..])
    decreases n
  {
    if n == 0 {
      assert s[..n] == [] && s[n..] == s;
    } else {
      var t := s[1..];
      assert forall i :: 0 <= i < n - 1 ==> t[i] == s[i + 1];
      CollapseWordPrefix(t, n - 1);
      var c := CollapseSpaces(t[n - 1..]);
      assert t[n - 1..] == s[n..];
      assert s[..n] == [s[0]] + t[..n - 1];
      CollapseAtWord(s);
      assert CollapseSpaces(s) == [s[0]] + (t[..n - 1] + c);
      Associative([s[0]], t[..n - 1], c);
    }
  }

  /** Joining the pieces with single spaces gives back the input with every
      run of \s characters collapsed to one space. */
  lemma {:induction false} JoinPiecesIsCollapse(s: string)
    ensures JoinWithSpace(Pieces(s)) == CollapseSpaces(s)
    decreases |s|
  {
    var n := WordLength(s);
    CollapseWordPrefix(s, n);
    if n == |s| {
      assert s[..n] == s;
      assert s[n..] == [];
    } else {
      assert IsSpace(s[n]);
      var rest := SkipSpaces(s[n + 1..]);
      JoinPiecesIsCollapse(rest);
      assert s[n..][1..] == s[n + 1..];
      CollapseAtSpace(s[n..], s[n + 1..]);
      var w := s[..n];
      assert Word(s) == w && After(s) == rest;
      assert Pieces(s) == [w] + Pieces(rest);
      JoinCons(w, Pieces(rest));
      var c := CollapseSpaces(rest);
      assert JoinWithSpace(Pieces(s)) == w + " " + c;
      assert CollapseSpaces(s[n..]) == " " + c;
      assert CollapseSpaces(s) == w + (" " + c);
      Associative(w, " ", c);
    }
  }

  lemma Associative(a: string, b: string, c: string)
    ensures a + b + c == a + (b + c)
  {
  }

  lemma JoinCons(w: string, rest: seq<string>)
    requires rest != []
    ensures JoinWithSpace([w] + rest) == w + " " + JoinWithSpace(rest)
  {
    assert ([w] + rest)[1..] == rest;
  }

  lemma CollapseAtWord(s: string)
    requires s != [] && !IsSpace(s[0])
    ensures CollapseSpaces(s) == [s[0]] + CollapseSpaces(s[1..])
  {
  }

  lemma CollapseAtSpace(t: string, tail: string)
    requires t != [] && IsSpace(t[0]) && tail == t[1..]
    ensures CollapseSpaces(t) == " " + CollapseSpaces(SkipSpaces(tail))
  {
  }

  lemma {:induction false} PiecesHaveNoSpace(s: string)
    ensures forall i :: 0 <= i < |Pieces(s)| ==> NoSpace(Pieces(s)[i])
    decreases |s|
  {
    var n := WordLength(s);
    if n != |s| {
      PiecesHaveNoSpace(After(s));
      assert NoSpace(Word(s));
    } else {
      assert s[..n] == s;
    }
  }

  /** Skipping the leading \s run of a string that ends in a non-\s character
      leaves a string that starts and ends in one. */
  lemma SkipSpacesKeepsBoundary(t: string)
    requires t != [] && !IsSpace(t[|t| - 1])
    ensures SkipSpaces(t) != [] && !IsSpace(SkipSpaces(t)[0])
    ensures !IsSpace(SkipSpaces(t)[|SkipSpaces(t)| - 1])
  {
    var r := SkipSpaces(t);
    assert !IsSpace(t[|t| - 1]);
    assert r != [];
    var k := |t| - |r|;
    assert r == t[k..];
    assert r[|r| - 1] == t[|t| - 1];
  }

  predicate AllNonEmpty(p: seq<string>) {
    forall i :: 0 <= i < |p| ==> p[i] != []
  }

  lemma ConsNonEmpty(w: string, q: seq<string>)
    requires w != [] && AllNonEmpty(q)
    ensures AllNonEmpty([w] + q)
  {
    var p := [w] + q;
    forall i | 0 <= i < |p| ensures p[i] != [] {
      if i > 0 {
        assert p[i] == q[i - 1];
      }
    }
  }

  /** One unfolding of Pieces on a string that holds a \s character. */
  lemma PiecesStep(s: string)
    requires WordLength(s) < |s|
    ensures Pieces(s) == [Word(s)] + Pieces(After(s))
  {
  }

  /** A string without \s is its own single piece. */
  lemma PiecesOfWord(s: string)
    requires WordLength(s) == |s|
    ensures Pieces(s) == [s]
  {
  }

  /** A string that starts and ends with a non-\s character has only
      non-empty pieces. */
  lemma {:induction false} PiecesNonEmpty(s: string)
    requires s != [] && !IsSpace(s[0]) && !IsSpace(s[|s| - 1])
    ensures AllNonEmpty(Pieces(s))
    decreases |s|
  {
    if WordLength(s) == |s| {
      PiecesOfWord(s);
    } else {
      AfterKeepsBoundary(s);
      var rest := After(s);
      PiecesNonEmpty(rest);
      PiecesStep(s);
      ConsNonEmpty(Word(s), Pieces(rest));
    }
  }

  /** Past the first \s run of a string that starts and ends in a non-\s
      character lies a non-empty first piece and a string of the same kind. */
  lemma AfterKeepsBoundary(s: string)
    requires s != [] && !IsSpace(s[0]) && !IsSpace(s[|s| - 1])
    requires WordLength(s) < |s|
    ensures Word(s) != []
    ensures After(s) != [] && !IsSpace(After(s)[0]) && !IsSpace(After(s)[|After(s)| - 1])
  {
    var n := WordLength(s);
    assert IsSpace(s[n]);
    assert 0 < n < |s| - 1;
    var tail := s[n + 1..];
    assert tail[|tail| - 1] == s[|s| - 1];
    SkipSpacesKeepsBoundary(tail);
  }

  /** On a string that starts and ends with a non-\s character, split yields
      exactly the pieces: non-empty, free of \s, and in input order. */
  lemma SplitOfBoundedString(s: string)
    requires s != [] && !IsSpace(s[0]) && !IsSpace(s[|s| - 1])
    ensures SplitOnSpaces(s) == Pieces(s)
  {
    PiecesNonEmpty(s);
    var p := Pieces(s);
    assert AllNonEmpty(p);
    assert p[|p| - 1] != [];
  }
}
