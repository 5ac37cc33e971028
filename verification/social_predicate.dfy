/** SocialContainsKeywordsAsSubstringPredicate: a person matches when any
    keyword, ignoring letter case, occurs somewhere in the person's social
    handle. */
module SocialPredicate {
  import opened Text
  import opened Persons

  datatype SocialContainsKeywordsAsSubstringPredicate = SocialContainsKeywordsAsSubstringPredicate(keywords: seq<string>)

  /** Reference meaning: keyword k matches the social value. */
  ghost predicate KeywordMatches(keyword: string, social: string) {
    IsSubstring(Lower(keyword), Lower(social))
  }

  /** containsSubstringIgnoreCase: both sides lower-cased, then a plain
      substring search. */
  function ContainsSubstringIgnoreCase(social: string, keyword: string): (b: bool)
    ensures b <==> KeywordMatches(keyword, social)
  {
    Text.Contains(Lower(social), Lower(keyword))
  }

  /** The keyword stream's anyMatch, scanning the list front to back. */
  function AnyMatch(keywords: seq<string>, social: string): (b: bool)
    ensures b <==> exists i :: 0 <= i < |keywords| && KeywordMatches(keywords[i], social)
  {
    if keywords == [] then false
    else if ContainsSubstringIgnoreCase(social, keywords[0]) then true
    else
      var b := AnyMatch(keywords[1..], social);
      assert b ==> exists i :: 0 <= i < |keywords| && KeywordMatches(keywords[i], social) by {
        if b {
          var i :| 0 <= i < |keywords[1..]| && KeywordMatches(keywords[1..][i], social);
          assert keywords[i + 1] == keywords[1..][i];
        }
      }
      assert !b ==> forall i :: 0 <= i < |keywords| ==> !KeywordMatches(keywords[i], social) by {
        if !b {
          forall i | 0 <= i < |keywords| ensures !KeywordMatches(keywords[i], social) {
            if i > 0 {
              assert keywords[i] == keywords[1..][i - 1];
            }
          }
        }
      }
      b
  }

  /** test: true exactly when some keyword matches the person's social
      handle. */
  function Test(pred: SocialContainsKeywordsAsSubstringPredicate, person: Person): (b: bool)
    ensures b <==> exists i :: 0 <= i < |pred.keywords| && KeywordMatches(pred.keywords[i], person.social)
  {
    AnyMatch(pred.keywords, person.social)
  }

  /** With no keywords nobody matches. */
  lemma NoKeywordsMatchNobody(person: Person)
    ensures !Test(SocialContainsKeywordsAsSubstringPredicate([]), person)
  {
  }

  /** An empty keyword is a substring of every handle, so it matches
      everybody. */
  lemma EmptyKeywordMatchesEverybody(pred: SocialContainsKeywordsAsSubstringPredicate, person: Person)
    requires "" in pred.keywords
    ensures Test(pred, person)
  {
    var i :| 0 <= i < |pred.keywords| && pred.keywords[i] == "";
    EmptyIsSubstring(Lower(person.social));
    assert Lower("") == "";
    assert KeywordMatches(pred.keywords[i], person.social);
  }

  /** Changing the letter case of the handle or of any keyword never changes
      the answer. */
  lemma CaseInsensitive(pred: SocialContainsKeywordsAsSubstringPredicate, other: SocialContainsKeywordsAsSubstringPredicate, p: Person, q: Person)
    requires SameIgnoringCase(p.social, q.social)
    requires |pred.keywords| == |other.keywords|
    requires forall i :: 0 <= i < |pred.keywords| ==> SameIgnoringCase(pred.keywords[i], other.keywords[i])
    ensures Test(pred, p) == Test(other, q)
  {
    if Test(pred, p) {
      var i :| 0 <= i < |pred.keywords| && KeywordMatches(pred.keywords[i], p.social);
      assert KeywordMatches(other.keywords[i], q.social);
    }
    if Test(other, q) {
      var i :| 0 <= i < |other.keywords| && KeywordMatches(other.keywords[i], q.social);
      assert KeywordMatches(pred.keywords[i], p.social);
    }
  }

  /** Adding keywords never turns a match into a non-match: whoever matches
      a list matches every list containing all of its keywords, in
      particular the list with more keywords appended. */
  lemma MoreKeywordsMatchMore(pred: SocialContainsKeywordsAsSubstringPredicate, more: SocialContainsKeywordsAsSubstringPredicate, person: Person)
    requires forall k :: k in pred.keywords ==> k in more.keywords
    requires Test(pred, person)
    ensures Test(more, person)
  {
    var i :| 0 <= i < |pred.keywords| && KeywordMatches(pred.keywords[i], person.social);
    assert pred.keywords[i] in more.keywords;
    var j :| 0 <= j < |more.keywords| && more.keywords[j] == pred.keywords[i];
  }

  lemma AppendingKeywordsKeepsMatches(pred: SocialContainsKeywordsAsSubstringPredicate, extra: seq<string>, person: Person)
    requires Test(pred, person)
    ensures Test(SocialContainsKeywordsAsSubstringPredicate(pred.keywords + extra), person)
  {
    MoreKeywordsMatchMore(pred, SocialContainsKeywordsAsSubstringPredicate(pred.keywords + extra), person);
  }

  /** equals: two predicates are equal exactly when their keyword lists
      agree position by position. */
  lemma EqualityIsElementwise(a: SocialContainsKeywordsAsSubstringPredicate, b: SocialContainsKeywordsAsSubstringPredicate)
    ensures a == b <==> (|a.keywords| == |b.keywords|
      && forall i :: 0 <= i < |a.keywords| ==> a.keywords[i] == b.keywords[i])
  {
    if |a.keywords| == |b.keywords| && forall i :: 0 <= i < |a.keywords| ==> a.keywords[i] == b.keywords[i] {
      assert a.keywords == b.keywords;
    }
  }
}
