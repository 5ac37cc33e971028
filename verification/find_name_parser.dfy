/** FindNameCommandParser.parse: turns the argument text of a find-by-name
    command into the keyword list of a name predicate. */
module FindNameParser {
  import opened Results
  import opened Tokens

  /** The name predicate the command is built around; only its keyword list
      matters here. */
  datatype NameContainsKeywordsAsSubstringPredicate = NameContainsKeywordsAsSubstringPredicate(keywords: seq<string>)

  datatype FindNameCommand = FindNameCommand(filter: NameContainsKeywordsAsSubstringPredicate)

  /** The parser's one error: the arguments do not follow the usage format. */
  datatype ParseError = InvalidCommandFormat

  /** What every successful parse hands over: at least one keyword, each
      non-empty and free of \s characters. */
  predicate WellFormedKeywords(keywords: seq<string>) {
    && |keywords| >= 1
    && forall i :: 0 <= i < |keywords| ==> keywords[i] != [] && NoSpace(keywords[i])
  }

  /** Trim the arguments, reject them if nothing is left, otherwise split on
      runs of \s. On success the keywords, joined with single spaces, spell
      the trimmed input with each \s run collapsed: nothing is lost, nothing
      reordered. */
  function Parse(args: string): (r: Result<FindNameCommand, ParseError>)
    ensures r.Failure? <==> AllTrimmable(args)
    ensures r.Failure? ==> r.error == InvalidCommandFormat
    ensures r.Success? ==> WellFormedKeywords(r.value.filter.keywords)
    ensures r.Success? ==> JoinWithSpace(r.value.filter.keywords) == CollapseSpaces(Trim(args))
  {
    var trimmed := Trim(args);
    if trimmed == [] then
      Failure(InvalidCommandFormat)
    else
      var keywords := SplitOnSpaces(trimmed);
      SplitOfTrimmed(trimmed);
      Success(FindNameCommand(NameContainsKeywordsAsSubstringPredicate(keywords)))
  }

  /** A non-empty trimmed string splits into its pieces, which are
      well-formed keywords that join back to its collapsed form. */
  lemma SplitOfTrimmed(t: string)
    requires t != [] && Untrimmable(t)
    ensures SplitOnSpaces(t) == Pieces(t)
    ensures WellFormedKeywords(Pieces(t))
    ensures JoinWithSpace(Pieces(t)) == CollapseSpaces(t)
  {
    SpaceIsTrimmable(t[0]);
    SpaceIsTrimmable(t[|t| - 1]);
    SplitOfBoundedString(t);
    PiecesNonEmpty(t);
    PiecesHaveNoSpace(t);
    JoinPiecesIsCollapse(t);
  }

  /** Leading and trailing whitespace never changes the outcome. */
  lemma SurroundingWhitespaceIgnored(pre: string, s: string, post: string)
    requires AllTrimmable(pre) && AllTrimmable(post)
    ensures Parse(pre + s + post) == Parse(s)
  {
    TrimIgnoresSurrounding(pre, s, post);
  }
}
