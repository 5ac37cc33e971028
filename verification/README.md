# Address book core: keyword search, the AddressBook aggregate, tagging events

This project models, in Dafny, the core of a contact-management application:

- **Keyword search.** `FindNameCommandParser.parse` trims the argument text, refuses it when nothing is left, and splits the rest on runs of whitespace into keywords. `SocialContainsKeywordsAsSubstringPredicate` accepts a person when any keyword, with letter case ignored, occurs inside the person's social handle. Two predicates are equal exactly when their keyword lists are equal.
- **The AddressBook aggregate.** It holds three ordered lists: persons, relationships and events.
  - Persons are unique under the "same person" test, which compares name and phone.
  - Relationships are taken to be unique per unordered pair of endpoints. This rule is an assumption of the model (see "## Left out").
  - Removing a person cascades. The person is stripped from every event's contacts, and every relationship that has the person as an endpoint is dropped.
  - The modelled operations are: `resetData`, `hasPerson`, `addPerson`, `getPersonById`, `removePerson`, `sortPersons`, `hasRelationship` (both overloads), `addRelationship`, `removeRelationship`, `updateRelationship`, `setRelationships`, `addEvent` and `setEvent`.
- **AddTagToEventCommand.execute.** It picks an event by its one-based index. It refuses an index past the end and a tag the event already has. Otherwise it replaces the event with a copy that carries the tag, through the model's `updateEvent`.

Every operation is a pure function over immutable values. Failures are `Result.Failure` values, one error constructor per failure cause. Where the source throws one exception class for several causes, the causes get separate constructors: both `InvalidEventIndex` and `TagAlreadyPresent` of `AddTagToEvent.CommandError` stand for a `CommandException`, which the source tells apart only by its message. Java's string primitives are modelled on strings of code points: `trim`, `split("\\s+")`, `indexOf`/`contains`, `compareTo` and ASCII `toLowerCase`. Each primitive is proved against an independent reference definition or characterisation:

- `Trim` against a characterisation of the trimmed slice and its uniqueness;
- the split pieces against the collapsed-whitespace string;
- `IndexOf` against "occurs at some position";
- `CompareStrings` against lexicographic order (`LexLess`), together with antisymmetry and transitivity.

Module layout:

- `Results` holds `Option` and `Result`.
- `Text` holds case folding, substring search and string comparison.
- `Tokens` holds trim, whitespace split and their reference definitions.
- `UniqueList` is the generic list kept unique under an equivalence.
- `Sorting` is an insertion sort over a caller's comparator.
- `Persons`, `Relationships` and `Events` hold the entities.
- `AddressBooks` is the aggregate.
- `SocialPredicate`, `FindNameParser` and `AddTagToEvent` are the search layer and the command.

Two choices follow the code the tests exercise, not a broader reading:

- The key lookup and removal of a relationship, `hasRelationship(id1, id2, name)` and `removeRelationship(id1, id2, name)`, match the forward orientation only.
- `setEvent` and `updateEvent` find the original event by value equality, the first equal entry, which is what `List.indexOf` does. Reference identity is not used.

## Model

| member | source | states |
|---|---|---|
| Text.Lower | src/main/java/seedu/address/model/predicate/SocialContainsKeywordsAsSubstringPredicate.java:23 | lower-casing keeps the length and folds each ASCII capital to its small letter, leaving every other character alone |
| Text.LowerIdempotent | src/main/java/seedu/address/model/predicate/SocialContainsKeywordsAsSubstringPredicate.java:23 | lower-casing twice is lower-casing once |
| Text.IndexFrom | src/main/java/seedu/address/model/predicate/SocialContainsKeywordsAsSubstringPredicate.java:23 | the search from a position returns the first occurrence at or after it, or -1 when there is none |
| Text.IndexOf | src/main/java/seedu/address/model/predicate/SocialContainsKeywordsAsSubstringPredicate.java:23 | indexOf is -1 exactly when the needle is not a substring; otherwise it is the first position where the needle occurs |
| Text.Contains | src/main/java/seedu/address/model/predicate/SocialContainsKeywordsAsSubstringPredicate.java:23 | contains holds exactly when the needle occurs at some position of the haystack |
| Text.EmptyIsSubstring | src/main/java/seedu/address/model/predicate/SocialContainsKeywordsAsSubstringPredicate.java:23 | the empty keyword occurs in every string |
| Text.CompareStrings | src/test/java/seedu/address/model/AddressBookTest.java:215 | String.compareTo gives 0 exactly when the two strings are equal |
| Text.CompareStringsAntisymmetric | src/test/java/seedu/address/model/AddressBookTest.java:215 | swapping the arguments of compareTo negates the result, so any two strings are ordered one way or the other |
| Text.CompareStringsTransitive | src/test/java/seedu/address/model/AddressBookTest.java:215 | compareTo is transitive: a at most b and b at most c give a at most c |
| Text.CompareStringsIsLexicographic | src/test/java/seedu/address/model/AddressBookTest.java:215 | compareTo is negative exactly when the first string is a proper prefix of the second or holds the smaller character at the first difference |
| Tokens.Trim | src/main/java/seedu/address/logic/parser/FindNameCommandParser.java:23 | trim is empty exactly when every character is at most a space; a non-empty result starts and ends with a character above space and is a contiguous slice of the input with only such characters around it |
| Tokens.TrimUnique | src/main/java/seedu/address/logic/parser/FindNameCommandParser.java:23 | any slice with untrimmable ends and only trimmable characters around it is the trim: the characterisation determines trim |
| Tokens.TrimIgnoresSurrounding | src/main/java/seedu/address/logic/parser/FindNameCommandParser.java:23 | adding trimmable characters on either side does not change the trim |
| Tokens.SpaceIsTrimmable | src/main/java/seedu/address/logic/parser/FindNameCommandParser.java:23-29 | every \s character is one that trim strips |
| Tokens.SplitOnSpaces | src/main/java/seedu/address/logic/parser/FindNameCommandParser.java:29 | split("\\s+") of a string without whitespace is that string alone; otherwise no piece holds a \s character and a non-empty result does not end in an empty piece |
| Tokens.DropTrailingEmpty | src/main/java/seedu/address/logic/parser/FindNameCommandParser.java:29 | split's clean-up keeps a prefix of the pieces that does not end in an empty piece, and drops only empty pieces |
| Tokens.WholeWordIsNoSpace | src/main/java/seedu/address/logic/parser/FindNameCommandParser.java:29 | the first piece is the whole string exactly when the string holds no \s character |
| Tokens.JoinPiecesIsCollapse | src/main/java/seedu/address/logic/parser/FindNameCommandParser.java:29 | joining the split pieces with single spaces gives the input with every whitespace run collapsed to one space, so splitting loses only the whitespace |
| Tokens.PiecesHaveNoSpace | src/main/java/seedu/address/logic/parser/FindNameCommandParser.java:29 | no piece of the split contains a \s character |
| Tokens.PiecesNonEmpty | src/main/java/seedu/address/logic/parser/FindNameCommandParser.java:29 | a string that starts and ends with a non-\s character splits into non-empty pieces only |
| Tokens.SplitOfBoundedString | src/main/java/seedu/address/logic/parser/FindNameCommandParser.java:29 | on such a string split("\\s+") drops nothing: its result is exactly the pieces between whitespace runs |
| FindNameParser.Parse | src/main/java/seedu/address/logic/parser/FindNameCommandParser.java:22-32 | parse fails with the invalid-format error exactly when the argument is blank after trimming; otherwise the keywords are non-empty, whitespace-free, and join back to the trimmed argument with its whitespace runs collapsed |
| FindNameParser.SplitOfTrimmed | src/main/java/seedu/address/logic/parser/FindNameCommandParser.java:29-31 | a non-empty trimmed argument splits into well-formed keywords that rebuild its collapsed form |
| FindNameParser.SurroundingWhitespaceIgnored | src/main/java/seedu/address/logic/parser/FindNameCommandParser.java:23 | leading and trailing whitespace never change the parse result, successful or not |
| SocialPredicate.ContainsSubstringIgnoreCase | src/main/java/seedu/address/model/predicate/SocialContainsKeywordsAsSubstringPredicate.java:22-24 | true exactly when the lower-cased keyword occurs in the lower-cased social value |
| SocialPredicate.AnyMatch | src/main/java/seedu/address/model/predicate/SocialContainsKeywordsAsSubstringPredicate.java:17-20 | the front-to-back anyMatch scan is true exactly when some keyword of the list matches |
| SocialPredicate.Test | src/main/java/seedu/address/model/predicate/SocialContainsKeywordsAsSubstringPredicate.java:16-20 | a person passes exactly when some keyword occurs, ignoring case, in the person's social handle |
| SocialPredicate.NoKeywordsMatchNobody | src/main/java/seedu/address/model/predicate/SocialContainsKeywordsAsSubstringPredicate.java:17-20 | an empty keyword list matches no person |
| SocialPredicate.EmptyKeywordMatchesEverybody | src/main/java/seedu/address/model/predicate/SocialContainsKeywordsAsSubstringPredicate.java:22-24 | a list holding the empty keyword matches every person |
| SocialPredicate.CaseInsensitive | src/main/java/seedu/address/model/predicate/SocialContainsKeywordsAsSubstringPredicate.java:17-24 | changing the letter case of keywords or of the social handle never changes the outcome |
| SocialPredicate.MoreKeywordsMatchMore | src/main/java/seedu/address/model/predicate/SocialContainsKeywordsAsSubstringPredicate.java:17-20 | a keyword list that contains every keyword of another matches at least the persons the other matches |
| SocialPredicate.AppendingKeywordsKeepsMatches | src/main/java/seedu/address/model/predicate/SocialContainsKeywordsAsSubstringPredicate.java:17-20 | appending keywords never loses a match |
| SocialPredicate.EqualityIsElementwise | src/main/java/seedu/address/model/predicate/SocialContainsKeywordsAsSubstringPredicate.java:26-40 | two predicates are equal exactly when their keyword lists have the same length and the same keyword at every position |
| UniqueList.Add | src/test/java/seedu/address/model/AddressBookTest.java:79-91 | add fails with the duplicate error exactly when an equivalent entry exists; otherwise it appends at the end and uniqueness is kept |
| UniqueList.FirstIndex | src/test/java/seedu/address/logic/commands/AddTagToEventCommandTest.java:118 | indexOf of a present element is the position of its first occurrence |
| UniqueList.ReplaceFirst | src/test/java/seedu/address/logic/commands/AddTagToEventCommandTest.java:118-122 | set at indexOf puts the replacement at the first occurrence and keeps every other position |
| UniqueList.SetItem | src/test/java/seedu/address/model/AddressBookTest.java:267-281 | replacement fails with not-found exactly when the target is absent, and with the duplicate error exactly when the replacement is equivalent to another entry; otherwise it replaces in place and keeps uniqueness |
| UniqueList.ReplacePreservesUnique | src/test/java/seedu/address/model/AddressBookTest.java:267-281 | replacing an entry with one that collides with no other entry keeps the list unique |
| UniqueList.Remove | src/test/java/seedu/address/model/AddressBookTest.java:227-239 | remove fails with not-found exactly when the element is absent; otherwise the first copy leaves the list and the elements before and after it keep their order |
| UniqueList.RemovePreservesUnique | src/test/java/seedu/address/model/AddressBookTest.java:227-239 | removing from a unique list keeps it unique |
| UniqueList.DeleteAtPreservesUnique | src/test/java/seedu/address/model/AddressBookTest.java:227-239 | deleting any one position of a unique list keeps it unique |
| UniqueList.RemoveLeavesNoDuplicate | src/test/java/seedu/address/model/AddressBookTest.java:227-239 | after removing x from a unique list nothing equivalent to x remains |
| UniqueList.Filter | src/test/java/seedu/address/model/AddressBookTest.java:170-185 | filtering is never longer than the input; every kept entry satisfies the condition and comes from the input, and every input entry satisfying it is kept |
| UniqueList.FilterCount | src/test/java/seedu/address/model/AddressBookTest.java:170-185 | each value satisfying the condition is kept as many times as it occurs in the input, and no other value is kept |
| UniqueList.FilterIsSubsequence | src/test/java/seedu/address/model/AddressBookTest.java:170-185 | the kept entries appear in the same order as in the input |
| UniqueList.FilterSelects | src/test/java/seedu/address/model/AddressBookTest.java:170-185 | counts and order together: filtering selects exactly the entries satisfying the condition, in input order |
| UniqueList.FilterAppend | src/test/java/seedu/address/model/AddressBookTest.java:170-185 | filtering a concatenation is the concatenation of the filtered parts |
| UniqueList.FilterPreservesUnique | src/test/java/seedu/address/model/AddressBookTest.java:170-185 | filtering a unique list keeps it unique |
| UniqueList.OccursOnce | src/test/java/seedu/address/model/AddressBookTest.java:267-281 | in a list unique under an equivalence, an entry equals no entry at any other position |
| Sorting.Insert | src/test/java/seedu/address/model/AddressBookTest.java:206-219 | inserting adds exactly that element, which becomes the head or leaves the old head in front |
| Sorting.InsertKeepsSorted | src/test/java/seedu/address/model/AddressBookTest.java:206-219 | inserting into a sorted list under a total comparator keeps it sorted |
| Sorting.Sort | src/test/java/seedu/address/model/AddressBookTest.java:206-219 | the sorted list is a permutation of the input, and it is in comparator order when the comparator is total |
| Sorting.FilterInsert | src/test/java/seedu/address/model/AddressBookTest.java:206-219 | within a class of mutually tying elements, insertion puts the new element in front of the class members already present and keeps their order |
| Sorting.SortIsStable | src/test/java/seedu/address/model/AddressBookTest.java:206-219 | the sort is stable: the members of a tie class come out in their input order |
| Sorting.TiesKeepInputOrder | src/test/java/seedu/address/model/AddressBookTest.java:206-219 | under a transitive comparator, the elements that tie with any pivot keep their input order after sorting |
| Sorting.SortSwapsPair | src/test/java/seedu/address/model/AddressBookTest.java:206-219 | two elements given out of comparator order come back swapped |
| Sorting.InsertPreservesUnique | src/test/java/seedu/address/model/AddressBookTest.java:206-219 | inserting an element with no equivalent in a unique list keeps the list unique |
| Sorting.SortPreservesUnique | src/test/java/seedu/address/model/AddressBookTest.java:206-219 | sorting never creates a duplicate |
| Persons.SamePersonIgnoresAddressAndTags | src/test/java/seedu/address/model/AddressBookTest.java:85-91 | a copy of a person with another address and other tags is still the same person |
| Persons.SamePersonIsEquivalence | src/test/java/seedu/address/model/AddressBookTest.java:58-67 | the same-person test is reflexive, symmetric and transitive |
| Relationships.SamePairIsEquivalence | src/test/java/seedu/address/model/AddressBookTest.java:128-141 | a relationship with swapped endpoints joins the same pair; pair identity is an equivalence |
| Events.AddContact | src/test/java/seedu/address/model/AddressBookTest.java:233 | a contact is refused exactly when the same person is already on the roster; otherwise it is appended, nothing else changes and the roster stays duplicate-free |
| Events.WithoutContact | src/test/java/seedu/address/model/AddressBookTest.java:227-239 | after stripping p, no contact is the same person as p; every other contact stays with its multiplicity and in its order; no new contact appears; the other fields are unchanged |
| Events.WithAddedTag | src/test/java/seedu/address/logic/commands/AddTagToEventCommandTest.java:51 | withAddedTag fails exactly when the tag is present; otherwise the tag set gains exactly that tag and all other fields are unchanged |
| Events.WithAddedTagTwiceFails | src/test/java/seedu/address/logic/commands/AddTagToEventCommandTest.java:57-76 | adding the same tag a second time is refused |
| AddressBooks.ResetData | src/test/java/seedu/address/model/AddressBookTest.java:51-67 | resetData fails with the duplicate-person error exactly when the incoming persons contain two same persons; otherwise the book equals the new data |
| AddressBooks.ResetDataRejectsEditedCopy | src/test/java/seedu/address/model/AddressBookTest.java:58-67 | a source listing a person and an edited copy of that person is refused |
| AddressBooks.HasPerson | src/test/java/seedu/address/model/AddressBookTest.java:74-91 | hasPerson holds exactly when a stored person has the same name and phone |
| AddressBooks.AddPerson | src/test/java/seedu/address/model/AddressBookTest.java:79-91 | addPerson fails exactly when the book already has the same person; otherwise it appends and keeps the invariant |
| AddressBooks.HasPersonAfterAdd | src/test/java/seedu/address/model/AddressBookTest.java:74-91 | an empty book has nobody; after adding p the book has p and every copy of p with another address or other tags |
| AddressBooks.FindById | src/test/java/seedu/address/model/AddressBookTest.java:193-204 | lookup returns the first person with the id, and nothing exactly when no person has it |
| AddressBooks.GetPersonById | src/test/java/seedu/address/model/AddressBookTest.java:193-204 | getPersonById returns a stored person with that id, or nothing exactly when no stored person has it |
| AddressBooks.GetPersonByIdAfterAdd | src/test/java/seedu/address/model/AddressBookTest.java:193-204 | an empty book finds nobody; after adding p the book finds p by its id |
| AddressBooks.RemovePerson | src/test/java/seedu/address/model/AddressBookTest.java:227-239 | removePerson fails exactly when p is not stored; otherwise the first stored copy of p leaves the person list with the rest in order, each event keeps its position and loses exactly its contacts that are the same person as p, and the relationships become exactly those not involving p, in order and with their multiplicity |
| AddressBooks.RemovePersonKeepsValid | src/test/java/seedu/address/model/AddressBookTest.java:227-239 | the cascade keeps the book's invariant, and the book no longer has p |
| AddressBooks.ByName | src/test/java/seedu/address/model/AddressBookTest.java:215 | comparing persons by name ties exactly when the names are equal, and is negative exactly when the first name precedes the second lexicographically |
| AddressBooks.ByNameIsTotal | src/test/java/seedu/address/model/AddressBookTest.java:215 | comparing persons by name is a total comparator |
| AddressBooks.ByNameIsTransitive | src/test/java/seedu/address/model/AddressBookTest.java:215 | comparing persons by name is transitive |
| AddressBooks.SortPersons | src/test/java/seedu/address/model/AddressBookTest.java:206-219 | sortPersons reorders the persons into comparator order, keeping exactly the same persons, the relationships, the events and the invariant |
| AddressBooks.SortPersonsIsStable | src/test/java/seedu/address/model/AddressBookTest.java:206-219 | sortPersons is stable: persons that tie under the comparator keep the order they had in the book |
| AddressBooks.SortByNameExample | src/test/java/seedu/address/model/AddressBookTest.java:206-219 | Bob added before Alice comes after her once sorted by name |
| AddressBooks.SortByNameIsStable | src/test/java/seedu/address/model/AddressBookTest.java:206-219 | sorting by name keeps persons with the same name in the order they had in the book |
| AddressBooks.HasRelationship | src/test/java/seedu/address/model/AddressBookTest.java:122-141 | a relationship the book has is also found by its (id1, id2, forward name) key |
| AddressBooks.HasRelationshipBetween | src/test/java/seedu/address/model/AddressBookTest.java:150-168 | the key lookup holds exactly when a stored relationship leads from id1 to id2 under that forward name |
| AddressBooks.AddRelationship | src/test/java/seedu/address/model/AddressBookTest.java:128-141 | addRelationship fails exactly when a relationship on the same unordered pair exists; otherwise it appends and keeps the invariant |
| AddressBooks.AddedRelationshipIsFound | src/test/java/seedu/address/model/AddressBookTest.java:128-168 | an added relationship is found both by value and by its (id1, id2, forward name) key |
| AddressBooks.RemoveRelationship | src/test/java/seedu/address/model/AddressBookTest.java:170-191 | removal by key fails with not-found exactly when no relationship has the key; otherwise the relationships become exactly those without the key, in order and with their multiplicity, and the invariant is kept |
| AddressBooks.RemoveAfterAdd | src/test/java/seedu/address/model/AddressBookTest.java:170-185 | a relationship added and then removed by its key is no longer in the book |
| AddressBooks.UpdateRelationship | src/test/java/seedu/address/model/AddressBookTest.java:267-281 | update fails with not-found exactly when the original is absent, and with the duplicate error exactly when the update collides with another relationship; otherwise the update takes the original's place and the invariant holds |
| AddressBooks.UpdateReplacesRelationship | src/test/java/seedu/address/model/AddressBookTest.java:267-281 | in a valid book, after an update the book has the updated relationship and no longer has the original |
| AddressBooks.SetRelationships | src/test/java/seedu/address/model/AddressBookTest.java:283-301 | the bulk replacement is refused exactly when two entries join the same pair; otherwise the list becomes the given one |
| AddressBooks.AddEvent | src/test/java/seedu/address/model/AddressBookTest.java:303-314 | addEvent fails exactly when an equal event is stored; otherwise it appends, and a list of distinct events stays distinct |
| AddressBooks.AddEventRepeatRefused | src/test/java/seedu/address/model/AddressBookTest.java:303-314 | an added event is stored, so adding it again is refused as a duplicate |
| AddressBooks.SetEvent | src/test/java/seedu/address/model/AddressBookTest.java:241-265 | setEvent fails with the illegal-argument error exactly when the original is absent; otherwise the edited event takes the position where the original first occurs, and the length and every other position, including later equal copies, are kept |
| AddressBooks.SetEventUndo | src/test/java/seedu/address/model/AddressBookTest.java:241-254 | editing an event into one not in the book and then back restores the book |
| AddressBooks.SetEventOnSingleEvent | src/test/java/seedu/address/model/AddressBookTest.java:241-254 | a book holding one event, after the edit, holds exactly the edited event |
| AddTagToEvent.UpdateEvent | src/test/java/seedu/address/logic/commands/AddTagToEventCommandTest.java:116-123 | updateEvent puts the updated event where the original first sits and keeps every other position, including later equal copies |
| AddTagToEvent.Execute | src/test/java/seedu/address/logic/commands/AddTagToEventCommandTest.java:33-84 | execute fails with the invalid-index error exactly when the index is past the end, and with the duplicate-tag error exactly when the event already has the tag; otherwise the first position holding that event gets its copy with the tag added and every other position is kept |
| AddTagToEvent.ExecuteOnDistinctEvents | src/test/java/seedu/address/logic/commands/AddTagToEventCommandTest.java:116-123 | when no two events are equal, execute changes exactly the indexed position |
| AddTagToEvent.ExecuteOnSingleEvent | src/test/java/seedu/address/logic/commands/AddTagToEventCommandTest.java:33-76 | on a one-event list the event gains the tag, and the same command run again is refused |
| AddTagToEvent.EmptyListRefusesIndexOne | src/test/java/seedu/address/logic/commands/AddTagToEventCommandTest.java:78-84 | index 1 on an empty event list is refused as an invalid index |

## Left out

- Null arguments are not modelled, because Dafny values are never null. This covers `resetData(null)`, `hasPerson(null)`, the three null arguments of `hasRelationship`, `sortPersons(null)` and the `AddTagToEventCommand` constructor.
- The read-only list views and their `UnsupportedOperationException` are not modelled. The lists are plain immutable sequences.
- `toString`, `hashCode` and user-facing message strings are left out, because they are presentation. Aggregate equality is Dafny's structural equality.
- Command equality (`equals` of `AddTagToEventCommand`) is Dafny's structural datatype equality. "Not equal to null or to another type" cannot be stated, because the types rule such values out.
- Dates are an abstract comparable type. Parsing dates from text belongs to an external collaborator.
- Person and relationship identifiers are given strings, because id allocation happens in the builders.
- `toLowerCase` folds ASCII letters only. Unicode and locale-dependent case mapping is not modelled.
- `Tokens.Trim` strips the characters up to U+0020, as Java's `trim` does. `Tokens.SplitOnSpaces` splits on exactly the six ASCII characters of the `\s` class.
- The same-person test is name plus phone. The Person class is not part of this model, so this choice is an assumption.
- The events list stays as returned by the model. The command's filtered event list is taken to be the whole list, because the filter is not part of this model.
- AddressBooks.HasRelationshipBetween and AddressBooks.RemoveRelationship match the forward orientation only. A reversed-order lookup is not exercised by the tests and is not modelled.
- AddressBooks.RemovePerson removes the first stored person equal to `p` and drops relationships by `p`'s id. The relationship half of the cascade is an assumption of the model; the tests check only the event half.
- AddressBooks.Valid does not require distinct events. Stripping a removed person from rosters can make two events equal, and the source performs no check there.
- AddressBooks.SortPersons requires a total comparator. Exceptions thrown by a Java comparator that breaks its contract are not modelled.
- AddressBooks.SetEvent and AddTagToEvent.UpdateEvent find the original by value equality, not by object identity.
- AddTagToEvent.UpdateEvent models the test stub's `updateEvent`. The stub's assertion error for a missing event cannot occur here, because execute always passes an event taken from the list.
- Strings are sequences of Unicode code points, while Java strings are sequences of UTF-16 code units. Outside the Basic Multilingual Plane, `Text.CompareStrings` can order two strings differently from `compareTo`, and `Text.IndexOf` positions differ from Java's.
- Text.IndexFrom models the scan behind `indexOf(needle)` and `contains`, which always start at 0. The `indexOf(needle, from)` overload is not modelled: for an empty needle and a start past the end it returns -1, where Java returns the length.
- Relationships.SamePair: two relationships are taken to be duplicates exactly when they join the same unordered pair of persons. The Relationship class is not part of this model, so this rule is an assumption. AddressBooks.AddRelationship, AddressBooks.UpdateRelationship, AddressBooks.SetRelationships and AddressBooks.Valid rest on it.
