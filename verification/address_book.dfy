/** The AddressBook aggregate: three ordered lists (persons, relationships,
    events) and the operations that keep them consistent with each other. */
module AddressBooks {
  import opened Results
  import Text
  import opened Persons
  import opened Relationships
  import opened Events
  import opened UniqueList
  import opened Sorting

  datatype AddressBook = AddressBook(
    persons: seq<Person>,
    relationships: seq<Relationship>,
    events: seq<Event>)

  datatype BookError =
    | DuplicatePerson
    | PersonNotFound
    | DuplicateRelationship
    | RelationshipNotFound
    | DuplicateEvent
    | IllegalArgument

  /** A new book holds nothing. */
  const Empty := AddressBook([], [], [])

  /** The book's invariant: no two persons are the same person, and no two
      relationships join the same pair of persons. */
  predicate Valid(ab: AddressBook) {
    Unique(ab.persons, SamePerson) && Unique(ab.relationships, SamePair)
  }

  /** Two events are duplicates when they are equal in every field: Dafny's
      == as a function value, since the unique list takes its duplicate test
      as a parameter. */
  predicate SameEvent(a: Event, b: Event) {
    a == b
  }

  lemma SamePersonSymmetric()
    ensures forall a, b :: SamePerson(a, b) ==> SamePerson(b, a)
  {
    SamePersonIsEquivalence();
  }

  lemma SamePairIsEquivalenceFact()
    ensures IsEquivalence(SamePair)
  {
    var r: Relationship :| true;
    SamePairIsEquivalence(r);
  }

  // ------------------------------------------------------------ persons

  /** resetData: the book becomes a copy of the source, whose persons must be
      free of duplicates; the book's previous contents play no part. */
  function ResetData(newData: AddressBook): (r: Result<AddressBook, BookError>)
    ensures r.Failure? <==> !Unique(newData.persons, SamePerson)
    ensures r.Failure? ==> r.error == DuplicatePerson
    ensures r.Success? ==> r.value == newData
    ensures r.Success? && Unique(newData.relationships, SamePair) ==> Valid(r.value)
  {
    if Unique(newData.persons, SamePerson) then Success(newData) else Failure(DuplicatePerson)
  }

  /** A source listing a person together with an edited copy of them (other
      address, other tags) is refused. */
  lemma ResetDataRejectsEditedCopy(p: Person, address: string, tags: set<Tag>, rs: seq<Relationship>, es: seq<Event>)
    ensures ResetData(AddressBook([p, p.(address := address, tags := tags)], rs, es)) == Failure(DuplicatePerson)
  {
    var s := [p, p.(address := address, tags := tags)];
    assert SamePerson(s[0], s[1]);
  }

  /** hasPerson: some stored person is the same person as p, that is, has
      p's name and phone. */
  predicate HasPerson(ab: AddressBook, p: Person): (b: bool)
    ensures b <==> exists q :: q in ab.persons && q.name == p.name && q.phone == p.phone
  {
    Contains(ab.persons, p, SamePerson)
  }

  /** addPerson: refuses a person the book already has; otherwise appends it
      and leaves relationships and events alone. */
  function AddPerson(ab: AddressBook, p: Person): (r: Result<AddressBook, BookError>)
    ensures r.Failure? <==> HasPerson(ab, p)
    ensures r.Failure? ==> r.error == DuplicatePerson
    ensures r.Success? ==> r.value == ab.(persons := ab.persons + [p])
    ensures r.Success? && Valid(ab) ==> Valid(r.value)
  {
    match Add(ab.persons, p, SamePerson)
    case Failure(_) => Failure(DuplicatePerson)
    case Success(persons) =>
      assert persons == ab.persons + [p];
      Success(ab.(persons := persons))
  }

  /** An empty book has nobody; after adding p it has p and every edit of p
      that only changes the address or the tags. */
  lemma HasPersonAfterAdd(p: Person, address: string, tags: set<Tag>)
    ensures !HasPerson(Empty, p)
    ensures AddPerson(Empty, p).Success?
    ensures HasPerson(AddPerson(Empty, p).value, p)
    ensures HasPerson(AddPerson(Empty, p).value, p.(address := address, tags := tags))
  {
    var b := AddPerson(Empty, p).value;
    assert b.persons[0] == p;
    SamePersonIgnoresAddressAndTags(p, address, tags);
  }

  /** The first stored person with the given id, if any. */
  function FindById(persons: seq<Person>, id: PersonId): (r: Option<Person>)
    ensures r.None? <==> forall i :: 0 <= i < |persons| ==> persons[i].id != id
    ensures r.Some? ==> r.value.id == id
    ensures r.Some? ==> exists k :: (0 <= k < |persons| && persons[k] == r.value
      && forall j :: 0 <= j < k ==> persons[j].id != id)
  {
    if persons == [] then None
    else if persons[0].id == id then Some(persons[0])
    else
      var r := FindById(persons[1..], id);
      if r.Some? then
        var k :| 0 <= k < |persons[1..]| && persons[1..][k] == r.value
          && forall j :: 0 <= j < k ==> persons[1..][j].id != id;
        assert persons[k + 1] == r.value;
        r
      else r
  }

  /** getPersonById: the stored person with that id, or nothing (the source's
      null) when nobody has it. */
  function GetPersonById(ab: AddressBook, id: PersonId): (r: Option<Person>)
    ensures r.None? <==> forall i :: 0 <= i < |ab.persons| ==> ab.persons[i].id != id
    ensures r.Some? ==> r.value in ab.persons && r.value.id == id
  {
    FindById(ab.persons, id)
  }

  /** An empty book finds nobody by id; after adding p it finds p by p's id. */
  lemma GetPersonByIdAfterAdd(p: Person, other: PersonId)
    ensures GetPersonById(Empty, other) == None
    ensures AddPerson(Empty, p).Success?
    ensures GetPersonById(AddPerson(Empty, p).value, p.id) == Some(p)
  {
    var b := AddPerson(Empty, p).value;
    assert b.persons == [p];
    assert b.persons[1..] == [];
  }

  /** removePerson: takes p off the person list, strips everyone who is the
      same person as p from every event's roster (the events stay, in place),
      and drops every relationship that has p as an endpoint. */
  function RemovePerson(ab: AddressBook, p: Person): (r: Result<AddressBook, BookError>)
    ensures r.Failure? <==> p !in ab.persons
    ensures r.Failure? ==> r.error == PersonNotFound
    ensures r.Success? ==> multiset(r.value.persons) == multiset(ab.persons) - multiset{p}
    ensures r.Success? ==> r.value.persons == Remove(ab.persons, p).value
    ensures r.Success? ==> |r.value.events| == |ab.events|
    ensures r.Success? ==> forall i :: 0 <= i < |ab.events| ==> r.value.events[i] == WithoutContact(ab.events[i], p)
    ensures r.Success? ==> forall i :: 0 <= i < |ab.events| ==>
      && r.value.events[i].(contacts := ab.events[i].contacts) == ab.events[i]
      && !Contains(r.value.events[i].contacts, p, SamePerson)
    ensures r.Success? ==> forall rel :: rel in r.value.relationships ==>
      rel in ab.relationships && !Involves(rel, p.id)
    ensures r.Success? ==> forall rel :: rel in ab.relationships && !Involves(rel, p.id) ==>
      rel in r.value.relationships
    ensures r.Success? ==> IsSubsequence(r.value.relationships, ab.relationships)
    ensures r.Success? ==> r.value.relationships == Filter(ab.relationships, NotInvolving(p.id))
    ensures r.Success? && Valid(ab) ==> Valid(r.value) && !HasPerson(r.value, p)
  {
    match Remove(ab.persons, p)
    case Failure(_) => Failure(PersonNotFound)
    case Success(persons) =>
      var events := seq(|ab.events|, i requires 0 <= i < |ab.events| => WithoutContact(ab.events[i], p));
      var keep := NotInvolving(p.id);
      var relationships := Filter(ab.relationships, keep);
      FilterSelects(ab.relationships, keep);
      var b := AddressBook(persons, relationships, events);
      RemovePersonKeepsValid(ab, p, b);
      Success(b)
  }

  /** The relationships removePerson keeps: those without id as an endpoint. */
  function NotInvolving(id: PersonId): Relationship -> bool {
    rel => !Involves(rel, id)
  }

  lemma RemovePersonKeepsValid(ab: AddressBook, p: Person, b: AddressBook)
    requires Remove(ab.persons, p).Success? && b.persons == Remove(ab.persons, p).value
    requires b.relationships == Filter(ab.relationships, NotInvolving(p.id))
    ensures Valid(ab) ==> Valid(b) && !HasPerson(b, p)
  {
    if Valid(ab) {
      RemovePreservesUnique(ab.persons, p, SamePerson);
      FilterPreservesUnique(ab.relationships, NotInvolving(p.id), SamePair);
      SamePersonSymmetric();
      RemoveLeavesNoDuplicate(ab.persons, p, SamePerson);
    }
  }

  /** Orders persons by name, as String.compareTo orders the names: two
      persons tie exactly when their names are equal. */
  function ByName(a: Person, b: Person): (r: int)
    ensures r == 0 <==> a.name == b.name
    ensures r < 0 <==> Text.LexLess(a.name, b.name)
  {
    Text.CompareStringsIsLexicographic(a.name, b.name);
    Text.CompareStrings(a.name, b.name)
  }

  lemma ByNameIsTotal()
    ensures IsTotal(ByName)
  {
    forall a: Person, b: Person ensures ByName(a, b) <= 0 || ByName(b, a) <= 0 {
      Text.CompareStringsAntisymmetric(a.name, b.name);
    }
  }

  lemma ByNameIsTransitive()
    ensures IsTransitive(ByName)
  {
    forall a: Person, b: Person, c: Person | ByName(a, b) <= 0 && ByName(b, c) <= 0
      ensures ByName(a, c) <= 0
    {
      Text.CompareStringsTransitive(a.name, b.name, c.name);
    }
  }

  /** sortPersons: the person list reordered by the comparator, holding the
      same persons as before; relationships and events are untouched and no
      duplicate appears. */
  function SortPersons(ab: AddressBook, cmp: (Person, Person) -> int): (r: AddressBook)
    requires IsTotal(cmp)
    ensures multiset(r.persons) == multiset(ab.persons)
    ensures Sorted(r.persons, cmp)
    ensures r.relationships == ab.relationships && r.events == ab.events
    ensures Valid(ab) ==> Valid(r)
  {
    SamePersonSymmetric();
    SortPreservesUnique(ab.persons, cmp, SamePerson);
    ab.(persons := Sort(ab.persons, cmp))
  }

  /** The sort is stable: under a transitive comparator, persons that tie
      with any pivot keep the order they had in the book. */
  lemma SortPersonsIsStable(ab: AddressBook, cmp: (Person, Person) -> int, pivot: Person)
    requires IsTotal(cmp) && IsTransitive(cmp)
    ensures Filter(SortPersons(ab, cmp).persons, TiesWith(cmp, pivot)) == Filter(ab.persons, TiesWith(cmp, pivot))
  {
    TiesKeepInputOrder(ab.persons, cmp, pivot);
  }

  /** Sorting by name keeps persons of the same name in book order. */
  lemma SortByNameIsStable(ab: AddressBook, pivot: Person)
    ensures IsTotal(ByName)
    ensures Filter(SortPersons(ab, ByName).persons, TiesWith(ByName, pivot)) == Filter(ab.persons, TiesWith(ByName, pivot))
  {
    ByNameIsTotal();
    ByNameIsTransitive();
    SortPersonsIsStable(ab, ByName, pivot);
  }

  /** Bob added before Alice comes after her once sorted by name. */
  lemma SortByNameExample(alice: Person, bob: Person)
    requires alice.name == "Alice" && bob.name == "Bob"
    ensures IsTotal(ByName)
    ensures SortPersons(AddressBook([bob, alice], [], []), ByName).persons == [alice, bob]
  {
    SortBobAlice(alice, bob);
    ByNameIsTotal();
    SortPersonsSortsPersons(AddressBook([bob, alice], [], []), ByName);
  }

  lemma SortBobAlice(alice: Person, bob: Person)
    requires alice.name == "Alice" && bob.name == "Bob"
    ensures Sort([bob, alice], ByName) == [alice, bob]
  {
    assert ByName(bob, alice) > 0 by {
      assert bob.name[0] == 'B' && alice.name[0] == 'A';
    }
    SortSwapsPair(bob, alice, ByName);
  }

  lemma SortPersonsSortsPersons(ab: AddressBook, cmp: (Person, Person) -> int)
    requires IsTotal(cmp)
    ensures SortPersons(ab, cmp).persons == Sort(ab.persons, cmp)
  {
  }

  // ------------------------------------------------------------ relationships

  /** hasRelationship(r): that very relationship is stored; then it is also
      found by its (id1, id2, forward name) key. */
  predicate HasRelationship(ab: AddressBook, rel: Relationship): (b: bool)
    ensures b ==> HasRelationshipBetween(ab, rel.user1Id, rel.user2Id, rel.forwardName)
  {
    rel in ab.relationships
  }

  /** hasRelationship(id1, id2, name): some stored relationship leads from id1
      to id2 under the forward name. */
  predicate HasRelationshipBetween(ab: AddressBook, id1: PersonId, id2: PersonId, name: string): (b: bool)
    ensures b <==> exists rel :: rel in ab.relationships && rel.user1Id == id1 && rel.user2Id == id2 && rel.forwardName == name
  {
    exists i :: 0 <= i < |ab.relationships| && MatchesTriple(ab.relationships[i], id1, id2, name)
  }

  /** addRelationship: refused when a relationship between the same two
      persons exists (in either order); otherwise appended. */
  function AddRelationship(ab: AddressBook, rel: Relationship): (r: Result<AddressBook, BookError>)
    ensures r.Failure? <==> Contains(ab.relationships, rel, SamePair)
    ensures r.Failure? ==> r.error == DuplicateRelationship
    ensures r.Success? ==> r.value == ab.(relationships := ab.relationships + [rel])
    ensures r.Success? && Valid(ab) ==> Valid(r.value)
  {
    match Add(ab.relationships, rel, SamePair)
    case Failure(_) => Failure(DuplicateRelationship)
    case Success(rels) =>
      assert rels == ab.relationships + [rel];
      Success(ab.(relationships := rels))
  }

  /** After adding a relationship it is found, both by value and by its
      (id1, id2, forward name) key. */
  lemma AddedRelationshipIsFound(ab: AddressBook, rel: Relationship)
    requires AddRelationship(ab, rel).Success?
    ensures HasRelationship(AddRelationship(ab, rel).value, rel)
    ensures HasRelationshipBetween(AddRelationship(ab, rel).value, rel.user1Id, rel.user2Id, rel.forwardName)
  {
    var b := AddRelationship(ab, rel).value;
    assert b.relationships[|ab.relationships|] == rel;
  }

  /** removeRelationship(id1, id2, name): refused when no relationship has
      that key; otherwise the matching relationships go and all others stay
      in order. */
  function RemoveRelationship(ab: AddressBook, id1: PersonId, id2: PersonId, name: string): (r: Result<AddressBook, BookError>)
    ensures r.Failure? <==> !HasRelationshipBetween(ab, id1, id2, name)
    ensures r.Failure? ==> r.error == RelationshipNotFound
    ensures r.Success? ==> !HasRelationshipBetween(r.value, id1, id2, name)
    ensures r.Success? ==> forall rel :: rel in r.value.relationships ==> rel in ab.relationships
    ensures r.Success? ==> forall rel :: rel in ab.relationships && !MatchesTriple(rel, id1, id2, name) ==>
      rel in r.value.relationships
    ensures r.Success? ==> IsSubsequence(r.value.relationships, ab.relationships)
    ensures r.Success? ==> r.value.relationships == Filter(ab.relationships, NotMatching(id1, id2, name))
    ensures r.Success? ==> r.value.persons == ab.persons && r.value.events == ab.events
    ensures r.Success? && Valid(ab) ==> Valid(r.value)
  {
    if !HasRelationshipBetween(ab, id1, id2, name) then Failure(RelationshipNotFound)
    else
      var keep := NotMatching(id1, id2, name);
      FilterPreservesUnique(ab.relationships, keep, SamePair);
      FilterSelects(ab.relationships, keep);
      Success(ab.(relationships := Filter(ab.relationships, keep)))
  }

  /** The relationships removeRelationship keeps: those without the key. */
  function NotMatching(id1: PersonId, id2: PersonId, name: string): Relationship -> bool {
    rel => !MatchesTriple(rel, id1, id2, name)
  }

  /** Adding a relationship and removing it by its key leaves it absent. */
  lemma RemoveAfterAdd(ab: AddressBook, rel: Relationship)
    requires AddRelationship(ab, rel).Success?
    ensures var b := AddRelationship(ab, rel).value;
      && RemoveRelationship(b, rel.user1Id, rel.user2Id, rel.forwardName).Success?
      && !HasRelationship(RemoveRelationship(b, rel.user1Id, rel.user2Id, rel.forwardName).value, rel)
  {
    AddedRelationshipIsFound(ab, rel);
  }

  /** updateRelationship: original must be stored, and updated must not join
      the same pair as any other stored relationship; updated then takes
      original's place. */
  function UpdateRelationship(ab: AddressBook, original: Relationship, updated: Relationship): (r: Result<AddressBook, BookError>)
    ensures original !in ab.relationships ==> r == Failure(RelationshipNotFound)
    ensures original in ab.relationships ==>
      (r.Failure? <==> CollidesElsewhere(ab.relationships, FirstIndex(ab.relationships, original), updated, SamePair))
    ensures r.Failure? ==> (r.error == RelationshipNotFound <==> original !in ab.relationships)
    ensures r.Failure? ==> r.error == RelationshipNotFound || r.error == DuplicateRelationship
    ensures r.Success? ==> r.value == ab.(relationships := ReplaceFirst(ab.relationships, original, updated))
    ensures r.Success? && Valid(ab) ==> Valid(r.value)
  {
    SamePairIsEquivalenceFact();
    match SetItem(ab.relationships, original, updated, SamePair)
    case Failure(e) => if e == EntryNotFound then Failure(RelationshipNotFound) else Failure(DuplicateRelationship)
    case Success(rels) => Success(ab.(relationships := rels))
  }

  /** In a valid book, after an update the new relationship is stored and the
      old one is gone, even when both join the same two persons. */
  lemma UpdateReplacesRelationship(ab: AddressBook, original: Relationship, updated: Relationship)
    requires Valid(ab) && UpdateRelationship(ab, original, updated).Success? && original != updated
    ensures HasRelationship(UpdateRelationship(ab, original, updated).value, updated)
    ensures !HasRelationship(UpdateRelationship(ab, original, updated).value, original)
  {
    var rels := ab.relationships;
    var k := FirstIndex(rels, original);
    var b := UpdateRelationship(ab, original, updated).value;
    assert b.relationships[k] == updated;
    SamePairIsEquivalence(original);
    OccursOnce(rels, k, SamePair);
    forall j | 0 <= j < |rels| ensures b.relationships[j] != original {
      if j != k {
        assert b.relationships[j] == rels[j];
      }
    }
  }

  /** setRelationships: replaces the whole list, refusing a list in which two
      relationships join the same pair. */
  function SetRelationships(ab: AddressBook, rels: seq<Relationship>): (r: Result<AddressBook, BookError>)
    ensures r.Failure? <==> !Unique(rels, SamePair)
    ensures r.Failure? ==> r.error == DuplicateRelationship
    ensures r.Success? ==> r.value == ab.(relationships := rels)
    ensures r.Success? && Unique(ab.persons, SamePerson) ==> Valid(r.value)
  {
    if Unique(rels, SamePair) then Success(ab.(relationships := rels)) else Failure(DuplicateRelationship)
  }

  // ------------------------------------------------------------ events

  /** addEvent: refuses an event equal to a stored one; otherwise appends. */
  function AddEvent(ab: AddressBook, e: Event): (r: Result<AddressBook, BookError>)
    ensures r.Failure? <==> e in ab.events
    ensures r.Failure? ==> r.error == DuplicateEvent
    ensures r.Success? ==> r.value == ab.(events := ab.events + [e])
    ensures r.Success? && Unique(ab.events, SameEvent) ==> Unique(r.value.events, SameEvent)
  {
    match Add(ab.events, e, SameEvent)
    case Failure(_) => Failure(DuplicateEvent)
    case Success(events) =>
      assert events == ab.events + [e];
      Success(ab.(events := events))
  }

  /** An added event is stored, so adding it a second time is refused. */
  lemma AddEventRepeatRefused(ab: AddressBook, e: Event)
    requires AddEvent(ab, e).Success?
    ensures e in AddEvent(ab, e).value.events
    ensures AddEvent(AddEvent(ab, e).value, e) == Failure(DuplicateEvent)
  {
    assert AddEvent(ab, e).value.events[|ab.events|] == e;
  }

  /** setEvent: refused with an illegal-argument error when original is not
      stored; otherwise edited takes original's position, the list keeps its
      length and every other position its event. */
  function SetEvent(ab: AddressBook, original: Event, edited: Event): (r: Result<AddressBook, BookError>)
    ensures r.Failure? <==> original !in ab.events
    ensures r.Failure? ==> r.error == IllegalArgument
    ensures r.Success? ==> |r.value.events| == |ab.events|
    ensures r.Success? ==> r.value.events[FirstIndex(ab.events, original)] == edited
    ensures r.Success? ==> forall j :: 0 <= j < |ab.events| && j != FirstIndex(ab.events, original) ==>
      r.value.events[j] == ab.events[j]
    ensures r.Success? ==> r.value.persons == ab.persons && r.value.relationships == ab.relationships
  {
    if original !in ab.events then Failure(IllegalArgument)
    else Success(ab.(events := ReplaceFirst(ab.events, original, edited)))
  }

  /** Editing an event into one the book does not hold, and then editing it
      back, restores the book. */
  lemma SetEventUndo(ab: AddressBook, original: Event, edited: Event)
    requires original in ab.events && edited !in ab.events
    ensures SetEvent(ab, original, edited).Success?
    ensures var b := SetEvent(ab, original, edited).value;
      SetEvent(b, edited, original) == Success(ab)
  {
    var k := FirstIndex(ab.events, original);
    var b := SetEvent(ab, original, edited).value;
    assert b.events[k] == edited;
    assert FirstIndex(b.events, edited) == k by {
      forall j | 0 <= j < k ensures b.events[j] != edited {
        assert b.events[j] == ab.events[j];
      }
    }
    var c := SetEvent(b, edited, original).value;
    assert c.events == ab.events by {
      forall j | 0 <= j < |ab.events| ensures c.events[j] == ab.events[j] {
        if j != k {
          assert b.events[j] == ab.events[j];
        }
      }
    }
  }

  /** A book holding one event, edited, holds exactly the edited event. */
  lemma SetEventOnSingleEvent(original: Event, edited: Event)
    ensures AddEvent(Empty, original).Success?
    ensures var b := AddEvent(Empty, original).value;
      && SetEvent(b, original, edited).Success?
      && SetEvent(b, original, edited).value.events == [edited]
  {
    var b := AddEvent(Empty, original).value;
    assert b.events[0] == original;
  }
}
