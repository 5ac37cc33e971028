/** Events: a title, a date, optional location and description, a tag set,
    and a roster of contacts kept free of duplicate persons. */
module Events {
  import opened Results
  import opened Persons
  import opened UniqueList

  /** A date and time, produced by a date-parsing collaborator that is not
      part of this model; events only compare it. */
  type DateTime(==, !new)

  datatype Event = Event(
    title: string,
    date: DateTime,
    location: Option<string>,
    description: Option<string>,
    tags: set<Tag>,
    contacts: seq<Person>)

  datatype EventError = DuplicateContact | DuplicateTag

  /** Event.addContact: the roster rejects a person it already holds (by the
      same-person test) and otherwise grows by that person at the end;
      nothing else about the event changes. */
  function AddContact(e: Event, p: Person): (r: Result<Event, EventError>)
    ensures r.Failure? <==> Contains(e.contacts, p, SamePerson)
    ensures r.Success? ==> r.value.contacts == e.contacts + [p] && r.value.(contacts := e.contacts) == e
    ensures r.Success? && Unique(e.contacts, SamePerson) ==> Unique(r.value.contacts, SamePerson)
  {
    match Add(e.contacts, p, SamePerson)
    case Failure(_) => Failure(DuplicateContact)
    case Success(contacts) =>
      assert contacts == e.contacts + [p];
      Success(e.(contacts := contacts))
  }

  /** The cascade step of removePerson: the event with every contact that is
      the same person as p taken off its roster, every copy of every other
      contact kept in its order, and nothing else changed. */
  function WithoutContact(e: Event, p: Person): (r: Event)
    ensures r.(contacts := e.contacts) == e
    ensures !Contains(r.contacts, p, SamePerson)
    ensures forall i :: 0 <= i < |e.contacts| && !SamePerson(e.contacts[i], p) ==> e.contacts[i] in r.contacts
    ensures forall c :: c in r.contacts ==> c in e.contacts
    ensures forall i :: 0 <= i < |e.contacts| ==>
      multiset(r.contacts)[e.contacts[i]] == if SamePerson(e.contacts[i], p) then 0 else multiset(e.contacts)[e.contacts[i]]
    ensures IsSubsequence(r.contacts, e.contacts)
    ensures Unique(e.contacts, SamePerson) ==> Unique(r.contacts, SamePerson)
  {
    var keep := c => !SamePerson(c, p);
    FilterPreservesUnique(e.contacts, keep, SamePerson);
    FilterSelects(e.contacts, keep);
    e.(contacts := Filter(e.contacts, keep))
  }

  /** Event.withAddedTag: a new event whose tag set is the old one plus tag,
      all other fields unchanged; refused when the tag is already there. */
  function WithAddedTag(e: Event, tag: Tag): (r: Result<Event, EventError>)
    ensures r.Failure? <==> tag in e.tags
    ensures r.Failure? ==> r.error == DuplicateTag
    ensures r.Success? ==> r.value.tags == e.tags + {tag} && tag !in e.tags
    ensures r.Success? ==> r.value.(tags := e.tags) == e
  {
    if tag in e.tags then Failure(DuplicateTag) else Success(e.(tags := e.tags + {tag}))
  }

  /** Adding the same tag a second time is refused. */
  lemma WithAddedTagTwiceFails(e: Event, tag: Tag)
    requires WithAddedTag(e, tag).Success?
    ensures WithAddedTag(WithAddedTag(e, tag).value, tag) == Failure(DuplicateTag)
  {
  }
}
