/** Persons and tags. A person is replaced as a whole when edited, so it is an
    immutable value. */
module Persons {

  /** The identifier a person is given when created; only compared. */
  type PersonId = string

  datatype Tag = Tag(tagName: string)

  datatype Person = Person(
    id: PersonId,
    name: string,
    phone: string,
    social: string,
    address: string,
    tags: set<Tag>)

  /** The looser "same person" test used for duplicate detection: it
      compares the identity fields, name and phone, and ignores everything
      else. */
  predicate SamePerson(a: Person, b: Person) {
    a.name == b.name && a.phone == b.phone
  }

  /** Editing the address or the tags never makes a different person. */
  lemma SamePersonIgnoresAddressAndTags(p: Person, address: string, tags: set<Tag>)
    ensures SamePerson(p, p.(address := address, tags := tags))
    ensures SamePerson(p.(address := address, tags := tags), p)
  {
  }

  /** SamePerson is reflexive, symmetric and transitive. */
  lemma SamePersonIsEquivalence()
    ensures forall a :: SamePerson(a, a)
    ensures forall a, b :: SamePerson(a, b) ==> SamePerson(b, a)
    ensures forall a, b, c :: SamePerson(a, b) && SamePerson(b, c) ==> SamePerson(a, c)
  {
  }
}
