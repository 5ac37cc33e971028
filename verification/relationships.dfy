/** Relationships between two persons, read forward (first to second) under
    one name and in reverse under another, with a tag set. */
module Relationships {
  import opened Persons

  datatype Relationship = Relationship(
    user1Id: PersonId,
    user2Id: PersonId,
    forwardName: string,
    reverseName: string,
    tags: set<Tag>)

  /** Both relationships join the same two persons, in either order: the
      pair identity under which a book keeps at most one relationship. */
  predicate SamePair(a: Relationship, b: Relationship) {
    || (a.user1Id == b.user1Id && a.user2Id == b.user2Id)
    || (a.user1Id == b.user2Id && a.user2Id == b.user1Id)
  }

  /** The person with this id is one of the two endpoints. */
  predicate Involves(r: Relationship, id: PersonId) {
    r.user1Id == id || r.user2Id == id
  }

  /** The lookup key (id1, id2, name) of hasRelationship and
      removeRelationship, read in the forward direction. */
  predicate MatchesTriple(r: Relationship, id1: PersonId, id2: PersonId, name: string) {
    r.user1Id == id1 && r.user2Id == id2 && r.forwardName == name
  }

  /** Swapping the endpoints keeps the pair, and SamePair is an equivalence. */
  lemma SamePairIsEquivalence(r: Relationship)
    ensures SamePair(r, r.(user1Id := r.user2Id, user2Id := r.user1Id))
    ensures forall a :: SamePair(a, a)
    ensures forall a, b :: SamePair(a, b) ==> SamePair(b, a)
    ensures forall a, b, c :: SamePair(a, b) && SamePair(b, c) ==> SamePair(a, c)
  {
  }
}
