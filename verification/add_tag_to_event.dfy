/** AddTagToEventCommand: adds one tag to the event shown at a one-based
    position of the event list. */
module AddTagToEvent {
  import opened Results
  import opened Persons
  import opened Events
  import opened UniqueList

  /** A one-based list position, as Index.fromOneBased produces it. */
  type OneBasedIndex = n: int | n >= 1 witness 1

  datatype AddTagToEventCommand = AddTagToEventCommand(index: OneBasedIndex, tag: Tag)

  datatype CommandError = InvalidEventIndex | TagAlreadyPresent

  /** The model's updateEvent: the edited event takes the place where the
      original sits (its first occurrence); every other position keeps its
      event. */
  function UpdateEvent(events: seq<Event>, original: Event, updated: Event): (r: seq<Event>)
    requires original in events
    ensures |r| == |events|
    ensures r[FirstIndex(events, original)] == updated
    ensures forall j :: 0 <= j < |events| && j != FirstIndex(events, original) ==> r[j] == events[j]
  {
    ReplaceFirst(events, original, updated)
  }

  /** execute: an index past the end of the list, or a tag the event already
      carries, is refused; otherwise the event at the index is replaced by
      the event with the tag added. */
  function Execute(cmd: AddTagToEventCommand, events: seq<Event>): (r: Result<seq<Event>, CommandError>)
    ensures cmd.index > |events| ==> r == Failure(InvalidEventIndex)
    ensures cmd.index <= |events| ==> (r.Failure? <==> cmd.tag in events[cmd.index - 1].tags)
    ensures cmd.index <= |events| && r.Failure? ==> r.error == TagAlreadyPresent
    ensures r.Success? ==> cmd.index <= |events| && |r.value| == |events|
    ensures r.Success? ==> var e := events[cmd.index - 1];
      && r.value[FirstIndex(events, e)].tags == e.tags + {cmd.tag}
      && r.value[FirstIndex(events, e)].(tags := e.tags) == e
      && forall j :: 0 <= j < |events| && j != FirstIndex(events, e) ==> r.value[j] == events[j]
  {
    if cmd.index > |events| then Failure(InvalidEventIndex)
    else
      var e := events[cmd.index - 1];
      match WithAddedTag(e, cmd.tag)
      case Failure(_) => Failure(TagAlreadyPresent)
      case Success(updated) => Success(UpdateEvent(events, e, updated))
  }

  /** When no two events are equal, exactly the indexed position changes: the
      result is the list with that one event given the tag. */
  lemma ExecuteOnDistinctEvents(cmd: AddTagToEventCommand, events: seq<Event>)
    requires Unique(events, (a: Event, b: Event) => a == b)
    requires Execute(cmd, events).Success?
    ensures var e := events[cmd.index - 1];
      Execute(cmd, events).value == events[cmd.index - 1 := e.(tags := e.tags + {cmd.tag})]
  {
    var k := cmd.index - 1;
    OccursOnce(events, k, (a: Event, b: Event) => a == b);
    assert events[FirstIndex(events, events[k])] == events[k];
  }

  /** A one-event list whose event lacks the tag: the event is replaced by
      its copy carrying the tag; run again, the same command is refused. */
  lemma ExecuteOnSingleEvent(e: Event, tag: Tag)
    requires tag !in e.tags
    ensures Execute(AddTagToEventCommand(1, tag), [e]) == Success([e.(tags := e.tags + {tag})])
    ensures Execute(AddTagToEventCommand(1, tag), [e.(tags := e.tags + {tag})]) == Failure(TagAlreadyPresent)
  {
    var r := Execute(AddTagToEventCommand(1, tag), [e]).value;
    assert FirstIndex([e], e) == 0;
    assert r[0] == e.(tags := e.tags + {tag});
    assert r == [e.(tags := e.tags + {tag})];
  }

  /** Adding a tag to an empty list fails: index 1 is out of range. */
  lemma EmptyListRefusesIndexOne(tag: Tag)
    ensures Execute(AddTagToEventCommand(1, tag), []) == Failure(InvalidEventIndex)
  {
  }
}
