/** The event document and the in-memory collection that stands for the
    Mongo `Event` collection. Identifiers and timestamps are integers. */
module EventModel {
  import opened Seqs

  type EventId = int
  type UserId = int

  datatype Option<T> = None | Some(value: T)

  /** One stored event. `createdBy` and `attendees` hold user ids (the
      routes resolve them to names and e-mails only for display). A `date` or
      `capacity` that the create request left out is absent from the document,
      which is `None` here. */
  datatype Event = Event(
    id: EventId,
    title: string,
    description: string,
    date: Option<int>,
    location: string,
    capacity: Option<int>,
    category: string,
    imageUrl: string,
    createdBy: UserId,
    attendees: seq<UserId>)

  /** The seven fields a create or update request may carry. A text field
      the request leaves out is `""`. A left-out `date` or `capacity` is
      `None`, and so is an empty date string; a date that is present is a
      non-empty string and therefore truthy, whatever instant it names. */
  datatype Body = Body(
    title: string,
    description: string,
    date: Option<int>,
    location: string,
    capacity: Option<int>,
    category: string,
    imageUrl: string)

  /** The membership test of Join: some attendee id equals the user id. */
  function HasAttendee(attendees: seq<UserId>, user: UserId): (b: bool)
    ensures b <==> user in attendees
  {
    if attendees == [] then false
    else attendees[0] == user || HasAttendee(attendees[1..], user)
  }

  /** No seat is left: as many attendees as the capacity, or more. A number
      compared with an absent capacity is never `>=` it, so an event without
      a capacity is never full. */
  predicate IsFull(e: Event)
  {
    e.capacity.Some? && |e.attendees| >= e.capacity.value
  }

  /** The capacity bound that the membership operations keep; an event
      without a capacity has no bound. */
  predicate WithinCapacity(e: Event)
  {
    e.capacity.None? || |e.attendees| <= e.capacity.value
  }

  /** The in-memory event collection. */
  class EventStore {
    var events: map<EventId, Event>
    var nextId: EventId

    /** Every document is stored under its own id, ids below `nextId` are the
        only ones ever handed out, and no attendee list holds a user twice. */
    ghost predicate Valid()
      reads this
    {
      forall id :: id in events ==>
        events[id].id == id && id < nextId && NoDuplicates(events[id].attendees)
    }

    constructor ()
      ensures Valid() && events == map[]
    {
      events := map[];
      nextId := 0;
    }

    /** A document is stored exactly under its own id. */
    lemma StoredUnderOwnId()
      requires Valid()
      ensures forall e :: e in events.Values <==> e.id in events && events[e.id] == e
    {
      forall e | e in events.Values ensures e.id in events && events[e.id] == e {
        if forall k :: k in events ==> events[k] != e {
          assert false;
        }
        var k :| k in events && events[k] == e;
      }
    }

    /** `Event.findById(id)`. */
    function FindById(id: EventId): (r: Option<Event>)
      reads this
      ensures r.None? <==> id !in events
      ensures r.Some? ==> r.value == events[id]
      ensures Valid() && r.Some? ==> r.value.id == id && NoDuplicates(r.value.attendees)
    {
      if id in events then Some(events[id]) else None
    }

    /** Saving a new document: stores it under a fresh id. */
    method Insert(e: Event) returns (stored: Event)
      requires Valid() && e.attendees == []
      modifies this
      ensures Valid()
      ensures old(nextId) !in old(events) && stored == e.(id := old(nextId))
      ensures events == old(events)[stored.id := stored]
    {
      stored := e.(id := nextId);
      events := events[nextId := stored];
      nextId := nextId + 1;
    }

    /** `event.save()` on a document loaded earlier: replaces it. */
    method Save(e: Event)
      requires Valid() && e.id in events && NoDuplicates(e.attendees)
      modifies this
      ensures Valid() && nextId == old(nextId)
      ensures events == old(events)[e.id := e]
    {
      events := events[e.id := e];
    }

    /** `Event.findByIdAndDelete(id)`. */
    method Remove(id: EventId)
      requires Valid()
      modifies this
      ensures Valid() && nextId == old(nextId)
      ensures events == old(events) - {id}
    {
      events := events - {id};
    }
  }
}
