/** The `/:id/join` and `/:id/leave` handlers of server/src/routes/rsvp.js.
    The Mongo transaction around Join makes the whole load-check-append-save
    sequence one step; here that is a single method call on the store. */
module Rsvp {
  import opened Seqs
  import opened EventModel

  datatype RsvpResult = NotFound | AlreadyRegistered | Full | Ok(event: Event)

  /** The decision Join makes about a loaded (or missing) event, in the
      order the handler checks: existence, then membership, then capacity. */
  function JoinOutcome(found: Option<Event>, user: UserId): (r: RsvpResult)
    ensures r == NotFound <==> found.None?
    ensures r == AlreadyRegistered <==> found.Some? && user in found.value.attendees
    ensures r == Full <==> found.Some? && user !in found.value.attendees && IsFull(found.value)
    ensures r.Ok? ==> found.Some? && r.event == found.value.(attendees := found.value.attendees + [user])
  {
    match found
    case None => NotFound
    case Some(e) =>
      if HasAttendee(e.attendees, user) then AlreadyRegistered
      else if IsFull(e) then Full
      else Ok(e.(attendees := e.attendees + [user]))
  }

  /** Mongo's `$pull` on the attendee list: every occurrence of `user` goes, the
      remaining attendees keep their order. */
  function Pull(attendees: seq<UserId>, user: UserId): (r: seq<UserId>)
    ensures user !in r
    ensures forall u :: u != user ==> (u in r <==> u in attendees)
    ensures IsSubsequence(r, attendees)
    ensures forall v :: multiset(r)[v] == if v == user then 0 else multiset(attendees)[v]
  {
    Filter(attendees, u => u != user)
  }

  /** A successful Join keeps the attendee list duplicate-free and within
      capacity, and adds exactly one seat. */
  lemma JoinPreservesInvariant(e: Event, user: UserId)
    requires NoDuplicates(e.attendees) && WithinCapacity(e)
    requires JoinOutcome(Some(e), user).Ok?
    ensures var e' := JoinOutcome(Some(e), user).event;
      NoDuplicates(e'.attendees) && WithinCapacity(e') && |e'.attendees| == |e.attendees| + 1
  {
    AppendNoDuplicates(e.attendees, user);
  }

  /** The membership check comes first: a member of a full event hears
      AlreadyRegistered, not Full. */
  lemma MemberOfFullEvent(e: Event, user: UserId)
    requires user in e.attendees && IsFull(e)
    ensures JoinOutcome(Some(e), user) == AlreadyRegistered
  {
  }

  /** An event stored without a capacity is never full: every non-member's
      join succeeds, however many attendees there are. */
  lemma NoCapacityNeverFull(e: Event, user: UserId)
    requires e.capacity.None? && user !in e.attendees
    ensures JoinOutcome(Some(e), user) == Ok(e.(attendees := e.attendees + [user]))
  {
  }

  /** Leaving a list one is not on changes nothing. */
  lemma {:induction false} PullNonMember(attendees: seq<UserId>, user: UserId)
    requires user !in attendees
    ensures Pull(attendees, user) == attendees
  {
    FilterAll(attendees, u => u != user);
  }

  /** Leave keeps the invariant: it only drops seats. */
  lemma PullPreservesInvariant(e: Event, user: UserId)
    requires NoDuplicates(e.attendees) && WithinCapacity(e)
    ensures var e' := e.(attendees := Pull(e.attendees, user));
      NoDuplicates(e'.attendees) && WithinCapacity(e')
  {
    FilterNoDuplicates(e.attendees, u => u != user);
  }

  /** Join followed by Leave, for a user who was not an attendee, gives back
      the original attendee list. */
  lemma JoinThenLeave(e: Event, user: UserId)
    requires JoinOutcome(Some(e), user).Ok?
    ensures Pull(JoinOutcome(Some(e), user).event.attendees, user) == e.attendees
  {
    FilterAppend(e.attendees, [user], u => u != user);
    PullNonMember(e.attendees, user);
  }

  /** Two joins by different users compete for the last seat: they are
      serialised, the first gets it and the second hears Full. */
  lemma LastSeat(e: Event, a: UserId, b: UserId)
    requires a != b && a !in e.attendees && b !in e.attendees
    requires e.capacity == Some(|e.attendees| + 1)
    ensures JoinOutcome(Some(e), a).Ok?
    ensures JoinOutcome(Some(JoinOutcome(Some(e), a).event), b) == Full
  {
  }

  /** POST /:id/join. */
  method Join(store: EventStore, id: EventId, user: UserId) returns (r: RsvpResult)
    requires store.Valid()
    modifies store
    ensures store.Valid() && store.nextId == old(store.nextId)
    ensures r == JoinOutcome(old(store.FindById(id)), user)
    ensures r.Ok? ==> store.events == old(store.events)[id := r.event]
    ensures !r.Ok? ==> store.events == old(store.events)
    ensures id in old(store.events) && WithinCapacity(old(store.events)[id]) ==>
      WithinCapacity(store.events[id])
  {
    var found := store.FindById(id);
    if found.None? {
      return NotFound;
    }
    var event := found.value;
    if HasAttendee(event.attendees, user) {
      return AlreadyRegistered;
    }
    if IsFull(event) {
      return Full;
    }
    event := event.(attendees := event.attendees + [user]);
    AppendNoDuplicates(found.value.attendees, user);
    store.Save(event);
    r := Ok(event);
  }

  /** POST /:id/leave. */
  method Leave(store: EventStore, id: EventId, user: UserId) returns (r: RsvpResult)
    requires store.Valid()
    modifies store
    ensures store.Valid() && store.nextId == old(store.nextId)
    ensures id !in old(store.events) ==> r == NotFound && store.events == old(store.events)
    ensures id in old(store.events) ==>
      var e := old(store.events)[id];
      r == Ok(e.(attendees := Pull(e.attendees, user))) &&
      store.events == old(store.events)[id := r.event]
    ensures id in old(store.events) && user !in old(store.events)[id].attendees ==>
      store.events == old(store.events)
    ensures id in old(store.events) && WithinCapacity(old(store.events)[id]) ==>
      WithinCapacity(store.events[id])
  {
    var found := store.FindById(id);
    if found.None? {
      return NotFound;
    }
    var event := found.value.(attendees := Pull(found.value.attendees, user));
    FilterNoDuplicates(found.value.attendees, u => u != user);
    if user !in found.value.attendees {
      PullNonMember(found.value.attendees, user);
    }
    store.Save(event);
    r := Ok(event);
  }
}
