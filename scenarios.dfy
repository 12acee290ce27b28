/** Client code driving the route handlers only through their contracts. */
module Scenarios {
  import opened EventModel
  import EventRoutes
  import Rsvp

  /** An event with one seat: A joins, B is turned away, A leaves, B joins;
      afterwards the owner deletes the event and it can no longer be found. */
  method OneSeat(owner: UserId, a: UserId, b: UserId, body: Body)
    requires a != b && body.capacity == Some(1)
  {
    var store := new EventStore();
    var created := EventRoutes.Create(store, body, owner);
    var id := created.event.id;
    assert store.events[id].attendees == [];

    var r := Rsvp.Join(store, id, a);
    assert r.Ok? && store.events[id].attendees == [a];
    r := Rsvp.Join(store, id, b);
    assert r == Rsvp.Full && store.events[id].attendees == [a];
    r := Rsvp.Join(store, id, a);
    assert r == Rsvp.AlreadyRegistered;

    r := Rsvp.Leave(store, id, a);
    assert store.events[id].attendees == [];
    r := Rsvp.Leave(store, id, a);
    assert r.Ok? && store.events[id].attendees == [];
    r := Rsvp.Join(store, id, b);
    assert r.Ok? && store.events[id].attendees == [b];

    if owner != a {
      var d := EventRoutes.Delete(store, id, a);
      assert d == EventRoutes.Forbidden && id in store.events;
    }
    var d := EventRoutes.Delete(store, id, owner);
    assert d == EventRoutes.Deleted;
    var g := EventRoutes.Get(store, id);
    assert g == EventRoutes.NotFound;
    r := Rsvp.Join(store, id, a);
    assert r == Rsvp.NotFound;
  }
}
