/** The CRUD handlers of server/src/routes/events.js over the event store. */
module EventRoutes {
  import opened EventModel

  datatype Reply = NotFound | Forbidden | Ok(event: Event) | Deleted

  /** The ascending order of the date sort key: a document without a date
      comes before every dated one. */
  predicate DateLe(a: Option<int>, b: Option<int>)
  {
    a.None? || (b.Some? && a.value <= b.value)
  }

  /** Ascending by date, the order the list query asks for. */
  ghost predicate SortedByDate(s: seq<Event>)
  {
    forall i, j :: 0 <= i < j < |s| ==> DateLe(s[i].date, s[j].date)
  }

  /** Places `x` after every event dated no later than it. */
  function InsertByDate(s: seq<Event>, x: Event): (r: seq<Event>)
    ensures multiset(r) == multiset(s) + multiset{x}
    ensures forall y :: y in r <==> y in s || y == x
  {
    if s == [] then [x]
    else if !DateLe(s[0].date, x.date) then [x] + s
    else
      assert s == [s[0]] + s[1..];
      [s[0]] + InsertByDate(s[1..], x)
  }

  /** A date-sorted list with an event in front that is dated no later than all. */
  lemma SortedCons(x: Event, s: seq<Event>)
    requires SortedByDate(s) && forall y :: y in s ==> DateLe(x.date, y.date)
    ensures SortedByDate([x] + s)
  {
    var r := [x] + s;
    forall i, j | 0 <= i < j < |r| ensures DateLe(r[i].date, r[j].date) {
      assert r[j] == s[j - 1];
      if i > 0 {
        assert r[i] == s[i - 1];
      }
    }
  }

  /** Inserting into a date-sorted list keeps it sorted. */
  lemma {:induction false} InsertByDateSorted(s: seq<Event>, x: Event)
    requires SortedByDate(s)
    ensures SortedByDate(InsertByDate(s, x))
  {
    if s == [] {
    } else if !DateLe(s[0].date, x.date) {
      assert forall y :: y in s ==> DateLe(x.date, y.date) by {
        forall y | y in s ensures DateLe(x.date, y.date) {
          var m :| 0 <= m < |s| && s[m] == y;
          if m > 0 {
            assert DateLe(s[0].date, s[m].date);
          }
        }
      }
      SortedCons(x, s);
    } else {
      assert s == [s[0]] + s[1..];
      assert SortedByDate(s[1..]) by {
        forall i, j | 0 <= i < j < |s[1..]| ensures DateLe(s[1..][i].date, s[1..][j].date) {
          assert s[1..][i] == s[i + 1] && s[1..][j] == s[j + 1];
        }
      }
      assert forall y :: y in s[1..] ==> DateLe(s[0].date, y.date) by {
        forall y | y in s[1..] ensures DateLe(s[0].date, y.date) {
          var m :| 0 <= m < |s[1..]| && s[1..][m] == y;
          assert s[m + 1] == y;
        }
      }
      InsertByDateSorted(s[1..], x);
      SortedCons(s[0], InsertByDate(s[1..], x));
    }
  }

  /** GET /: every stored event exactly once, ascending by date. Events with
      equal dates come out in no particular order. */
  method List(store: EventStore) returns (r: seq<Event>)
    requires store.Valid()
    ensures SortedByDate(r)
    ensures multiset(r) == multiset(store.events.Values)
  {
    store.StoredUnderOwnId();
    var remaining := store.events.Keys;
    ghost var listed: set<Event> := {};
    r := [];
    while remaining != {}
      invariant remaining <= store.events.Keys
      invariant SortedByDate(r)
      invariant multiset(r) == multiset(listed)
      invariant forall e :: e in listed <==> e.id in store.events && store.events[e.id] == e && e.id !in remaining
      decreases |remaining|
    {
      if forall k :: k !in remaining {
        assert false;  // a non-empty set has an element
      }
      var key :| key in remaining;
      var e := store.events[key];
      InsertByDateSorted(r, e);
      r := InsertByDate(r, e);
      listed := listed + {e};
      remaining := remaining - {key};
    }
    assert listed == store.events.Values;
  }

  /** GET /:id. */
  method Get(store: EventStore, id: EventId) returns (r: Reply)
    ensures r == NotFound <==> id !in store.events
    ensures r.Ok? <==> id in store.events
    ensures r.Ok? ==> r.event == store.events[id]
  {
    var found := store.FindById(id);
    if found.None? {
      return NotFound;
    }
    r := Ok(found.value);
  }

  /** POST /: the body's seven fields, the requester as owner, nobody attending. */
  method Create(store: EventStore, body: Body, requester: UserId) returns (r: Reply)
    requires store.Valid()
    modifies store
    ensures store.Valid()
    ensures r.Ok? && r.event.id !in old(store.events)
    ensures r.event == Event(r.event.id, body.title, body.description, body.date, body.location,
                             body.capacity, body.category, body.imageUrl, requester, [])
    ensures store.events == old(store.events)[r.event.id := r.event]
  {
    var event := Event(0, body.title, body.description, body.date, body.location,
                       body.capacity, body.category, body.imageUrl, requester, []);
    var stored := store.Insert(event);
    r := Ok(stored);
  }

  /** JavaScript's or-fallback on strings: `""` is falsy. The result is one
      of the two operands, and it is falsy only when both are. */
  function OrText(a: string, b: string): (r: string)
    ensures a != "" ==> r == a
    ensures a == "" ==> r == b
    ensures r == "" <==> a == "" && b == ""
  {
    if a != "" then a else b
  }

  /** A date is truthy whenever it is present. */
  function OrDate(a: Option<int>, b: Option<int>): (r: Option<int>)
    ensures a.Some? ==> r == a
    ensures a.None? ==> r == b
    ensures r.None? <==> a.None? && b.None?
  {
    if a.Some? then a else b
  }

  /** A capacity is truthy when it is present and not `0`. */
  predicate TruthyNumber(n: Option<int>)
  {
    n.Some? && n.value != 0
  }

  /** JavaScript's or-fallback on the capacity: an absent or zero capacity
      falls back. The result is falsy only when both operands are. */
  function OrNumber(a: Option<int>, b: Option<int>): (r: Option<int>)
    ensures TruthyNumber(a) ==> r == a
    ensures !TruthyNumber(a) ==> r == b
    ensures TruthyNumber(r) <==> TruthyNumber(a) || TruthyNumber(b)
  {
    if TruthyNumber(a) then a else b
  }

  /** The field-by-field truthy-fallback assignments of PUT /:id.
      Identity, owner and attendees are not among them. */
  function Merge(e: Event, body: Body): (r: Event)
    ensures r.id == e.id && r.createdBy == e.createdBy && r.attendees == e.attendees
  {
    e.(title := OrText(body.title, e.title),
       description := OrText(body.description, e.description),
       date := OrDate(body.date, e.date),
       location := OrText(body.location, e.location),
       capacity := OrNumber(body.capacity, e.capacity),
       category := OrText(body.category, e.category),
       imageUrl := OrText(body.imageUrl, e.imageUrl))
  }

  /** A body whose every field is falsy (absent, `""` or `0`). */
  predicate IsEmptyBody(body: Body)
  {
    body.title == "" && body.description == "" && body.date.None? && body.location == "" &&
    !TruthyNumber(body.capacity) && body.category == "" && body.imageUrl == ""
  }

  /** Each field takes the new value exactly when that value is truthy. */
  lemma MergeFields(e: Event, body: Body)
    ensures var r := Merge(e, body);
      && r.title == (if body.title != "" then body.title else e.title)
      && r.description == (if body.description != "" then body.description else e.description)
      && r.date == (if body.date.Some? then body.date else e.date)
      && r.location == (if body.location != "" then body.location else e.location)
      && r.capacity == (if TruthyNumber(body.capacity) then body.capacity else e.capacity)
      && r.category == (if body.category != "" then body.category else e.category)
      && r.imageUrl == (if body.imageUrl != "" then body.imageUrl else e.imageUrl)
  {
  }

  /** An update can set fields but never clear them: a field that was truthy
      before the update is truthy after it, so no title is ever emptied, no
      date removed and no capacity reset to `0`. */
  lemma MergeNeverClears(e: Event, body: Body)
    ensures var r := Merge(e, body);
      && (e.title != "" ==> r.title != "")
      && (e.description != "" ==> r.description != "")
      && (e.date.Some? ==> r.date.Some?)
      && (e.location != "" ==> r.location != "")
      && (TruthyNumber(e.capacity) ==> TruthyNumber(r.capacity))
      && (e.category != "" ==> r.category != "")
      && (e.imageUrl != "" ==> r.imageUrl != "")
  {
  }

  /** An update carrying only falsy values is a no-op, so capacity 0 or an
      empty title cannot be set. */
  lemma MergeEmptyBody(e: Event, body: Body)
    requires IsEmptyBody(body)
    ensures Merge(e, body) == e
  {
  }

  /** Applying the same update twice is the same as applying it once. */
  lemma MergeIdempotent(e: Event, body: Body)
    ensures Merge(Merge(e, body), body) == Merge(e, body)
  {
  }

  /** The update checks no capacity against the attendee count: a new capacity
      below the number of attendees is accepted. */
  lemma MergeCanOverfill(e: Event, body: Body)
    requires TruthyNumber(body.capacity) && body.capacity.value < |e.attendees|
    ensures !WithinCapacity(Merge(e, body))
  {
  }

  /** PUT /:id: not-found first, then the owner check, then the merge. */
  method Update(store: EventStore, id: EventId, body: Body, requester: UserId) returns (r: Reply)
    requires store.Valid()
    modifies store
    ensures store.Valid() && store.nextId == old(store.nextId)
    ensures id !in old(store.events) ==> r == NotFound
    ensures id in old(store.events) && old(store.events)[id].createdBy != requester ==> r == Forbidden
    ensures !r.Ok? ==> store.events == old(store.events)
    ensures id in old(store.events) && old(store.events)[id].createdBy == requester ==>
      r == Ok(Merge(old(store.events)[id], body)) &&
      store.events == old(store.events)[id := r.event]
  {
    var found := store.FindById(id);
    if found.None? {
      return NotFound;
    }
    if found.value.createdBy != requester {
      return Forbidden;
    }
    var event := Merge(found.value, body);
    store.Save(event);
    r := Ok(event);
  }

  /** DELETE /:id: not-found first, then the owner check, then removal. */
  method Delete(store: EventStore, id: EventId, requester: UserId) returns (r: Reply)
    requires store.Valid()
    modifies store
    ensures store.Valid() && store.nextId == old(store.nextId)
    ensures id !in old(store.events) ==> r == NotFound
    ensures id in old(store.events) && old(store.events)[id].createdBy != requester ==> r == Forbidden
    ensures r != Deleted ==> store.events == old(store.events)
    ensures id in old(store.events) && old(store.events)[id].createdBy == requester ==>
      r == Deleted && store.events == old(store.events) - {id} && store.FindById(id) == None
  {
    var found := store.FindById(id);
    if found.None? {
      return NotFound;
    }
    if found.value.createdBy != requester {
      return Forbidden;
    }
    store.Remove(id);
    r := Deleted;
  }
}
