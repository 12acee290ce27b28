# Mini event platform: membership, event CRUD and dashboard filters in Dafny

This project models the three pieces of logic in the mini event platform
(an Express + MongoDB server with a React client) that make real promises.

- **RSVP membership** (`server/src/routes/rsvp.js`). Join checks three things in
  order: the event exists, the user is not already an attendee, and a seat is
  left. Only then does it append the user. Leave pulls every occurrence of the
  user and succeeds for a non-member. Join runs inside a Mongo transaction; the
  model makes it one atomic step.
- **Event CRUD** (`server/src/routes/events.js`). List is sorted by date. Get can
  answer not-found. Create stamps the owner and an empty attendee list. Update
  checks not-found first, then ownership, then merges the fields with a truthy
  fallback. Delete checks not-found first, then ownership.
- **Dashboard filtering** (`client/src/pages/Dashboard.jsx`). The filter effect
  chains a view filter, a category filter, an inclusive date range and a
  case-insensitive search. It sits beside the `isAttending` test and the rule
  that disables the RSVP button and labels it "Full".

Modules:

- `Seqs` (`seqs.dfy`): what `Array.prototype.filter` means, plus subsequences and
  duplicate-free sequences.
- `EventModel` (`event_model.dfy`): the `Event` document, the request `Body`, and
  `EventStore`. The store is a class holding a map from integer id to event; it
  stands for the Mongo collection. Its `Valid()` invariant says three things:
  each document sits under its own id, ids come from a counter, and no attendee
  list holds a user twice.
- `Rsvp` (`rsvp.dfy`): the join/leave handlers as methods that modify the store.
  Beside them are the pure decision `JoinOutcome`, the `$pull` operation `Pull`,
  and the lemmas about both.
- `EventRoutes` (`event_routes.dfy`): the CRUD handlers as methods over the store,
  with the update merge `Merge` and the date-ordered insertion used by List.
- `Dashboard` (`dashboard.dfy`): the filter pipeline as a composition of pure
  sequence filters, the JavaScript string primitives it uses (`trim`,
  `toLowerCase`, `includes`), and the card button.
- `Scenarios` (`scenarios.dfy`): a client that drives the handlers for a
  one-seat event only through their contracts.

Conventions of the model:

- Ids and timestamps are integers.
- A text field missing from a request body is `""`. Under JavaScript's `||`,
  and in the Dashboard search, `""` behaves exactly like `undefined`.
- A missing `date` or `capacity` is `None`, both in the request body and in the
  stored document, because Create stores it as absent.
  - An absent capacity is never reached: `length >= undefined` is false, so such
    an event is never full and its card always offers RSVP.
  - An absent date sorts before every dated event. It fails both date filters,
    since an invalid date compares false.
  - A date that is present arrives as a non-empty string, so it is truthy
    whatever instant it names.
- The requester's id, which the auth middleware supplies, is a parameter.

Where the code and the design intent for this system differ, the model follows
the code:

- Create validates nothing. There is no required-field check and no
  positive-capacity check.
- Join refuses a full event when `length >= capacity`, not only when the two are
  equal.
- Update ignores every falsy value, not just missing ones, so capacity `0` and an
  empty title are silently kept at their old values.
- Update accepts a capacity below the current attendee count. For that reason
  the capacity bound is not a store invariant. Join and Leave preserve it per
  event, and `MergeCanOverfill` shows how Update breaks it.
- The owner may join their own event, and takes a seat like anyone else.

## Model

| member | source | states |
|---|---|---|
| `Seqs.Filter` | client/src/pages/Dashboard.jsx:43-71 | `.filter(p)` gives an order-preserving subsequence that holds exactly the elements satisfying `p`, each as many times as it occurs in the input |
| `Seqs.FilterCompose` | client/src/pages/Dashboard.jsx:40-73 | two successive filters equal one filter by the conjunction |
| `Seqs.FilterCommute` | client/src/pages/Dashboard.jsx:40-73 | the order of two successive filters does not matter |
| `Seqs.FilterNoDuplicates` | server/src/routes/rsvp.js:61-65 | removing elements from a duplicate-free list keeps it duplicate-free |
| `Seqs.AppendNoDuplicates` | server/src/routes/rsvp.js:25-39 | appending a user who is not yet listed keeps the list duplicate-free |
| `EventModel.IsFull` | server/src/routes/rsvp.js:34 | no seat is left: a capacity is present and `attendees.length >= capacity`; `Rsvp.JoinOutcome` and `Dashboard.CardAction` state what follows from it |
| `EventModel.HasAttendee` | server/src/routes/rsvp.js:25-27 | the membership test holds iff the user is on the attendee list |
| `EventModel.EventStore.FindById` | server/src/routes/events.js:22-28 | nothing exactly when the id is absent; in a valid store the document found carries the requested id and a duplicate-free attendee list |
| `EventModel.EventStore.Insert` | server/src/routes/events.js:40-52 | saving a new document puts it under a fresh id and changes nothing else |
| `EventModel.EventStore.Save` | server/src/routes/rsvp.js:39-40 | saving a loaded document replaces exactly that document |
| `EventModel.EventStore.Remove` | server/src/routes/events.js:105 | `findByIdAndDelete` removes exactly that id |
| `Rsvp.JoinOutcome` | server/src/routes/rsvp.js:18-40 | NotFound iff the event is missing; AlreadyRegistered iff the user is listed, whatever the capacity; Full iff a non-member finds a capacity with `length >= capacity`; otherwise the attendee list becomes `old + [user]` |
| `Rsvp.NoCapacityNeverFull` | server/src/routes/rsvp.js:34-39 | an event stored without a capacity is never full: a non-member's join always succeeds |
| `Rsvp.Pull` | server/src/routes/rsvp.js:61-65 | `$pull` removes every occurrence of the user and keeps every other attendee, with its number of copies, in order |
| `Rsvp.JoinPreservesInvariant` | server/src/routes/rsvp.js:25-40 | a successful join keeps the list duplicate-free and within capacity, and adds exactly one seat |
| `Rsvp.MemberOfFullEvent` | server/src/routes/rsvp.js:25-37 | the duplicate check precedes the capacity check: a member of a full event gets AlreadyRegistered |
| `Rsvp.PullNonMember` | server/src/routes/rsvp.js:61-73 | leaving as a non-member changes nothing |
| `Rsvp.PullPreservesInvariant` | server/src/routes/rsvp.js:61-65 | leave keeps the list duplicate-free and within capacity |
| `Rsvp.JoinThenLeave` | server/src/routes/rsvp.js:39-63 | for a non-member, a successful join followed by leave restores the original attendee list |
| `Rsvp.LastSeat` | server/src/routes/rsvp.js:9-42 | with one seat left, two serialised joins by different users: the first succeeds, the second gets Full |
| `Rsvp.Join` | server/src/routes/rsvp.js:8-54 | the store changes exactly by the append when the outcome is Ok, and not at all otherwise; the store invariant and each event's capacity bound are preserved |
| `Rsvp.Leave` | server/src/routes/rsvp.js:56-77 | NotFound and no change for a missing event; otherwise Ok with the pulled list, no change for a non-member, and the invariant and capacity bound are kept |
| `EventRoutes.DateLe` | server/src/routes/events.js:12 | the ascending date order, with undated documents first; `EventRoutes.InsertByDateSorted` and `EventRoutes.List` state the order it gives |
| `EventRoutes.InsertByDate` | server/src/routes/events.js:12 | inserting yields the old elements plus the new one, as a multiset |
| `EventRoutes.InsertByDateSorted` | server/src/routes/events.js:12 | inserting into a date-sorted list keeps it sorted |
| `EventRoutes.List` | server/src/routes/events.js:7-18 | the result is sorted by ascending date, undated documents first, and is a permutation of the stored documents |
| `EventRoutes.Get` | server/src/routes/events.js:20-34 | NotFound iff the id is absent; otherwise the stored document |
| `EventRoutes.Create` | server/src/routes/events.js:36-59 | a fresh id, the body's seven fields as sent (an absent date or capacity stays absent), `createdBy` set to the requester, `attendees` empty, nothing else changed |
| `EventRoutes.OrText` | server/src/routes/events.js:75 | the `a or b` fallback on strings gives `a` unless it is empty, and is empty only when both operands are |
| `EventRoutes.OrDate` | server/src/routes/events.js:77 | the fallback on dates gives `a` whenever it is present, and is absent only when both are |
| `EventRoutes.OrNumber` | server/src/routes/events.js:79 | the fallback on the capacity gives `a` unless it is absent or zero, and is falsy only when both are |
| `EventRoutes.Merge` | server/src/routes/events.js:73-81 | the merge never touches id, `createdBy` or `attendees` |
| `EventRoutes.MergeFields` | server/src/routes/events.js:75-81 | each of the seven fields takes the new value iff that value is truthy |
| `EventRoutes.MergeNeverClears` | server/src/routes/events.js:75-81 | an update never clears a truthy field: no title or other text is emptied, no date removed, no capacity reset to `0` |
| `EventRoutes.MergeEmptyBody` | server/src/routes/events.js:75-81 | a body of falsy values (capacity absent or `0`, no date, empty strings) leaves the event unchanged |
| `EventRoutes.MergeIdempotent` | server/src/routes/events.js:75-81 | sending the same update twice is the same as sending it once |
| `EventRoutes.MergeCanOverfill` | server/src/routes/events.js:73-83 | a truthy capacity below the attendee count is accepted and leaves the event over capacity |
| `EventRoutes.Update` | server/src/routes/events.js:61-91 | NotFound for a missing id before any ownership check; Forbidden for a non-owner; the store is unchanged on both; for the owner the event becomes the merge |
| `EventRoutes.Delete` | server/src/routes/events.js:93-111 | NotFound for a missing id before any ownership check; Forbidden with no change for a non-owner; for the owner exactly that id is removed and it is no longer found |
| `Dashboard.TrimStart` | client/src/pages/Dashboard.jsx:65 | the result is a suffix of the input, the dropped prefix is all white space, and the result is empty or begins with a non-white-space character |
| `Dashboard.TrimEnd` | client/src/pages/Dashboard.jsx:65 | the result is a prefix of the input, the dropped suffix is all white space, and the result is empty or ends with a non-white-space character |
| `Dashboard.Trim` | client/src/pages/Dashboard.jsx:65 | `trim()` gives the slice of the input between an all-white-space prefix and an all-white-space suffix, and that slice is empty or neither starts nor ends with white space |
| `Dashboard.TrimEmptyIffBlank` | client/src/pages/Dashboard.jsx:65 | `query.trim()` is empty iff the query is only white space |
| `Dashboard.Lower` | client/src/pages/Dashboard.jsx:67-69 | lowercasing keeps the length, maps each character, and leaves no upper-case ASCII letter |
| `Dashboard.Includes` | client/src/pages/Dashboard.jsx:67-69 | `hay.includes(needle)` holds iff the needle occurs in the haystack at some position |
| `Dashboard.IsAttending` | client/src/pages/Dashboard.jsx:106-108 | holds iff some attendee id equals the user id |
| `Dashboard.ViewHolds` | client/src/pages/Dashboard.jsx:43-49 | the view stage: own events for My Events, attended events for Attending; `Dashboard.FilterEventsResult` states its effect |
| `Dashboard.CategoryHolds` | client/src/pages/Dashboard.jsx:52-54 | the category stage: an exact match unless the filter is `all`; stated in `Dashboard.FilterEventsResult` |
| `Dashboard.OnOrAfter` | client/src/pages/Dashboard.jsx:57-59 | the start-date stage: a dated event no earlier than the start; stated in `Dashboard.FilterEventsResult` |
| `Dashboard.OnOrBefore` | client/src/pages/Dashboard.jsx:60-62 | the end-date stage: a dated event no later than the end; stated in `Dashboard.FilterEventsResult` |
| `Dashboard.MatchesQuery` | client/src/pages/Dashboard.jsx:66-70 | the lowercased query occurs in the lowercased title, location or description; `Dashboard.SearchIgnoresQueryCase` states that letter case does not matter |
| `Dashboard.SearchHolds` | client/src/pages/Dashboard.jsx:65-71 | the search stage, off for a blank query; `Dashboard.TrimEmptyIffBlank` and `Dashboard.FilterEventsResult` state its effect |
| `Dashboard.FilterEvents` | client/src/pages/Dashboard.jsx:39-74 | the filter effect with its five conditional stages; `Dashboard.FilterEventsIsOneFilter` and `Dashboard.FilterEventsResult` state what it shows |
| `Dashboard.FilterEventsIsOneFilter` | client/src/pages/Dashboard.jsx:40-73 | the five conditional stages equal a single filter by the conjunction of the active predicates |
| `Dashboard.FilterEventsResult` | client/src/pages/Dashboard.jsx:40-73 | the result is an order-preserving subsequence of the events. It holds exactly the events that pass every active filter: own events, attending, the exact category, a date with `start <= date` and `date <= end`, and a search match when the query is not blank |
| `Dashboard.NoFiltersShowsAll` | client/src/pages/Dashboard.jsx:40-71 | view all, category all, no dates and a blank query show every event, in order |
| `Dashboard.SearchIgnoresQueryCase` | client/src/pages/Dashboard.jsx:65-71 | the search result does not depend on the letter case of the query |
| `Dashboard.CardAction` | client/src/pages/Dashboard.jsx:263-277 | Leave iff the user attends; otherwise the RSVP button is disabled iff there is a capacity and `attendees.length >= capacity`, and is labelled Full exactly when disabled |
| `Dashboard.CardAgreesWithJoin` | client/src/pages/Dashboard.jsx:263-277 | the card shows Leave iff the server would answer AlreadyRegistered, Full iff it would answer Full, and an enabled RSVP iff the join would succeed |

## Left out

- Mongo sessions and transactions (`startSession`, `abortTransaction`, `commitTransaction`, `endSession`): this is concurrency machinery. Join is one atomic method call, and concurrent joins are modelled as serialised calls.
- The 500 error paths: exceptions from the database are not modelled. That includes an id string that is not a valid ObjectId, which in the code gives 500 rather than 404. Ids here are integers.
- `populate` of owner and attendee names and e-mails, HTTP status codes and JSON shaping: these are presentation. Results are datatypes instead.
- The Mongoose schema (`server/src/models/Event.js` is not part of this model): no required-field checks, casts or defaults on save. Create stores the fields as sent, so a create without a capacity gives an event that is never full. If the schema requires the capacity or the date, the code answers 500 where the model succeeds.
- EventRoutes.Create: a text field missing from the request is stored as `""` rather than absent. The two differ only where the model does not look: rendering, and a category filter set to `""`.
- The auth middleware (not part of this model): the requester id is a parameter.
- `server/src/routes/upload.js`, `server/src/routes/ai.js`, `server/src/server.js` and `client/src/context/AuthContext.jsx`: external services, route wiring and network I/O.
- The other React pages, `App.jsx` and `ProtectedRoute.jsx`: their form checks and flags repeat the rules above. The Dashboard's `fetchEvents`, `handleRSVP` and `handleLeave` are network calls, and the rendering is UI.
- JavaScript `Date` parsing, time zones and invalid dates (NaN): dates are integers, and the date filters compare instants. In the code, `new Date(endDate)` is midnight at the start of the chosen day, so an event later on that day fails `date <= end`. The model keeps that instant comparison.
- JavaScript falsy values other than `""`, `0` and an absent field (`null`, `false`, `NaN`): a missing text field is `""` and a missing date or capacity is `None`; a `NaN` capacity is not modelled. Body fields beyond the seven that the handlers destructure cannot be expressed, so they are ignored by construction.
- Optional chaining on missing fields (`event.title?.`, `event.createdBy?._id`, `user?.id`): every event carries its text fields, an owner and an attendee list (only `date` and `capacity` may be absent), and the Dashboard always has a logged-in user id.
- `filterView` values other than the three tabs: the model has exactly three views. Any other string filters nothing in the code, which is the same as All.
- Mongo's order for events with equal dates: List fixes no order among them.
- Ids come from a counter; Mongo ObjectId generation is not modelled.
- Dashboard.Lower: lowercases ASCII letters only, because full Unicode case mapping is not modelled.
