/** The client-side filtering of client/src/pages/Dashboard.jsx and the
    per-card RSVP button rule. Everything here is a pure function of the
    fetched events, the filter settings and the logged-in user's id. */
module Dashboard {
  import opened Seqs
  import opened EventModel
  import Rsvp

  /** The three tabs; any other value of `filterView` filters nothing, like All. */
  datatype View = All | MyEvents | Attending

  /** The filter settings. `category == "all"` switches the category filter
      off; a date bound is `None` while its input is empty. */
  datatype Criteria = Criteria(
    view: View,
    category: string,
    startDate: Option<int>,
    endDate: Option<int>,
    query: string)

  // ---------------------------------------------------------------------
  // JavaScript string primitives

  /** The characters `String.prototype.trim` removes: white space and line terminators. */
  predicate IsJsWhitespace(c: char)
  {
    c == '\t' || c == '\n' || c == '\U{B}' || c == '\U{C}' || c == '\r' || c == ' ' ||
    c == '\U{A0}' || c == '\U{1680}' || ('\U{2000}' <= c <= '\U{200A}') ||
    c == '\U{2028}' || c == '\U{2029}' || c == '\U{202F}' || c == '\U{205F}' ||
    c == '\U{3000}' || c == '\U{FEFF}'
  }

  /** Only white space. */
  ghost predicate IsBlank(s: string)
  {
    forall i :: 0 <= i < |s| ==> IsJsWhitespace(s[i])
  }

  /** Drops leading white space: the result is the suffix of `s` left after
      the longest all-white-space prefix. */
  function TrimStart(s: string): (r: string)
    ensures |r| <= |s| && r == s[|s| - |r|..]
    ensures IsBlank(s[..|s| - |r|])
    ensures r == "" || !IsJsWhitespace(r[0])
  {
    if s != [] && IsJsWhitespace(s[0]) then
      var t := s[1..];
      var r := TrimStart(t);
      var dropped := s[..|s| - |r|];
      assert IsBlank(dropped) by {
        forall i | 0 <= i < |dropped| ensures IsJsWhitespace(dropped[i]) {
          if i > 0 {
            assert dropped[i] == t[..|t| - |r|][i - 1];
          }
        }
      }
      r
    else s
  }

  /** Drops trailing white space: the result is the prefix of `s` left before
      the longest all-white-space suffix. */
  function TrimEnd(s: string): (r: string)
    ensures |r| <= |s| && r == s[..|r|]
    ensures IsBlank(s[|r|..])
    ensures r == "" || !IsJsWhitespace(r[|r| - 1])
  {
    if s != [] && IsJsWhitespace(s[|s| - 1]) then
      var t := s[..|s| - 1];
      var r := TrimEnd(t);
      var dropped := s[|r|..];
      assert IsBlank(dropped) by {
        forall i | 0 <= i < |dropped| ensures IsJsWhitespace(dropped[i]) {
          if i < |dropped| - 1 {
            assert dropped[i] == t[|r|..][i];
          }
        }
      }
      r
    else s
  }

  /** `s.trim()`: the slice of `s` left after dropping white space at both
      ends; it is empty or starts and ends with a character other than white
      space. */
  function Trim(s: string): (r: string)
    ensures |r| <= |s|
    ensures exists k :: 0 <= k <= |s| - |r| && r == s[k..k + |r|] && IsBlank(s[..k]) && IsBlank(s[k + |r|..])
    ensures r == "" || (!IsJsWhitespace(r[0]) && !IsJsWhitespace(r[|r| - 1]))
  {
    var t := TrimStart(s);
    var r := TrimEnd(t);
    assert s[|s| - |t| + |r|..] == t[|r|..];
    r
  }

  lemma TrimStartBlank(s: string)
    ensures TrimStart(s) == "" <==> IsBlank(s)
  {
    var r := TrimStart(s);
    var k := |s| - |r|;
    if r == "" {
      assert s[..k] == s;
    } else {
      assert r[0] == s[k];
    }
  }

  lemma TrimEndBlank(s: string)
    ensures TrimEnd(s) == "" <==> IsBlank(s)
  {
    var r := TrimEnd(s);
    assert s[0..] == s;
    if r != "" {
      assert r[|r| - 1] == s[|r| - 1];
    }
  }

  /** The search box counts as empty exactly when it holds only white space. */
  lemma TrimEmptyIffBlank(s: string)
    ensures Trim(s) == "" <==> IsBlank(s)
  {
    TrimStartBlank(s);
    TrimEndBlank(TrimStart(s));
  }

  /** `toLowerCase` on one character (ASCII letters only). */
  function LowerChar(c: char): (r: char)
  {
    if 'A' <= c <= 'Z' then (c as int + 32) as char else c
  }

  /** `s.toLowerCase()`. */
  function Lower(s: string): (r: string)
    ensures |r| == |s|
    ensures forall i :: 0 <= i < |s| ==> r[i] == LowerChar(s[i])
    ensures forall i :: 0 <= i < |s| ==> !('A' <= r[i] <= 'Z')
  {
    seq(|s|, i requires 0 <= i < |s| => LowerChar(s[i]))
  }

  /** `hay.includes(needle)`: `needle` occurs in `hay` at some position. */
  function Includes(hay: string, needle: string): (b: bool)
    ensures b <==> exists i :: 0 <= i <= |hay| && needle <= hay[i..]
  {
    if needle <= hay then
      assert needle <= hay[0..];
      true
    else if hay == [] then
      false
    else
      var b := Includes(hay[1..], needle);
      assert forall i :: 1 <= i <= |hay| ==> hay[i..] == hay[1..][i - 1..];
      assert b ==> exists i :: 0 <= i <= |hay| && needle <= hay[i..] by {
        if b {
          var j :| 0 <= j <= |hay[1..]| && needle <= hay[1..][j..];
          assert hay[1..][j..] == hay[j + 1..];
        }
      }
      b
  }

  // ---------------------------------------------------------------------
  // The predicates of the pipeline, each true when its filter is off

  /** Some attendee of the event has the user's id. */
  function IsAttending(e: Event, user: UserId): (b: bool)
    ensures b <==> exists i :: 0 <= i < |e.attendees| && e.attendees[i] == user
  {
    HasAttendee(e.attendees, user)
  }

  predicate ViewHolds(view: View, user: UserId, e: Event)
  {
    match view
    case All => true
    case MyEvents => e.createdBy == user
    case Attending => IsAttending(e, user)
  }

  predicate CategoryHolds(category: string, e: Event)
  {
    category == "all" || e.category == category
  }

  /** The event is no earlier than the start date, when one is set. An event
      without a date is an invalid date, which compares false, so it fails. */
  predicate OnOrAfter(start: Option<int>, e: Event)
  {
    start.None? || (e.date.Some? && start.value <= e.date.value)
  }

  /** The event is no later than the end date, when one is set; an event
      without a date fails here too. */
  predicate OnOrBefore(end: Option<int>, e: Event)
  {
    end.None? || (e.date.Some? && e.date.value <= end.value)
  }

  /** The lowercased query, untrimmed, occurs in the lowercased title,
      location or description. */
  predicate MatchesQuery(query: string, e: Event)
  {
    var q := Lower(query);
    Includes(Lower(e.title), q) || Includes(Lower(e.location), q) || Includes(Lower(e.description), q)
  }

  predicate SearchHolds(query: string, e: Event)
  {
    Trim(query) == "" || MatchesQuery(query, e)
  }

  /** All active predicates at once. */
  predicate Matches(c: Criteria, user: UserId, e: Event)
  {
    && ViewHolds(c.view, user, e)
    && CategoryHolds(c.category, e)
    && OnOrAfter(c.startDate, e)
    && OnOrBefore(c.endDate, e)
    && SearchHolds(c.query, e)
  }

  // ---------------------------------------------------------------------
  // The pipeline as the effect runs it

  /** One stage of the effect: filter by `p` when the stage is switched on. */
  function Keep(s: seq<Event>, active: bool, p: Event -> bool): (r: seq<Event>)
  {
    if active then Filter(s, p) else s
  }

  /** The filter effect: view, category, start date, end date, then search. */
  function FilterEvents(events: seq<Event>, c: Criteria, user: UserId): (r: seq<Event>)
  {
    var byView := Keep(events, c.view != All, e => ViewHolds(c.view, user, e));
    var byCategory := Keep(byView, c.category != "all", e => CategoryHolds(c.category, e));
    var byStart := Keep(byCategory, c.startDate.Some?, e => OnOrAfter(c.startDate, e));
    var byEnd := Keep(byStart, c.endDate.Some?, e => OnOrBefore(c.endDate, e));
    Keep(byEnd, Trim(c.query) != "", e => SearchHolds(c.query, e))
  }

  /** A stage that is off filters by a predicate that holds anyway. */
  lemma KeepIsFilter(s: seq<Event>, active: bool, p: Event -> bool)
    requires !active ==> forall e :: p(e)
    ensures Keep(s, active, p) == Filter(s, p)
  {
    if !active {
      FilterAll(s, p);
    }
  }

  /** The five stages are a single filter by the conjunction of the active
      predicates, whatever order they run in. */
  lemma FilterEventsIsOneFilter(events: seq<Event>, c: Criteria, user: UserId)
    ensures FilterEvents(events, c, user) == Filter(events, e => Matches(c, user, e))
  {
    var p1 := e => ViewHolds(c.view, user, e);
    var p2 := e => CategoryHolds(c.category, e);
    var p3 := e => OnOrAfter(c.startDate, e);
    var p4 := e => OnOrBefore(c.endDate, e);
    var p5 := e => SearchHolds(c.query, e);
    var q2 := e => ViewHolds(c.view, user, e) && CategoryHolds(c.category, e);
    var q3 := e => q2(e) && OnOrAfter(c.startDate, e);
    var q4 := e => q3(e) && OnOrBefore(c.endDate, e);
    var q5 := e => Matches(c, user, e);
    KeepIsFilter(events, c.view != All, p1);
    var s1 := Filter(events, p1);
    KeepIsFilter(s1, c.category != "all", p2);
    FilterCompose(events, p1, p2, q2);
    var s2 := Filter(events, q2);
    KeepIsFilter(s2, c.startDate.Some?, p3);
    FilterCompose(events, q2, p3, q3);
    var s3 := Filter(events, q3);
    KeepIsFilter(s3, c.endDate.Some?, p4);
    FilterCompose(events, q3, p4, q4);
    var s4 := Filter(events, q4);
    KeepIsFilter(s4, Trim(c.query) != "", p5);
    FilterCompose(events, q4, p5, q5);
  }

  /** The dashboard shows an order-preserving subsequence of the fetched
      events: exactly those that pass every active filter. */
  lemma FilterEventsResult(events: seq<Event>, c: Criteria, user: UserId)
    ensures var r := FilterEvents(events, c, user);
      && IsSubsequence(r, events)
      && forall e :: e in r <==>
        && e in events
        && (c.view == MyEvents ==> e.createdBy == user)
        && (c.view == Attending ==> user in e.attendees)
        && (c.category != "all" ==> e.category == c.category)
        && (c.startDate.Some? ==> e.date.Some? && c.startDate.value <= e.date.value)
        && (c.endDate.Some? ==> e.date.Some? && e.date.value <= c.endDate.value)
        && (!IsBlank(c.query) ==> MatchesQuery(c.query, e))
  {
    FilterEventsIsOneFilter(events, c, user);
    TrimEmptyIffBlank(c.query);
  }

  /** With every filter off and a blank search box, all events are shown. */
  lemma NoFiltersShowsAll(events: seq<Event>, c: Criteria, user: UserId)
    requires c.view == All && c.category == "all" && c.startDate.None? && c.endDate.None?
    requires IsBlank(c.query)
    ensures FilterEvents(events, c, user) == events
  {
    TrimEmptyIffBlank(c.query);
  }

  /** The search ignores the letter case of the query. */
  lemma SearchIgnoresQueryCase(query: string, e: Event)
    ensures MatchesQuery(query, e) == MatchesQuery(Lower(query), e)
  {
    assert Lower(Lower(query)) == Lower(query);
  }

  // ---------------------------------------------------------------------
  // The button on each card

  datatype CardButton = LeaveButton | RsvpButton(disabled: bool, caption: string)

  /** Leave for an attendee; otherwise RSVP, disabled and labelled Full when
      no seat is left. An event without a capacity always offers RSVP. */
  function CardAction(e: Event, user: UserId): (b: CardButton)
    ensures b == LeaveButton <==> user in e.attendees
    ensures b.RsvpButton? ==> (b.disabled <==> e.capacity.Some? && |e.attendees| >= e.capacity.value)
    ensures b.RsvpButton? ==> (b.caption == "Full" <==> b.disabled) && (b.caption == "RSVP" <==> !b.disabled)
  {
    if IsAttending(e, user) then LeaveButton
    else
      var full := IsFull(e);
      RsvpButton(full, if full then "Full" else "RSVP")
  }

  /** The card offers what the server would answer to a join: Leave for a
      member, a disabled Full button exactly when the join would be refused
      as full, and an enabled RSVP button exactly when it would succeed. */
  lemma CardAgreesWithJoin(e: Event, user: UserId)
    ensures CardAction(e, user) == LeaveButton <==>
      Rsvp.JoinOutcome(Some(e), user) == Rsvp.AlreadyRegistered
    ensures CardAction(e, user) == RsvpButton(true, "Full") <==>
      Rsvp.JoinOutcome(Some(e), user) == Rsvp.Full
    ensures CardAction(e, user) == RsvpButton(false, "RSVP") <==>
      Rsvp.JoinOutcome(Some(e), user).Ok?
  {
  }
}
