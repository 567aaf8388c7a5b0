/** `EventRepository`: the statements issued against the `events` table, and
    the attendee count read from `rsvps`. */
module EventRepository {
  import opened Wrappers
  import opened Text
  import opened Tables
  import opened EventModel
  import RsvpModel
  import RsvpRepository
  import opened Database

  // ---------------------------------------------------------------------------
  // Writes.

  /** `create`: the foreign key on `organizer_id` rejects an unknown user. */
  method Create(db: Db, data: EventCreate, now: int) returns (r: Result<int, DbError>)
    requires db.Valid()
    modifies db
    ensures db.Valid()
    ensures db.UsersSame() && db.TicketsSame() && db.RsvpsSame() && db.TokensSame()
    ensures r.Failure? <==> data.organizerId !in old(db.users)
    ensures r.Failure? ==> r.error == ForeignKeyViolation && db.EventsSame()
    ensures r.Success? ==>
              && r.value !in old(db.events)
              && db.events == old(db.events)[r.value := NewEvent(data, now)]
  {
    if data.organizerId !in db.users {
      return Failure(ForeignKeyViolation);
    }
    var id := db.nextEventId;
    db.events := db.events[id := NewEvent(data, now)];
    db.nextEventId := id + 1;
    r := Success(id);
  }

  /** `update`: `None` for a missing event; otherwise the supplied fields
      overwrite the stored ones. */
  method Update(db: Db, id: int, data: EventUpdate) returns (r: Option<Event>)
    requires db.Valid()
    modifies db
    ensures db.Valid()
    ensures db.UsersSame() && db.TicketsSame() && db.RsvpsSame() && db.TokensSame()
    ensures id !in old(db.events) ==> r.None? && db.EventsSame()
    ensures id in old(db.events) ==>
              && r == Some(PatchEvent(old(db.events)[id], data))
              && db.events == old(db.events)[id := r.value]
              && db.nextEventId == old(db.nextEventId)
  {
    if id !in db.events {
      return None;
    }
    var e := PatchEvent(db.events[id], data);
    db.events := db.events[id := e];
    r := Some(e);
  }

  /** `delete`: a hard delete; `ON DELETE CASCADE` removes the event's tickets
      and every RSVP that points at the event or at one of those tickets. */
  method Delete(db: Db, id: int) returns (removed: bool)
    requires db.Valid()
    modifies db
    ensures db.Valid()
    ensures db.UsersSame() && db.TokensSame()
    ensures removed <==> id in old(db.events)
    ensures db.events == old(db.events) - {id} && db.nextEventId == old(db.nextEventId)
    ensures db.tickets == map k | k in old(db.tickets) && old(db.tickets)[k].eventId != id :: old(db.tickets)[k]
    ensures db.nextTicketId == old(db.nextTicketId) && db.nextRsvpId == old(db.nextRsvpId)
    ensures db.rsvps == RsvpsWithin(old(db.rsvps), db.events, db.tickets)
    ensures forall k | k in db.rsvps :: k in old(db.rsvps) && db.rsvps[k] == old(db.rsvps)[k]
    ensures forall k | k in old(db.rsvps) ::
              k in db.rsvps <==>
                old(db.rsvps)[k].eventId != id && old(db.tickets)[old(db.rsvps)[k].ticketId].eventId != id
  {
    removed := id in db.events;
    db.events := db.events - {id};
    db.tickets := TicketsOutside(db.tickets, {id});
    db.rsvps := RsvpsWithin(db.rsvps, db.events, db.tickets);
  }

  /** `update_status`: true iff the event exists. */
  method UpdateStatus(db: Db, id: int, status: EventStatus) returns (ok: bool)
    requires db.Valid()
    modifies db
    ensures db.Valid()
    ensures db.UsersSame() && db.TicketsSame() && db.RsvpsSame() && db.TokensSame()
    ensures ok <==> id in old(db.events)
    ensures !ok ==> db.EventsSame()
    ensures ok ==>
              && db.events == old(db.events)[id := old(db.events)[id].(status := status)]
              && db.nextEventId == old(db.nextEventId)
  {
    ok := id in db.events;
    if ok {
      db.events := db.events[id := db.events[id].(status := status)];
    }
  }

  // ---------------------------------------------------------------------------
  // Queries.

  /** `get_by_id`. */
  function GetById(events: map<int, Event>, id: int): (r: Option<Event>)
    ensures r.Some? <==> id in events
    ensures r.Some? ==> r.value == events[id]
  {
    if id in events then Some(events[id]) else None
  }

  /** The category filter of `get_all`: absent for `None`, for the empty
      string and for a string whose lowercase form names no category. */
  function CategoryFilter(category: Option<string>): (r: Option<EventCategory>)
    ensures category.None? || category == Some("") ==> r.None?
    ensures r.Some? ==> CategoryValue(r.value) == Lower(category.value)
  {
    if category.Some? && category.value != "" then CategoryFromValue(Lower(category.value)) else None
  }

  /** The search filter of `get_all`: the `ILIKE` pattern, absent for `None`
      and for the empty string. */
  function SearchPattern(search: Option<string>): (r: Option<string>)
    ensures search.None? || search == Some("") ==> r.None?
    ensures r.Some? ==> r.value == "%" + Lower(search.value) + "%"
  {
    if search.Some? && search.value != "" then Some("%" + Lower(search.value) + "%") else None
  }

  /** The `WHERE` clause of `get_all`. */
  predicate Listed(e: Event, status: EventStatus, category: Option<EventCategory>, pattern: Option<string>)
  {
    && e.status == status
    && !e.isDeleted
    && (category.Some? ==> e.category == category.value)
    && (pattern.Some? ==>
          ILike(e.title, pattern.value) || ILike(e.description, pattern.value) || ILike(e.location, pattern.value))
  }

  /** The sort key of `ORDER BY start_date ASC`. */
  function Starts(row: (int, Event)): real
  {
    row.1.startDate as real
  }

  /** The `WHERE` clause of `get_all` for the given arguments. */
  predicate Selected(e: Event, status: EventStatus, category: Option<string>, search: Option<string>)
  {
    Listed(e, status, CategoryFilter(category), SearchPattern(search))
  }

  /** How many events the `WHERE` clause of `get_all` keeps. */
  function MatchCount(events: map<int, Event>, status: EventStatus, category: Option<string>,
                      search: Option<string>): nat
  {
    Count(events, e => Selected(e, status, category, search))
  }

  /** Every event the `WHERE` clause of `get_all` keeps, earliest start first. */
  function Matching(events: map<int, Event>, status: EventStatus, category: Option<string>,
                    search: Option<string>): (r: seq<(int, Event)>)
    ensures forall x | x in r :: x.0 in events && x.1 == events[x.0] && Selected(x.1, status, category, search)
    ensures forall k | k in events && Selected(events[k], status, category, search) :: (k, events[k]) in r
    ensures |r| == MatchCount(events, status, category, search)
    ensures forall i, j :: 0 <= i < j < |r| ==> r[i].1.startDate <= r[j].1.startDate
  {
    var all := OrderBy(events, e => Selected(e, status, category, search), Starts);
    StartOrder(all);
    all
  }

  /** Ordered by the `start_date` key means non-decreasing start dates. */
  lemma StartOrder(s: seq<(int, Event)>)
    requires SortedBy(s, Starts)
    ensures forall i, j :: 0 <= i < j < |s| ==> s[i].1.startDate <= s[j].1.startDate
  {
    forall i, j | 0 <= i < j < |s| ensures s[i].1.startDate <= s[j].1.startDate {
      assert Starts(s[i]) <= Starts(s[j]);
    }
  }

  /** `get_all`: the events with the requested status that are not
      soft-deleted, narrowed by category and search text, earliest start
      first, one page of them. */
  function GetAll(events: map<int, Event>, skip: nat, limit: nat, category: Option<string>,
                  search: Option<string>, status: EventStatus): (r: seq<(int, Event)>)
    ensures forall x | x in r :: x.0 in events && x.1 == events[x.0] && Selected(x.1, status, category, search)
    ensures forall i, j :: 0 <= i < j < |r| ==> r[i].1.startDate <= r[j].1.startDate
    ensures var n := MatchCount(events, status, category, search);
            |r| == if skip >= n then 0 else if n - skip < limit then n - skip else limit
    ensures |r| <= limit
    ensures var all := Matching(events, status, category, search);
            forall i | 0 <= i < |r| :: skip + i < |all| && r[i] == all[skip + i]
  {
    var all := Matching(events, status, category, search);
    PageKeeps(all, skip, limit, events, e => Selected(e, status, category, search));
    PageInStartOrder(all, skip, limit);
    Page(all, skip, limit)
  }

  /** A page of rows in start order is in start order. */
  lemma PageInStartOrder(all: seq<(int, Event)>, skip: nat, limit: nat)
    requires forall i, j :: 0 <= i < j < |all| ==> all[i].1.startDate <= all[j].1.startDate
    ensures var r := Page(all, skip, limit);
            forall i, j :: 0 <= i < j < |r| ==> r[i].1.startDate <= r[j].1.startDate
  {
    var r := Page(all, skip, limit);
    forall i, j | 0 <= i < j < |r| ensures r[i].1.startDate <= r[j].1.startDate {
      assert r[i] == all[skip + i] && r[j] == all[skip + j];
    }
  }

  /** A first page shorter than the limit holds every matching event. */
  lemma FirstPageComplete(events: map<int, Event>, limit: nat, category: Option<string>,
                          search: Option<string>, status: EventStatus, k: int)
    requires k in events && Selected(events[k], status, category, search)
    requires |GetAll(events, 0, limit, category, search, status)| < limit
    ensures (k, events[k]) in GetAll(events, 0, limit, category, search, status)
  {
    var all := Matching(events, status, category, search);
    assert GetAll(events, 0, limit, category, search, status) == all;
  }

  /** With a wildcard-free search text, the search filter of `get_all` is a
      case-insensitive substring test on the title, description or location. */
  lemma SearchIsSubstring(e: Event, search: string)
    requires search != "" && NoWildcards(search)
    ensures var p := SearchPattern(Some(search)).value;
            ILike(e.title, p) || ILike(e.description, p) || ILike(e.location, p)
            <==> IsSubstring(Lower(search), Lower(e.title))
                 || IsSubstring(Lower(search), Lower(e.description))
                 || IsSubstring(Lower(search), Lower(e.location))
  {
    ILikeContains(e.title, search);
    ILikeContains(e.description, search);
    ILikeContains(e.location, search);
  }

  /** The sort key of `ORDER BY created_at DESC`. */
  function Newest(row: (int, Event)): real
  {
    -(row.1.createdAt as real)
  }

  predicate OrganizedBy(organizerId: int, e: Event) { e.organizerId == organizerId }

  /** `get_by_organizer`: every event of the organizer, whatever its status
      and soft-delete flag, newest first. */
  function GetByOrganizer(events: map<int, Event>, organizerId: int): (r: seq<(int, Event)>)
    ensures forall x | x in r :: x.0 in events && x.1 == events[x.0] && x.1.organizerId == organizerId
    ensures forall k | k in events && events[k].organizerId == organizerId :: (k, events[k]) in r
    ensures |r| == Count(events, e => OrganizedBy(organizerId, e))
    ensures forall i, j :: 0 <= i < j < |r| ==> r[i].1.createdAt >= r[j].1.createdAt
    ensures forall i, j :: 0 <= i < j < |r| ==> r[i].0 != r[j].0
  {
    var s := OrderBy(events, e => OrganizedBy(organizerId, e), Newest);
    assert SortedBy(s, Newest) && KeysDistinct(s);
    s
  }

  predicate Attends(eventId: int, r: RsvpModel.Rsvp)
  {
    r.eventId == eventId && RsvpModel.IsAttending(r)
  }

  /** `get_attendee_count`: the event's RSVPs that are CONFIRMED or ATTENDED,
      soft-deleted ones included. */
  function AttendeeCount(rsvps: map<int, RsvpModel.Rsvp>, eventId: int): (n: nat)
    ensures n > 0 <==> exists k | k in rsvps :: rsvps[k].eventId == eventId && RsvpModel.IsAttending(rsvps[k])
  {
    CountPositive(rsvps, r => Attends(eventId, r));
    Count(rsvps, r => Attends(eventId, r))
  }

  /** The attendee count is the check-in summary's "pending check-in" plus
      "checked in" columns, so it never exceeds the RSVP total. */
  lemma {:induction false} AttendeesAreConfirmedPlusCheckedIn(rsvps: map<int, RsvpModel.Rsvp>, eventId: int)
    ensures var s := RsvpRepository.CheckInSummaryOf(rsvps, eventId);
            AttendeeCount(rsvps, eventId) == s.pendingCheckin + s.checkedIn
            && AttendeeCount(rsvps, eventId) <= s.totalRsvps
  {
    CountSplit(rsvps, r => Attends(eventId, r),
               r => RsvpRepository.HasStatus(eventId, RsvpModel.Confirmed, r),
               r => RsvpRepository.HasStatus(eventId, RsvpModel.Attended, r));
    RsvpRepository.SummaryPartsWithinTotal(rsvps, eventId);
  }
}
