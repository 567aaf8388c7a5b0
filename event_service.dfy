/** `EventService`: event creation (with the default free ticket), the
    organizer's updates and deletions, and the event listings with their
    attendee counts. */
module EventService {
  import opened Wrappers
  import opened Tables
  import opened EventModel
  import opened TicketModel
  import RsvpModel
  import opened Database
  import EventRepository
  import TicketRepository
  import RsvpRepository

  /** `EventInput`: what a caller supplies to create or edit an event. */
  datatype EventInput = EventInput(
    title: string,
    description: string,
    category: EventCategory,
    location: string,
    venueAddress: Option<string>,
    startDate: int,
    endDate: int,
    timezone: string,
    maxAttendees: Option<int>,
    isFree: bool)

  datatype EventError = NotFoundOrUnauthorized | Integrity(error: DbError)

  /** `EventType`: the event as the API returns it, with its attendee count. */
  datatype EventView = EventView(
    id: int,
    title: string,
    description: string,
    category: EventCategory,
    location: string,
    venueAddress: Option<string>,
    startDate: int,
    endDate: int,
    timezone: string,
    maxAttendees: Option<int>,
    isFree: bool,
    coverImage: Option<string>,
    status: EventStatus,
    organizerId: int,
    createdAt: int,
    attendeeCount: nat)

  function ViewOf(id: int, e: Event, attendeeCount: nat): EventView
  {
    EventView(id, e.title, e.description, e.category, e.location, e.venueAddress, e.startDate, e.endDate,
              e.timezone, e.maxAttendees, e.isFree, e.coverImage, e.status, e.organizerId, e.createdAt,
              attendeeCount)
  }

  // ---------------------------------------------------------------------------
  // create_event

  /** The `EventCreate` built from the input: owned by the caller, with the
      schema defaults DRAFT and no cover image. */
  function EventCreateOf(input: EventInput, organizerId: int): (c: EventCreate)
    ensures c.organizerId == organizerId && c.status == Draft && c.coverImage.None?
    ensures c.isFree == input.isFree && c.maxAttendees == input.maxAttendees
  {
    EventCreate(input.title, input.description, input.category, input.location, input.venueAddress,
                input.startDate, input.endDate, input.timezone, input.maxAttendees, input.isFree,
                None, Draft, organizerId)
  }

  /** `max_attendees or 1000`: `None` and 0 are both falsy. */
  function DefaultCapacity(maxAttendees: Option<int>): (n: int)
    ensures maxAttendees.None? || maxAttendees == Some(0) ==> n == 1000
    ensures maxAttendees.Some? && maxAttendees.value != 0 ==> n == maxAttendees.value
  {
    if maxAttendees.Some? && maxAttendees.value != 0 then maxAttendees.value else 1000
  }

  /** The default ticket of a free event: "General Admission", free of charge,
      in USD, none sold yet. */
  function GeneralAdmission(eventId: int, maxAttendees: Option<int>): (t: TicketCreate)
    ensures t.name == "General Admission" && t.description == Some("Free admission to the event")
    ensures t.price == 0.0 && t.currency == "USD" && t.ticketType == Free
    ensures t.quantityTotal == DefaultCapacity(maxAttendees) && t.quantitySold == 0
    ensures t.eventId == eventId && t.saleStartDate.None? && t.saleEndDate.None?
  {
    TicketCreate("General Admission", Some("Free admission to the event"), 0.0, "USD",
                 DefaultCapacity(maxAttendees), 0, Free, None, None, eventId)
  }

  /** `create_event`: inserts the event, then, for a free event only, its one
      default ticket, and returns the stored event with its attendee count,
      which is 0 since nothing can point at a new event yet. */
  method CreateEvent(db: Db, input: EventInput, organizerId: int, now: int) returns (r: Result<EventView, EventError>)
    requires db.Valid()
    modifies db
    ensures db.Valid()
    ensures db.UsersSame() && db.RsvpsSame() && db.TokensSame()
    ensures r.Failure? <==> organizerId !in old(db.users)
    ensures r.Failure? ==> r.error == Integrity(ForeignKeyViolation) && db.EventsSame() && db.TicketsSame()
    ensures r.Success? ==>
              && r.value.id !in old(db.events)
              && db.events == old(db.events)[r.value.id := NewEvent(EventCreateOf(input, organizerId), now)]
              && r.value == ViewOf(r.value.id, db.events[r.value.id], 0)
              && r.value.status == Draft && r.value.organizerId == organizerId
    ensures r.Success? && !input.isFree ==> db.TicketsSame()
    ensures r.Success? && input.isFree ==>
              exists k :: k !in old(db.tickets)
                 && db.tickets == old(db.tickets)[k := NewTicket(GeneralAdmission(r.value.id, input.maxAttendees), now)]
  {
    var created := EventRepository.Create(db, EventCreateOf(input, organizerId), now);
    if created.Failure? {
      return Failure(Integrity(created.error));
    }
    var id := created.value;
    ghost var ticketId := 0;
    if input.isFree {
      var t := TicketRepository.Create(db, GeneralAdmission(id, input.maxAttendees), now);
      assert t.Success?;
      ticketId := t.value;
    }
    NewEventHasNoAttendees(old(db.rsvps), old(db.events), id);
    var view := GetEventById(db.events, db.rsvps, id);
    r := Success(view.value);
    assert input.isFree ==>
             ticketId !in old(db.tickets)
             && db.tickets == old(db.tickets)[ticketId := NewTicket(GeneralAdmission(r.value.id, input.maxAttendees), now)];
  }

  /** No RSVP can refer to an event id that was not yet in the table. */
  lemma NewEventHasNoAttendees(rsvps: map<int, RsvpModel.Rsvp>, events: map<int, Event>, id: int)
    requires forall k | k in rsvps :: rsvps[k].eventId in events
    requires id !in events
    ensures EventRepository.AttendeeCount(rsvps, id) == 0
  {
    CountPositive(rsvps, r => EventRepository.Attends(id, r));
  }

  // ---------------------------------------------------------------------------
  // update_event / delete_event

  /** The `EventUpdate` built from the input: every field of the input is
      passed, so only the optional venue and capacity can be `None` (and are
      then left as stored); status and cover image are never touched. */
  function EventUpdateOf(input: EventInput): (u: EventUpdate)
    ensures u.status.None? && u.coverImage.None?
    ensures u.title == Some(input.title) && u.isFree == Some(input.isFree)
    ensures u.venueAddress == input.venueAddress && u.maxAttendees == input.maxAttendees
  {
    EventUpdate(Some(input.title), Some(input.description), Some(input.category), Some(input.location),
                input.venueAddress, Some(input.startDate), Some(input.endDate), Some(input.timezone),
                input.maxAttendees, Some(input.isFree), None, None)
  }

  /** An edit keeps the owner, the status and the cover image. */
  lemma UpdateKeepsOwnerAndStatus(e: Event, input: EventInput)
    ensures var p := PatchEvent(e, EventUpdateOf(input));
            p.organizerId == e.organizerId && p.status == e.status && p.coverImage == e.coverImage
            && p.title == input.title && p.startDate == input.startDate && p.endDate == input.endDate
  {
  }

  /** `update_event`: only the event's organizer may edit it. */
  method UpdateEvent(db: Db, eventId: int, input: EventInput, userId: int) returns (r: Result<(), EventError>)
    requires db.Valid()
    modifies db
    ensures db.Valid()
    ensures db.UsersSame() && db.TicketsSame() && db.RsvpsSame() && db.TokensSame()
    ensures r.Failure? <==> eventId !in old(db.events) || old(db.events)[eventId].organizerId != userId
    ensures r.Failure? ==> r.error == NotFoundOrUnauthorized && db.EventsSame()
    ensures r.Success? ==>
              && db.events == old(db.events)[eventId := PatchEvent(old(db.events)[eventId], EventUpdateOf(input))]
              && db.nextEventId == old(db.nextEventId)
  {
    var event := EventRepository.GetById(db.events, eventId);
    if event.None? || event.value.organizerId != userId {
      return Failure(NotFoundOrUnauthorized);
    }
    var _ := EventRepository.Update(db, eventId, EventUpdateOf(input));
    r := Success(());
  }

  /** `delete_event`: only the event's organizer may delete it; the delete is
      a hard one and cascades to the event's tickets and RSVPs. */
  method DeleteEvent(db: Db, eventId: int, userId: int) returns (r: Result<(), EventError>)
    requires db.Valid()
    modifies db
    ensures db.Valid()
    ensures db.UsersSame() && db.TokensSame()
    ensures r.Failure? <==> eventId !in old(db.events) || old(db.events)[eventId].organizerId != userId
    ensures r.Failure? ==> r.error == NotFoundOrUnauthorized && db.EventsSame() && db.TicketsSame() && db.RsvpsSame()
    ensures r.Success? ==>
              && db.events == old(db.events) - {eventId}
              && db.tickets == Database.TicketsOutside(old(db.tickets), {eventId})
              && db.rsvps == Database.RsvpsWithin(old(db.rsvps), db.events, db.tickets)
              && db.nextEventId == old(db.nextEventId)
              && db.nextTicketId == old(db.nextTicketId) && db.nextRsvpId == old(db.nextRsvpId)
    ensures r.Success? ==>
              && (forall k | k in db.tickets :: db.tickets[k].eventId != eventId)
              && (forall k | k in db.rsvps :: db.rsvps[k].eventId != eventId)
  {
    var event := EventRepository.GetById(db.events, eventId);
    if event.None? || event.value.organizerId != userId {
      return Failure(NotFoundOrUnauthorized);
    }
    var _ := EventRepository.Delete(db, eventId);
    r := Success(());
  }

  // ---------------------------------------------------------------------------
  // Reads.

  /** `get_event_by_id`: `None` for a missing event, otherwise the event with
      its CONFIRMED + ATTENDED count. */
  function GetEventById(events: map<int, Event>, rsvps: map<int, RsvpModel.Rsvp>, id: int): (r: Option<EventView>)
    ensures r.None? <==> id !in events
    ensures r.Some? ==> r.value == ViewOf(id, events[id], EventRepository.AttendeeCount(rsvps, id))
  {
    if id !in events then None
    else Some(ViewOf(id, events[id], EventRepository.AttendeeCount(rsvps, id)))
  }

  function Views(rows: seq<(int, Event)>, rsvps: map<int, RsvpModel.Rsvp>): (r: seq<EventView>)
    ensures |r| == |rows|
    ensures forall i | 0 <= i < |rows| ::
              r[i] == ViewOf(rows[i].0, rows[i].1, EventRepository.AttendeeCount(rsvps, rows[i].0))
  {
    seq(|rows|, i requires 0 <= i < |rows| => ViewOf(rows[i].0, rows[i].1, EventRepository.AttendeeCount(rsvps, rows[i].0)))
  }

  lemma ViewsAt(rows: seq<(int, Event)>, rsvps: map<int, RsvpModel.Rsvp>, i: int)
    requires 0 <= i < |rows|
    ensures Views(rows, rsvps)[i] == ViewOf(rows[i].0, rows[i].1, EventRepository.AttendeeCount(rsvps, rows[i].0))
    ensures rows[i] in rows
  {
  }

  /** `get_all_events`: one page of the PUBLISHED, not deleted events that
      pass the category and search filters, earliest first, each with its
      attendee count. */
  function GetAllEvents(events: map<int, Event>, rsvps: map<int, RsvpModel.Rsvp>, skip: nat, limit: nat,
                        category: Option<string>, search: Option<string>): (r: seq<EventView>)
    ensures forall i | 0 <= i < |r| ::
              && r[i].id in events && r[i] == ViewOf(r[i].id, events[r[i].id], EventRepository.AttendeeCount(rsvps, r[i].id))
              && r[i].status == Published && !events[r[i].id].isDeleted
              && EventRepository.Selected(events[r[i].id], Published, category, search)
    ensures forall i, j :: 0 <= i < j < |r| ==> r[i].startDate <= r[j].startDate
    ensures var all := EventRepository.Matching(events, Published, category, search);
            forall i | 0 <= i < |r| :: skip + i < |all| && r[i].id == all[skip + i].0
    ensures var n := EventRepository.MatchCount(events, Published, category, search);
            |r| == if skip >= n then 0 else if n - skip < limit then n - skip else limit
    ensures |r| <= limit
  {
    var rows := EventRepository.GetAll(events, skip, limit, category, search, Published);
    PublishedViews(rows, events, rsvps, category, search);
    Views(rows, rsvps)
  }

  /** The views of stored rows that pass the `get_all` filters for PUBLISHED
      events, ordered by start date, are views of the stored events, in the
      same order and with the same ids. */
  lemma PublishedViews(rows: seq<(int, Event)>, events: map<int, Event>, rsvps: map<int, RsvpModel.Rsvp>,
                       category: Option<string>, search: Option<string>)
    requires forall x | x in rows :: x.0 in events && x.1 == events[x.0] && EventRepository.Selected(x.1, Published, category, search)
    requires forall i, j :: 0 <= i < j < |rows| ==> rows[i].1.startDate <= rows[j].1.startDate
    ensures var r := Views(rows, rsvps);
            forall i | 0 <= i < |r| ::
              && r[i].id == rows[i].0
              && r[i].id in events && r[i] == ViewOf(r[i].id, events[r[i].id], EventRepository.AttendeeCount(rsvps, r[i].id))
              && r[i].status == Published && !events[r[i].id].isDeleted
              && EventRepository.Selected(events[r[i].id], Published, category, search)
    ensures var r := Views(rows, rsvps);
            forall i, j :: 0 <= i < j < |r| ==> r[i].startDate <= r[j].startDate
  {
    var r := Views(rows, rsvps);
    forall i | 0 <= i < |r|
      ensures r[i].id == rows[i].0
      ensures r[i].id in events && r[i] == ViewOf(r[i].id, events[r[i].id], EventRepository.AttendeeCount(rsvps, r[i].id))
      ensures r[i].status == Published && !events[r[i].id].isDeleted
      ensures EventRepository.Selected(events[r[i].id], Published, category, search)
    {
      ViewsAt(rows, rsvps, i);
    }
    forall i, j | 0 <= i < j < |r| ensures r[i].startDate <= r[j].startDate {
      ViewsAt(rows, rsvps, i);
      ViewsAt(rows, rsvps, j);
    }
  }

  /** `get_user_events`: every event the user organizes, whatever its status,
      newest first, each with its attendee count. */
  function GetUserEvents(events: map<int, Event>, rsvps: map<int, RsvpModel.Rsvp>, userId: int): (r: seq<EventView>)
    ensures forall i | 0 <= i < |r| ::
              r[i].id in events && r[i] == ViewOf(r[i].id, events[r[i].id], EventRepository.AttendeeCount(rsvps, r[i].id))
              && r[i].organizerId == userId
    ensures forall k | k in events && events[k].organizerId == userId :: exists i | 0 <= i < |r| :: r[i].id == k
    ensures forall i, j | 0 <= i < j < |r| :: r[i].id != r[j].id
    ensures |r| == Count(events, e => EventRepository.OrganizedBy(userId, e))
    ensures forall i, j :: 0 <= i < j < |r| ==> r[i].createdAt >= r[j].createdAt
  {
    var rows := EventRepository.GetByOrganizer(events, userId);
    OrganizerViews(rows, events, rsvps, userId);
    Views(rows, rsvps)
  }

  /** The views of every event of the organizer, each row once, newest first,
      are the views of those events, each id once, in the same order. */
  lemma OrganizerViews(rows: seq<(int, Event)>, events: map<int, Event>, rsvps: map<int, RsvpModel.Rsvp>, userId: int)
    requires forall x | x in rows :: x.0 in events && x.1 == events[x.0] && x.1.organizerId == userId
    requires forall k | k in events && events[k].organizerId == userId :: (k, events[k]) in rows
    requires forall i, j :: 0 <= i < j < |rows| ==> rows[i].1.createdAt >= rows[j].1.createdAt
    requires forall i, j :: 0 <= i < j < |rows| ==> rows[i].0 != rows[j].0
    ensures var r := Views(rows, rsvps);
            forall i | 0 <= i < |r| ::
              r[i].id in events && r[i] == ViewOf(r[i].id, events[r[i].id], EventRepository.AttendeeCount(rsvps, r[i].id))
              && r[i].organizerId == userId
    ensures var r := Views(rows, rsvps);
            forall k | k in events && events[k].organizerId == userId :: exists i | 0 <= i < |r| :: r[i].id == k
    ensures var r := Views(rows, rsvps);
            forall i, j | 0 <= i < j < |r| :: r[i].id != r[j].id
    ensures var r := Views(rows, rsvps);
            forall i, j :: 0 <= i < j < |r| ==> r[i].createdAt >= r[j].createdAt
  {
    var r := Views(rows, rsvps);
    forall i | 0 <= i < |r|
      ensures r[i].id == rows[i].0 && r[i].createdAt == rows[i].1.createdAt
      ensures r[i].id in events && r[i] == ViewOf(r[i].id, events[r[i].id], EventRepository.AttendeeCount(rsvps, r[i].id))
      ensures r[i].organizerId == userId
    {
      ViewsAt(rows, rsvps, i);
    }
    forall k | k in events && events[k].organizerId == userId
      ensures exists i | 0 <= i < |r| :: r[i].id == k
    {
      var i :| 0 <= i < |rows| && rows[i] == (k, events[k]);
      assert r[i].id == k;
    }
  }

  /** `get_event_analytics`: the check-in summary, for the organizer only. */
  function GetEventAnalytics(events: map<int, Event>, rsvps: map<int, RsvpModel.Rsvp>, eventId: int, organizerId: int)
    : (r: Result<RsvpRepository.CheckInSummary, EventError>)
    ensures r.Failure? <==> eventId !in events || events[eventId].organizerId != organizerId
    ensures r.Failure? ==> r.error == NotFoundOrUnauthorized
    ensures r.Success? ==> r.value == RsvpRepository.CheckInSummaryOf(rsvps, eventId)
    ensures r.Success? ==>
              r.value.pendingCheckin + r.value.checkedIn + r.value.noShow <= r.value.totalRsvps
              && r.value.totalRsvps == Count(rsvps, x => RsvpRepository.OfEvent(eventId, x))
  {
    if eventId !in events || events[eventId].organizerId != organizerId then Failure(NotFoundOrUnauthorized)
    else
      RsvpRepository.SummaryPartsWithinTotal(rsvps, eventId);
      Success(RsvpRepository.CheckInSummaryOf(rsvps, eventId))
  }
}
