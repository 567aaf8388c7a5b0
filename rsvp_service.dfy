/** `RSVPService`: booking, check-in and cancellation, each a sequence of
    guarded reads followed by writes through the repositories. Calls run one
    after another; the confirmation email is a notification with no effect on
    the stored state and is not modelled. */
module RsvpService {
  import opened Wrappers
  import opened TicketModel
  import opened RsvpModel
  import opened Database
  import QrService
  import RsvpRepository
  import TicketRepository
  import EventRepository

  /** The `ValueError`s the service raises, plus the integrity error the RSVP
      insert raises for an unknown user. */
  datatype RsvpError =
    | EventNotFound
    | InvalidTicket
    | AlreadyRsvped
    | SoldOut
    | QrRejected
    | Integrity(error: DbError)
    | RsvpNotFound
    | Unauthorized
    | AlreadyCheckedIn
    | NotFoundOrUnauthorized
    | AlreadyAttended

  /** No ticket of the store has a negative sold count or is sold beyond its
      capacity. */
  predicate WithinCapacity(tickets: map<int, Ticket>)
  {
    forall k | k in tickets :: 0 <= tickets[k].quantitySold <= tickets[k].quantityTotal
  }

  /** The first guard of `create_rsvp` that fails, if any, on the state before
      the call. */
  function CreateRejection(events: map<int, EventModel.Event>, tickets: map<int, Ticket>, rsvps: map<int, Rsvp>,
                           eventId: int, ticketId: int, userId: int): (r: Option<RsvpError>)
    ensures eventId !in events ==> r == Some(EventNotFound)
    ensures eventId in events ==>
              (ticketId !in tickets || tickets[ticketId].eventId != eventId <==> r == Some(InvalidTicket))
    ensures r == Some(AlreadyRsvped) <==>
              && eventId in events && ticketId in tickets && tickets[ticketId].eventId == eventId
              && RsvpRepository.GetByUserAndEvent(rsvps, userId, eventId).Some?
    ensures r == Some(SoldOut) <==>
              && eventId in events && ticketId in tickets && tickets[ticketId].eventId == eventId
              && RsvpRepository.GetByUserAndEvent(rsvps, userId, eventId).None?
              && tickets[ticketId].quantitySold >= tickets[ticketId].quantityTotal
    ensures r == Some(QrRejected) <==>
              && eventId in events && ticketId in tickets && tickets[ticketId].eventId == eventId
              && RsvpRepository.GetByUserAndEvent(rsvps, userId, eventId).None?
              && tickets[ticketId].quantitySold < tickets[ticketId].quantityTotal
              && QrService.GenerateRsvpQr(userId, eventId).Failure?
    ensures r.None? ==> eventId in events && ticketId in tickets && tickets[ticketId].quantitySold < tickets[ticketId].quantityTotal
  {
    if eventId !in events then Some(EventNotFound)
    else if ticketId !in tickets || tickets[ticketId].eventId != eventId then Some(InvalidTicket)
    else if RsvpRepository.GetByUserAndEvent(rsvps, userId, eventId).Some? then Some(AlreadyRsvped)
    else if tickets[ticketId].quantitySold >= tickets[ticketId].quantityTotal then Some(SoldOut)
    else if QrService.GenerateRsvpQr(userId, eventId).Failure? then Some(QrRejected)
    else None
  }

  /** The row `create_rsvp` inserts: CONFIRMED, carrying the check-in QR
      payload of the user and event. */
  function BookedRsvp(eventId: int, ticketId: int, userId: nat, now: int): (r: Rsvp)
    requires eventId >= 0
    ensures r.eventId == eventId && r.ticketId == ticketId && r.userId == userId
    ensures r.status == Confirmed && r.qrCode == Some(QrService.PayloadText(userId, eventId))
    ensures r.checkedInAt.None? && !r.isDeleted && r.createdAt == now
  {
    NewRsvp(RsvpCreate(eventId, userId, ticketId, Confirmed, Some(QrService.PayloadText(userId, eventId)), None, None), now)
  }

  /** `create_rsvp`. The guards run in order: the event must exist (soft-deleted
      events included), the ticket must exist and belong to it, the user must
      have no RSVP for the event in any status, the ticket must not be sold
      out, and the QR generator must accept the ids. Then the RSVP is inserted
      and the ticket's sold count rises by one. */
  method CreateRsvp(db: Db, eventId: int, ticketId: int, userId: int, now: int)
    returns (r: Result<int, RsvpError>)
    requires db.Valid()
    modifies db
    ensures db.Valid()
    ensures db.UsersSame() && db.EventsSame() && db.TokensSame()
    ensures var rejection := CreateRejection(old(db.events), old(db.tickets), old(db.rsvps), eventId, ticketId, userId);
            && (rejection.Some? ==> r == Failure(rejection.value))
            && (rejection.None? ==> (r.Failure? <==> userId !in old(db.users)))
            && (rejection.None? && r.Failure? ==> r.error == Integrity(ForeignKeyViolation))
    ensures r.Failure? ==> db.TicketsSame() && db.RsvpsSame()
    ensures r.Success? ==>
              && userId > 0 && eventId > 0
              && r.value !in old(db.rsvps)
              && db.rsvps == old(db.rsvps)[r.value := BookedRsvp(eventId, ticketId, userId, now)]
              && ticketId in old(db.tickets)
              && db.tickets == old(db.tickets)[ticketId := TicketRepository.OneMoreSold(old(db.tickets)[ticketId])]
    ensures WithinCapacity(old(db.tickets)) ==> WithinCapacity(db.tickets)
  {
    var rejection := CreateRejection(db.events, db.tickets, db.rsvps, eventId, ticketId, userId);
    if rejection.Some? {
      return Failure(rejection.value);
    }
    var qr := QrService.GenerateRsvpQr(userId, eventId);
    var created := RsvpRepository.Create(db, RsvpCreate(eventId, userId, ticketId, Confirmed, Some(qr.value.text), None, None), now);
    if created.Failure? {
      return Failure(Integrity(created.error));
    }
    var _ := TicketRepository.IncrementSoldCount(db, ticketId);
    r := Success(created.value);
  }

  /** `check_in_attendee`: rejects a missing RSVP, an organizer who does not own
      the event, and an RSVP already ATTENDED; otherwise marks it ATTENDED at
      `now`. CANCELLED and NO_SHOW RSVPs are checked in like any other. */
  method CheckInAttendee(db: Db, rsvpId: int, organizerId: int, now: int) returns (r: Result<(), RsvpError>)
    requires db.Valid()
    modifies db
    ensures db.Valid()
    ensures db.UsersSame() && db.EventsSame() && db.TicketsSame() && db.TokensSame()
    ensures r == Failure(RsvpNotFound) <==> rsvpId !in old(db.rsvps)
    ensures rsvpId in old(db.rsvps) ==>
              var e := old(db.rsvps)[rsvpId].eventId;
              (e !in old(db.events) || old(db.events)[e].organizerId != organizerId <==> r == Failure(Unauthorized))
    ensures r == Failure(AlreadyCheckedIn) <==>
              && rsvpId in old(db.rsvps)
              && old(db.rsvps)[rsvpId].eventId in old(db.events)
              && old(db.events)[old(db.rsvps)[rsvpId].eventId].organizerId == organizerId
              && old(db.rsvps)[rsvpId].status == Attended
    ensures r.Success? <==>
              && rsvpId in old(db.rsvps)
              && old(db.rsvps)[rsvpId].eventId in old(db.events)
              && old(db.events)[old(db.rsvps)[rsvpId].eventId].organizerId == organizerId
              && old(db.rsvps)[rsvpId].status != Attended
    ensures r.Failure? ==> db.RsvpsSame()
    ensures r.Success? ==>
              && rsvpId in old(db.rsvps)
              && db.rsvps == old(db.rsvps)[rsvpId := old(db.rsvps)[rsvpId].(status := Attended, checkedInAt := Some(now))]
              && db.nextRsvpId == old(db.nextRsvpId)
  {
    var rsvp := RsvpRepository.GetById(db.rsvps, rsvpId);
    if rsvp.None? {
      return Failure(RsvpNotFound);
    }
    var event := EventRepository.GetById(db.events, rsvp.value.eventId);
    if event.None? || event.value.organizerId != organizerId {
      return Failure(Unauthorized);
    }
    if rsvp.value.status == Attended {
      return Failure(AlreadyCheckedIn);
    }
    var _ := RsvpRepository.UpdateStatus(db, rsvpId, Attended, Some(now));
    r := Success(());
  }

  /** `cancel_rsvp`: rejects a missing RSVP or one of another user, and one
      already ATTENDED; otherwise marks it CANCELLED and gives its ticket back
      by lowering the sold count (floored at 0). An RSVP that is already
      CANCELLED is cancelled again and lowers the count again. */
  method CancelRsvp(db: Db, rsvpId: int, userId: int) returns (r: Result<(), RsvpError>)
    requires db.Valid()
    modifies db
    ensures db.Valid()
    ensures db.UsersSame() && db.EventsSame() && db.TokensSame()
    ensures r == Failure(NotFoundOrUnauthorized) <==> rsvpId !in old(db.rsvps) || old(db.rsvps)[rsvpId].userId != userId
    ensures r == Failure(AlreadyAttended) <==>
              rsvpId in old(db.rsvps) && old(db.rsvps)[rsvpId].userId == userId && old(db.rsvps)[rsvpId].status == Attended
    ensures r.Success? <==>
              rsvpId in old(db.rsvps) && old(db.rsvps)[rsvpId].userId == userId && old(db.rsvps)[rsvpId].status != Attended
    ensures r.Failure? ==> db.RsvpsSame() && db.TicketsSame()
    ensures r.Success? ==>
              && var rsvp := old(db.rsvps)[rsvpId];
                 var t := old(db.tickets)[rsvp.ticketId];
                 && db.rsvps == old(db.rsvps)[rsvpId := rsvp.(status := Cancelled)]
                 && db.tickets == old(db.tickets)[rsvp.ticketId := t.(quantitySold := TicketRepository.Released(t.quantitySold))]
                 && db.nextRsvpId == old(db.nextRsvpId) && db.nextTicketId == old(db.nextTicketId)
    ensures WithinCapacity(old(db.tickets)) ==> WithinCapacity(db.tickets)
  {
    var rsvp := RsvpRepository.GetById(db.rsvps, rsvpId);
    if rsvp.None? || rsvp.value.userId != userId {
      return Failure(NotFoundOrUnauthorized);
    }
    if rsvp.value.status == Attended {
      return Failure(AlreadyAttended);
    }
    var _ := RsvpRepository.UpdateStatus(db, rsvpId, Cancelled, None);
    var _ := TicketRepository.DecrementSoldCount(db, rsvp.value.ticketId);
    r := Success(());
  }

  /** The duplicate guard matches a CANCELLED RSVP too, so a user who
      cancelled cannot book the same event again. */
  lemma CancelledRsvpBlocksRebooking(events: map<int, EventModel.Event>, tickets: map<int, Ticket>,
                                     rsvps: map<int, Rsvp>, eventId: int, ticketId: int, userId: int, k: int)
    requires eventId in events && ticketId in tickets && tickets[ticketId].eventId == eventId
    requires k in rsvps && rsvps[k].userId == userId && rsvps[k].eventId == eventId && rsvps[k].status == Cancelled
    ensures CreateRejection(events, tickets, rsvps, eventId, ticketId, userId) == Some(AlreadyRsvped)
  {
    assert RsvpRepository.OfPair(userId, eventId, rsvps[k]);
  }

  /** Two cancellations of the same RSVP in a row: the second is accepted as
      well and gives the ticket back a second time, so the sold count can fall
      below the number of RSVPs still holding the ticket. */
  method CancelTwice(db: Db, rsvpId: int, userId: int) returns (first: Result<(), RsvpError>, second: Result<(), RsvpError>)
    requires db.Valid()
    modifies db
    ensures db.Valid()
    ensures first.Success? ==> second.Success?
    ensures first.Success? ==>
              && rsvpId in old(db.rsvps) && old(db.rsvps)[rsvpId].ticketId in old(db.tickets)
              && var t := old(db.rsvps)[rsvpId].ticketId;
                 && t in db.tickets
                 && db.tickets[t].quantitySold ==
                      TicketRepository.Released(TicketRepository.Released(old(db.tickets)[t].quantitySold))
  {
    first := CancelRsvp(db, rsvpId, userId);
    second := CancelRsvp(db, rsvpId, userId);
  }

  // ---------------------------------------------------------------------------
  // Listings.

  /** `RSVPType`: the fields of an RSVP the API returns. */
  datatype RsvpView = RsvpView(
    id: int, eventId: int, userId: int, ticketId: int, status: RsvpStatus,
    qrCode: Option<string>, checkedInAt: Option<int>, createdAt: int)

  function ViewOf(id: int, r: Rsvp): RsvpView
  {
    RsvpView(id, r.eventId, r.userId, r.ticketId, r.status, r.qrCode, r.checkedInAt, r.createdAt)
  }

  function Views(rows: seq<(int, Rsvp)>): (r: seq<RsvpView>)
    ensures |r| == |rows|
    ensures forall i | 0 <= i < |rows| :: r[i] == ViewOf(rows[i].0, rows[i].1)
  {
    seq(|rows|, i requires 0 <= i < |rows| => ViewOf(rows[i].0, rows[i].1))
  }

  lemma ViewsSound(rows: seq<(int, Rsvp)>, i: int)
    requires 0 <= i < |rows|
    ensures Views(rows)[i] == ViewOf(rows[i].0, rows[i].1) && rows[i] in rows
  {
  }

  lemma ViewsComplete(rows: seq<(int, Rsvp)>, k: int, x: Rsvp)
    requires (k, x) in rows
    ensures ViewOf(k, x) in Views(rows)
  {
    var i :| 0 <= i < |rows| && rows[i] == (k, x);
    assert Views(rows)[i] == ViewOf(k, x);
  }

  /** `get_user_rsvps`: one view per RSVP of the user, in every status,
      newest first. */
  function GetUserRsvps(rsvps: map<int, Rsvp>, userId: int): (r: seq<RsvpView>)
    ensures forall i | 0 <= i < |r| :: r[i].id in rsvps && r[i] == ViewOf(r[i].id, rsvps[r[i].id]) && r[i].userId == userId
    ensures forall k | k in rsvps && rsvps[k].userId == userId :: ViewOf(k, rsvps[k]) in r
    ensures forall i, j :: 0 <= i < j < |r| ==> r[i].createdAt >= r[j].createdAt
  {
    var rows := RsvpRepository.GetByUser(rsvps, userId);
    forall i | 0 <= i < |rows| ensures Views(rows)[i] == ViewOf(rows[i].0, rows[i].1) && rows[i] in rows {
      ViewsSound(rows, i);
    }
    forall k | k in rsvps && rsvps[k].userId == userId ensures ViewOf(k, rsvps[k]) in Views(rows) {
      ViewsComplete(rows, k, rsvps[k]);
    }
    Views(rows)
  }

  /** `get_event_attendees`: only the event's organizer may list them; the
      list holds every RSVP of the event, cancelled ones included, newest
      first. */
  function GetEventAttendees(events: map<int, EventModel.Event>, rsvps: map<int, Rsvp>, eventId: int, organizerId: int)
    : (r: Result<seq<RsvpView>, RsvpError>)
    ensures r.Failure? <==> eventId !in events || events[eventId].organizerId != organizerId
    ensures r.Failure? ==> r.error == Unauthorized
    ensures r.Success? ==>
              && (forall i | 0 <= i < |r.value| ::
                    r.value[i].id in rsvps && r.value[i] == ViewOf(r.value[i].id, rsvps[r.value[i].id])
                    && r.value[i].eventId == eventId)
              && (forall k | k in rsvps && rsvps[k].eventId == eventId :: ViewOf(k, rsvps[k]) in r.value)
              && (forall i, j :: 0 <= i < j < |r.value| ==> r.value[i].createdAt >= r.value[j].createdAt)
  {
    if eventId !in events || events[eventId].organizerId != organizerId then Failure(Unauthorized)
    else Success(EventRsvps(rsvps, eventId))
  }

  /** The views of every RSVP of the event, newest first. */
  function EventRsvps(rsvps: map<int, Rsvp>, eventId: int): (r: seq<RsvpView>)
    ensures forall i | 0 <= i < |r| :: r[i].id in rsvps && r[i] == ViewOf(r[i].id, rsvps[r[i].id]) && r[i].eventId == eventId
    ensures forall k | k in rsvps && rsvps[k].eventId == eventId :: ViewOf(k, rsvps[k]) in r
    ensures forall i, j :: 0 <= i < j < |r| ==> r[i].createdAt >= r[j].createdAt
  {
    var rows := RsvpRepository.GetByEvent(rsvps, eventId);
    forall i | 0 <= i < |rows| ensures Views(rows)[i] == ViewOf(rows[i].0, rows[i].1) && rows[i] in rows {
      ViewsSound(rows, i);
    }
    forall k | k in rsvps && rsvps[k].eventId == eventId ensures ViewOf(k, rsvps[k]) in Views(rows) {
      ViewsComplete(rows, k, rsvps[k]);
    }
    Views(rows)
  }
}
