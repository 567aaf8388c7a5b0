/** The `rsvps` row, its status enumeration and the RSVP schema's create and
    update payloads. */
module RsvpModel {
  import opened Wrappers

  datatype RsvpStatus = Pending | Confirmed | Cancelled | Attended | NoShow

  /** An `rsvps` row (its key is the RSVP id). `qrCode` holds the text the
      check-in QR code encodes. */
  datatype Rsvp = Rsvp(
    eventId: int,
    userId: int,
    ticketId: int,
    status: RsvpStatus,
    qrCode: Option<string>,
    checkedInAt: Option<int>,
    notes: Option<string>,
    isDeleted: bool,
    createdAt: int)

  /** `RSVPCreate`; its `status` defaults to PENDING. */
  datatype RsvpCreate = RsvpCreate(
    eventId: int,
    userId: int,
    ticketId: int,
    status: RsvpStatus,
    qrCode: Option<string>,
    checkedInAt: Option<int>,
    notes: Option<string>)

  /** The schema's defaults for the optional fields. */
  function DefaultRsvpCreate(eventId: int, userId: int, ticketId: int): (c: RsvpCreate)
    ensures c.status == Pending && c.qrCode.None? && c.checkedInAt.None? && c.notes.None?
  {
    RsvpCreate(eventId, userId, ticketId, Pending, None, None, None)
  }

  /** The row `RSVP(**data.model_dump())` inserts. */
  function NewRsvp(data: RsvpCreate, now: int): (r: Rsvp)
    ensures r.eventId == data.eventId && r.userId == data.userId && r.ticketId == data.ticketId
    ensures r.status == data.status && r.qrCode == data.qrCode && r.checkedInAt == data.checkedInAt
    ensures !r.isDeleted && r.createdAt == now
  {
    Rsvp(data.eventId, data.userId, data.ticketId, data.status, data.qrCode, data.checkedInAt,
         data.notes, false, now)
  }

  /** `RSVPUpdate`: status, QR code, check-in time and notes, all optional. */
  datatype RsvpUpdate = RsvpUpdate(
    status: Option<RsvpStatus>,
    qrCode: Option<string>,
    checkedInAt: Option<int>,
    notes: Option<string>)

  /** The `setattr` loop of the repository update over the supplied fields. */
  function PatchRsvp(r: Rsvp, u: RsvpUpdate): (p: Rsvp)
    ensures p.eventId == r.eventId && p.userId == r.userId && p.ticketId == r.ticketId
    ensures p.isDeleted == r.isDeleted && p.createdAt == r.createdAt
    ensures p.status == (if u.status.Some? then u.status.value else r.status)
  {
    Rsvp(r.eventId, r.userId, r.ticketId,
         if u.status.Some? then u.status.value else r.status,
         if u.qrCode.Some? then u.qrCode else r.qrCode,
         if u.checkedInAt.Some? then u.checkedInAt else r.checkedInAt,
         if u.notes.Some? then u.notes else r.notes,
         r.isDeleted, r.createdAt)
  }

  lemma PatchNothing(r: Rsvp)
    ensures PatchRsvp(r, RsvpUpdate(None, None, None, None)) == r
  {
  }

  lemma PatchIdempotent(r: Rsvp, u: RsvpUpdate)
    ensures PatchRsvp(PatchRsvp(r, u), u) == PatchRsvp(r, u)
  {
  }

  /** The statuses the attendee count includes. */
  predicate IsAttending(r: Rsvp)
  {
    r.status == Confirmed || r.status == Attended
  }
}
