/** The `events` row, its status and category enumerations, and the create and
    update payloads of the event schema. */
module EventModel {
  import opened Wrappers

  datatype EventStatus = Draft | Published | Cancelled | Completed

  datatype EventCategory =
    | Conference | Workshop | Meetup | Webinar | Networking | Social | Sports | Other

  /** The string value of each category member. */
  function CategoryValue(c: EventCategory): string
  {
    match c
    case Conference => "conference"
    case Workshop => "workshop"
    case Meetup => "meetup"
    case Webinar => "webinar"
    case Networking => "networking"
    case Social => "social"
    case Sports => "sports"
    case Other => "other"
  }

  /** `EventCategory(value)`: the member with that value, or the `ValueError`
      the enumeration raises for any other string. */
  function CategoryFromValue(s: string): (r: Option<EventCategory>)
    ensures r.Some? ==> CategoryValue(r.value) == s
  {
    if s == "conference" then Some(Conference)
    else if s == "workshop" then Some(Workshop)
    else if s == "meetup" then Some(Meetup)
    else if s == "webinar" then Some(Webinar)
    else if s == "networking" then Some(Networking)
    else if s == "social" then Some(Social)
    else if s == "sports" then Some(Sports)
    else if s == "other" then Some(Other)
    else None
  }

  /** Every member is found again from its value, so the lookup fails exactly on
      strings that are no member's value. */
  lemma CategoryRoundTrip(c: EventCategory)
    ensures CategoryFromValue(CategoryValue(c)) == Some(c)
  {
  }

  lemma CategoryFromValueIff(s: string, c: EventCategory)
    ensures CategoryFromValue(s) == Some(c) <==> s == CategoryValue(c)
  {
    CategoryRoundTrip(c);
  }

  /** An `events` row (its key is the event id). Times are whole seconds. */
  datatype Event = Event(
    title: string,
    description: string,
    category: EventCategory,
    location: string,
    venueAddress: Option<string>,
    startDate: int,
    endDate: int,
    timezone: string,
    maxAttendees: Option<int>,
    isFree: bool,
    coverImage: Option<string>,
    status: EventStatus,
    organizerId: int,
    isDeleted: bool,
    createdAt: int)

  /** `EventCreate`: the event fields a caller supplies. */
  datatype EventCreate = EventCreate(
    title: string,
    description: string,
    category: EventCategory,
    location: string,
    venueAddress: Option<string>,
    startDate: int,
    endDate: int,
    timezone: string,
    maxAttendees: Option<int>,
    isFree: bool,
    coverImage: Option<string>,
    status: EventStatus,
    organizerId: int)

  /** The row `Event(**data.model_dump())` inserts; `is_deleted` defaults to
      false and `created_at` to the insertion time. */
  function NewEvent(data: EventCreate, now: int): (e: Event)
    ensures e.status == data.status && e.organizerId == data.organizerId
    ensures !e.isDeleted && e.createdAt == now
  {
    Event(data.title, data.description, data.category, data.location, data.venueAddress,
          data.startDate, data.endDate, data.timezone, data.maxAttendees, data.isFree,
          data.coverImage, data.status, data.organizerId, false, now)
  }

  /** `EventUpdate`: every field optional, `None` meaning "leave as is". */
  datatype EventUpdate = EventUpdate(
    title: Option<string>,
    description: Option<string>,
    category: Option<EventCategory>,
    location: Option<string>,
    venueAddress: Option<string>,
    startDate: Option<int>,
    endDate: Option<int>,
    timezone: Option<string>,
    maxAttendees: Option<int>,
    isFree: Option<bool>,
    coverImage: Option<string>,
    status: Option<EventStatus>)

  const NoEventChange := EventUpdate(None, None, None, None, None, None, None, None, None, None, None, None)

  function Pick<T>(o: Option<T>, current: T): T
  {
    if o.Some? then o.value else current
  }

  /** The `setattr` loop of the repository update: each supplied field replaces
      the stored one. A nullable column cannot be reset to `NULL` this way. */
  function PatchEvent(e: Event, u: EventUpdate): (r: Event)
    ensures r.organizerId == e.organizerId && r.isDeleted == e.isDeleted && r.createdAt == e.createdAt
    ensures u.status.None? ==> r.status == e.status
  {
    Event(Pick(u.title, e.title), Pick(u.description, e.description), Pick(u.category, e.category),
          Pick(u.location, e.location),
          if u.venueAddress.Some? then u.venueAddress else e.venueAddress,
          Pick(u.startDate, e.startDate), Pick(u.endDate, e.endDate), Pick(u.timezone, e.timezone),
          if u.maxAttendees.Some? then u.maxAttendees else e.maxAttendees,
          Pick(u.isFree, e.isFree),
          if u.coverImage.Some? then u.coverImage else e.coverImage,
          Pick(u.status, e.status), e.organizerId, e.isDeleted, e.createdAt)
  }

  /** An update with no field set changes nothing. */
  lemma PatchNothing(e: Event)
    ensures PatchEvent(e, NoEventChange) == e
  {
  }

  /** Applying the same update twice is the same as applying it once. */
  lemma PatchIdempotent(e: Event, u: EventUpdate)
    ensures PatchEvent(PatchEvent(e, u), u) == PatchEvent(e, u)
  {
  }

  /** A supplied nullable field can only become a value, never `None` again. */
  lemma PatchKeepsNullablesSet(e: Event, u: EventUpdate)
    ensures e.venueAddress.Some? ==> PatchEvent(e, u).venueAddress.Some?
    ensures e.maxAttendees.Some? ==> PatchEvent(e, u).maxAttendees.Some?
    ensures e.coverImage.Some? ==> PatchEvent(e, u).coverImage.Some?
  {
  }
}
