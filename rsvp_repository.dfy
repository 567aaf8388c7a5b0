/** `RSVPRepository`: the statements issued against the `rsvps` table. */
module RsvpRepository {
  import opened Wrappers
  import opened Tables
  import opened RsvpModel
  import opened Database

  // ---------------------------------------------------------------------------
  // Writes.

  /** `create`: inserts the RSVP; the foreign keys on `event_id`, `ticket_id`
      and `user_id` reject a row that points at nothing. */
  method Create(db: Db, data: RsvpCreate, now: int) returns (r: Result<int, DbError>)
    requires db.Valid()
    modifies db
    ensures db.Valid()
    ensures db.UsersSame() && db.EventsSame() && db.TicketsSame() && db.TokensSame()
    ensures r.Failure? <==>
              data.eventId !in old(db.events) || data.ticketId !in old(db.tickets) || data.userId !in old(db.users)
    ensures r.Failure? ==> r.error == ForeignKeyViolation && db.RsvpsSame()
    ensures r.Success? ==>
              && r.value !in old(db.rsvps)
              && db.rsvps == old(db.rsvps)[r.value := NewRsvp(data, now)]
  {
    if data.eventId !in db.events || data.ticketId !in db.tickets || data.userId !in db.users {
      return Failure(ForeignKeyViolation);
    }
    var id := db.nextRsvpId;
    db.rsvps := db.rsvps[id := NewRsvp(data, now)];
    db.nextRsvpId := id + 1;
    r := Success(id);
  }

  /** `update`: `None` for a missing RSVP; otherwise the supplied fields
      overwrite the stored ones. */
  method Update(db: Db, id: int, data: RsvpUpdate) returns (r: Option<Rsvp>)
    requires db.Valid()
    modifies db
    ensures db.Valid()
    ensures db.UsersSame() && db.EventsSame() && db.TicketsSame() && db.TokensSame()
    ensures id !in old(db.rsvps) ==> r.None? && db.RsvpsSame()
    ensures id in old(db.rsvps) ==>
              && r == Some(PatchRsvp(old(db.rsvps)[id], data))
              && db.rsvps == old(db.rsvps)[id := r.value]
              && db.nextRsvpId == old(db.nextRsvpId)
  {
    if id !in db.rsvps {
      return None;
    }
    var p := PatchRsvp(db.rsvps[id], data);
    db.rsvps := db.rsvps[id := p];
    r := Some(p);
  }

  /** `delete`: true iff a row was removed. */
  method Delete(db: Db, id: int) returns (removed: bool)
    requires db.Valid()
    modifies db
    ensures db.Valid()
    ensures db.UsersSame() && db.EventsSame() && db.TicketsSame() && db.TokensSame()
    ensures removed <==> id in old(db.rsvps)
    ensures db.rsvps == old(db.rsvps) - {id} && db.nextRsvpId == old(db.nextRsvpId)
  {
    removed := id in db.rsvps;
    db.rsvps := db.rsvps - {id};
  }

  /** The row after `update_status`: the new status, and the check-in time when
      one is given. */
  function WithStatus(r: Rsvp, status: RsvpStatus, checkedInAt: Option<int>): (p: Rsvp)
    ensures p.status == status
    ensures p.checkedInAt == (if checkedInAt.Some? then checkedInAt else r.checkedInAt)
    ensures p.(status := r.status, checkedInAt := r.checkedInAt) == r
  {
    if checkedInAt.Some? then r.(status := status, checkedInAt := checkedInAt) else r.(status := status)
  }

  /** `update_status`: true iff the RSVP exists. */
  method UpdateStatus(db: Db, id: int, status: RsvpStatus, checkedInAt: Option<int>) returns (ok: bool)
    requires db.Valid()
    modifies db
    ensures db.Valid()
    ensures db.UsersSame() && db.EventsSame() && db.TicketsSame() && db.TokensSame()
    ensures ok <==> id in old(db.rsvps)
    ensures !ok ==> db.RsvpsSame()
    ensures ok ==>
              && db.rsvps == old(db.rsvps)[id := WithStatus(old(db.rsvps)[id], status, checkedInAt)]
              && db.nextRsvpId == old(db.nextRsvpId)
  {
    ok := id in db.rsvps;
    if ok {
      db.rsvps := db.rsvps[id := WithStatus(db.rsvps[id], status, checkedInAt)];
    }
  }

  /** `bulk_update_status`: one `UPDATE ... WHERE id IN (...)`; the row count is
      the number of distinct listed ids that exist. */
  method BulkUpdateStatus(db: Db, ids: seq<int>, status: RsvpStatus) returns (n: nat)
    requires db.Valid()
    modifies db
    ensures db.Valid()
    ensures db.UsersSame() && db.EventsSame() && db.TicketsSame() && db.TokensSame()
    ensures db.rsvps.Keys == old(db.rsvps).Keys && db.nextRsvpId == old(db.nextRsvpId)
    ensures forall k | k in db.rsvps && k in ids :: db.rsvps[k] == old(db.rsvps)[k].(status := status)
    ensures forall k | k in db.rsvps && k !in ids :: db.rsvps[k] == old(db.rsvps)[k]
    ensures n == |set k | k in ids && k in old(db.rsvps)|
  {
    n := |set k | k in ids && k in db.rsvps|;
    db.rsvps := map k | k in db.rsvps :: if k in ids then db.rsvps[k].(status := status) else db.rsvps[k];
  }

  // ---------------------------------------------------------------------------
  // Queries.

  /** `get_by_id`. */
  function GetById(rsvps: map<int, Rsvp>, id: int): (r: Option<Rsvp>)
    ensures r.Some? <==> id in rsvps
    ensures r.Some? ==> r.value == rsvps[id]
  {
    if id in rsvps then Some(rsvps[id]) else None
  }

  /** The sort key of `ORDER BY created_at DESC`. */
  function Newest(row: (int, Rsvp)): real
  {
    -(row.1.createdAt as real)
  }

  predicate OfUser(userId: int, r: Rsvp) { r.userId == userId }
  predicate OfEvent(eventId: int, r: Rsvp) { r.eventId == eventId }
  predicate OfPair(userId: int, eventId: int, r: Rsvp) { r.userId == userId && r.eventId == eventId }

  /** `get_by_user`: the user's RSVPs, newest first. */
  function GetByUser(rsvps: map<int, Rsvp>, userId: int): (r: seq<(int, Rsvp)>)
    ensures forall x | x in r :: x.0 in rsvps && x.1 == rsvps[x.0] && x.1.userId == userId
    ensures forall k | k in rsvps && rsvps[k].userId == userId :: (k, rsvps[k]) in r
    ensures |r| == Count(rsvps, p => OfUser(userId, p))
    ensures forall i, j :: 0 <= i < j < |r| ==> r[i].1.createdAt >= r[j].1.createdAt
  {
    var s := OrderBy(rsvps, p => OfUser(userId, p), Newest);
    assert SortedBy(s, Newest);
    s
  }

  /** `get_by_event`: the event's RSVPs, newest first. */
  function GetByEvent(rsvps: map<int, Rsvp>, eventId: int): (r: seq<(int, Rsvp)>)
    ensures forall x | x in r :: x.0 in rsvps && x.1 == rsvps[x.0] && x.1.eventId == eventId
    ensures forall k | k in rsvps && rsvps[k].eventId == eventId :: (k, rsvps[k]) in r
    ensures |r| == Count(rsvps, p => OfEvent(eventId, p))
    ensures forall i, j :: 0 <= i < j < |r| ==> r[i].1.createdAt >= r[j].1.createdAt
  {
    var s := OrderBy(rsvps, p => OfEvent(eventId, p), Newest);
    assert SortedBy(s, Newest);
    s
  }

  /** `get_by_user_and_event`: an RSVP of the user for the event, whatever its
      status (the one with the lowest id when there are several). */
  function GetByUserAndEvent(rsvps: map<int, Rsvp>, userId: int, eventId: int): (r: Option<(int, Rsvp)>)
    ensures r.None? <==> forall k | k in rsvps :: !(rsvps[k].userId == userId && rsvps[k].eventId == eventId)
    ensures r.Some? ==> r.value.0 in rsvps && r.value.1 == rsvps[r.value.0]
    ensures r.Some? ==> r.value.1.userId == userId && r.value.1.eventId == eventId
  {
    var rows := Where(rsvps, p => OfPair(userId, eventId, p));
    if rows == [] then None
    else
      assert rows[0] in rows;
      Some(rows[0])
  }

  /** `check_user_rsvp_exists`: whether the user has an RSVP for the event in a
      status other than CANCELLED. */
  function CheckUserRsvpExists(rsvps: map<int, Rsvp>, userId: int, eventId: int): (r: bool)
    ensures r <==> exists k | k in rsvps :: OfPair(userId, eventId, rsvps[k]) && rsvps[k].status != Cancelled
  {
    var n := Count(rsvps, p => OfPair(userId, eventId, p) && p.status != Cancelled);
    CountPositive(rsvps, p => OfPair(userId, eventId, p) && p.status != Cancelled);
    n > 0
  }

  /** The duplicate lookup sees every RSVP the active-RSVP check sees, and
      more: a cancelled RSVP is found by the first and ignored by the second. */
  lemma ActiveRsvpIsFound(rsvps: map<int, Rsvp>, userId: int, eventId: int)
    ensures CheckUserRsvpExists(rsvps, userId, eventId) ==> GetByUserAndEvent(rsvps, userId, eventId).Some?
  {
  }

  /** When the user has RSVPs for the event and all of them are CANCELLED, the
      duplicate lookup finds one while the active-RSVP check reports none. */
  lemma CancelledRsvpIsFoundButNotActive(rsvps: map<int, Rsvp>, userId: int, eventId: int, k: int)
    requires k in rsvps && OfPair(userId, eventId, rsvps[k])
    requires forall j | j in rsvps && OfPair(userId, eventId, rsvps[j]) :: rsvps[j].status == Cancelled
    ensures GetByUserAndEvent(rsvps, userId, eventId).Some?
    ensures GetByUserAndEvent(rsvps, userId, eventId).value.1.status == Cancelled
    ensures !CheckUserRsvpExists(rsvps, userId, eventId)
  {
  }

  // ---------------------------------------------------------------------------
  // `get_event_check_in_summary`.

  datatype CheckInSummary = CheckInSummary(
    pendingCheckin: nat,
    checkedIn: nat,
    noShow: nat,
    totalRsvps: nat,
    checkinPercentage: Percentage)

  predicate HasStatus(eventId: int, status: RsvpStatus, r: Rsvp)
  {
    r.eventId == eventId && r.status == status
  }

  /** The four `COUNT ... FILTER` columns over the event's RSVPs, and
      `checked_in / total_rsvps * 100`, or 0 when there are none. */
  function CheckInSummaryOf(rsvps: map<int, Rsvp>, eventId: int): (s: CheckInSummary)
    ensures s.pendingCheckin == Count(rsvps, r => HasStatus(eventId, Confirmed, r))
    ensures s.checkedIn == Count(rsvps, r => HasStatus(eventId, Attended, r))
    ensures s.noShow == Count(rsvps, r => HasStatus(eventId, NoShow, r))
    ensures s.totalRsvps == Count(rsvps, r => OfEvent(eventId, r))
    ensures s.totalRsvps == 0 <==> s.checkinPercentage == Zero
    ensures s.totalRsvps > 0 ==> s.checkinPercentage == Percent(s.checkedIn, s.totalRsvps)
  {
    var total := Count(rsvps, r => OfEvent(eventId, r));
    var checkedIn := Count(rsvps, r => HasStatus(eventId, Attended, r));
    CheckInSummary(
      Count(rsvps, r => HasStatus(eventId, Confirmed, r)),
      checkedIn,
      Count(rsvps, r => HasStatus(eventId, NoShow, r)),
      total,
      if total > 0 then Percent(checkedIn, total) else Zero)
  }

  /** Confirmed, attended and no-show RSVPs are disjoint groups of the event's
      RSVPs, so together they never exceed the total. */
  lemma {:induction false} SummaryPartsWithinTotal(rsvps: map<int, Rsvp>, eventId: int)
    ensures var s := CheckInSummaryOf(rsvps, eventId);
            s.pendingCheckin + s.checkedIn + s.noShow <= s.totalRsvps
  {
    var confirmed := (r: Rsvp) => HasStatus(eventId, Confirmed, r);
    var attended := (r: Rsvp) => HasStatus(eventId, Attended, r);
    var noShow := (r: Rsvp) => HasStatus(eventId, NoShow, r);
    var firstTwo := (r: Rsvp) => confirmed(r) || attended(r);
    var three := (r: Rsvp) => firstTwo(r) || noShow(r);
    CountSplit(rsvps, firstTwo, confirmed, attended);
    CountSplit(rsvps, three, firstTwo, noShow);
    CountMono(rsvps, three, r => OfEvent(eventId, r));
  }
}
