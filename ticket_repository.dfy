/** `TicketRepository`: the statements issued against the `tickets` table. */
module TicketRepository {
  import opened Wrappers
  import opened Tables
  import opened TicketModel
  import opened Database

  // ---------------------------------------------------------------------------
  // Writes.

  /** `create`: inserts the ticket; the foreign key on `event_id` rejects a
      ticket for an event that does not exist. */
  method Create(db: Db, data: TicketCreate, now: int) returns (r: Result<int, DbError>)
    requires db.Valid()
    modifies db
    ensures db.Valid()
    ensures db.UsersSame() && db.EventsSame() && db.RsvpsSame() && db.TokensSame()
    ensures data.eventId !in old(db.events) ==> r == Failure(ForeignKeyViolation) && db.TicketsSame()
    ensures data.eventId in old(db.events) ==>
              && r.Success? && r.value !in old(db.tickets)
              && db.tickets == old(db.tickets)[r.value := NewTicket(data, now)]
  {
    if data.eventId !in db.events {
      return Failure(ForeignKeyViolation);
    }
    var id := db.nextTicketId;
    db.tickets := db.tickets[id := NewTicket(data, now)];
    db.nextTicketId := id + 1;
    r := Success(id);
  }

  /** `update`: `None` for a missing ticket; otherwise every supplied field,
      `quantity_sold` and `quantity_total` included, overwrites the stored one. */
  method Update(db: Db, id: int, data: TicketUpdate) returns (r: Option<Ticket>)
    requires db.Valid()
    modifies db
    ensures db.Valid()
    ensures db.UsersSame() && db.EventsSame() && db.RsvpsSame() && db.TokensSame()
    ensures id !in old(db.tickets) ==> r.None? && db.TicketsSame()
    ensures id in old(db.tickets) ==>
              && r == Some(PatchTicket(old(db.tickets)[id], data))
              && db.tickets == old(db.tickets)[id := r.value]
              && db.nextTicketId == old(db.nextTicketId)
  {
    if id !in db.tickets {
      return None;
    }
    var t := PatchTicket(db.tickets[id], data);
    db.tickets := db.tickets[id := t];
    r := Some(t);
  }

  /** `delete`: removes the ticket and, through `ON DELETE CASCADE`, its RSVPs;
      reports whether a row was removed. */
  method Delete(db: Db, id: int) returns (removed: bool)
    requires db.Valid()
    modifies db
    ensures db.Valid()
    ensures db.UsersSame() && db.EventsSame() && db.TokensSame()
    ensures removed <==> id in old(db.tickets)
    ensures db.tickets == old(db.tickets) - {id} && db.nextTicketId == old(db.nextTicketId)
    ensures db.rsvps == map k | k in old(db.rsvps) && old(db.rsvps)[k].ticketId != id :: old(db.rsvps)[k]
    ensures db.nextRsvpId == old(db.nextRsvpId)
  {
    removed := id in db.tickets;
    ghost var kept := map k | k in db.rsvps && db.rsvps[k].ticketId != id :: db.rsvps[k];
    db.tickets := db.tickets - {id};
    db.rsvps := RsvpsWithin(db.rsvps, db.events, db.tickets);
    forall k ensures k in db.rsvps <==> k in kept {
      if k in old(db.rsvps) {
        assert old(db.rsvps)[k].eventId in db.events && old(db.rsvps)[k].ticketId in old(db.tickets);
      }
    }
  }

  /** `increment_sold_count`: `quantity_sold + 1` in SQL, with no capacity
      check; true iff the ticket exists. */
  method IncrementSoldCount(db: Db, id: int) returns (ok: bool)
    requires db.Valid()
    modifies db
    ensures db.Valid()
    ensures db.UsersSame() && db.EventsSame() && db.RsvpsSame() && db.TokensSame()
    ensures ok <==> id in old(db.tickets)
    ensures !ok ==> db.TicketsSame()
    ensures ok ==>
              && db.tickets == old(db.tickets)[id := OneMoreSold(old(db.tickets)[id])]
              && db.nextTicketId == old(db.nextTicketId)
  {
    ok := id in db.tickets;
    if ok {
      db.tickets := db.tickets[id := OneMoreSold(db.tickets[id])];
    }
  }

  /** `GREATEST(quantity_sold - 1, 0)`. */
  function Released(sold: int): (r: int)
    ensures r >= 0
    ensures sold > 0 ==> r == sold - 1
    ensures sold <= 0 ==> r == 0
  {
    if sold - 1 > 0 then sold - 1 else 0
  }

  /** `decrement_sold_count`: lowers `quantity_sold` by one but never below 0;
      true iff the ticket exists. */
  method DecrementSoldCount(db: Db, id: int) returns (ok: bool)
    requires db.Valid()
    modifies db
    ensures db.Valid()
    ensures db.UsersSame() && db.EventsSame() && db.RsvpsSame() && db.TokensSame()
    ensures ok <==> id in old(db.tickets)
    ensures !ok ==> db.TicketsSame()
    ensures ok ==>
              && db.tickets == old(db.tickets)[id := old(db.tickets)[id].(quantitySold := Released(old(db.tickets)[id].quantitySold))]
              && db.nextTicketId == old(db.nextTicketId)
  {
    ok := id in db.tickets;
    if ok {
      var t := db.tickets[id];
      db.tickets := db.tickets[id := t.(quantitySold := Released(t.quantitySold))];
    }
  }

  /** `delete_event_tickets`: removes every ticket of the event (and, by
      cascade, their RSVPs); true iff there was at least one. */
  method DeleteEventTickets(db: Db, eventId: int) returns (removed: bool)
    requires db.Valid()
    modifies db
    ensures db.Valid()
    ensures db.UsersSame() && db.EventsSame() && db.TokensSame()
    ensures removed <==> exists k :: k in old(db.tickets) && old(db.tickets)[k].eventId == eventId
    ensures db.tickets == TicketsOutside(old(db.tickets), {eventId})
    ensures db.rsvps == RsvpsWithin(old(db.rsvps), db.events, db.tickets)
    ensures db.nextTicketId == old(db.nextTicketId) && db.nextRsvpId == old(db.nextRsvpId)
  {
    removed := exists k :: k in db.tickets && db.tickets[k].eventId == eventId;
    db.tickets := TicketsOutside(db.tickets, {eventId});
    db.rsvps := RsvpsWithin(db.rsvps, db.events, db.tickets);
  }

  // ---------------------------------------------------------------------------
  // Queries.

  /** `get_by_id`. */
  function GetById(tickets: map<int, Ticket>, id: int): (r: Option<Ticket>)
    ensures r.Some? <==> id in tickets
    ensures r.Some? ==> r.value == tickets[id]
  {
    if id in tickets then Some(tickets[id]) else None
  }

  function Price(row: (int, Ticket)): real
  {
    row.1.price
  }

  predicate OfEvent(eventId: int, t: Ticket)
  {
    t.eventId == eventId
  }

  predicate AvailableOf(eventId: int, t: Ticket)
  {
    t.eventId == eventId && t.quantitySold < t.quantityTotal
  }

  predicate SoldOutOf(eventId: int, t: Ticket)
  {
    t.eventId == eventId && t.quantitySold >= t.quantityTotal
  }

  /** `get_by_event`: the event's tickets, cheapest first. */
  function GetByEvent(tickets: map<int, Ticket>, eventId: int): (r: seq<(int, Ticket)>)
    ensures forall x | x in r :: x.0 in tickets && x.1 == tickets[x.0] && x.1.eventId == eventId
    ensures forall k | k in tickets && tickets[k].eventId == eventId :: (k, tickets[k]) in r
    ensures |r| == Count(tickets, t => OfEvent(eventId, t))
    ensures SortedBy(r, Price)
  {
    OrderBy(tickets, t => OfEvent(eventId, t), Price)
  }

  /** `get_available_tickets`: the event's tickets with `quantity_sold <
      quantity_total`, cheapest first. */
  function AvailableTickets(tickets: map<int, Ticket>, eventId: int): (r: seq<(int, Ticket)>)
    ensures forall x | x in r :: x.0 in tickets && x.1 == tickets[x.0] && AvailableOf(eventId, x.1)
    ensures forall k | k in tickets && AvailableOf(eventId, tickets[k]) :: (k, tickets[k]) in r
    ensures |r| == Count(tickets, t => AvailableOf(eventId, t))
    ensures SortedBy(r, Price)
  {
    OrderBy(tickets, t => AvailableOf(eventId, t), Price)
  }

  /** `get_sold_out_tickets`: the event's tickets with `quantity_sold >=
      quantity_total`, in key order. */
  function SoldOutTickets(tickets: map<int, Ticket>, eventId: int): (r: seq<(int, Ticket)>)
    ensures forall x | x in r :: x.0 in tickets && x.1 == tickets[x.0] && SoldOutOf(eventId, x.1)
    ensures forall k | k in tickets && SoldOutOf(eventId, tickets[k]) :: (k, tickets[k]) in r
    ensures |r| == Count(tickets, t => SoldOutOf(eventId, t))
    ensures KeysAscending(r)
  {
    Where(tickets, t => SoldOutOf(eventId, t))
  }

  /** Every ticket of an event is in exactly one of the two lists, and together
      they are as long as the event's ticket list. */
  lemma {:induction false} AvailableSoldOutPartition(tickets: map<int, Ticket>, eventId: int)
    ensures forall k | k in tickets && tickets[k].eventId == eventId ::
              ((k, tickets[k]) in AvailableTickets(tickets, eventId)) != ((k, tickets[k]) in SoldOutTickets(tickets, eventId))
    ensures |AvailableTickets(tickets, eventId)| + |SoldOutTickets(tickets, eventId)| == |GetByEvent(tickets, eventId)|
  {
    CountSplit(tickets, t => OfEvent(eventId, t), t => AvailableOf(eventId, t), t => SoldOutOf(eventId, t));
  }

  /** `check_ticket_availability`: false for a missing ticket, otherwise whether
      `quantity` more seats fit. */
  function CheckTicketAvailability(tickets: map<int, Ticket>, id: int, quantity: int): (r: bool)
    ensures r ==> id in tickets && tickets[id].quantityTotal - tickets[id].quantitySold >= quantity
    ensures id in tickets && tickets[id].quantityTotal - tickets[id].quantitySold >= quantity ==> r
  {
    id in tickets && tickets[id].quantityTotal - tickets[id].quantitySold >= quantity
  }

  /** Availability for one seat agrees with the available-ticket listing. */
  lemma AvailabilityMatchesListing(tickets: map<int, Ticket>, id: int)
    requires id in tickets
    ensures CheckTicketAvailability(tickets, id, 1) <==> (id, tickets[id]) in AvailableTickets(tickets, tickets[id].eventId)
  {
  }

  // ---------------------------------------------------------------------------
  // The integer part of `get_ticket_sales_summary`.

  function SumSold(rows: seq<(int, Ticket)>): int
  {
    if rows == [] then 0 else rows[0].1.quantitySold + SumSold(rows[1..])
  }

  function SumTotal(rows: seq<(int, Ticket)>): int
  {
    if rows == [] then 0 else rows[0].1.quantityTotal + SumTotal(rows[1..])
  }

  datatype SalesSummary = SalesSummary(
    totalSold: int,
    totalAvailable: int,
    ticketTypes: nat,
    availabilityPercentage: Percentage)

  /** `get_ticket_sales_summary` without `total_revenue`: `SUM` over no rows is
      `NULL`, read as 0, and the percentage is 0 unless the capacity is positive. */
  function SalesSummaryOf(tickets: map<int, Ticket>, eventId: int): (r: SalesSummary)
    ensures r.ticketTypes == Count(tickets, t => OfEvent(eventId, t))
    ensures r.totalAvailable <= 0 <==> r.availabilityPercentage == Zero
    ensures r.availabilityPercentage != Zero ==> r.availabilityPercentage == Percent(r.totalSold, r.totalAvailable)
    ensures r.ticketTypes == 0 ==> r.totalSold == 0 && r.totalAvailable == 0 && r.availabilityPercentage == Zero
  {
    var rows := Where(tickets, t => OfEvent(eventId, t));
    var sold := SumSold(rows);
    var total := SumTotal(rows);
    SalesSummary(sold, total, |rows|, if total > 0 then Percent(sold, total) else Zero)
  }

  lemma {:induction false} SumsBounded(rows: seq<(int, Ticket)>)
    requires forall i | 0 <= i < |rows| :: 0 <= rows[i].1.quantitySold <= rows[i].1.quantityTotal
    ensures 0 <= SumSold(rows) <= SumTotal(rows)
  {
    if rows != [] {
      SumsBounded(rows[1..]);
    }
  }

  /** When no ticket of the event is oversold or negative, the summary's sold
      count lies between 0 and its capacity. */
  lemma SummaryBounded(tickets: map<int, Ticket>, eventId: int)
    requires forall k | k in tickets && tickets[k].eventId == eventId ::
               0 <= tickets[k].quantitySold <= tickets[k].quantityTotal
    ensures 0 <= SalesSummaryOf(tickets, eventId).totalSold <= SalesSummaryOf(tickets, eventId).totalAvailable
  {
    var rows := Where(tickets, t => OfEvent(eventId, t));
    assert forall i | 0 <= i < |rows| :: rows[i] in rows;
    SumsBounded(rows);
  }

  lemma SumsCons(x: (int, Ticket), rest: seq<(int, Ticket)>)
    ensures SumSold([x] + rest) == x.1.quantitySold + SumSold(rest)
    ensures SumTotal([x] + rest) == x.1.quantityTotal + SumTotal(rest)
  {
    assert ([x] + rest)[1..] == rest;
  }

  /** Over the rows `Pick` keeps, storing `u` under `id` in place of a ticket
      `p` cannot tell it from shifts each sum by that ticket's own change when
      `p` keeps it, and leaves both alone otherwise. */
  lemma {:induction false} PickSumsShift(tickets: map<int, Ticket>, ks: seq<int>, id: int, u: Ticket,
                                         p: Ticket -> bool)
    requires forall i | 0 <= i < |ks| :: ks[i] in tickets
    requires forall i, j :: 0 <= i < j < |ks| ==> ks[i] < ks[j]
    requires id in tickets && p(u) == p(tickets[id])
    ensures var after := tickets[id := u];
            var hit := id in ks && p(u);
            && SumSold(Tables.Pick(after, ks, p))
               == SumSold(Tables.Pick(tickets, ks, p)) + (if hit then u.quantitySold - tickets[id].quantitySold else 0)
            && SumTotal(Tables.Pick(after, ks, p))
               == SumTotal(Tables.Pick(tickets, ks, p)) + (if hit then u.quantityTotal - tickets[id].quantityTotal else 0)
            && |Tables.Pick(after, ks, p)| == |Tables.Pick(tickets, ks, p)|
  {
    var after := tickets[id := u];
    if ks != [] {
      var k := ks[0];
      PickSumsShift(tickets, ks[1..], id, u, p);
      var restBefore := Tables.Pick(tickets, ks[1..], p);
      var restAfter := Tables.Pick(after, ks[1..], p);
      assert id in ks <==> id == k || id in ks[1..];
      if k == id {
        assert id !in ks[1..];
      } else {
        assert after[k] == tickets[k];
      }
      if p(after[k]) {
        SumsCons((k, after[k]), restAfter);
        SumsCons((k, tickets[k]), restBefore);
      } else {
        assert [] + restAfter == restAfter && [] + restBefore == restBefore;
      }
    }
  }

  /** `get_ticket_sales_summary` is additive over the event's tickets: storing
      `u` in place of one ticket of the same event shifts the sold and capacity
      totals by that ticket's own change, and a ticket of another event moves
      neither. The number of ticket types never changes. */
  lemma SummaryShift(tickets: map<int, Ticket>, id: int, u: Ticket, eventId: int)
    requires id in tickets && u.eventId == tickets[id].eventId
    ensures var before := SalesSummaryOf(tickets, eventId);
            var after := SalesSummaryOf(tickets[id := u], eventId);
            var mine := tickets[id].eventId == eventId;
            && after.totalSold == before.totalSold + (if mine then u.quantitySold - tickets[id].quantitySold else 0)
            && after.totalAvailable == before.totalAvailable + (if mine then u.quantityTotal - tickets[id].quantityTotal else 0)
            && after.ticketTypes == before.ticketTypes
  {
    var after := tickets[id := u];
    assert after.Keys == tickets.Keys;
    var ks := Ascending(tickets.Keys);
    var p := t => OfEvent(eventId, t);
    PickSumsShift(tickets, ks, id, u, p);
    assert Where(tickets, p) == Tables.Pick(tickets, ks, p);
    assert Where(after, p) == Tables.Pick(after, ks, p);
  }

  /** The ticket after one more sale: `quantity_sold + 1`. */
  function OneMoreSold(t: Ticket): (r: Ticket)
    ensures r.quantitySold == t.quantitySold + 1
    ensures r.quantityTotal == t.quantityTotal && r.eventId == t.eventId
  {
    t.(quantitySold := t.quantitySold + 1)
  }

  /** A sale (`increment_sold_count`) raises the event's `total_sold` by one
      and leaves its capacity alone; a sale for another event changes neither. */
  lemma SaleRaisesTotalSold(tickets: map<int, Ticket>, id: int, eventId: int)
    requires id in tickets
    ensures var before := SalesSummaryOf(tickets, eventId);
            var after := SalesSummaryOf(tickets[id := OneMoreSold(tickets[id])], eventId);
            && after.totalSold == before.totalSold + (if tickets[id].eventId == eventId then 1 else 0)
            && after.totalAvailable == before.totalAvailable
            && after.ticketTypes == before.ticketTypes
  {
    SummaryShift(tickets, id, OneMoreSold(tickets[id]), eventId);
  }

  /** A release (`decrement_sold_count`) lowers the event's `total_sold` by
      one when the ticket had some sold, raises a negative count back to 0,
      and leaves the capacity alone; a release for another event changes
      nothing. */
  lemma ReleaseLowersTotalSold(tickets: map<int, Ticket>, id: int, eventId: int)
    requires id in tickets
    ensures var t := tickets[id];
            var before := SalesSummaryOf(tickets, eventId);
            var after := SalesSummaryOf(tickets[id := t.(quantitySold := Released(t.quantitySold))], eventId);
            && (t.eventId != eventId ==> after.totalSold == before.totalSold)
            && (t.eventId == eventId && t.quantitySold > 0 ==> after.totalSold == before.totalSold - 1)
            && (t.eventId == eventId && t.quantitySold <= 0 ==> after.totalSold == before.totalSold - t.quantitySold)
            && after.totalAvailable == before.totalAvailable
  {
    var t := tickets[id];
    var u := t.(quantitySold := Released(t.quantitySold));
    var before := SalesSummaryOf(tickets, eventId);
    var after := SalesSummaryOf(tickets[id := u], eventId);
    SummaryShift(tickets, id, u, eventId);
  }
}
