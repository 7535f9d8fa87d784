/** The ticket repository: the purchase transaction (lock the event row, check
    capacity, insert a priced ticket, decrement capacity, commit or roll back)
    and the query that lists a user's tickets with their event's summary. */
module TicketRepository {
  import opened Store
  import Sorting

  /** The columns `UPDATE ... RETURNING id, title, capacity, price` gives back. */
  datatype EventSnapshot = EventSnapshot(id: int, title: string, capacity: int, price: int)

  /** What a purchase resolves to: `{ ticket, event }`. */
  datatype Purchase = Purchase(ticket: Ticket, event: EventSnapshot)

  /** The two tables a purchase touches, with the tickets' SERIAL counter. */
  datatype Tables = Tables(events: map<int, Event>, tickets: seq<Ticket>, nextTicketId: int)

  datatype Step = Step(result: Result<Purchase>, after: Tables)

  /** The arguments of one purchase; `now` is the transaction's NOW(). */
  datatype Request = Request(userId: int, eventId: int, quantity: int, now: int)

  const NO_CAPACITY := Failure(NOT_ENOUGH_CAPACITY, "Not enough capacity for this event")

  function TablesOf(db: Database): Tables
    reads db
  {
    Tables(db.events, db.tickets, db.nextTicketId)
  }

  function Snapshot(e: Event): EventSnapshot {
    EventSnapshot(e.id, e.title, e.capacity, e.price)
  }

  /** The committed outcome of one purchase transaction. A thrown error rolls
      the transaction back, so a failing step leaves the tables as they were. */
  function PurchaseStep(t: Tables, r: Request): Step {
    if r.eventId !in t.events then Step(Err(EVENT_NOT_FOUND), t)
    else
      var e := t.events[r.eventId];
      if e.capacity < r.quantity then Step(Err(NO_CAPACITY), t)
      else
        var ticket := Ticket(t.nextTicketId, r.quantity, e.price, e.price * r.quantity,
                             r.userId, r.eventId, r.now);
        var updated := e.(capacity := e.capacity - r.quantity, updatedAt := r.now);
        Step(Ok(Purchase(ticket, Snapshot(updated))),
             Tables(t.events[r.eventId := updated], t.tickets + [ticket], t.nextTicketId + 1))
  }

  /** `purchaseTicket`: the transaction as one atomic step on the database. */
  method PurchaseTicket(db: Database, userId: int, eventId: int, quantity: int, now: int)
    returns (r: Result<Purchase>)
    requires db.Valid()
    modifies db
    ensures db.Valid()
    ensures var s := PurchaseStep(old(TablesOf(db)), Request(userId, eventId, quantity, now));
            r == s.result && TablesOf(db) == s.after
    ensures db.nextEventId == old(db.nextEventId)
    ensures db.categories == old(db.categories) && db.nextCategoryId == old(db.nextCategoryId)
    ensures db.users == old(db.users) && db.nextUserId == old(db.nextUserId)
  {
    if eventId !in db.events {
      return Err(EVENT_NOT_FOUND);
    }
    var event := db.events[eventId];
    if event.capacity < quantity {
      return Err(NO_CAPACITY);
    }
    var unitPrice := event.price;
    var total := unitPrice * quantity;
    var ticket := Ticket(db.nextTicketId, quantity, unitPrice, total, userId, eventId, now);
    db.tickets := db.tickets + [ticket];
    db.nextTicketId := db.nextTicketId + 1;
    var updated := event.(capacity := event.capacity - quantity, updatedAt := now);
    db.events := db.events[eventId := updated];
    r := Ok(Purchase(ticket, Snapshot(updated)));
  }

  /** Places sold for `eventId`: the sum of the quantities of its tickets. */
  function Sold(tickets: seq<Ticket>, eventId: int): int {
    if tickets == [] then 0
    else (if tickets[0].eventId == eventId then tickets[0].quantity else 0) + Sold(tickets[1..], eventId)
  }

  lemma {:induction false} SoldAppend(tickets: seq<Ticket>, t: Ticket, eventId: int)
    ensures Sold(tickets + [t], eventId)
            == Sold(tickets, eventId) + (if t.eventId == eventId then t.quantity else 0)
  {
    if tickets != [] {
      assert (tickets + [t])[1..] == tickets[1..] + [t];
      SoldAppend(tickets[1..], t, eventId);
    }
  }

  /** A purchase fails exactly when the event is missing or has fewer places
      than asked for, with the matching error, and a failure changes nothing. */
  lemma PurchaseFailures(t: Tables, r: Request)
    ensures PurchaseStep(t, r).result.Err?
            <==> r.eventId !in t.events || t.events[r.eventId].capacity < r.quantity
    ensures r.eventId !in t.events ==> PurchaseStep(t, r) == Step(Err(EVENT_NOT_FOUND), t)
    ensures r.eventId in t.events && t.events[r.eventId].capacity < r.quantity
            ==> PurchaseStep(t, r) == Step(Err(NO_CAPACITY), t)
    ensures PurchaseStep(t, r).result.Err? ==> PurchaseStep(t, r).after == t
  {
  }

  /** A successful purchase appends exactly one ticket for the caller, priced
      at the event's price at that moment, and takes its quantity off the
      event's capacity, which stays non-negative; no other row changes. */
  lemma PurchaseSuccess(t: Tables, r: Request)
    requires PurchaseStep(t, r).result.Ok?
    ensures var s := PurchaseStep(t, r);
            var ticket := s.result.value.ticket;
            var e := t.events[r.eventId];
            && r.eventId in t.events
            && s.after.tickets == t.tickets + [ticket]
            && ticket.id == t.nextTicketId && s.after.nextTicketId == t.nextTicketId + 1
            && ticket.userId == r.userId && ticket.eventId == r.eventId
            && ticket.quantity == r.quantity && ticket.createdAt == r.now
            && ticket.unitPrice == e.price && ticket.total == ticket.unitPrice * ticket.quantity
            && s.after.events.Keys == t.events.Keys
            && s.after.events[r.eventId] == e.(capacity := e.capacity - r.quantity, updatedAt := r.now)
            && 0 <= s.after.events[r.eventId].capacity
            && s.result.value.event == Snapshot(s.after.events[r.eventId])
            && (forall id :: id in t.events && id != r.eventId ==> s.after.events[id] == t.events[id])
  {
  }

  /** Conservation: for every event, capacity plus the places sold on its
      tickets is the same after a purchase as before, whether it succeeds or not. */
  lemma PurchaseConserves(t: Tables, r: Request, id: int)
    requires id in t.events
    ensures var a := PurchaseStep(t, r).after;
            id in a.events
            && a.events[id].capacity + Sold(a.tickets, id) == t.events[id].capacity + Sold(t.tickets, id)
  {
    var s := PurchaseStep(t, r);
    if s.result.Ok? {
      SoldAppend(t.tickets, s.result.value.ticket, id);
    }
  }

  /** Capacity 5 at price 100.00, buying 2: total 200.00, capacity left 3. */
  lemma PurchaseExample(e: Event, userId: int, now: int)
    requires e.capacity == 5 && e.price == 10000
    ensures var t := Tables(map[e.id := e], [], 1);
            var s := PurchaseStep(t, Request(userId, e.id, 2, now));
            && s.result.Ok?
            && s.result.value.ticket.total == 20000
            && s.result.value.ticket.quantity == 2
            && s.after.events[e.id].capacity == 3
            && s.result.value.event.capacity == 3
  {
  }

  /** The purchases in `reqs`, committed one after another. */
  function Run(t: Tables, reqs: seq<Request>): Tables
    decreases |reqs|
  {
    if reqs == [] then t else Run(PurchaseStep(t, reqs[0]).after, reqs[1..])
  }

  /** Every purchase in `reqs` succeeds. */
  predicate AllSucceed(t: Tables, reqs: seq<Request>)
    decreases |reqs|
  {
    reqs == [] || (PurchaseStep(t, reqs[0]).result.Ok? && AllSucceed(PurchaseStep(t, reqs[0]).after, reqs[1..]))
  }

  /** The places `reqs` ask of event `id`. */
  function Demand(reqs: seq<Request>, id: int): int {
    if reqs == [] then 0
    else (if reqs[0].eventId == id then reqs[0].quantity else 0) + Demand(reqs[1..], id)
  }

  /** No oversell: however a burst of purchases is serialised, an event whose
      capacity starts non-negative keeps it non-negative, and the places sold
      during the burst never exceed the capacity it started with. */
  lemma {:induction false} RunNeverOversells(t: Tables, reqs: seq<Request>, id: int)
    requires id in t.events && 0 <= t.events[id].capacity
    decreases |reqs|
    ensures var a := Run(t, reqs);
            && id in a.events && 0 <= a.events[id].capacity
            && a.events[id].capacity + Sold(a.tickets, id) == t.events[id].capacity + Sold(t.tickets, id)
            && Sold(a.tickets, id) - Sold(t.tickets, id) <= t.events[id].capacity
  {
    if reqs != [] {
      var s := PurchaseStep(t, reqs[0]);
      PurchaseConserves(t, reqs[0], id);
      RunNeverOversells(s.after, reqs[1..], id);
    }
  }

  /** When every purchase of a burst succeeds, the event sold exactly what was
      asked of it; so a burst asking for more than the capacity must see at
      least one purchase fail. */
  lemma {:induction false} AllSucceedSellsDemand(t: Tables, reqs: seq<Request>, id: int)
    requires id in t.events && 0 <= t.events[id].capacity
    requires AllSucceed(t, reqs)
    decreases |reqs|
    ensures Sold(Run(t, reqs).tickets, id) - Sold(t.tickets, id) == Demand(reqs, id)
    ensures Demand(reqs, id) <= t.events[id].capacity
  {
    if reqs != [] {
      var s := PurchaseStep(t, reqs[0]);
      SoldAppend(t.tickets, s.result.value.ticket, id);
      PurchaseConserves(t, reqs[0], id);
      AllSucceedSellsDemand(s.after, reqs[1..], id);
    }
    RunNeverOversells(t, reqs, id);
  }

  /** The last place, asked for twice: the first purchase takes it and the
      second fails with NOT_ENOUGH_CAPACITY. */
  lemma LastPlaceSoldOnce(e: Event, u1: int, u2: int, now: int)
    requires e.capacity == 1
    ensures var t := Tables(map[e.id := e], [], 1);
            var first := PurchaseStep(t, Request(u1, e.id, 1, now));
            var second := PurchaseStep(first.after, Request(u2, e.id, 1, now));
            && first.result.Ok? && first.after.events[e.id].capacity == 0
            && second.result == Err(NO_CAPACITY) && second.after == first.after
  {
  }

  /** A listed ticket with the joined `events` columns. */
  datatype TicketView = TicketView(ticket: Ticket, eventTitle: string, eventStartDate: int, eventLocation: string)

  /** `ORDER BY t.created_at DESC`. */
  function NewestFirst(a: Ticket, b: Ticket): bool {
    a.createdAt >= b.createdAt
  }

  /** The `WHERE` and `JOIN` of the listing query. */
  function Listed(events: map<int, Event>, userId: int, t: Ticket): bool {
    t.userId == userId && t.eventId in events
  }

  function View(events: map<int, Event>, t: Ticket): TicketView
    requires t.eventId in events
  {
    var e := events[t.eventId];
    TicketView(t, e.title, e.startDate, e.location)
  }

  /** Each ticket with its event's columns: the `JOIN events`. */
  function JoinEvents(events: map<int, Event>, ts: seq<Ticket>): (items: seq<TicketView>)
    requires forall i :: 0 <= i < |ts| ==> ts[i].eventId in events
    ensures |items| == |ts| && forall i :: 0 <= i < |ts| ==> items[i] == View(events, ts[i])
  {
    if ts == [] then [] else [View(events, ts[0])] + JoinEvents(events, ts[1..])
  }

  /** The user's listed tickets, newest first, before the join. */
  function NewestListed(events: map<int, Event>, tickets: seq<Ticket>, userId: int): (r: seq<Ticket>)
    ensures forall i :: 0 <= i < |r| ==> Listed(events, userId, r[i])
  {
    var mine := Sorting.Filter(tickets, t => Listed(events, userId, t));
    SortedListed(events, userId, mine);
    Sorting.Sort(mine, NewestFirst)
  }

  lemma SortedListed(events: map<int, Event>, userId: int, mine: seq<Ticket>)
    requires forall i :: 0 <= i < |mine| ==> Listed(events, userId, mine[i])
    ensures forall i :: 0 <= i < |Sorting.Sort(mine, NewestFirst)| ==>
              Listed(events, userId, Sorting.Sort(mine, NewestFirst)[i])
  {
    var r := Sorting.Sort(mine, NewestFirst);
    Sorting.SortMembers(mine, NewestFirst);
    forall i | 0 <= i < |r| ensures Listed(events, userId, r[i]) {
      assert r[i] in r;
      var j :| 0 <= j < |mine| && mine[j] == r[i];
    }
  }

  /** `listTicketsByUser`: the user's tickets whose event exists, newest first,
      each with its event's title, start date and location. */
  function ListTicketsByUser(events: map<int, Event>, tickets: seq<Ticket>, userId: int)
    : (items: seq<TicketView>)
    ensures forall i :: 0 <= i < |items| ==>
              && Listed(events, userId, items[i].ticket)
              && items[i] == View(events, items[i].ticket)
  {
    JoinEvents(events, NewestListed(events, tickets, userId))
  }

  function TicketsOf(items: seq<TicketView>): seq<Ticket> {
    seq(|items|, i requires 0 <= i < |items| => items[i].ticket)
  }

  /** The listing holds exactly the user's tickets whose event exists, each as
      often as it is stored, and they run from newest to oldest. */
  lemma ListTicketsExact(events: map<int, Event>, tickets: seq<Ticket>, userId: int)
    ensures var items := ListTicketsByUser(events, tickets, userId);
            && (forall t :: multiset(TicketsOf(items))[t]
                            == if Listed(events, userId, t) then multiset(tickets)[t] else 0)
            && (forall i, j :: 0 <= i < j < |items| ==>
                                 items[i].ticket.createdAt >= items[j].ticket.createdAt)
  {
    var mine := Sorting.Filter(tickets, t => Listed(events, userId, t));
    var ordered := NewestListed(events, tickets, userId);
    var items := ListTicketsByUser(events, tickets, userId);
    assert TicketsOf(items) == ordered;
    Sorting.SortSorted(mine, NewestFirst);
  }
}
