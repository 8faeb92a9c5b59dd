/** The whole account: any family of round trips with their bodies, interleaved in any way, and
    the least-connections counters that their selections move. */
module Accounting {
  import opened Interleaving
  import opened LeastConn
  import opened Lifecycle
  import opened Retry
  import opened RetryTransport
  import opened Routes
  import opened Targets

  // ---------- a family of round trips ----------

  /** A finished round trip, and what the caller then does with the response body. */
  datatype Trip = Trip(route: Route, req: Request, out: Outcome, log: seq<Event>, uses: seq<BodyEvent>)

  /** What RoundTrip guarantees of it. */
  ghost predicate Made(t: Trip) {
    Finished(PolicyFor(t.route, t.req), t.route, Content(t.req), t.out, Sum(t.log))
  }

  predicate HasBody(t: Trip) {
    t.out.Response? && t.out.body.Some?
  }

  function Whole(t: Trip): seq<Event> {
    if HasBody(t) then t.log + BodyRun(t.out.body.value, t.uses).1 else t.log
  }

  predicate BodyClosed(t: Trip) {
    HasBody(t) ==> exists e | e in t.uses :: e.Close?
  }

  lemma TripIsLegal(t: Trip)
    requires Made(t)
    ensures PhaseOf(Whole(t)) != Broken && (BodyClosed(t) ==> PhaseOf(Whole(t)) == Idle)
  {
    SettledOnceClosed(PolicyFor(t.route, t.req), t.route, Content(t.req), t.out, t.log, t.uses);
  }

  /** Each request has come some way through its round trip and the use of its body. */
  ghost predicate UnderWay(g: seq<Entry>, trips: nat -> Trip) {
    forall r | r in Requests(g) :: Made(trips(r)) && Project(g, r) <= Whole(trips(r))
  }

  /** Exactly-once accounting in every interleaving: at any moment at which each request has
      come some way through its round trip and the use of its body, a target's counter is the
      number of requests holding a selection of it, and the admissions of its breaker without
      a Record call are those of the requests between Allow and Record. Once all have closed
      their bodies both are zero. */
  lemma {:induction false} RoundTripsSettle(g: seq<Entry>, trips: nat -> Trip, a: Address)
    requires UnderWay(g, trips)
    ensures Active(g, a) == |Holders(g, a)| && Unanswered(g, a) == |Admittees(g, a)|
    ensures (forall r | r in Requests(g) :: Project(g, r) == Whole(trips(r)) && BodyClosed(trips(r))) ==>
      Active(g, a) == 0 && Unanswered(g, a) == 0
  {
    TripsAreLegal(g, trips);
    CountersAreExact(g, a);
  }

  lemma {:induction false} TripsAreLegal(g: seq<Entry>, trips: nat -> Trip)
    requires UnderWay(g, trips)
    ensures EachLegal(g)
    ensures forall r | r !in Requests(g) || (Project(g, r) == Whole(trips(r)) && BodyClosed(trips(r))) ::
      PhaseOf(Project(g, r)) == Idle
  {
    forall r
      ensures PhaseOf(Project(g, r)) != Broken
      ensures r !in Requests(g) || (Project(g, r) == Whole(trips(r)) && BodyClosed(trips(r))) ==>
        PhaseOf(Project(g, r)) == Idle
    {
      if r in Requests(g) {
        TripIsLegal(trips(r));
        PrefixIsLegal(Whole(trips(r)), |Project(g, r)|);
        assert Whole(trips(r))[..|Project(g, r)|] == Project(g, r);
      } else {
        AbsentIsIdle(g, r);
      }
    }
  }

  // ---------- the least-connections counters behind it ----------

  /** The outstanding selections of the targets at one address. */
  function Load(targets: seq<Target>, tickets: seq<Ticket>, a: Address): nat
    requires AllListed(targets, tickets)
  {
    if tickets == [] then 0
    else
      var n := |tickets| - 1;
      Load(targets, tickets[..n], a) + if OutstandingAt(targets, tickets[n], a) then 1 else 0
  }

  predicate AllListed(targets: seq<Target>, tickets: seq<Ticket>) {
    forall k | 0 <= k < |tickets| :: tickets[k].index < |targets|
  }

  predicate OutstandingAt(targets: seq<Target>, t: Ticket, a: Address)
    requires t.index < |targets|
  {
    !t.done && targets[t.index].address == a
  }

  /** The counters of the first n targets that stand at the address, added up. */
  function CounterSum(targets: seq<Target>, tickets: seq<Ticket>, n: nat, a: Address): nat
    requires n <= |targets|
  {
    if n == 0 then 0
    else CounterSum(targets, tickets, n - 1, a) + if targets[n - 1].address == a then Outstanding(tickets, n - 1) else 0
  }

  lemma {:induction false} CounterSumSnoc(targets: seq<Target>, tickets: seq<Ticket>, t: Ticket, n: nat, a: Address)
    requires n <= |targets| && t.index < |targets|
    ensures CounterSum(targets, tickets + [t], n, a)
         == CounterSum(targets, tickets, n, a) + Bit(t.index < n && OutstandingAt(targets, t, a))
  {
    if n > 0 {
      CounterSumSnoc(targets, tickets, t, n - 1, a);
      OutstandingAppend(tickets, t, n - 1);
    }
  }

  lemma {:induction false} NoTicketsNoSum(targets: seq<Target>, n: nat, a: Address)
    requires n <= |targets|
    ensures CounterSum(targets, [], n, a) == 0
  {
    if n > 0 {
      NoTicketsNoSum(targets, n - 1, a);
    }
  }

  /** The load of an address is the sum of its counters. */
  lemma {:induction false} LoadIsCounterSum(targets: seq<Target>, tickets: seq<Ticket>, a: Address)
    requires AllListed(targets, tickets)
    ensures Load(targets, tickets, a) == CounterSum(targets, tickets, |targets|, a)
  {
    if tickets == [] {
      NoTicketsNoSum(targets, |targets|, a);
    } else {
      var n := |tickets| - 1;
      LoadIsCounterSum(targets, tickets[..n], a);
      CounterSumSnoc(targets, tickets[..n], tickets[n], |targets|, a);
      assert tickets[..n] + [tickets[n]] == tickets;
    }
  }

  lemma {:induction false} LoadSnoc(targets: seq<Target>, tickets: seq<Ticket>, t: Ticket, a: Address)
    requires AllListed(targets, tickets) && t.index < |targets|
    ensures AllListed(targets, tickets + [t])
    ensures Load(targets, tickets + [t], a) == Load(targets, tickets, a) + Bit(OutstandingAt(targets, t, a))
  {
    assert (tickets + [t])[..|tickets|] == tickets;
  }

  lemma {:induction false} LoadDone(targets: seq<Target>, tickets: seq<Ticket>, k: nat, a: Address)
    requires AllListed(targets, tickets) && k < |tickets| && !tickets[k].done
    ensures Load(targets, tickets[k := tickets[k].(done := true)], a)
         == Load(targets, tickets, a) - Bit(targets[tickets[k].index].address == a)
  {
    var after, n := tickets[k := tickets[k].(done := true)], |tickets| - 1;
    if k < n {
      LoadDone(targets, tickets[..n], k, a);
      assert after[..n] == tickets[..n][k := tickets[k].(done := true)];
    } else {
      assert after[..n] == tickets[..n];
    }
  }

  /** The balancer's tickets, and the ticket each request holds. */
  datatype Desk = Desk(tickets: seq<Ticket>, held: map<nat, nat>)

  /** What one event does at the desk: a selection opens a ticket on the counter that was
      picked, a release closes the request's own. */
  function Serve(d: Desk, e: Entry, picked: nat): Desk {
    if e.event.Selected? then Desk(d.tickets + [Ticket(picked, false)], d.held[e.request := |d.tickets|])
    else if e.event.Released? && e.request in d.held && d.held[e.request] < |d.tickets| then
      var k := d.held[e.request];
      Desk(d.tickets[k := d.tickets[k].(done := true)], d.held - {e.request})
    else d
  }

  function ServeAll(g: seq<Entry>, picked: seq<nat>): Desk
    requires |picked| == |g|
  {
    if g == [] then Desk([], map[])
    else Serve(ServeAll(g[..|g| - 1], picked[..|g| - 1]), g[|g| - 1], picked[|g| - 1])
  }

  /** Each selection of an address is of a counter at that address, as Select returns it. */
  ghost predicate SelectionsFit(targets: seq<Target>, g: seq<Entry>, picked: seq<nat>) {
    |picked| == |g| && forall k | 0 <= k < |g| && g[k].event.Selected? ::
      picked[k] < |targets| && targets[picked[k]].address == g[k].event.address
  }

  /** Each request that holds a selection holds an open ticket of its own at that address. */
  ghost predicate DeskOk(targets: seq<Target>, g: seq<Entry>, d: Desk) {
    && AllListed(targets, d.tickets)
    && (forall r, b | HoldsSelection(PhaseOf(Project(g, r)), b) :: HoldsTicket(targets, d, r, b))
    && (forall r, q | r in d.held && q in d.held && r != q :: d.held[r] != d.held[q])
    && (forall r | r in d.held :: d.held[r] < |d.tickets|)
  }

  predicate HoldsTicket(targets: seq<Target>, d: Desk, r: nat, b: Address)
    requires AllListed(targets, d.tickets)
  {
    r in d.held && d.held[r] < |d.tickets| && OutstandingAt(targets, d.tickets[d.held[r]], b)
  }

  /** Who holds what after a selection or release, by the request that makes it. */
  lemma HolderAfter(p: Phase, e: Event, b: Address)
    requires Advance(p, e) != Broken && HoldsSelection(Advance(p, e), b)
    ensures if e.Selected? then e.address == b else !e.Released? && HoldsSelection(p, b)
  {
  }

  lemma ReleaserHolds(p: Phase, e: Event)
    requires Advance(p, e) != Broken && e.Released?
    ensures HoldsSelection(p, e.address)
  {
  }

  lemma DeskStep(targets: seq<Target>, g: seq<Entry>, d: Desk, picked: nat)
    requires g != [] && EachLegal(g) && DeskOk(targets, g[..|g| - 1], d)
    requires var e := g[|g| - 1].event; e.Selected? ==> picked < |targets| && targets[picked].address == e.address
    ensures DeskOk(targets, g, Serve(d, g[|g| - 1], picked))
  {
    var front, last := g[..|g| - 1], g[|g| - 1];
    var d' := Serve(d, last, picked);
    LegalSoFar(g);
    forall r, b | HoldsSelection(PhaseOf(Project(g, r)), b)
      ensures HoldsTicket(targets, d', r, b)
    {
      OneMoves(g, r);
      if r == last.request {
        HolderAfter(PhaseOf(Project(front, r)), last.event, b);
      }
      if !(r == last.request && last.event.Selected?) {
        assert HoldsTicket(targets, d, r, b);
      }
    }
  }

  lemma {:induction false} LoadStep(targets: seq<Target>, g: seq<Entry>, d: Desk, picked: nat, a: Address)
    requires g != [] && EachLegal(g) && DeskOk(targets, g[..|g| - 1], d)
    requires var e := g[|g| - 1].event; e.Selected? ==> picked < |targets| && targets[picked].address == e.address
    ensures AllListed(targets, Serve(d, g[|g| - 1], picked).tickets)
    ensures Load(targets, Serve(d, g[|g| - 1], picked).tickets, a)
         == Load(targets, d.tickets, a) + SelectionDelta(g[|g| - 1].event, a)
  {
    var front, last := g[..|g| - 1], g[|g| - 1];
    LegalSoFar(g);
    if last.event.Selected? {
      LoadSnoc(targets, d.tickets, Ticket(picked, false), a);
    } else if last.event.Released? {
      ReleaserHolds(PhaseOf(Project(front, last.request)), last.event);
      assert HoldsTicket(targets, d, last.request, last.event.address);
      LoadDone(targets, d.tickets, d.held[last.request], a);
    }
  }

  lemma {:induction false} DeskKeepsCount(targets: seq<Target>, g: seq<Entry>, picked: seq<nat>, a: Address)
    requires EachLegal(g) && SelectionsFit(targets, g, picked)
    ensures DeskOk(targets, g, ServeAll(g, picked))
    ensures Load(targets, ServeAll(g, picked).tickets, a) == Active(g, a)
  {
    if g == [] {
      forall r
        ensures PhaseOf(Project(g, r)) == Idle
      {
      }
    } else {
      var n := |g| - 1;
      LegalSoFar(g);
      DeskKeepsCount(targets, g[..n], picked[..n], a);
      DeskStep(targets, g, ServeAll(g[..n], picked[..n]), picked[n]);
      LoadStep(targets, g, ServeAll(g[..n], picked[..n]), picked[n], a);
    }
  }

  /** Behind the requests' view stands the balancer's: at any moment of any interleaving of
      round trips, the least-connections counters at an address, which LeastConn keeps equal to
      its outstanding tickets, add up to the number of requests holding a selection of it; and
      they are all zero once every body is closed. */
  lemma {:induction false} LeastConnCountersAreHolders(
    targets: seq<Target>, g: seq<Entry>, trips: nat -> Trip, picked: seq<nat>, a: Address)
    requires UnderWay(g, trips) && SelectionsFit(targets, g, picked)
    ensures CounterSum(targets, ServeAll(g, picked).tickets, |targets|, a) == |Holders(g, a)|
    ensures (forall r | r in Requests(g) :: Project(g, r) == Whole(trips(r)) && BodyClosed(trips(r))) ==>
      CounterSum(targets, ServeAll(g, picked).tickets, |targets|, a) == 0
  {
    TripsAreLegal(g, trips);
    DeskKeepsCount(targets, g, picked, a);
    LoadIsCounterSum(targets, ServeAll(g, picked).tickets, a);
    RoundTripsSettle(g, trips, a);
  }
}
