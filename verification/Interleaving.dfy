/** Many requests at once. Their events reach the shared balancer counters and breakers in
    some order; each request on its own follows the protocol. */
module Interleaving {
  import opened Targets
  import opened Lifecycle

  /** An event of one of the requests. */
  datatype Entry = Entry(request: nat, event: Event)

  function Requests(g: seq<Entry>): set<nat> {
    set e | e in g :: e.request
  }

  /** The request's own log. */
  function Project(g: seq<Entry>, r: nat): seq<Event> {
    if g == [] then [] else
      var n := |g| - 1;
      Project(g[..n], r) + if g[n].request == r then [g[n].event] else []
  }

  /** What an event does to a target's counter. */
  function SelectionDelta(e: Event, a: Address): int {
    if e == Selected(a) then 1 else if e == Released(a) then -1 else 0
  }

  function AdmissionDelta(e: Event, a: Address): int {
    if e == Admitted(a) then 1 else if e.Recorded? && e.address == a then -1 else 0
  }

  /** The least-connections counter of a target: up at a selection, down at its release. */
  function Active(g: seq<Entry>, a: Address): int {
    if g == [] then 0 else
      var n := |g| - 1;
      Active(g[..n], a) + SelectionDelta(g[n].event, a)
  }

  /** Admissions minus Record calls at a target's breaker. */
  function Unanswered(g: seq<Entry>, a: Address): int {
    if g == [] then 0 else
      var n := |g| - 1;
      Unanswered(g[..n], a) + AdmissionDelta(g[n].event, a)
  }

  ghost predicate EachLegal(g: seq<Entry>) {
    forall r :: PhaseOf(Project(g, r)) != Broken
  }

  function Holders(g: seq<Entry>, a: Address): set<nat> {
    set r | r in Requests(g) && HoldsSelection(PhaseOf(Project(g, r)), a)
  }

  function Admittees(g: seq<Entry>, a: Address): set<nat> {
    set r | r in Requests(g) && HoldsAdmission(PhaseOf(Project(g, r)), a)
  }

  /** One more event moves one request's phase and leaves the others'. */
  lemma {:induction false} OneMoves(g: seq<Entry>, r: nat)
    requires g != []
    ensures var n := |g| - 1;
      PhaseOf(Project(g, r)) ==
        if g[n].request == r then Advance(PhaseOf(Project(g[..n], r)), g[n].event) else PhaseOf(Project(g[..n], r))
  {
    var n := |g| - 1;
    if g[n].request == r {
      PhaseSnoc(Idle, Project(g[..n], r), g[n].event);
    } else {
      assert Project(g, r) == Project(g[..n], r);
    }
  }

  lemma {:induction false} AbsentIsIdle(g: seq<Entry>, r: nat)
    requires r !in Requests(g)
    ensures Project(g, r) == []
  {
    if g != [] {
      assert g[|g| - 1].request in Requests(g);
      assert Requests(g[..|g| - 1]) <= Requests(g);
      AbsentIsIdle(g[..|g| - 1], r);
    }
  }

  lemma SetMoves(s: set<nat>, s': set<nat>, r: nat)
    requires forall x | x != r :: x in s <==> x in s'
    ensures |s'| == |s| + (if r in s' then 1 else 0) - (if r in s then 1 else 0)
  {
    if r in s && r !in s' {
      assert s' == s - {r};
    } else if r !in s && r in s' {
      assert s' == s + {r};
    } else {
      assert s' == s;
    }
  }

  function Bit(b: bool): int {
    if b then 1 else 0
  }

  /** A legal event changes what a request holds exactly as it changes the counters. */
  lemma HoldingMoves(p: Phase, e: Event, a: Address)
    requires Advance(p, e) != Broken
    ensures Bit(HoldsSelection(Advance(p, e), a)) - Bit(HoldsSelection(p, a)) == SelectionDelta(e, a)
    ensures Bit(HoldsAdmission(Advance(p, e), a)) - Bit(HoldsAdmission(p, a)) == AdmissionDelta(e, a)
  {
  }

  lemma {:induction false} HoldersAre(g: seq<Entry>, a: Address, r: nat)
    ensures r in Holders(g, a) <==> HoldsSelection(PhaseOf(Project(g, r)), a)
    ensures r in Admittees(g, a) <==> HoldsAdmission(PhaseOf(Project(g, r)), a)
  {
    if r !in Requests(g) {
      AbsentIsIdle(g, r);
    }
  }

  lemma LegalSoFar(g: seq<Entry>)
    requires g != [] && EachLegal(g)
    ensures EachLegal(g[..|g| - 1])
    ensures Advance(PhaseOf(Project(g[..|g| - 1], g[|g| - 1].request)), g[|g| - 1].event) != Broken
  {
    var front := g[..|g| - 1];
    forall r
      ensures PhaseOf(Project(front, r)) != Broken
    {
      OneMoves(g, r);
    }
    OneMoves(g, g[|g| - 1].request);
  }

  /** In every interleaving of legal requests, at every moment: the counter of a target is
      the number of requests holding a selection of it, and its unanswered admissions are the
      requests between Allow and Record. So neither is ever negative, and both are zero once
      every request is idle. */
  lemma {:induction false} CountersAreExact(g: seq<Entry>, a: Address)
    requires EachLegal(g)
    ensures Active(g, a) == |Holders(g, a)| && Unanswered(g, a) == |Admittees(g, a)|
    ensures (forall r :: PhaseOf(Project(g, r)) == Idle) ==> Active(g, a) == 0 && Unanswered(g, a) == 0
  {
    if g != [] {
      var front, last := g[..|g| - 1], g[|g| - 1];
      LegalSoFar(g);
      CountersAreExact(front, a);
      forall r
        ensures r in Holders(g, a) <==> HoldsSelection(PhaseOf(Project(g, r)), a)
        ensures r in Admittees(g, a) <==> HoldsAdmission(PhaseOf(Project(g, r)), a)
        ensures r != last.request ==> (r in Holders(front, a) <==> r in Holders(g, a))
        ensures r != last.request ==> (r in Admittees(front, a) <==> r in Admittees(g, a))
      {
        HoldersAre(g, a, r);
        HoldersAre(front, a, r);
        OneMoves(g, r);
      }
      HoldersAre(front, a, last.request);
      OneMoves(g, last.request);
      HoldingMoves(PhaseOf(Project(front, last.request)), last.event, a);
      SetMoves(Holders(front, a), Holders(g, a), last.request);
      SetMoves(Admittees(front, a), Admittees(g, a), last.request);
    }
    if forall r :: PhaseOf(Project(g, r)) == Idle {
      assert Holders(g, a) == {} && Admittees(g, a) == {};
    }
  }
}
