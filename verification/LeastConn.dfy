/** Least connections: a counter per target, raised by Select and lowered by the first call
    of the Done function that Select handed out. Each handed-out Done is a ticket. */
module LeastConn {
  import opened Common
  import opened Targets

  /** One selection: the counter it raised, and the sync.Once guarding its Done. */
  datatype Ticket = Ticket(index: nat, done: bool)

  /** How many of the tickets still hold counter i. */
  function Outstanding(tickets: seq<Ticket>, i: nat): nat {
    if tickets == [] then 0
    else
      var t := tickets[|tickets| - 1];
      Outstanding(tickets[..|tickets| - 1], i) + if t.index == i && !t.done then 1 else 0
  }

  lemma {:induction false} OutstandingAppend(tickets: seq<Ticket>, t: Ticket, i: nat)
    ensures Outstanding(tickets + [t], i) == Outstanding(tickets, i) + if t.index == i && !t.done then 1 else 0
  {
    assert (tickets + [t])[..|tickets|] == tickets;
  }

  lemma {:induction false} OutstandingDone(tickets: seq<Ticket>, k: nat, i: nat)
    requires k < |tickets| && !tickets[k].done
    ensures Outstanding(tickets[k := tickets[k].(done := true)], i)
         == Outstanding(tickets, i) - if tickets[k].index == i then 1 else 0
  {
    var after := tickets[k := tickets[k].(done := true)];
    var n := |tickets| - 1;
    if k < n {
      OutstandingDone(tickets[..n], k, i);
      assert after[..n] == tickets[..n][k := tickets[k].(done := true)];
    } else {
      assert after[..n] == tickets[..n];
    }
  }

  /** Counter i is eligible, and no eligible counter is below it, nor equal and earlier. */
  predicate LeastAmong(targets: seq<Target>, excluded: set<Address>, active: seq<int>, n: nat, i: int)
    requires |active| == |targets| && n <= |targets|
  {
    && 0 <= i < n && !IsExcluded(excluded, targets[i])
    && forall j | 0 <= j < n && !IsExcluded(excluded, targets[j]) ::
      active[i] <= active[j] && (j < i ==> active[i] < active[j])
  }

  /** Among equal counters the pick is the first eligible target. */
  lemma FirstWhenEqual(targets: seq<Target>, excluded: set<Address>, active: seq<int>, i: int)
    requires |active| == |targets| && forall j, k | 0 <= j < k < |active| :: active[j] == active[k]
    ensures LeastAmong(targets, excluded, active, |targets|, i) <==>
      && 0 <= i < |targets| && !IsExcluded(excluded, targets[i])
      && forall j | 0 <= j < i :: IsExcluded(excluded, targets[j])
  {
  }

  class LeastConn {
    const targets: seq<Target>
    const active: array<int>
    var tickets: seq<Ticket>

    /** Conservation: each counter is exactly the number of its outstanding selections. */
    ghost predicate Valid()
      reads this, active
    {
      && active.Length == |targets|
      && (forall k | 0 <= k < |tickets| :: tickets[k].index < |targets|)
      && (forall i | 0 <= i < |targets| :: active[i] == Outstanding(tickets, i))
    }

    constructor (targets: seq<Target>)
      ensures Valid() && fresh(active) && this.targets == targets && tickets == []
    {
      this.targets := targets;
      active := new int[|targets|](_ => 0);
      tickets := [];
    }

    /** Picks an eligible target of fewest outstanding selections and opens a ticket on it. */
    method Select(excluded: set<Address>) returns (choice: Option<Target>, ticket: nat)
      requires Valid()
      modifies this`tickets, active
      ensures Valid()
      ensures ValidSelection(targets, excluded, choice)
      ensures choice.None? ==> tickets == old(tickets)
      ensures choice.Some? ==>
        && ticket == |old(tickets)| == |tickets| - 1
        && tickets == old(tickets) + [Ticket(tickets[ticket].index, false)]
        && choice.value == targets[tickets[ticket].index]
        && LeastAmong(targets, excluded, old(active[..]), |targets|, tickets[ticket].index)
    {
      var best, bestActive := -1, 0;
      ticket := |tickets|;
      for i := 0 to |targets|
        invariant best == -1 ==> forall j | 0 <= j < i :: IsExcluded(excluded, targets[j])
        invariant best != -1 ==> LeastAmong(targets, excluded, active[..], i, best) && bestActive == active[best]
        invariant tickets == old(tickets) && active[..] == old(active[..])
      {
        if IsExcluded(excluded, targets[i]) {
          continue;
        }
        var candidateActive := active[i];
        if best == -1 || candidateActive < bestActive {
          best, bestActive := i, candidateActive;
        }
      }
      if best == -1 {
        return None, ticket;
      }
      active[best] := active[best] + 1;
      tickets := tickets + [Ticket(best, false)];
      choice := Some(targets[best]);
      forall i | 0 <= i < |targets|
        ensures active[i] == Outstanding(tickets, i)
      {
        OutstandingAppend(old(tickets), Ticket(best, false), i);
      }
    }

    /** Done, callable any number of times in any order; only the first call counts. */
    method Done(ticket: nat)
      requires Valid() && ticket < |tickets|
      modifies this`tickets, active
      ensures Valid()
      ensures tickets == old(tickets)[ticket := old(tickets)[ticket].(done := true)]
      ensures old(tickets[ticket].done) ==> active[..] == old(active[..])
    {
      var t := tickets[ticket];
      if t.done {
        return;
      }
      active[t.index] := active[t.index] - 1;
      tickets := tickets[ticket := t.(done := true)];
      forall i | 0 <= i < |targets|
        ensures active[i] == Outstanding(tickets, i)
      {
        OutstandingDone(old(tickets), ticket, i);
      }
    }
  }
}
