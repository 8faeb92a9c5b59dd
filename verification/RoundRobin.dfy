/** The lock-free round robin: any number of callers load the shared cursor, scan for an
    eligible target and publish the new cursor with compare-and-swap, retrying when another
    caller got there first. The cursor is a uint64 and wraps. */
module RoundRobin {
  import opened Common
  import opened Targets

  const UINT64: nat := 0x1_0000_0000_0000_0000

  function IndexAt(start: nat, offset: nat, n: nat): (index: nat)
    requires n > 0
    ensures index < n
  {
    (start + offset) % UINT64 % n
  }

  predicate EligibleAt(targets: seq<Target>, excluded: set<Address>, start: nat, offset: nat)
    requires targets != []
  {
    !IsExcluded(excluded, targets[IndexAt(start, offset, |targets|)])
  }

  /** The least eligible offset from `start`, if any offset below |targets| is eligible. */
  predicate IsScan(targets: seq<Target>, excluded: set<Address>, start: nat, found: Option<nat>)
    requires targets != []
  {
    match found
    case Some(offset) =>
      && offset < |targets| && EligibleAt(targets, excluded, start, offset)
      && forall o | 0 <= o < offset :: !EligibleAt(targets, excluded, start, o)
    case None => forall o | 0 <= o < |targets| :: !EligibleAt(targets, excluded, start, o)
  }

  function ScanFrom(targets: seq<Target>, excluded: set<Address>, start: nat, from: nat): (found: Option<nat>)
    requires targets != [] && from <= |targets|
    requires forall o | 0 <= o < from :: !EligibleAt(targets, excluded, start, o)
    ensures IsScan(targets, excluded, start, found)
    decreases |targets| - from
  {
    if from == |targets| then None
    else if EligibleAt(targets, excluded, start, from) then Some(from)
    else ScanFrom(targets, excluded, start, from + 1)
  }

  function Scan(targets: seq<Target>, excluded: set<Address>, start: nat): (found: Option<nat>)
    requires targets != []
    ensures IsScan(targets, excluded, start, found)
  {
    ScanFrom(targets, excluded, start, 0)
  }

  /** The inner loop of one attempt. */
  method ScanLoop(targets: seq<Target>, excluded: set<Address>, start: nat) returns (index: int, offset: int)
    requires targets != []
    ensures match Scan(targets, excluded, start)
      case None => index == -1 && offset == -1
      case Some(o) => offset == o && index == IndexAt(start, o, |targets|)
  {
    index, offset := -1, -1;
    for o := 0 to |targets|
      invariant forall p | 0 <= p < o :: !EligibleAt(targets, excluded, start, p)
      invariant index == -1 && offset == -1
      invariant Scan(targets, excluded, start) == ScanFrom(targets, excluded, start, o)
    {
      var i := IndexAt(start, o, |targets|);
      if IsExcluded(excluded, targets[i]) {
        continue;
      }
      return i, o;
    }
  }

  // ---------- the sequential balancer ----------

  /** One uninterrupted Select: the index at the least eligible offset from the cursor, and a
      cursor just past it; None when the scan meets no eligible target. */
  function SelectOnce(targets: seq<Target>, excluded: set<Address>, next: nat): (r: Option<(nat, nat)>)
    requires targets != []
    ensures r.Some? ==> r.value.0 < |targets|
  {
    match Scan(targets, excluded, next)
    case None => None
    case Some(o) => Some((IndexAt(next, o, |targets|), (next + o + 1) % UINT64))
  }

  /** The only result that fits: nothing exactly when no offset is eligible, otherwise the
      index at the one offset that is eligible and has none before it. */
  lemma SelectPicksLeastOffset(targets: seq<Target>, excluded: set<Address>, next: nat, o: nat)
    requires targets != []
    ensures SelectOnce(targets, excluded, next).None? <==>
      forall k | 0 <= k < |targets| :: !EligibleAt(targets, excluded, next, k)
    ensures IsScan(targets, excluded, next, Some(o)) ==>
      SelectOnce(targets, excluded, next) == Some((IndexAt(next, o, |targets|), (next + o + 1) % UINT64))
  {
    var found := Scan(targets, excluded, next);
    if IsScan(targets, excluded, next, Some(o)) && found.Some? {
      assert found.value == o;
    }
  }

  /** Successive selects with the given exclusion sets: the picked indices and the last cursor. */
  function Sequential(targets: seq<Target>, next: nat, exclusions: seq<set<Address>>): (r: (seq<Option<nat>>, nat))
    requires targets != []
    ensures |r.0| == |exclusions|
  {
    if exclusions == [] then ([], next) else
      var (picks, last) := Sequential(targets, next, exclusions[..|exclusions| - 1]);
      match SelectOnce(targets, exclusions[|exclusions| - 1], last)
      case None => (picks + [None], last)
      case Some(p) => (picks + [Some(p.0)], p.1)
  }

  lemma {:induction false} SequentialSnoc(
    targets: seq<Target>, next: nat, exclusions: seq<set<Address>>, excluded: set<Address>)
    requires targets != []
    ensures var (picks, last) := Sequential(targets, next, exclusions);
      Sequential(targets, next, exclusions + [excluded]) ==
        match SelectOnce(targets, excluded, last)
        case None => (picks + [None], last)
        case Some(p) => (picks + [Some(p.0)], p.1)
  {
    assert (exclusions + [excluded])[..|exclusions|] == exclusions;
  }

  // ---------- any interleaving ----------

  /** Where a caller stands. It also records how many swaps had been made when it arrived
      (`since`), when it last loaded (`at`) and when it returned (`until`), and its place among
      the swaps: that of its own, or for a failure that of its last load. */
  datatype Caller =
    | Ready(excluded: set<Address>, since: nat)
    | Loaded(excluded: set<Address>, since: nat, start: nat, at: nat)
    | Returned(excluded: set<Address>, since: nat, pick: Option<nat>, place: nat, until: nat)

  /** `swaps` lists the successful compare-and-swaps, in the order they took effect. */
  datatype Swap = Swap(caller: nat, excluded: set<Address>, pick: nat)
  datatype Shared = Shared(next: nat, callers: map<nat, Caller>, swaps: seq<Swap>)
  datatype Step = Arrive(id: nat, excluded: set<Address>) | Load(id: nat) | Finish(id: nat)

  /** One atomic step. Finish is the end of a loop iteration: the scan of what was loaded,
      then either ErrNoTargets, or the compare-and-swap, which sends the caller back to its
      load when the cursor has moved. A step its caller is not ready for does nothing. */
  function Next(targets: seq<Target>, s: Shared, step: Step): Shared
    requires targets != []
  {
    if step.Arrive? then
      if step.id in s.callers then s
      else s.(callers := s.callers[step.id := Ready(step.excluded, |s.swaps|)])
    else if step.id !in s.callers then s
    else match (step, s.callers[step.id])
      case (Load(id), Ready(excluded, since)) =>
        s.(callers := s.callers[id := Loaded(excluded, since, s.next, |s.swaps|)])
      case (Finish(id), Loaded(excluded, since, start, at)) =>
        (match Scan(targets, excluded, start)
         case None => s.(callers := s.callers[id := Returned(excluded, since, None, at, |s.swaps|)])
         case Some(o) =>
           if s.next != start then s.(callers := s.callers[id := Ready(excluded, since)])
           else Swapped(s, id, excluded, since, IndexAt(start, o, |targets|), (start + o + 1) % UINT64))
      case _ => s
  }

  /** The compare-and-swap takes effect. */
  function Swapped(s: Shared, id: nat, excluded: set<Address>, since: nat, pick: nat, next: nat): Shared {
    var n := |s.swaps|;
    Shared(next, s.callers[id := Returned(excluded, since, Some(pick), n, n + 1)], s.swaps + [Swap(id, excluded, pick)])
  }

  function Exec(targets: seq<Target>, next: nat, steps: seq<Step>): Shared
    requires targets != []
  {
    if steps == [] then Shared(next, map[], [])
    else Next(targets, Exec(targets, next, steps[..|steps| - 1]), steps[|steps| - 1])
  }

  function ExclusionsOf(swaps: seq<Swap>): seq<set<Address>> {
    seq(|swaps|, i requires 0 <= i < |swaps| => swaps[i].excluded)
  }

  function PicksOf(swaps: seq<Swap>): seq<Option<nat>> {
    seq(|swaps|, i requires 0 <= i < |swaps| => Some(swaps[i].pick))
  }

  /** The cursor after the first m swaps of the sequential run. */
  ghost function CursorAfter(targets: seq<Target>, next: nat, swaps: seq<Swap>, m: nat): nat
    requires targets != [] && m <= |swaps|
  {
    Sequential(targets, next, ExclusionsOf(swaps[..m])).1
  }

  /** A caller's place lies within its own call. A loaded value is the cursor at that place; a
      returned pick is that of the swap at that place; and a caller that returned ErrNoTargets
      would have done so had it run undisturbed there. */
  ghost predicate Fits(targets: seq<Target>, next: nat, swaps: seq<Swap>, id: nat, c: Caller)
    requires targets != []
  {
    match c
    case Ready(_, since) => since <= |swaps|
    case Loaded(_, since, start, at) => since <= at <= |swaps| && CursorAfter(targets, next, swaps, at) == start
    case Returned(excluded, since, Some(pick), place, until) =>
      since <= place < until <= |swaps| && swaps[place] == Swap(id, excluded, pick)
    case Returned(excluded, since, None, place, until) =>
      && since <= place <= until <= |swaps|
      && SelectOnce(targets, excluded, CursorAfter(targets, next, swaps, place)).None?
  }

  /** Every caller fits, and every swap is the one by which its caller returned. */
  ghost predicate AllFit(targets: seq<Target>, next: nat, s: Shared)
    requires targets != []
  {
    && (forall id | id in s.callers :: Fits(targets, next, s.swaps, id, s.callers[id]))
    && (forall i | 0 <= i < |s.swaps| :: SwapReturned(s, i))
  }

  ghost predicate SwapReturned(s: Shared, i: nat)
    requires i < |s.swaps|
  {
    && s.swaps[i].caller in s.callers
    && s.callers[s.swaps[i].caller].Returned?
    && s.callers[s.swaps[i].caller].pick == Some(s.swaps[i].pick)
    && s.callers[s.swaps[i].caller].place == i
  }

  /** Later swaps leave the earlier cursors as they were. */
  lemma FitsLater(
    targets: seq<Target>, next: nat, swaps: seq<Swap>, more: seq<Swap>, id: nat, c: Caller)
    requires targets != [] && swaps <= more && Fits(targets, next, swaps, id, c)
    ensures Fits(targets, next, more, id, c)
  {
    if c.Loaded? {
      assert swaps[..c.at] == more[..c.at];
    } else if c.Returned? && c.pick.None? {
      assert swaps[..c.place] == more[..c.place];
    }
  }

  lemma {:induction false} MovedCallerFits(targets: seq<Target>, next: nat, s: Shared, step: Step)
    requires targets != [] && Sequential(targets, next, ExclusionsOf(s.swaps)) == (PicksOf(s.swaps), s.next)
    requires AllFit(targets, next, s) && step.id in Next(targets, s, step).callers
    requires step.id in s.callers ==> Next(targets, s, step).callers[step.id] != s.callers[step.id]
    ensures Fits(targets, next, Next(targets, s, step).swaps, step.id, Next(targets, s, step).callers[step.id])
  {
    assert s.swaps[..|s.swaps|] == s.swaps;
    assert CursorAfter(targets, next, s.swaps, |s.swaps|) == s.next;
    assert step.id in s.callers ==> Fits(targets, next, s.swaps, step.id, s.callers[step.id]);
  }

  /** A step moves at most the caller that makes it, and no caller that has returned. */
  lemma OneCallerMoves(targets: seq<Target>, s: Shared, step: Step, id: nat)
    requires targets != []
    ensures var s' := Next(targets, s, step);
      && s.swaps <= s'.swaps && |s'.swaps| <= |s.swaps| + 1
      && (id in s.callers ==> id in s'.callers)
      && (id != step.id && id in s'.callers ==> id in s.callers && s'.callers[id] == s.callers[id])
      && (id in s.callers && s.callers[id].Returned? ==> s'.callers[id] == s.callers[id])
  {
  }

  lemma {:induction false} CallersStep(targets: seq<Target>, next: nat, s: Shared, step: Step)
    requires targets != [] && Sequential(targets, next, ExclusionsOf(s.swaps)) == (PicksOf(s.swaps), s.next)
    requires AllFit(targets, next, s)
    ensures forall id | id in Next(targets, s, step).callers ::
      Fits(targets, next, Next(targets, s, step).swaps, id, Next(targets, s, step).callers[id])
  {
    var s' := Next(targets, s, step);
    forall id | id in s'.callers
      ensures Fits(targets, next, s'.swaps, id, s'.callers[id])
    {
      OneCallerMoves(targets, s, step, id);
      if id in s.callers && s'.callers[id] == s.callers[id] {
        FitsLater(targets, next, s.swaps, s'.swaps, id, s.callers[id]);
      } else {
        MovedCallerFits(targets, next, s, step);
      }
    }
  }

  lemma SwapsReturnedStep(targets: seq<Target>, s: Shared, step: Step)
    requires targets != [] && forall i | 0 <= i < |s.swaps| :: SwapReturned(s, i)
    ensures forall i | 0 <= i < |Next(targets, s, step).swaps| :: SwapReturned(Next(targets, s, step), i)
  {
    var s' := Next(targets, s, step);
    forall i | 0 <= i < |s'.swaps|
      ensures SwapReturned(s', i)
    {
      OneCallerMoves(targets, s, step, s'.swaps[i].caller);
      if i < |s.swaps| {
        assert SwapReturned(s, i) && s'.swaps[i] == s.swaps[i];
      }
    }
  }

  lemma {:induction false} SwapsStep(targets: seq<Target>, next: nat, s: Shared, step: Step)
    requires targets != [] && Sequential(targets, next, ExclusionsOf(s.swaps)) == (PicksOf(s.swaps), s.next)
    ensures var s' := Next(targets, s, step);
      Sequential(targets, next, ExclusionsOf(s'.swaps)) == (PicksOf(s'.swaps), s'.next)
  {
    var s' := Next(targets, s, step);
    StepSwaps(targets, s, step);
    if s'.swaps != s.swaps {
      SwapExtends(targets, next, s.swaps, s.next, s'.swaps[|s.swaps|], s'.next);
    }
  }

  /** A step swaps or it does not; if it does, then as an undisturbed select would. */
  lemma StepSwaps(targets: seq<Target>, s: Shared, step: Step)
    requires targets != []
    ensures var s' := Next(targets, s, step);
      if |s'.swaps| <= |s.swaps| then s'.swaps == s.swaps && s'.next == s.next
      else
        var swap := s'.swaps[|s.swaps|];
        && s'.swaps == s.swaps + [swap]
        && SelectOnce(targets, swap.excluded, s.next) == Some((swap.pick, s'.next))
  {
  }

  lemma SwapExtends(
    targets: seq<Target>, next: nat, swaps: seq<Swap>, cursor: nat, swap: Swap, after: nat)
    requires targets != [] && Sequential(targets, next, ExclusionsOf(swaps)) == (PicksOf(swaps), cursor)
    requires SelectOnce(targets, swap.excluded, cursor) == Some((swap.pick, after))
    ensures Sequential(targets, next, ExclusionsOf(swaps + [swap])) == (PicksOf(swaps + [swap]), after)
  {
    SequentialSnoc(targets, next, ExclusionsOf(swaps), swap.excluded);
    assert ExclusionsOf(swaps + [swap]) == ExclusionsOf(swaps) + [swap.excluded];
    assert PicksOf(swaps + [swap]) == PicksOf(swaps) + [Some(swap.pick)];
  }

  /** Linearizability: under every schedule of any number of callers, the picks in
      compare-and-swap order, and the cursor they leave, are those of one caller making the
      same selects one after the other; each caller returns its own swap's pick; a caller that
      returned ErrNoTargets fits between two of these selects; and each of these places lies
      within the caller's own call. */
  lemma {:induction false} Linearizable(targets: seq<Target>, next: nat, steps: seq<Step>)
    requires targets != []
    ensures var s := Exec(targets, next, steps);
      && Sequential(targets, next, ExclusionsOf(s.swaps)) == (PicksOf(s.swaps), s.next)
      && AllFit(targets, next, s)
  {
    if steps == [] {
      assert ExclusionsOf([]) == [] && PicksOf([]) == [];
    } else {
      var front, last := steps[..|steps| - 1], steps[|steps| - 1];
      Linearizable(targets, next, front);
      SwapsReturnedStep(targets, Exec(targets, next, front), last);
      SwapsStep(targets, next, Exec(targets, next, front), last);
      CallersStep(targets, next, Exec(targets, next, front), last);
    }
  }

  /** From a moment of a run on: swaps are only added, a caller that has returned stays as it
      is, and one that had not arrived finds all the swaps of that moment made. */
  lemma {:induction false} FromMomentOn(targets: seq<Target>, next: nat, steps: seq<Step>, k: nat, id: nat)
    requires targets != [] && k <= |steps|
    ensures var past, now := Exec(targets, next, steps[..k]), Exec(targets, next, steps);
      && past.swaps <= now.swaps
      && (id in past.callers && past.callers[id].Returned? ==> id in now.callers && now.callers[id] == past.callers[id])
      && (id !in past.callers && id in now.callers ==> |past.swaps| <= now.callers[id].since)
  {
    if k == |steps| {
      assert steps[..k] == steps;
    } else {
      var front, last := steps[..|steps| - 1], steps[|steps| - 1];
      assert front[..k] == steps[..k];
      FromMomentOn(targets, next, front, k, id);
      OneCallerMoves(targets, Exec(targets, next, front), last, id);
      SinceIsKept(targets, Exec(targets, next, front), last, id);
    }
  }

  lemma SinceIsKept(targets: seq<Target>, s: Shared, step: Step, id: nat)
    requires targets != []
    ensures var s' := Next(targets, s, step);
      id in s'.callers ==> s'.callers[id].since == if id in s.callers then s.callers[id].since else |s.swaps|
  {
  }

  /** Real-time order: a call that returned before another one began comes no later in the
      order of the swaps, and strictly earlier when both picked a target. */
  lemma {:induction false} RealTimeOrder(
    targets: seq<Target>, next: nat, steps: seq<Step>, k: nat, first: nat, second: nat)
    requires targets != [] && k <= |steps|
    requires var past := Exec(targets, next, steps[..k]);
      first in past.callers && past.callers[first].Returned? && second !in past.callers
    requires var now := Exec(targets, next, steps); second in now.callers && now.callers[second].Returned?
    ensures var callers := Exec(targets, next, steps).callers;
      && first in callers && callers[first].Returned?
      && callers[first].place <= callers[second].place
      && (callers[first].pick.Some? ==> callers[first].place < callers[second].place)
  {
    var past := Exec(targets, next, steps[..k]);
    Linearizable(targets, next, steps[..k]);
    Linearizable(targets, next, steps);
    FromMomentOn(targets, next, steps, k, first);
    FromMomentOn(targets, next, steps, k, second);
    assert Fits(targets, next, past.swaps, first, past.callers[first]);
    var now := Exec(targets, next, steps);
    assert Fits(targets, next, now.swaps, second, now.callers[second]);
  }

  /** A call that is not disturbed between its load and its swap ends there, as one undisturbed
      select from the cursor it finds. */
  lemma UndisturbedCallReturns(targets: seq<Target>, next: nat, steps: seq<Step>, id: nat)
    requires targets != []
    requires var s := Exec(targets, next, steps); id in s.callers && s.callers[id].Ready?
    ensures var s := Exec(targets, next, steps);
      var excluded := s.callers[id].excluded;
      var s' := Next(targets, Next(targets, s, Load(id)), Finish(id));
      && s'.callers[id].Returned?
      && match SelectOnce(targets, excluded, s.next)
         case None => s'.callers[id].pick == None && s'.next == s.next && s'.swaps == s.swaps
         case Some(p) =>
           && s'.callers[id].pick == Some(p.0) && s'.next == p.1
           && s'.swaps == s.swaps + [Swap(id, excluded, p.0)]
  {
  }

  /** Lock-freedom: a compare-and-swap fails only if another caller's has succeeded since this
      one loaded. */
  lemma {:induction false} FailedSwapMeansProgress(targets: seq<Target>, next: nat, steps: seq<Step>, id: nat)
    requires targets != []
    requires var s := Exec(targets, next, steps);
      id in s.callers && s.callers[id].Loaded? && s.next != s.callers[id].start
    ensures var s := Exec(targets, next, steps);
      && s.callers[id].at < |s.swaps|
      && forall i | s.callers[id].at <= i < |s.swaps| :: s.swaps[i].caller != id
  {
    var s := Exec(targets, next, steps);
    Linearizable(targets, next, steps);
    assert Fits(targets, next, s.swaps, id, s.callers[id]);
    assert s.swaps[..|s.swaps|] == s.swaps;
    forall i | 0 <= i < |s.swaps|
      ensures s.swaps[i].caller != id
    {
      assert SwapReturned(s, i);
    }
  }
}
