/** The least-connections scan without a lock: each counter is read by itself, and the chosen
    one is raised afterwards, while other selects and Dones go on in between. */
module LeastConnRace {
  import opened Common
  import opened Targets

  /** A counter goes up at a select and down at a Done; the counters are the sum of the log. */
  datatype Change = Up(index: nat) | Down(index: nat)

  function Occurs(log: seq<Change>, c: Change): nat {
    if log == [] then 0 else Occurs(log[..|log| - 1], c) + if log[|log| - 1] == c then 1 else 0
  }

  function Counter(log: seq<Change>, i: nat): int {
    Occurs(log, Up(i)) - Occurs(log, Down(i))
  }

  /** How often a change was made after the first `since` changes. */
  function Since(log: seq<Change>, since: nat, c: Change): int
    requires since <= |log|
  {
    Occurs(log, c) - Occurs(log[..since], c)
  }

  datatype Caller =
    | Scanning(excluded: set<Address>, since: nat, position: nat, best: Option<nat>, bestActive: int)
    | Picked(index: nat, done: bool)
    | NoTargets

  datatype Shared = Shared(log: seq<Change>, callers: map<nat, Caller>)
  datatype Step = Arrive(id: nat, excluded: set<Address>) | Read(id: nat) | Add(id: nat) | Done(id: nat)

  /** One turn of the scan: reads the counter at its position. */
  function Look(targets: seq<Target>, log: seq<Change>, c: Caller): Caller
    requires c.Scanning? && c.position < |targets|
  {
    var i := c.position;
    if IsExcluded(c.excluded, targets[i]) then c.(position := i + 1)
    else if c.best.None? || Counter(log, i) < c.bestActive then
      c.(position := i + 1, best := Some(i), bestActive := Counter(log, i))
    else c.(position := i + 1)
  }

  function Next(targets: seq<Target>, s: Shared, step: Step): Shared {
    if step.Arrive? then
      if step.id in s.callers then s
      else s.(callers := s.callers[step.id := Scanning(step.excluded, |s.log|, 0, None, 0)])
    else if step.id !in s.callers then s
    else
      var c := s.callers[step.id];
      if step.Read? && c.Scanning? && c.position < |targets| then
        s.(callers := s.callers[step.id := Look(targets, s.log, c)])
      else if step.Add? && c.Scanning? && c.position == |targets| then
        if c.best.None? then s.(callers := s.callers[step.id := NoTargets])
        else Shared(s.log + [Up(c.best.value)], s.callers[step.id := Picked(c.best.value, false)])
      else if step.Done? && c.Picked? && !c.done then
        Shared(s.log + [Down(c.index)], s.callers[step.id := c.(done := true)])
      else s
  }

  function Exec(targets: seq<Target>, steps: seq<Step>): Shared {
    if steps == [] then Shared([], map[]) else Next(targets, Exec(targets, steps[..|steps| - 1]), steps[|steps| - 1])
  }

  lemma {:induction false} OccursSnoc(log: seq<Change>, c: Change, d: Change)
    ensures Occurs(log + [c], d) == Occurs(log, d) + if c == d then 1 else 0
  {
    assert (log + [c])[..|log|] == log;
  }

  lemma SinceSnoc(log: seq<Change>, c: Change, since: nat, d: Change)
    requires since <= |log|
    ensures Since(log + [c], since, d) == Since(log, since, d) + if c == d then 1 else 0
  {
    OccursSnoc(log, c, d);
    assert (log + [c])[..since] == log[..since];
  }

  lemma {:induction false} SinceIsCount(log: seq<Change>, since: nat, d: Change)
    requires since <= |log|
    ensures Since(log, since, d) >= 0 && (since == |log| ==> Since(log, since, d) == 0)
  {
    if since == |log| {
      assert log[..since] == log;
    } else {
      var front := log[..|log| - 1];
      SinceIsCount(front, since, d);
      assert front[..since] == log[..since];
    }
  }

  /** What a scan knows: its best is eligible, was at bestActive and has since gone up only by
      other selects; and every eligible counter it has passed was at least bestActive and has
      since gone down only by Dones. */
  ghost predicate Knows(targets: seq<Target>, log: seq<Change>, c: Caller)
    requires c.Scanning?
  {
    && c.since <= |log| && c.position <= |targets|
    && match c.best
       case None => forall j | 0 <= j < c.position :: IsExcluded(c.excluded, targets[j])
       case Some(b) =>
         && b < c.position && !IsExcluded(c.excluded, targets[b])
         && Counter(log, b) <= c.bestActive + Since(log, c.since, Up(b))
         && forall j: nat | j < c.position && !IsExcluded(c.excluded, targets[j]) :: AtLeast(log, c, j)
  }

  predicate AtLeast(log: seq<Change>, c: Caller, j: nat)
    requires c.Scanning? && c.since <= |log|
  {
    c.bestActive <= Counter(log, j) + Since(log, c.since, Down(j))
  }

  lemma KnowsLater(targets: seq<Target>, log: seq<Change>, x: Change, c: Caller)
    requires c.Scanning? && Knows(targets, log, c)
    ensures Knows(targets, log + [x], c)
  {
    if c.best.Some? {
      var b := c.best.value;
      OccursSnoc(log, x, Up(b));
      OccursSnoc(log, x, Down(b));
      SinceSnoc(log, x, c.since, Up(b));
      forall j: nat | j < c.position && !IsExcluded(c.excluded, targets[j])
        ensures AtLeast(log + [x], c, j)
      {
        assert AtLeast(log, c, j);
        OccursSnoc(log, x, Up(j));
        OccursSnoc(log, x, Down(j));
        SinceSnoc(log, x, c.since, Down(j));
      }
    }
  }

  lemma KnowsMore(targets: seq<Target>, log: seq<Change>, c: Caller)
    requires c.Scanning? && c.position < |targets| && Knows(targets, log, c)
    ensures Knows(targets, log, Look(targets, log, c))
  {
    var i, c' := c.position, Look(targets, log, c);
    SinceIsCount(log, c.since, Up(i));
    SinceIsCount(log, c.since, Down(i));
    if c'.best.Some? {
      forall j: nat | j < c'.position && !IsExcluded(c.excluded, targets[j])
        ensures AtLeast(log, c', j)
      {
        if j < i {
          assert c.best.Some? && AtLeast(log, c, j);
        }
      }
    }
  }

  ghost predicate AllKnow(targets: seq<Target>, s: Shared) {
    forall id | id in s.callers && s.callers[id].Scanning? :: Knows(targets, s.log, s.callers[id])
  }

  lemma AllKnowStep(targets: seq<Target>, s: Shared, step: Step)
    requires AllKnow(targets, s)
    ensures AllKnow(targets, Next(targets, s, step))
  {
    var s' := Next(targets, s, step);
    forall id | id in s'.callers && s'.callers[id].Scanning?
      ensures Knows(targets, s'.log, s'.callers[id])
    {
      if id in s.callers && s.callers[id].Scanning? {
        assert Knows(targets, s.log, s.callers[id]);
        if s'.callers[id] != s.callers[id] {
          KnowsMore(targets, s.log, s.callers[id]);
        } else if s'.log != s.log {
          KnowsLater(targets, s.log, s'.log[|s.log|], s.callers[id]);
        }
      }
    }
  }

  lemma {:induction false} EveryoneKnows(targets: seq<Target>, steps: seq<Step>)
    ensures AllKnow(targets, Exec(targets, steps))
  {
    if steps != [] {
      EveryoneKnows(targets, steps[..|steps| - 1]);
      AllKnowStep(targets, Exec(targets, steps[..|steps| - 1]), steps[|steps| - 1]);
    }
  }

  /** How far from the least a pick can be, under every schedule: at the moment a select raises
      its counter, that counter exceeds no eligible one by more than the other selects that
      raised it and the Dones that lowered the other since the select began. Undisturbed, it is
      the least. ErrNoTargets is returned only when every target is excluded. */
  lemma {:induction false} PickIsNearlyLeast(targets: seq<Target>, steps: seq<Step>, id: nat, j: nat)
    requires var s := Exec(targets, steps);
      id in s.callers && s.callers[id].Scanning? && s.callers[id].position == |targets|
    requires j < |targets| && !IsExcluded(Exec(targets, steps).callers[id].excluded, targets[j])
    ensures var s := Exec(targets, steps); var c := s.callers[id];
      && c.best.Some? && c.best.value < |targets| && !IsExcluded(c.excluded, targets[c.best.value])
      && c.since <= |s.log|
      && Counter(s.log, c.best.value) <=
           Counter(s.log, j) + Since(s.log, c.since, Up(c.best.value)) + Since(s.log, c.since, Down(j))
      && (c.since == |s.log| ==> Counter(s.log, c.best.value) <= Counter(s.log, j))
  {
    var s := Exec(targets, steps);
    var c := s.callers[id];
    EveryoneKnows(targets, steps);
    assert Knows(targets, s.log, c);
    if c.best.Some? {
      assert AtLeast(s.log, c, j);
      SinceIsCount(s.log, c.since, Up(c.best.value));
      SinceIsCount(s.log, c.since, Down(j));
    }
  }

  /** The callers holding a selection of counter i. */
  function Holding(s: Shared, i: nat): set<nat> {
    set id | id in s.callers && s.callers[id] == Picked(i, false)
  }

  function Bit(b: bool): int {
    if b then 1 else 0
  }

  lemma {:induction false} OneMoves(s: Shared, s': Shared, id: nat, c: Caller, i: nat)
    requires s'.callers == s.callers[id := c]
    ensures |Holding(s', i)| == |Holding(s, i)| + Bit(c == Picked(i, false)) - Bit(id in Holding(s, i))
  {
    var before, after := Holding(s, i), Holding(s', i);
    if c == Picked(i, false) {
      assert after == before + {id};
    } else {
      assert after == before - {id};
    }
  }

  lemma HoldingStep(targets: seq<Target>, s: Shared, step: Step, i: nat)
    requires Counter(s.log, i) == |Holding(s, i)|
    ensures Counter(Next(targets, s, step).log, i) == |Holding(Next(targets, s, step), i)|
  {
    var s' := Next(targets, s, step);
    if s' != s {
      OneMoves(s, s', step.id, s'.callers[step.id], i);
      if s'.log != s.log {
        OccursSnoc(s.log, s'.log[|s.log|], Up(i));
        OccursSnoc(s.log, s'.log[|s.log|], Down(i));
      }
    }
  }

  /** Conservation without a lock: under every schedule each counter is the number of selections
      whose Done has not taken effect. */
  lemma {:induction false} CountersAreHeld(targets: seq<Target>, steps: seq<Step>, i: nat)
    ensures Counter(Exec(targets, steps).log, i) == |Holding(Exec(targets, steps), i)|
  {
    if steps == [] {
      assert Holding(Exec(targets, steps), i) == {};
    } else {
      CountersAreHeld(targets, steps[..|steps| - 1], i);
      HoldingStep(targets, Exec(targets, steps[..|steps| - 1]), steps[|steps| - 1], i);
    }
  }
}
