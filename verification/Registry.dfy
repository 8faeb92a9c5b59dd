/** The registry of breakers and the per-service state gauge it maintains incrementally.
    Registry methods are atomic. A breaker is held here as its state and the service that its
    state-change callback was given. */
module Registry {
  import opened Common
  import opened BreakerCore

  datatype TargetState = TargetState(service: string, state: State)
  datatype Slot = Slot(core: Core, callback: Option<string>)

  /** The breaker's transitions are reported under this service. */
  predicate ReportsUnder(slot: Slot, service: string) {
    slot.callback.Some? && NormalizeService(slot.callback.value) == NormalizeService(service)
  }

  function NormalizeService(service: string): (s: string)
    ensures s != "" && (service != "" ==> s == service)
  {
    if service == "" then "unknown" else service
  }

  function StateValue(s: State): int {
    match s case Closed => 0 case Open => 1 case HalfOpen => 2
  }

  predicate Reaches(states: map<string, TargetState>, service: string, s: State) {
    exists t | t in states :: states[t] == TargetState(service, s)
  }

  predicate HasTargets(states: map<string, TargetState>, service: string) {
    exists t | t in states :: states[t].service == service
  }

  /** Open over half-open over closed. */
  function Aggregate(states: map<string, TargetState>, service: string): State {
    if Reaches(states, service, Open) then Open
    else if Reaches(states, service, HalfOpen) then HalfOpen
    else Closed
  }

  /** A series exists for a service exactly when some target maps to it, and shows the
      aggregate of those targets. */
  ghost predicate GaugeAgrees(states: map<string, TargetState>, gauge: map<string, int>) {
    forall s ::
      if HasTargets(states, s) then s in gauge && gauge[s] == StateValue(Aggregate(states, s)) else s !in gauge
  }

  /** How an agreeing series reads: 1 exactly when some target of the service is open, 2 exactly
      when none is but some is half-open, and 0 exactly when all are closed. */
  lemma SeriesReads(states: map<string, TargetState>, gauge: map<string, int>, service: string)
    requires GaugeAgrees(states, gauge) && HasTargets(states, service)
    ensures service in gauge
    ensures gauge[service] == 1 <==> exists t | t in states :: states[t] == TargetState(service, Open)
    ensures gauge[service] == 2 <==>
      && (exists t | t in states :: states[t] == TargetState(service, HalfOpen))
      && forall t | t in states && states[t].service == service :: states[t].state != Open
    ensures gauge[service] == 0 <==> forall t | t in states && states[t].service == service :: states[t].state == Closed
  {
    forall t | t in states && states[t].service == service
      ensures Reaches(states, service, states[t].state)
    {
      assert states[t] == TargetState(service, states[t].state);
    }
    var t :| t in states && states[t].service == service;
  }

  /** A change to one target's record leaves the series of services it is not concerned with. */
  lemma OtherServicesUnaffected(
    states: map<string, TargetState>, states': map<string, TargetState>, target: string, service: string)
    requires forall t | t != target :: (t in states <==> t in states') && (t in states ==> states[t] == states'[t])
    requires target in states ==> states[target].service != service
    requires target in states' ==> states'[target].service != service
    ensures HasTargets(states', service) == HasTargets(states, service)
    ensures Aggregate(states', service) == Aggregate(states, service)
  {
    forall s: State
      ensures Reaches(states', service, s) == Reaches(states, service, s)
    {
      if Reaches(states, service, s) {
        var t :| t in states && states[t] == TargetState(service, s);
        assert t in states' && states'[t] == TargetState(service, s);
      }
      if Reaches(states', service, s) {
        var t :| t in states' && states'[t] == TargetState(service, s);
        assert t in states && states[t] == TargetState(service, s);
      }
    }
    if HasTargets(states, service) {
      var t :| t in states && states[t].service == service;
      assert t in states' && states'[t].service == service;
    }
    if HasTargets(states', service) {
      var t :| t in states' && states'[t].service == service;
      assert t in states && states[t].service == service;
    }
  }

  // ---------- progress of the loops over all breakers ----------

  /** All breakers outside `todo` have been forced closed. */
  predicate ClosedOutside(was: map<string, Slot>, m: map<string, Slot>, todo: set<string>) {
    && m.Keys == was.Keys && todo <= was.Keys
    && forall t | t in m :: m[t] == if t in todo then was[t] else was[t].(core := FRESH)
  }

  lemma ClosedOutsideStep(was: map<string, Slot>, m: map<string, Slot>, todo: set<string>, t: string)
    requires ClosedOutside(was, m, todo) && t in todo
    ensures ClosedOutside(was, m[t := m[t].(core := FRESH)], todo - {t})
  {
  }

  lemma AllClosed(was: map<string, Slot>, m: map<string, Slot>)
    requires ClosedOutside(was, m, {})
    ensures m == map t | t in was :: was[t].(core := FRESH)
    ensures |m| == |was.Keys|
  {
    assert m.Keys == was.Keys;
  }

  /** What reconciliation makes of one breaker. */
  predicate Reconciled(was: Slot, slot: Slot, service: string) {
    slot.core == was.core && ReportsUnder(slot, service)
  }

  /** All breakers outside `todo` have been reconciled with their configured service. */
  predicate ReconciledOutside(
    was: map<string, Slot>, m: map<string, Slot>, todo: set<string>, services: map<string, string>) {
    && todo <= m.Keys <= was.Keys
    && (forall t | t in was :: t in m <==> t in todo || t in services)
    && (forall t | t in m :: if t in todo then m[t] == was[t] else Reconciled(was[t], m[t], services[t]))
  }

  lemma ReconciledOutsideStep(
    was: map<string, Slot>, m: map<string, Slot>, m': map<string, Slot>, todo: set<string>,
    services: map<string, string>, t: string)
    requires ReconciledOutside(was, m, todo, services) && t in todo
    requires t !in services ==> m' == m - {t}
    requires t in services ==> t in m' && m' == m[t := m'[t]] && Reconciled(m[t], m'[t], services[t])
    ensures ReconciledOutside(was, m', todo - {t}, services)
  {
  }

  /** A breaker and the record kept of it agree on state and service. */
  predicate Recorded(slot: Slot, record: TargetState) {
    && record.state == slot.core.state
    && slot.callback.Some? && NormalizeService(slot.callback.value) == record.service
  }

  /** The clones made so far are those of the breakers outside `todo`. */
  ghost predicate ClonedOutside(prev: Config, cfg: Config, clock: string -> nat,
                                was: map<string, Slot>, clones: map<string, Slot>, todo: set<string>) {
    && todo <= was.Keys && clones.Keys == was.Keys - todo
    && forall t | t in clones :: clones[t].core == Clone(Normalize(prev), Normalize(cfg), was[t].core, clock(t))
  }

  lemma ClonedOutsideStep(
    prev: Config, cfg: Config, clock: string -> nat, was: map<string, Slot>, clones: map<string, Slot>,
    todo: set<string>, t: string, slot: Slot)
    requires ClonedOutside(prev, cfg, clock, was, clones, todo) && t in todo
    requires slot.core == Clone(Normalize(prev), Normalize(cfg), was[t].core, clock(t))
    ensures t !in clones && ClonedOutside(prev, cfg, clock, was, clones[t := slot], todo - {t})
  {
  }

  lemma ClonedStates(
    prev: Config, cfg: Config, clock: string -> nat, was: map<string, Slot>, clones: map<string, Slot>)
    requires ClonedOutside(prev, cfg, clock, was, clones, {})
    ensures clones.Keys == was.Keys
    ensures forall t | t in was ::
      clones[t].core.state == was[t].core.state <==> KeepsState(Normalize(cfg), was[t].core, clock(t))
  {
    forall t | t in was
      ensures clones[t].core.state == was[t].core.state <==> KeepsState(Normalize(cfg), was[t].core, clock(t))
    {
      assert t in clones;
      CloneKeepsStateIff(Normalize(prev), Normalize(cfg), was[t].core, clock(t));
    }
  }

  /** What cloning has reported to the old registry: the state each clone was left in. */
  ghost predicate ReportedOutside(was: map<string, Slot>, states: map<string, TargetState>, clones: map<string, Slot>) {
    && was.Keys == states.Keys
    && forall t | t in was ::
      if t in clones then
        Recorded(was[t].(core := clones[t].core), states[t]) && ReportsUnder(clones[t], states[t].service)
      else Recorded(was[t], states[t])
  }

  lemma ReportedStep(
    was: map<string, Slot>, states: map<string, TargetState>, clones: map<string, Slot>, t: string, service: string,
    core: Core)
    requires ReportedOutside(was, states, clones) && t in was && t !in clones && service == states[t].service
    ensures ReportedOutside(was, states[t := TargetState(service, core.state)], clones[t := Slot(core, Some(service))])
  {
    assert NormalizeService(service) == service;
  }

  /** Once all are cloned, a record still shows its breaker's state exactly when the clone has
      that state. */
  lemma RecordedAfterCloning(was: map<string, Slot>, states: map<string, TargetState>, clones: map<string, Slot>)
    requires ReportedOutside(was, states, clones) && clones.Keys == was.Keys
    ensures forall t | t in was ::
      Recorded(was[t], states[t]) <==> clones[t].core.state == was[t].core.state
  {
  }

  class Registry {
    const config: Config
    const gaugeLive: bool
    var breakers: map<string, Slot>
    var targetStates: map<string, TargetState>
    var gauge: map<string, int>

    /** Gauge agreement: each target's recorded state is its breaker's stored state, its
        callback reports under the recorded service, and the series show the aggregates.
        Without a registered gauge nothing is recorded. */
    ghost predicate Agrees()
      reads this
    {
      if gaugeLive then
        && targetStates.Keys == breakers.Keys
        && (forall t | t in breakers :: Tracked(t))
        && GaugeAgrees(targetStates, gauge)
      else targetStates == map[]
    }

    ghost predicate Tracked(t: string)
      requires t in breakers
      reads this
    {
      t in targetStates && Recorded(breakers[t], targetStates[t])
    }

    /** What still holds of a registry after a reload has left it behind: its gauge shows its
        records, though a record may differ from the breaker. */
    ghost predicate Tidy()
      reads this
    {
      if gaugeLive then
        GaugeAgrees(targetStates, gauge) && forall t | t in targetStates :: targetStates[t].service != ""
      else targetStates == map[]
    }

    constructor (cfg: Config, registered: bool)
      ensures config == cfg && gaugeLive == registered && breakers == map[] && targetStates == map[] && gauge == map[]
    {
      config, gaugeLive := cfg, registered;
      breakers, targetStates, gauge := map[], map[], map[];
    }

    // ---------- aggregates ----------

    method AggregateServiceState(service: string) returns (s: State)
      ensures s == Aggregate(targetStates, service)
    {
      var sawHalfOpen := false;
      var todo := targetStates.Keys;
      while todo != {}
        invariant todo <= targetStates.Keys
        invariant forall t | t in targetStates.Keys - todo :: targetStates[t] != TargetState(service, Open)
        invariant sawHalfOpen <==>
          exists t | t in targetStates.Keys - todo :: targetStates[t] == TargetState(service, HalfOpen)
        decreases |todo|
      {
        ghost var before := todo;
        var t :| t in todo;
        todo := todo - {t};
        assert targetStates.Keys - todo == (targetStates.Keys - before) + {t};
        if targetStates[t].service != service {
          continue;
        }
        if targetStates[t].state == Open {
          assert Reaches(targetStates, service, Open);
          return Open;
        }
        if targetStates[t].state == HalfOpen {
          sawHalfOpen := true;
        }
      }
      s := if sawHalfOpen then HalfOpen else Closed;
    }

    method ServiceHasTargets(service: string) returns (found: bool)
      ensures found == HasTargets(targetStates, service)
    {
      var todo := targetStates.Keys;
      while todo != {}
        invariant todo <= targetStates.Keys
        invariant forall t | t in targetStates.Keys - todo :: targetStates[t].service != service
        decreases |todo|
      {
        var t :| t in todo;
        todo := todo - {t};
        if targetStates[t].service == service {
          return true;
        }
      }
      found := false;
    }

    // ---------- the incremental gauge ----------

    method SetGauge(target: string, service: string, state: State)
      requires gaugeLive ==> GaugeAgrees(targetStates, gauge)
      requires target in targetStates ==> targetStates[target].service != ""
      modifies this`targetStates, this`gauge
      ensures !gaugeLive ==> targetStates == old(targetStates) && gauge == old(gauge)
      ensures gaugeLive ==>
        && targetStates == old(targetStates)[target := TargetState(NormalizeService(service), state)]
        && GaugeAgrees(targetStates, gauge)
    {
      if !gaugeLive {
        return;
      }
      var series := NormalizeService(service);
      var previous := if target in targetStates then Some(targetStates[target]) else None;
      targetStates := targetStates[target := TargetState(series, state)];
      var aggregate := AggregateServiceState(series);
      var oldService, oldAggregate, deleteOldSeries := "", Closed, false;
      if previous.Some? && previous.value.service != series {
        oldService := previous.value.service;
        var still := ServiceHasTargets(oldService);
        if still {
          oldAggregate := AggregateServiceState(oldService);
        } else {
          deleteOldSeries := true;
        }
      }
      if oldService != "" {
        if deleteOldSeries {
          gauge := gauge - {oldService};
        } else {
          gauge := gauge[oldService := StateValue(oldAggregate)];
        }
      }
      gauge := gauge[series := StateValue(aggregate)];
      forall s | s != series && (previous.None? || s != previous.value.service)
        ensures HasTargets(targetStates, s) == HasTargets(old(targetStates), s)
        ensures Aggregate(targetStates, s) == Aggregate(old(targetStates), s)
      {
        OtherServicesUnaffected(old(targetStates), targetStates, target, s);
      }
      assert HasTargets(targetStates, series) by { assert targetStates[target].service == series; }
    }

    method RemoveTarget(target: string)
      requires gaugeLive ==> GaugeAgrees(targetStates, gauge)
      modifies this`targetStates, this`gauge
      ensures targetStates == old(targetStates) - {target}
      ensures gaugeLive ==> GaugeAgrees(targetStates, gauge)
    {
      if target !in targetStates {
        return;
      }
      var service := targetStates[target].service;
      targetStates := targetStates - {target};
      if !gaugeLive {
        return;
      }
      forall s | s != service
        ensures HasTargets(targetStates, s) == HasTargets(old(targetStates), s)
        ensures Aggregate(targetStates, s) == Aggregate(old(targetStates), s)
      {
        OtherServicesUnaffected(old(targetStates), targetStates, target, s);
      }
      var still := ServiceHasTargets(service);
      if still {
        var aggregate := AggregateServiceState(service);
        gauge := gauge[service := StateValue(aggregate)];
      } else {
        gauge := gauge - {service};
      }
    }

    // ---------- the operations of a registry ----------

    /** attachBreaker: the callback is bound to the service and the series brought up to date. */
    method AttachBreaker(target: string, service: string)
      requires Agrees() && target in breakers
      modifies this
      ensures Agrees()
      ensures breakers == old(breakers)[target := Slot(old(breakers[target].core), Some(service))]
    {
      breakers := breakers[target := breakers[target].(callback := Some(service))];
      SetGauge(target, service, breakers[target].core.state);
    }

    method EnsureBreakerService(target: string, service: string)
      requires Agrees() && target in breakers
      modifies this
      ensures Agrees()
      ensures target in breakers && breakers == old(breakers)[target := breakers[target]]
      ensures breakers[target].core == old(breakers[target].core) && ReportsUnder(breakers[target], service)
    {
      var desired := NormalizeService(service);
      if target in targetStates && targetStates[target].service == desired {
        return;
      }
      AttachBreaker(target, desired);
    }

    /** BreakerForService: the target's breaker, created closed when it has none, reporting
        under the given service from now on. */
    method BreakerForService(target: string, service: string)
      requires Agrees()
      modifies this
      ensures Agrees()
      ensures target in breakers && breakers == old(breakers)[target := breakers[target]]
      ensures breakers[target].core == (if target in old(breakers) then old(breakers)[target].core else FRESH)
      ensures ReportsUnder(breakers[target], service)
    {
      if target in breakers {
        EnsureBreakerService(target, service);
      } else {
        AdoptBreaker(target, service, FRESH);
      }
    }

    /** A call on a registered breaker, with the state-change callback it makes. */
    method CallBreaker(target: string, e: Event) returns (allowed: bool)
      requires Agrees() && target in breakers
      modifies this
      ensures Agrees()
      ensures allowed == Admits(Normalize(config), old(breakers[target].core), e.now)
      ensures breakers == old(breakers)[target :=
        old(breakers[target]).(core := Step(Normalize(config), old(breakers[target].core), e))]
    {
      var cfg, slot := Normalize(config), breakers[target];
      allowed := Admits(cfg, slot.core, e.now);
      breakers := breakers[target := slot.(core := Step(cfg, slot.core, e))];
      var emitted := Emits(cfg, slot.core, e);
      if emitted.Some? && slot.callback.Some? {
        SetGauge(target, slot.callback.value, emitted.value);
      }
    }

    /** The same on a registry left behind: its records follow its breakers' transitions. */
    method LateCall(target: string, e: Event)
      requires Tidy() && target in breakers
      modifies this
      ensures Tidy()
      ensures breakers == old(breakers)[target :=
        old(breakers[target]).(core := Step(Normalize(config), old(breakers[target].core), e))]
    {
      var cfg, slot := Normalize(config), breakers[target];
      breakers := breakers[target := slot.(core := Step(cfg, slot.core, e))];
      var emitted := Emits(cfg, slot.core, e);
      if emitted.Some? && slot.callback.Some? {
        SetGauge(target, slot.callback.value, emitted.value);
      }
    }

    /** BreakerForService on a registry left behind, by a request of an old snapshot. */
    method LateLookup(target: string, service: string)
      requires Tidy()
      modifies this
      ensures Tidy()
      ensures target in breakers && breakers == old(breakers)[target := breakers[target]]
      ensures breakers[target].core == (if target in old(breakers) then old(breakers)[target].core else FRESH)
    {
      var desired := NormalizeService(service);
      if target !in breakers {
        breakers := breakers[target := Slot(FRESH, Some(service))];
        SetGauge(target, service, Closed);
      } else if !(target in targetStates && targetStates[target].service == desired) {
        breakers := breakers[target := breakers[target].(callback := Some(desired))];
        SetGauge(target, desired, breakers[target].core.state);
      }
    }

    method ForceCloseBreaker(target: string, now: nat)
      requires Agrees() && target in breakers
      modifies this
      ensures Agrees()
      ensures breakers == old(breakers)[target := old(breakers[target]).(core := FRESH)]
    {
      var _ := CallBreaker(target, Event(ForceClose, now));
    }

    /** Reset: every breaker is forced closed and keeps its service. */
    method Reset(now: nat) returns (reset: nat)
      requires Agrees()
      modifies this
      ensures Agrees()
      ensures reset == |breakers|
      ensures breakers == map t | t in old(breakers) :: old(breakers)[t].(core := FRESH)
    {
      reset := 0;
      var todo := breakers.Keys;
      while todo != {}
        invariant Agrees()
        invariant ClosedOutside(old(breakers), breakers, todo)
        invariant reset + |todo| == |old(breakers.Keys)|
        decreases |todo|
      {
        var t :| t in todo;
        ClosedOutsideStep(old(breakers), breakers, todo, t);
        todo := todo - {t};
        ForceCloseBreaker(t, now);
        reset := reset + 1;
      }
      AllClosed(old(breakers), breakers);
    }

    /** One turn of the reconciliation loop. */
    method ReconcileTarget(target: string, targetServices: map<string, string>)
      requires Agrees() && target in breakers
      modifies this
      ensures Agrees()
      ensures target !in targetServices ==> breakers == old(breakers) - {target}
      ensures target in targetServices ==>
        && target in breakers && breakers == old(breakers)[target := breakers[target]]
        && Reconciled(old(breakers[target]), breakers[target], targetServices[target])
    {
      if target in targetServices {
        EnsureBreakerService(target, targetServices[target]);
      } else {
        breakers := breakers - {target};
        RemoveTarget(target);
      }
    }

    /** ReconcileTargetServices: breakers of retired targets are dropped together with their
        records; the others keep their state and report under their configured service. */
    method ReconcileTargetServices(targetServices: map<string, string>)
      requires Agrees()
      modifies this
      ensures Agrees()
      ensures breakers.Keys == old(breakers.Keys) * targetServices.Keys
      ensures forall t | t in breakers :: Reconciled(old(breakers)[t], breakers[t], targetServices[t])
    {
      var todo := breakers.Keys;
      while todo != {}
        invariant Agrees()
        invariant ReconciledOutside(old(breakers), breakers, todo, targetServices)
        decreases |todo|
      {
        var t :| t in todo;
        ghost var before := breakers;
        ReconcileTarget(t, targetServices);
        ReconciledOutsideStep(old(breakers), before, breakers, todo, targetServices, t);
        todo := todo - {t};
      }
    }

    /** One turn of the cloning loop. The clone starts with this registry's callback, so a
        transition made while reconciling is reported here, not to the new registry. */
    method CloneBreaker(target: string, cfg: Config, now: nat) returns (core: Core, service: string)
      requires target in breakers && (gaugeLive ==> GaugeAgrees(targetStates, gauge))
      requires gaugeLive ==> Tracked(target)
      requires !gaugeLive ==> targetStates == map[]
      modifies this`targetStates, this`gauge
      ensures core == Clone(Normalize(config), Normalize(cfg), breakers[target].core, now)
      ensures !gaugeLive ==> targetStates == map[]
      ensures gaugeLive ==>
        && GaugeAgrees(targetStates, gauge)
        && targetStates == old(targetStates)[target := TargetState(service, core.state)]
        && service == old(targetStates)[target].service
    {
      service := if target in targetStates then targetStates[target].service else NormalizeService("");
      var slot := breakers[target];
      core := Clone(Normalize(config), Normalize(cfg), slot.core, now);
      if core.state != slot.core.state && slot.callback.Some? {
        SetGauge(target, slot.callback.value, core.state);
      }
      assert gaugeLive ==> targetStates == old(targetStates)[target := TargetState(service, core.state)];
    }

    /** State(target): reads, and never creates, a breaker. What it answers is the state that an
        Allow at that instant would leave; and it differs from what the gauge was told only when
        that is open and its time is up. */
    method TargetStateOf(target: string, now: nat) returns (s: State, known: bool)
      ensures known == (target in breakers) && (!known ==> s == Closed)
      ensures known ==> s == Step(Normalize(config), breakers[target].core, Event(Allow, now)).state
      ensures Agrees() && gaugeLive ==> known == (target in targetStates)
      ensures Agrees() && gaugeLive && known && s != targetStates[target].state ==>
        targetStates[target].state == Open && s == HalfOpen && breakers[target].core.openUntil <= now
    {
      known := target in breakers;
      s := if known then Reported(breakers[target].core, now) else Closed;
    }

    /** CloneWithConfig: a new registry whose breakers are the reconciled clones. It agrees
        with its own gauge. The registry left behind keeps agreeing with its gauge exactly
        when every breaker is one that the reload leaves in its state. */
    method CloneWithConfig(cfg: Config, registered: bool, clock: string -> nat) returns (clone: Registry)
      requires Agrees()
      modifies this`targetStates, this`gauge
      ensures fresh(clone) && clone.config == cfg && clone.gaugeLive == registered && clone.Agrees()
      ensures ClonedOutside(config, cfg, clock, breakers, clone.breakers, {})
      ensures gaugeLive ==> ReportedOutside(breakers, targetStates, clone.breakers)
      ensures Tidy()
      ensures gaugeLive ==>
        (Agrees() <==> forall t | t in breakers :: KeepsState(Normalize(cfg), breakers[t].core, clock(t)))
    {
      clone := new Registry(cfg, registered);
      CloneAll(clone, clock);
      AgreesAfterCloning(clone.breakers);
      ClonedStates(config, cfg, clock, breakers, clone.breakers);
    }

    /** The cloning loop. */
    method CloneAll(clone: Registry, clock: string -> nat)
      requires Agrees() && clone != this && clone.Agrees() && clone.breakers == map[]
      modifies this`targetStates, this`gauge, clone
      ensures CloneProgress(clone, clock, {})
    {
      CloningStarts(clone, clock);
      var todo := breakers.Keys;
      while todo != {}
        invariant CloneProgress(clone, clock, todo)
        decreases |todo|
      {
        var t :| t in todo;
        CloneInto(clone, t, clock, todo);
        todo := todo - {t};
      }
    }

    lemma CloningStarts(clone: Registry, clock: string -> nat)
      requires Agrees() && clone.Agrees() && clone.breakers == map[]
      ensures CloneProgress(clone, clock, breakers.Keys)
    {
    }

    lemma AgreesAfterCloning(clones: map<string, Slot>)
      requires HasReported(clones) && clones.Keys == breakers.Keys
      ensures Tidy()
      ensures gaugeLive ==>
        (Agrees() <==> forall t | t in breakers :: clones[t].core.state == breakers[t].core.state)
    {
      if gaugeLive {
        RecordedAfterCloning(breakers, targetStates, clones);
        assert forall t | t in breakers :: Tracked(t) <==> clones[t].core.state == breakers[t].core.state;
      }
    }

    /** This registry's records while it is being cloned. */
    ghost predicate HasReported(clones: map<string, Slot>)
      reads this
    {
      if gaugeLive then ReportedOutside(breakers, targetStates, clones) && GaugeAgrees(targetStates, gauge)
      else targetStates == map[]
    }

    ghost predicate CloneProgress(clone: Registry, clock: string -> nat, todo: set<string>)
      reads this, clone
    {
      && clone.Agrees()
      && ClonedOutside(config, clone.config, clock, breakers, clone.breakers, todo)
      && HasReported(clone.breakers)
    }

    method CloneInto(clone: Registry, target: string, clock: string -> nat, ghost todo: set<string>)
      requires clone != this && target in todo && CloneProgress(clone, clock, todo)
      modifies this`targetStates, this`gauge, clone
      ensures CloneProgress(clone, clock, todo - {target})
    {
      ghost var before := targetStates;
      var core, service := CloneBreaker(target, clone.config, clock(target));
      ClonedOutsideStep(config, clone.config, clock, breakers, clone.breakers, todo, target, Slot(core, Some(service)));
      if gaugeLive {
        ReportedStep(breakers, before, clone.breakers, target, service, core);
      }
      clone.AdoptBreaker(target, service, core);
    }

    /** attachBreaker for a breaker that is not yet in the registry, and its Store. */
    method AdoptBreaker(target: string, service: string, core: Core)
      requires Agrees() && target !in breakers
      modifies this
      ensures Agrees()
      ensures breakers == old(breakers)[target := Slot(core, Some(service))]
    {
      SetGauge(target, service, core.state);
      breakers := breakers[target := Slot(core, Some(service))];
    }
  }
}
