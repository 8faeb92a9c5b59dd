/** Hot reload of the breaker registry, and gauge agreement over whole runs across reloads. */
module Reload {
  import opened Common
  import opened BreakerCore
  import opened BreakerRuns
  import opened Routes
  import opened Targets
  import R = Registry

  /** Some route among the first n lists the address. */
  predicate Listed(routes: seq<Route>, n: nat, a: Address)
    requires n <= |routes|
  {
    exists i | 0 <= i < n :: a in Addresses(routes[i].targets)
  }

  /** Route i is the last of the first n routes that list the address. */
  predicate LastListing(routes: seq<Route>, n: nat, a: Address, i: nat)
    requires n <= |routes|
  {
    i < n && a in Addresses(routes[i].targets) && forall j | i < j < n :: a !in Addresses(routes[j].targets)
  }

  ghost predicate ServicesOf(routes: seq<Route>, n: nat, services: map<string, string>)
    requires n <= |routes|
  {
    && (forall a: Address :: a in services <==> Listed(routes, n, a))
    && (forall i: nat, a: Address | LastListing(routes, n, a, i) :: a in services && services[a] == routes[i].service)
  }

  /** circuitBreakerTargetServices: the configured addresses, each with the service of the
      last route that lists it. */
  method CircuitBreakerTargetServices(routes: seq<Route>) returns (services: map<string, string>)
    ensures ServicesOf(routes, |routes|, services)
  {
    services := map[];
    for i := 0 to |routes|
      invariant ServicesOf(routes, i, services)
    {
      ghost var before := services;
      services := AddTargets(routes[i], services);
      ServicesStep(routes, i, before, services);
    }
  }

  /** The inner loop: every target of one route now belongs to its service. */
  method AddTargets(route: Route, before: map<string, string>) returns (services: map<string, string>)
    ensures forall a: Address :: a in services <==> a in before || a in Addresses(route.targets)
    ensures forall a: Address | a in services ::
      services[a] == if a in Addresses(route.targets) then route.service else before[a]
  {
    services := before;
    var targets := route.targets;
    for j := 0 to |targets|
      invariant forall a: Address :: a in services <==> a in before || a in Addresses(targets[..j])
      invariant forall a: Address | a in services ::
        services[a] == if a in Addresses(targets[..j]) then route.service else before[a]
    {
      services := services[targets[j].address := route.service];
      assert targets[..j + 1] == targets[..j] + [targets[j]];
    }
    assert targets[..|targets|] == targets;
  }

  lemma ServicesStep(routes: seq<Route>, i: nat, before: map<string, string>, services: map<string, string>)
    requires i < |routes| && ServicesOf(routes, i, before)
    requires forall a: Address :: a in services <==> a in before || a in Addresses(routes[i].targets)
    requires forall a: Address | a in services ::
      services[a] == if a in Addresses(routes[i].targets) then routes[i].service else before[a]
    ensures ServicesOf(routes, i + 1, services)
  {
    forall k: nat, a: Address | LastListing(routes, i + 1, a, k)
      ensures a in services && services[a] == routes[k].service
    {
      assert k < i ==> LastListing(routes, i, a, k);
    }
  }

  /** nextCircuitBreakerRegistry. `registered` says whether the metrics registry accepts the
      new collector, and `clock` gives the instant at which each breaker is cloned. After it
      only configured addresses remain, each reporting under its configured service; a breaker
      keeps its state when the breaker settings are unchanged and is reconciled otherwise. */
  method NextCircuitBreakerRegistry(cfg: Config, services: map<string, string>,
                                    previous: R.Registry?, previousConfig: Option<Config>,
                                    registered: bool, clock: string -> nat)
    returns (next: R.Registry)
    requires previous != null ==> previous.Agrees()
    requires previous != null && previousConfig.Some? ==> previousConfig.value == previous.config
    modifies if previous == null then {} else {previous}
    ensures next.Agrees() && (previous != null && next != previous ==> previous.Tidy())
    ensures previous != null && previousConfig == Some(cfg) ==> next == previous
    ensures !(previous != null && previousConfig == Some(cfg)) ==> fresh(next) && next.config == cfg
    ensures next.breakers.Keys == (if previous == null then {} else old(previous.breakers.Keys) * services.Keys)
    ensures forall t | t in next.breakers :: R.ReportsUnder(next.breakers[t], services[t])
    ensures previous != null && previousConfig == Some(cfg) ==>
      forall t | t in next.breakers :: next.breakers[t].core == old(previous.breakers)[t].core
    ensures previous != null && previousConfig != Some(cfg) ==>
      forall t | t in next.breakers ::
        next.breakers[t].core ==
          Clone(Normalize(previous.config), Normalize(cfg), old(previous.breakers)[t].core, clock(t))
  {
    if previous == null {
      next := new R.Registry(cfg, registered);
      next.ReconcileTargetServices(services);
      return;
    }
    if previousConfig == Some(cfg) {
      previous.ReconcileTargetServices(services);
      return previous;
    }
    next := previous.CloneWithConfig(cfg, registered, clock);
    next.ReconcileTargetServices(services);
  }

  /** Anything that can happen: to the gateway's current registry, or to the `k`th one that was
      left behind by a reload and still has requests in flight. */
  datatype Op =
    | Late(k: nat, target: string, event: Event)
    | LateLookup(k: nat, target: string, service: string)
    | Lookup(target: string, service: string)
    | Call(target: string, event: Event)
    | ResetAll(now: nat)
    | ReloadConfig(cfg: Config, services: map<string, string>, registered: bool, clock: string -> nat)

  /** Every breaker of the registry satisfies the state invariant of its configuration. */
  ghost predicate AllValid(cfg: Config, breakers: map<string, R.Slot>) {
    forall t | t in breakers :: Valid(Normalize(cfg), breakers[t].core)
  }

  lemma AllValidAfterReload(
    prev: Config, cfg: Config, clock: string -> nat, was: map<string, R.Slot>, breakers: map<string, R.Slot>)
    requires AllValid(prev, was) && breakers.Keys <= was.Keys
    requires forall t | t in breakers ::
      breakers[t].core == Clone(Normalize(prev), Normalize(cfg), was[t].core, clock(t))
    ensures AllValid(cfg, breakers)
  {
    forall t | t in breakers
      ensures Valid(Normalize(cfg), breakers[t].core)
    {
      CloneKeepsMeaning(Normalize(prev), Normalize(cfg), was[t].core, clock(t));
    }
  }

  /** One operation on the current registry; a call to an address it does not hold is a call
      to a retired breaker, whose callback is gone. A registry left behind stays tidy. */
  method Apply(r: R.Registry, op: Op) returns (current: R.Registry)
    requires r.Agrees() && AllValid(r.config, r.breakers) && !op.Late? && !op.LateLookup?
    modifies r
    ensures current == r || (fresh(current) && r.Tidy())
    ensures current.Agrees() && AllValid(current.config, current.breakers)
  {
    current := r;
    match op
    case Lookup(target, service) => r.BreakerForService(target, service);
    case Call(target, event) =>
      if target in r.breakers {
        StepKeepsValid(Normalize(r.config), r.breakers[target].core, event);
        var _ := r.CallBreaker(target, event);
      }
    case ResetAll(now) => var _ := r.Reset(now);
    case ReloadConfig(cfg, services, registered, clock) =>
      current := ApplyReload(r, cfg, services, registered, clock);
  }

  method ApplyReload(
    r: R.Registry, cfg: Config, services: map<string, string>, registered: bool, clock: string -> nat)
    returns (current: R.Registry)
    requires r.Agrees() && AllValid(r.config, r.breakers)
    modifies r
    ensures current == r || (fresh(current) && r.Tidy())
    ensures current.Agrees() && AllValid(current.config, current.breakers)
  {
    ghost var was := r.breakers;
    current := NextCircuitBreakerRegistry(cfg, services, r, Some(r.config), registered, clock);
    if cfg != r.config {
      AllValidAfterReload(r.config, cfg, clock, was, current.breakers);
    }
  }

  /** A request of an old snapshot looks its breaker up, or answers it, in the registry that the
      reload left behind. */
  method ApplyLate(left: R.Registry, op: Op)
    requires left.Tidy() && (op.Late? || op.LateLookup?)
    modifies left
    ensures left.Tidy()
  {
    if op.LateLookup? {
      left.LateLookup(op.target, op.service);
    } else if op.target in left.breakers {
      left.LateCall(op.target, op.event);
    }
  }

  /** Over every run: whatever lookups, breaker calls, resets and reloads happen in whatever
      order, and whatever requests still report to registries left behind, the registry of the
      current snapshot agrees with its gauge and every breaker in it satisfies the state
      invariant of the current settings. */
  method Drive(cfg: Config, registered: bool, ops: seq<Op>) returns (current: R.Registry)
    ensures current.Agrees() && AllValid(current.config, current.breakers)
  {
    current := new R.Registry(cfg, registered);
    var past: seq<R.Registry> := [];
    for i := 0 to |ops|
      invariant fresh(current) && current.Agrees() && AllValid(current.config, current.breakers)
      invariant current !in past && forall r | r in past :: fresh(r) && r.Tidy()
    {
      if ops[i].Late? || ops[i].LateLookup? {
        if ops[i].k < |past| {
          var left := past[ops[i].k];
          assert left in past;
          ApplyLate(left, ops[i]);
        }
      } else {
        var before := current;
        current := Apply(before, ops[i]);
        if current != before {
          past := past + [before];
        }
      }
    }
  }

  /** A registry that is left behind disagreeing with its own gauge: with a threshold of two
      one failure is recorded, and a reload to a threshold of one trips the clone while its
      callback still reports to the old registry. */
  method LeftBehindDisagrees() returns (left: R.Registry, next: R.Registry)
    ensures left.gaugeLive && !left.Agrees() && next.Agrees() && next != left
  {
    left := new R.Registry(Config(2, 1, 10, 10, 1), true);
    left.BreakerForService("a:1", "api");
    FirstFailure(Config(2, 1, 10, 10, 1), 0);
    var _ := left.CallBreaker("a:1", Event(Failure, 0));
    OneFailureIsEnough(Config(1, 1, 10, 10, 1), 0);
    next := left.CloneWithConfig(Config(1, 1, 10, 10, 1), true, _ => 0);
  }

  lemma {:induction false} FirstFailure(cfg: Config, now: nat)
    requires Normal(cfg) && cfg.failureThreshold >= 2
    ensures Step(cfg, FRESH, Event(Failure, now)) == FRESH.(failures := [now])
  {
    KeptOne(now, now - cfg.windowSize);
    assert [] + [now] == [now];
  }

  lemma {:induction false} OneFailureIsEnough(cfg: Config, now: nat)
    requires Normal(cfg) && cfg.failureThreshold == 1
    ensures !KeepsState(cfg, FRESH.(failures := [now]), now)
  {
    KeptOne(now, now - cfg.windowSize);
  }
}
