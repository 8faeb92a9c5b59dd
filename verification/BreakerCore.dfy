/** The circuit breaker's state and the exact effect of each of its calls. Every call runs
    under one mutex, so a run is a sequence of calls, each at the clock reading it takes. */
module BreakerCore {
  import opened Common

  /** config.CBConfig; durations are in nanoseconds. */
  datatype Config = Config(
    failureThreshold: int, successThreshold: int, timeout: int, windowSize: int, halfOpenMax: int)

  predicate Normal(cfg: Config) {
    && cfg.failureThreshold >= 1 && cfg.successThreshold >= 1
    && cfg.timeout >= 1 && cfg.windowSize >= 1 && cfg.halfOpenMax >= 1
  }

  const SECOND: nat := 1_000_000_000

  const DEFAULTS := Config(5, 3, 30 * SECOND, 60 * SECOND, 3)

  /** The setting is kept if it is positive, and otherwise takes its default. */
  predicate KeptOrDefault(given: int, fallback: int, r: int) {
    r == if given >= 1 then given else fallback
  }

  /** normalizeConfig: a setting that is not positive takes its default. */
  function Normalize(cfg: Config): (r: Config)
    ensures Normal(r) && (Normal(cfg) ==> r == cfg)
    ensures KeptOrDefault(cfg.failureThreshold, DEFAULTS.failureThreshold, r.failureThreshold)
    ensures KeptOrDefault(cfg.successThreshold, DEFAULTS.successThreshold, r.successThreshold)
    ensures KeptOrDefault(cfg.timeout, DEFAULTS.timeout, r.timeout)
    ensures KeptOrDefault(cfg.windowSize, DEFAULTS.windowSize, r.windowSize)
    ensures KeptOrDefault(cfg.halfOpenMax, DEFAULTS.halfOpenMax, r.halfOpenMax)
  {
    Config(
      if cfg.failureThreshold <= 0 then DEFAULTS.failureThreshold else cfg.failureThreshold,
      if cfg.successThreshold <= 0 then DEFAULTS.successThreshold else cfg.successThreshold,
      if cfg.timeout <= 0 then DEFAULTS.timeout else cfg.timeout,
      if cfg.windowSize <= 0 then DEFAULTS.windowSize else cfg.windowSize,
      if cfg.halfOpenMax <= 0 then DEFAULTS.halfOpenMax else cfg.halfOpenMax)
  }

  datatype State = Closed | Open | HalfOpen

  /** Instants are nanoseconds since the zero time.Time, so 0 is the instant IsZero detects. */
  datatype Core = Core(state: State, openUntil: int, failures: seq<nat>, successes: nat, inFlight: nat)

  const FRESH := Core(Closed, 0, [], 0, 0)

  /** The instants not before the cutoff, in order: what pruning keeps. */
  function Kept(instants: seq<nat>, cutoff: int): (r: seq<nat>)
    ensures |r| <= |instants|
  {
    if instants == [] then [] else
      var n := |instants| - 1;
      Kept(instants[..n], cutoff) + if instants[n] < cutoff then [] else [instants[n]]
  }

  function Opened(cfg: Config, now: nat): Core
    requires Normal(cfg)
  {
    Core(Open, now + cfg.timeout, [], 0, 0)
  }

  /** The state an Allow at `now` acts on: an open breaker whose time is up turns half-open. */
  function Awake(c: Core, now: nat): Core {
    if c.state == Open && now >= c.openUntil then c.(state := HalfOpen, successes := 0, inFlight := 0) else c
  }

  predicate Admits(cfg: Config, c: Core, now: nat) {
    match Awake(c, now).state
    case Closed => true
    case Open => false
    case HalfOpen => Awake(c, now).inFlight < cfg.halfOpenMax
  }

  /** Breaker.State(): what the breaker reports without changing anything. */
  function Reported(c: Core, now: nat): State {
    if c.state == Open && now >= c.openUntil then HalfOpen else c.state
  }

  datatype Call = Allow | Success | Failure | Ignored | ForceClose
  datatype Event = Event(call: Call, now: nat)

  predicate ReadyToClose(cfg: Config, c: Core) {
    c.successes >= cfg.successThreshold && c.inFlight == 0
  }

  function Minus1(n: nat): nat {
    if n > 0 then n - 1 else 0
  }

  function Step(cfg: Config, c: Core, e: Event): Core
    requires Normal(cfg)
  {
    match e.call
    case Allow =>
      var awake := Awake(c, e.now);
      if awake.state == HalfOpen && Admits(cfg, c, e.now) then awake.(inFlight := awake.inFlight + 1) else awake
    case Success =>
      (match c.state
       case Closed => c.(failures := Kept(c.failures, e.now - cfg.windowSize))
       case Open => c
       case HalfOpen =>
         var counted := c.(inFlight := Minus1(c.inFlight), successes := c.successes + 1);
         if ReadyToClose(cfg, counted) then FRESH else counted)
    case Failure =>
      (match c.state
       case Closed =>
         var kept := Kept(c.failures + [e.now], e.now - cfg.windowSize);
         if |kept| >= cfg.failureThreshold then Opened(cfg, e.now) else c.(failures := kept)
       case Open => c
       case HalfOpen => Opened(cfg, e.now))
    case Ignored =>
      if c.state == HalfOpen && c.inFlight > 0 then
        var counted := c.(inFlight := c.inFlight - 1);
        if ReadyToClose(cfg, counted) then FRESH else counted
      else c
    case ForceClose => FRESH
  }

  /** The state passed to the state-change callback by a call, if it makes one. */
  function Emits(cfg: Config, c: Core, e: Event): Option<State>
    requires Normal(cfg)
  {
    if e.call == ForceClose then Some(Closed)
    else if Step(cfg, c, e).state != c.state then Some(Step(cfg, c, e).state)
    else None
  }

  function Run(cfg: Config, c: Core, es: seq<Event>): Core
    requires Normal(cfg)
  {
    if es == [] then c else Step(cfg, Run(cfg, c, es[..|es| - 1]), es[|es| - 1])
  }

  predicate Ordered(es: seq<Event>) {
    forall i, j | 0 <= i < j < |es| :: es[i].now <= es[j].now
  }

  /** What holds of every breaker between calls. In particular a half-open breaker never
      rests with enough successes and nothing in flight, and a closed one never with enough
      recorded failures to trip. */
  predicate Valid(cfg: Config, c: Core) {
    && c.inFlight <= cfg.halfOpenMax
    && match c.state
       case Closed => c == FRESH.(failures := c.failures) && |c.failures| < cfg.failureThreshold
       case Open => c.failures == [] && c.successes == 0 && c.inFlight == 0 && c.openUntil >= cfg.timeout
       case HalfOpen => c.failures == [] && !ReadyToClose(cfg, c)
  }

  // ---------- reload ----------

  function AtMost(n: nat, most: int): nat
    requires most >= 0
  {
    if n > most then most else n
  }

  /** cloneWithConfig followed by reconcileLocked at instant `now`. The old configuration is
      the normalized one that the breaker holds. */
  function Clone(prev: Config, cfg: Config, c: Core, now: nat): Core
    requires Normal(prev) && Normal(cfg)
  {
    var kept := c.(failures := Kept(c.failures, now - cfg.windowSize));
    match c.state
    case Closed => if |kept.failures| >= cfg.failureThreshold then Opened(cfg, now) else kept
    case Open =>
      if c.openUntil == 0 then kept
      else kept.(openUntil := c.openUntil - prev.timeout + cfg.timeout)
    case HalfOpen =>
      var capped := kept.(inFlight := AtMost(kept.inFlight, cfg.halfOpenMax));
      if ReadyToClose(cfg, capped) then FRESH else capped
  }

  /** The breakers that a reload leaves in their state: not a closed one whose surviving failures
      reach the new threshold, nor a half-open one with enough successes for it and nothing in
      flight. */
  predicate KeepsState(cfg: Config, c: Core, now: nat) {
    match c.state
    case Closed => |Kept(c.failures, now - cfg.windowSize)| < cfg.failureThreshold
    case Open => true
    case HalfOpen => !(c.successes >= cfg.successThreshold && c.inFlight == 0)
  }

  lemma CloneKeepsStateIff(prev: Config, cfg: Config, c: Core, now: nat)
    requires Normal(prev) && Normal(cfg)
    ensures Clone(prev, cfg, c, now).state == c.state <==> KeepsState(cfg, c, now)
  {
  }
}
