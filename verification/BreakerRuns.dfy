/** What every run of a circuit breaker obeys. */
module BreakerRuns {
  import opened BreakerCore

  // ---------- the state invariant ----------

  lemma StepKeepsValid(cfg: Config, c: Core, e: Event)
    requires Normal(cfg) && Valid(cfg, c)
    ensures Valid(cfg, Step(cfg, c, e))
  {
  }

  lemma {:induction false} RunKeepsValid(cfg: Config, c: Core, es: seq<Event>)
    requires Normal(cfg) && Valid(cfg, c)
    ensures Valid(cfg, Run(cfg, c, es))
  {
    if es != [] {
      RunKeepsValid(cfg, c, es[..|es| - 1]);
      StepKeepsValid(cfg, Run(cfg, c, es[..|es| - 1]), es[|es| - 1]);
    }
  }

  // ---------- pruning is invisible ----------

  lemma {:induction false} KeptAppend(fs: seq<nat>, t: nat, cutoff: int)
    ensures Kept(fs + [t], cutoff) == Kept(fs, cutoff) + if t < cutoff then [] else [t]
  {
    assert (fs + [t])[..|fs|] == fs;
  }

  /** Pruning twice is pruning once at the later cutoff. */
  lemma {:induction false} KeptTwice(fs: seq<nat>, a: int, b: int)
    requires a <= b
    ensures Kept(Kept(fs, a), b) == Kept(fs, b)
  {
    if fs != [] {
      var n := |fs| - 1;
      KeptTwice(fs[..n], a, b);
      if fs[n] >= a {
        KeptAppend(Kept(fs[..n], a), fs[n], b);
      } else {
        assert Kept(fs, a) == Kept(fs[..n], a);
      }
    }
  }

  /** The same breaker without pruning: it remembers every failure since it last closed and
      counts those in [now - WindowSize, now] when one is recorded. */
  function FullStep(cfg: Config, c: Core, e: Event): Core
    requires Normal(cfg)
  {
    if c.state == Closed && e.call == Success then c
    else if c.state == Closed && e.call == Failure then
      var all := c.failures + [e.now];
      if |Kept(all, e.now - cfg.windowSize)| >= cfg.failureThreshold then Opened(cfg, e.now)
      else c.(failures := all)
    else Step(cfg, c, e)
  }

  function FullRun(cfg: Config, c: Core, es: seq<Event>): Core
    requires Normal(cfg)
  {
    if es == [] then c else FullStep(cfg, FullRun(cfg, c, es[..|es| - 1]), es[|es| - 1])
  }

  /** Two failure lists that pruning at any instant from `since` on makes equal. */
  ghost predicate AgreeFrom(fs: seq<nat>, gs: seq<nat>, since: int) {
    forall k | k >= since :: Kept(fs, k) == Kept(gs, k)
  }

  lemma {:induction false} PrunedAgrees(fs: seq<nat>, gs: seq<nat>, since: int, cutoff: int)
    requires AgreeFrom(fs, gs, since) && since <= cutoff
    ensures AgreeFrom(Kept(fs, cutoff), gs, cutoff)
  {
    forall k | k >= cutoff
      ensures Kept(Kept(fs, cutoff), k) == Kept(gs, k)
    {
      KeptTwice(fs, cutoff, k);
    }
  }

  lemma AppendedAgrees(fs: seq<nat>, gs: seq<nat>, since: int, t: nat)
    requires AgreeFrom(fs, gs, since)
    ensures AgreeFrom(fs + [t], gs + [t], since)
  {
    forall k | k >= since
      ensures Kept(fs + [t], k) == Kept(gs + [t], k)
    {
      KeptAppend(fs, t, k);
      KeptAppend(gs, t, k);
    }
  }

  /** Equal but for failures older than `since`. */
  ghost predicate SameFrom(c: Core, full: Core, since: int) {
    c == full.(failures := c.failures) && AgreeFrom(c.failures, full.failures, since)
  }

  lemma SameFailure(cfg: Config, c: Core, full: Core, e: Event, since: int)
    requires Normal(cfg) && SameFrom(c, full, since) && since <= e.now - cfg.windowSize
    requires c.state == Closed && e.call == Failure
    ensures SameFrom(Step(cfg, c, e), FullStep(cfg, full, e), e.now - cfg.windowSize)
  {
    var cutoff := e.now - cfg.windowSize;
    var fs, gs := c.failures + [e.now], full.failures + [e.now];
    AppendedAgrees(c.failures, full.failures, since, e.now);
    PrunedAgrees(fs, gs, since, cutoff);
    assert Kept(fs, cutoff) == Kept(gs, cutoff);
    if |Kept(fs, cutoff)| >= cfg.failureThreshold {
      assert Step(cfg, c, e) == Opened(cfg, e.now) == FullStep(cfg, full, e);
    } else {
      assert Step(cfg, c, e) == c.(failures := Kept(fs, cutoff));
      assert FullStep(cfg, full, e) == full.(failures := gs);
    }
  }

  /** Only a closed breaker's success or failure edits the list; any other call keeps or empties it. */
  lemma OtherCallsAlike(cfg: Config, c: Core, full: Core, e: Event)
    requires Normal(cfg) && c == full.(failures := c.failures) && !(c.state == Closed && e.call in {Success, Failure})
    ensures FullStep(cfg, full, e) == Step(cfg, full, e)
    ensures var c', full' := Step(cfg, c, e), Step(cfg, full, e);
      c' == full' || (c' == full'.(failures := c.failures) && full'.failures == full.failures)
  {
  }

  lemma SameStep(cfg: Config, c: Core, full: Core, e: Event, since: int)
    requires Normal(cfg) && SameFrom(c, full, since) && since <= e.now - cfg.windowSize
    ensures SameFrom(Step(cfg, c, e), FullStep(cfg, full, e), e.now - cfg.windowSize)
  {
    if c.state == Closed && e.call == Success {
      PrunedAgrees(c.failures, full.failures, since, e.now - cfg.windowSize);
    } else if c.state == Closed && e.call == Failure {
      SameFailure(cfg, c, full, e, since);
    } else {
      OtherCallsAlike(cfg, c, full, e);
    }
  }

  function LastNow(es: seq<Event>): nat {
    if es == [] then 0 else es[|es| - 1].now
  }

  /** The pruned failure list decides exactly as the full history would: over every run with
      a nondecreasing clock, the breaker and the never-pruning one agree on state, openUntil
      and half-open counters, hence on every answer Allow and State give. */
  lemma {:induction false} PruningIsInvisible(cfg: Config, es: seq<Event>)
    requires Normal(cfg) && Ordered(es)
    ensures SameFrom(Run(cfg, FRESH, es), FullRun(cfg, FRESH, es), LastNow(es) - cfg.windowSize)
    ensures forall now: nat ::
      && Admits(cfg, Run(cfg, FRESH, es), now) == Admits(cfg, FullRun(cfg, FRESH, es), now)
      && Reported(Run(cfg, FRESH, es), now) == Reported(FullRun(cfg, FRESH, es), now)
  {
    if es != [] {
      var front, e := es[..|es| - 1], es[|es| - 1];
      PruningIsInvisible(cfg, front);
      SameStep(cfg, Run(cfg, FRESH, front), FullRun(cfg, FRESH, front), e, LastNow(front) - cfg.windowSize);
    }
  }

  // ---------- when a closed breaker opens, read off the calls alone ----------

  function FailureTimes(es: seq<Event>): seq<nat> {
    if es == [] then [] else
      var n := |es| - 1;
      FailureTimes(es[..n]) + if es[n].call == Failure then [es[n].now] else []
  }

  /** The last call is a failure, and with it the window ending there holds enough failures. */
  predicate Trips(cfg: Config, es: seq<Event>) {
    && es != [] && es[|es| - 1].call == Failure
    && |Kept(FailureTimes(es), es[|es| - 1].now - cfg.windowSize)| >= cfg.failureThreshold
  }

  /** The calls have not yet completed a trip, nor was the breaker forced closed. */
  ghost predicate NoTripYet(cfg: Config, es: seq<Event>) {
    forall i | 0 <= i < |es| :: es[i].call != ForceClose && !Trips(cfg, es[..i])
  }

  lemma {:induction false} FullRunUntilTrip(cfg: Config, es: seq<Event>)
    requires Normal(cfg) && NoTripYet(cfg, es)
    ensures FullRun(cfg, FRESH, es) ==
      if Trips(cfg, es) then Opened(cfg, LastNow(es)) else FRESH.(failures := FailureTimes(es))
  {
    if es != [] {
      var front, e := es[..|es| - 1], es[|es| - 1];
      assert forall i | 0 <= i < |front| :: front[..i] == es[..i];
      FullRunUntilTrip(cfg, front);
      assert !Trips(cfg, front);
      if e.call != Failure {
        assert FailureTimes(es) == FailureTimes(front);
      }
    }
  }

  /** A breaker that has just closed (or is new) opens at precisely the first RecordFailure
      that completes FailureThreshold failures within the window, whatever else was called. */
  lemma {:induction false} OpensAtFirstTrip(cfg: Config, es: seq<Event>)
    requires Normal(cfg) && Ordered(es) && NoTripYet(cfg, es)
    ensures Run(cfg, FRESH, es).state == Open <==> Trips(cfg, es)
    ensures Run(cfg, FRESH, es).state == Closed <==> !Trips(cfg, es)
    ensures Trips(cfg, es) ==> Run(cfg, FRESH, es).openUntil == LastNow(es) + cfg.timeout
  {
    FullRunUntilTrip(cfg, es);
    PruningIsInvisible(cfg, es);
  }

  lemma {:induction false} RunConcat(cfg: Config, c: Core, before: seq<Event>, es: seq<Event>)
    requires Normal(cfg)
    ensures Run(cfg, c, before + es) == Run(cfg, Run(cfg, c, before), es)
  {
    if es == [] {
      assert before + es == before;
    } else {
      var n := |es| - 1;
      RunConcat(cfg, c, before, es[..n]);
      RunSnoc(cfg, c, before + es[..n], es[n]);
      RunSnoc(cfg, Run(cfg, c, before), es[..n], es[n]);
      LastSplit(before, es);
    }
  }

  lemma LastSplit(before: seq<Event>, es: seq<Event>)
    requires es != []
    ensures var n := |es| - 1; before + es[..n] + [es[n]] == before + es && es[..n] + [es[n]] == es
  {
  }

  lemma {:induction false} RunSnoc(cfg: Config, c: Core, es: seq<Event>, e: Event)
    requires Normal(cfg)
    ensures Run(cfg, c, es + [e]) == Step(cfg, Run(cfg, c, es), e)
  {
    assert (es + [e])[..|es|] == es;
  }

  /** Closing, by whatever call, leaves nothing behind. */
  lemma ClosingIsFresh(cfg: Config, c: Core, e: Event)
    requires Normal(cfg) && Valid(cfg, c) && Step(cfg, c, e).state == Closed
    requires c.state != Closed || e.call == ForceClose
    ensures Step(cfg, c, e) == FRESH
  {
  }

  /** The same at any point of a run: from the call that last closed the breaker on, only the
      failures recorded since then count. */
  lemma {:induction false} OpensAtFirstTripSinceClose(cfg: Config, before: seq<Event>, close: Event, es: seq<Event>)
    requires Normal(cfg) && Ordered(es) && NoTripYet(cfg, es)
    requires Run(cfg, FRESH, before).state != Closed || close.call == ForceClose
    requires Run(cfg, FRESH, before + [close]).state == Closed
    ensures Run(cfg, FRESH, before + [close] + es).state == (if Trips(cfg, es) then Open else Closed)
    ensures Trips(cfg, es) ==> Run(cfg, FRESH, before + [close] + es).openUntil == LastNow(es) + cfg.timeout
  {
    assert (before + [close])[..|before|] == before;
    RunKeepsValid(cfg, FRESH, before);
    ClosingIsFresh(cfg, Run(cfg, FRESH, before), close);
    RunConcat(cfg, FRESH, before + [close], es);
    OpensAtFirstTrip(cfg, es);
  }

  // ---------- open episodes ----------

  /** From the call that opens the breaker at instant t until t + Timeout, nothing short of
      a forced close changes anything: every Allow is refused and openUntil stays put. The
      first Allow from then on is admitted, as the first probe of a half-open episode. */
  lemma {:induction false} OpenEpisode(cfg: Config, c: Core, e: Event, es: seq<Event>, later: nat)
    requires Normal(cfg) && c.state != Open && Step(cfg, c, e).state == Open
    requires forall f | f in es :: f.now < e.now + cfg.timeout && f.call != ForceClose
    ensures var tripped := Step(cfg, c, e);
      && Run(cfg, tripped, es) == tripped && tripped.openUntil == e.now + cfg.timeout
      && (forall f | f in es :: !Admits(cfg, tripped, f.now))
      && (later >= e.now + cfg.timeout ==>
        && Admits(cfg, tripped, later)
        && Step(cfg, tripped, Event(Allow, later)) == tripped.(state := HalfOpen, inFlight := 1))
  {
    if es != [] {
      OpenEpisode(cfg, c, e, es[..|es| - 1], later);
      assert es[|es| - 1] in es;
    }
  }

  /** State() reports the state that an Allow at the same instant would act on. */
  lemma StateReportsWhatAllowSees(cfg: Config, c: Core, now: nat)
    requires Normal(cfg) && Valid(cfg, c)
    ensures Reported(c, now) == Awake(c, now).state == Step(cfg, c, Event(Allow, now)).state
    ensures Reported(c, now) == Open ==> !Admits(cfg, c, now)
    ensures Reported(c, now) == Closed ==> Admits(cfg, c, now)
    ensures Reported(c, now) == HalfOpen && c.state == Open ==> Admits(cfg, c, now)
  {
  }

  // ---------- half-open episodes ----------

  /** A call made by request `id`; Record calls come from requests some earlier Allow admitted. */
  datatype Tagged = Tagged(event: Event, id: nat)

  /** The breaker together with what an observer of its current half-open episode counts:
      the probes not yet completed, the admissions, completions, successes and failures of the
      episode, and the completions of requests that are not probes of it but did lower inFlight. */
  datatype Watched = Watched(
    core: Core, outstanding: set<nat>, admitted: nat, completed: nat, successes: nat, failures: nat, staleHits: nat)

  predicate IsCompletion(call: Call) {
    call == Success || call == Failure || call == Ignored
  }

  /** A completion, in a half-open episode, by a request that is not one of its open probes. */
  predicate IsStale(w: Watched, e: Tagged) {
    w.core.state == HalfOpen && IsCompletion(e.event.call) && e.id !in w.outstanding
  }

  function Watch(cfg: Config, w: Watched, e: Tagged): Watched
    requires Normal(cfg)
  {
    var core := Step(cfg, w.core, e.event);
    var episode := if w.core.state == HalfOpen then w else Watched(w.core, {}, 0, 0, 0, 0, 0);
    if e.event.call == Allow && core.state == HalfOpen && Admits(cfg, w.core, e.event.now) then
      episode.(core := core, outstanding := episode.outstanding + {e.id}, admitted := episode.admitted + 1)
    else if w.core.state == HalfOpen && IsCompletion(e.event.call) then
      Watched(core, w.outstanding - {e.id}, w.admitted, w.completed + 1,
              w.successes + (if e.event.call == Success then 1 else 0),
              w.failures + (if e.event.call == Failure then 1 else 0),
              w.staleHits + (if IsStale(w, e) && w.core.inFlight > 0 then 1 else 0))
    else episode.(core := core)
  }

  function WatchRun(cfg: Config, es: seq<Tagged>): Watched
    requires Normal(cfg)
  {
    if es == [] then Watched(FRESH, {}, 0, 0, 0, 0, 0)
    else Watch(cfg, WatchRun(cfg, es[..|es| - 1]), es[|es| - 1])
  }

  /** Each request asks Allow once, under its own id. */
  ghost predicate DistinctAsks(es: seq<Tagged>) {
    forall i, j | 0 <= i < j < |es| && es[i].event.call == Allow && es[j].event.call == Allow :: es[i].id != es[j].id
  }

  ghost predicate AskedBefore(es: seq<Tagged>, id: nat) {
    exists i :: 0 <= i < |es| && es[i].event.call == Allow && es[i].id == id
  }

  ghost predicate EpisodeOk(cfg: Config, w: Watched) {
    && Valid(cfg, w.core)
    && (w.core.state == HalfOpen ==>
      && w.core.successes == w.successes && w.failures == 0
      && w.core.inFlight <= |w.outstanding| <= w.admitted
      && w.admitted <= w.core.inFlight + w.completed
      && |w.outstanding| <= w.core.inFlight + w.staleHits
      && (w.staleHits == 0 ==> w.core.inFlight == |w.outstanding|))
  }

  lemma WatchAllow(cfg: Config, w: Watched, e: Tagged)
    requires Normal(cfg) && EpisodeOk(cfg, w) && e.event.call == Allow
    requires w.core.state == HalfOpen ==> e.id !in w.outstanding
    ensures EpisodeOk(cfg, Watch(cfg, w, e))
  {
    StepKeepsValid(cfg, w.core, e.event);
    if w.core.state == HalfOpen {
      assert |w.outstanding + {e.id}| == |w.outstanding| + 1;
    } else {
      assert |{e.id}| == 1 && {} + {e.id} == {e.id};
    }
  }

  lemma WatchCompletion(cfg: Config, w: Watched, e: Tagged)
    requires Normal(cfg) && EpisodeOk(cfg, w) && w.core.state == HalfOpen && IsCompletion(e.event.call)
    ensures EpisodeOk(cfg, Watch(cfg, w, e))
  {
    StepKeepsValid(cfg, w.core, e.event);
    assert |w.outstanding - {e.id}| == |w.outstanding| - if e.id in w.outstanding then 1 else 0;
  }

  lemma WatchStep(cfg: Config, w: Watched, e: Tagged)
    requires Normal(cfg) && EpisodeOk(cfg, w)
    requires e.event.call == Allow && w.core.state == HalfOpen ==> e.id !in w.outstanding
    ensures EpisodeOk(cfg, Watch(cfg, w, e))
    ensures Watch(cfg, w, e).core == Step(cfg, w.core, e.event)
  {
    if e.event.call == Allow {
      WatchAllow(cfg, w, e);
    } else if w.core.state == HalfOpen && IsCompletion(e.event.call) {
      WatchCompletion(cfg, w, e);
    } else {
      StepKeepsValid(cfg, w.core, e.event);
    }
  }

  lemma NotAskedBefore(es: seq<Tagged>, n: nat)
    requires DistinctAsks(es) && n < |es| && es[n].event.call == Allow
    ensures !AskedBefore(es[..n], es[n].id)
  {
    forall i | 0 <= i < n && es[..n][i].event.call == Allow
      ensures es[..n][i].id != es[n].id
    {
      assert es[..n][i] == es[i];
    }
  }

  lemma {:induction false} EpisodesHold(cfg: Config, es: seq<Tagged>)
    requires Normal(cfg) && DistinctAsks(es)
    ensures EpisodeOk(cfg, WatchRun(cfg, es))
    ensures WatchRun(cfg, es).core.state == HalfOpen ==>
      forall id | id in WatchRun(cfg, es).outstanding :: AskedBefore(es, id)
  {
    if es != [] {
      var n := |es| - 1;
      var front, e := es[..n], es[n];
      EpisodesHold(cfg, front);
      if e.event.call == Allow {
        NotAskedBefore(es, n);
      }
      WatchStep(cfg, WatchRun(cfg, front), e);
      forall id | id in WatchRun(cfg, es).outstanding && WatchRun(cfg, es).core.state == HalfOpen
        ensures AskedBefore(es, id)
      {
        if id == e.id && e.event.call == Allow {
          assert es[n].id == id;
        } else {
          assert AskedBefore(front, id);
          var i :| 0 <= i < |front| && front[i].event.call == Allow && front[i].id == id;
          assert es[i] == front[i];
        }
      }
    }
  }

  /** In every run: inFlight stays within 0..HalfOpenMaxRequests; an episode never admits
      more probes than HalfOpenMaxRequests plus the completions recorded in it; no more than
      HalfOpenMaxRequests plus the stale completions that lowered inFlight are ever outstanding;
      and as long as there was none of these, inFlight is the number of outstanding probes. */
  lemma {:induction false} HalfOpenBounds(cfg: Config, es: seq<Tagged>)
    requires Normal(cfg) && DistinctAsks(es)
    ensures var w := WatchRun(cfg, es);
      && 0 <= w.core.inFlight <= cfg.halfOpenMax
      && (w.core.state == HalfOpen ==>
        && w.admitted <= cfg.halfOpenMax + w.completed
        && |w.outstanding| <= cfg.halfOpenMax + w.staleHits
        && !ReadyToClose(cfg, w.core)
        && (w.staleHits == 0 ==> w.core.inFlight == |w.outstanding|))
  {
    EpisodesHold(cfg, es);
  }

  /** Without a forced close, a breaker closes only out of a half-open episode that has seen
      at least SuccessThreshold successes and no failure. */
  lemma {:induction false} ClosesOnlyAfterSuccesses(cfg: Config, es: seq<Tagged>, e: Tagged)
    requires Normal(cfg) && DistinctAsks(es) && e.event.call != ForceClose
    requires WatchRun(cfg, es).core.state != Closed
    requires Step(cfg, WatchRun(cfg, es).core, e.event).state == Closed
    ensures var w := WatchRun(cfg, es);
      && w.core.state == HalfOpen && e.event.call in {Success, Ignored}
      && w.successes + (if e.event.call == Success then 1 else 0) >= cfg.successThreshold
      && w.failures == 0 && w.core.inFlight <= 1
  {
    EpisodesHold(cfg, es);
  }

  /** What a completion does to a half-open episode, over every run. A failure opens the breaker
      again. A success or an ignored completion closes it if and only if it leaves at least
      SuccessThreshold successes and nothing in flight; otherwise the episode goes on. Without
      stale completions nothing is in flight after the last outstanding probe. */
  lemma {:induction false} CompletionDecides(cfg: Config, es: seq<Tagged>, e: Tagged)
    requires Normal(cfg) && DistinctAsks(es)
    requires WatchRun(cfg, es).core.state == HalfOpen && IsCompletion(e.event.call)
    ensures var w := WatchRun(cfg, es); var state := Step(cfg, w.core, e.event).state;
      var successes := w.successes + if e.event.call == Success then 1 else 0;
      && (state == Open <==> e.event.call == Failure)
      && (state == Closed <==>
            e.event.call in {Success, Ignored} && successes >= cfg.successThreshold && w.core.inFlight <= 1)
      && (w.staleHits == 0 && e.id in w.outstanding ==> (w.core.inFlight <= 1 <==> w.outstanding == {e.id}))
  {
    EpisodesHold(cfg, es);
    var w := WatchRun(cfg, es);
    if w.staleHits == 0 && e.id in w.outstanding {
      OneLeft(w.outstanding, e.id);
    }
  }

  lemma OneLeft(ids: set<nat>, id: nat)
    requires id in ids
    ensures |ids| <= 1 <==> ids == {id}
  {
    assert ids == (ids - {id}) + {id};
    assert |ids| == |ids - {id}| + 1;
  }

  /** A half-open breaker never turns a probe away while fewer than HalfOpenMaxRequests are
      outstanding; and without stale completions it turns it away whenever there are that many. */
  lemma {:induction false} ProbeIsAdmittedIff(cfg: Config, es: seq<Tagged>, now: nat)
    requires Normal(cfg) && DistinctAsks(es) && WatchRun(cfg, es).core.state == HalfOpen
    ensures var w := WatchRun(cfg, es);
      && (|w.outstanding| < cfg.halfOpenMax ==> Admits(cfg, w.core, now))
      && (w.staleHits == 0 && |w.outstanding| >= cfg.halfOpenMax ==> !Admits(cfg, w.core, now))
  {
    EpisodesHold(cfg, es);
  }

  /** Over every run: only a recorded failure opens a breaker; it turns half-open only by an
      Allow after its time is up; and it leaves the open state in no other way than that and a
      forced close. */
  lemma {:induction false} OnlyThese(cfg: Config, es: seq<Event>, e: Event)
    requires Normal(cfg)
    ensures var c := Run(cfg, FRESH, es); var c' := Step(cfg, c, e);
      && (c'.state == Open && c.state != Open ==> e.call == Failure)
      && (c'.state == HalfOpen && c.state != HalfOpen ==> c.state == Open && e.call == Allow && e.now >= c.openUntil)
      && (c.state == Open ==> (c' != c <==> e.call == ForceClose || (e.call == Allow && e.now >= c.openUntil)))
      && (c.state == Closed && e.call in {Allow, Ignored} ==> c' == c)
  {
    RunKeepsValid(cfg, FRESH, es);
  }

  /** The bookkeeping is exact until, and only until, a stale completion lowers inFlight: at
      that call inFlight falls below the number of outstanding probes. */
  lemma StaleCompletionBreaksCount(cfg: Config, w: Watched, e: Tagged)
    requires Normal(cfg) && EpisodeOk(cfg, w) && w.core.state == HalfOpen && w.core.inFlight == |w.outstanding|
    requires IsCompletion(e.event.call) && Watch(cfg, w, e).core.state == HalfOpen
    ensures var w' := Watch(cfg, w, e);
      w'.core.inFlight == |w'.outstanding| <==> !(IsStale(w, e) && w.core.inFlight > 0)
  {
  }

  /** So HalfOpenMaxRequests does not bound the probes in the air: with every place taken, a
      stale completion frees a place it never held, and the next request goes out as well. */
  lemma StaleCompletionAdmitsExtraProbe(cfg: Config, w: Watched, stale: Tagged, ask: Tagged)
    requires Normal(cfg) && EpisodeOk(cfg, w) && w.core.state == HalfOpen
    requires w.core.inFlight == |w.outstanding| == cfg.halfOpenMax && w.successes < cfg.successThreshold
    requires stale.event.call == Ignored && stale.id !in w.outstanding
    requires ask.event.call == Allow && ask.id !in w.outstanding
    ensures var w' := Watch(cfg, Watch(cfg, w, stale), ask);
      w'.core.state == HalfOpen && w'.outstanding == w.outstanding + {ask.id} && |w'.outstanding| == cfg.halfOpenMax + 1
  {
    var w1 := Watch(cfg, w, stale);
    assert w.outstanding - {stale.id} == w.outstanding;
    assert w1.core == w.core.(inFlight := w.core.inFlight - 1) && w1.outstanding == w.outstanding;
    assert Admits(cfg, w1.core, ask.event.now);
    assert |w.outstanding + {ask.id}| == |w.outstanding| + 1;
  }

  /** Requests 0 and 1 are admitted while the breaker is closed, 0 fails and opens it, and 2
      is the probe: request 1 can then complete as above. */
  lemma {:induction false} StaleCompletionIsReachable(es: seq<Tagged>)
    requires |es| == 4 && es[0] == Tagged(Event(Allow, 0), 0) && es[1] == Tagged(Event(Allow, 0), 1)
    requires es[2] == Tagged(Event(Failure, 1), 0) && es[3] == Tagged(Event(Allow, 11), 2)
    ensures WatchRun(TIGHT, es) == Watched(Core(HalfOpen, 11, [], 0, 1), {2}, 1, 0, 0, 0, 0)
  {
    ReachesOpen(es);
    WatchPrefix(TIGHT, es, 3);
    ProbeIsWatched(es[3]);
    assert es[..4] == es;
  }

  lemma ReachesOpen(es: seq<Tagged>)
    requires |es| == 4 && es[0] == Tagged(Event(Allow, 0), 0) && es[1] == Tagged(Event(Allow, 0), 1)
    requires es[2] == Tagged(Event(Failure, 1), 0)
    ensures WatchRun(TIGHT, es[..3]) == WATCH_OPEN
  {
    WatchPrefix(TIGHT, es, 0);
    WatchPrefix(TIGHT, es, 1);
    WatchPrefix(TIGHT, es, 2);
    FailureIsWatched(es[2]);
  }

  const TIGHT := Config(1, 2, 10, 10, 1)
  const WATCH_FRESH := Watched(FRESH, {}, 0, 0, 0, 0, 0)
  const WATCH_OPEN := Watched(Core(Open, 11, [], 0, 0), {}, 0, 0, 0, 0, 0)

  lemma FailureIsWatched(e: Tagged)
    requires e.event == Event(Failure, 1)
    ensures Watch(TIGHT, WATCH_FRESH, e) == WATCH_OPEN
  {
    KeptOne(1, 1 - 10);
    assert [] + [1] == [1];
  }

  lemma ProbeIsWatched(e: Tagged)
    requires e == Tagged(Event(Allow, 11), 2)
    ensures Watch(TIGHT, WATCH_OPEN, e) == Watched(Core(HalfOpen, 11, [], 0, 1), {2}, 1, 0, 0, 0, 0)
  {
  }

  lemma {:induction false} WatchPrefix(cfg: Config, es: seq<Tagged>, n: nat)
    requires Normal(cfg) && n < |es|
    ensures WatchRun(cfg, es[..n + 1]) == Watch(cfg, WatchRun(cfg, es[..n]), es[n])
  {
    assert es[..n + 1][..n] == es[..n];
  }

  // ---------- reload ----------

  /** A cloned breaker satisfies the whole invariant of the new configuration. Open stays
      open with the same opening instant; closed trips exactly when the failures that survive
      the new window reach the new threshold; half-open stays or closes. */
  lemma {:induction false} CloneKeepsMeaning(prev: Config, cfg: Config, c: Core, now: nat)
    requires Normal(prev) && Normal(cfg) && Valid(prev, c)
    ensures Valid(cfg, Clone(prev, cfg, c, now))
    ensures c.state == Open ==>
      && Clone(prev, cfg, c, now).state == Open
      && Clone(prev, cfg, c, now).openUntil - cfg.timeout == c.openUntil - prev.timeout
    ensures c.state == Closed ==>
      (Clone(prev, cfg, c, now).state == Open <==> |Kept(c.failures, now - cfg.windowSize)| >= cfg.failureThreshold)
    ensures c.state == HalfOpen ==>
      (Clone(prev, cfg, c, now).state == Closed <==> c.successes >= cfg.successThreshold && c.inFlight == 0)
    ensures var c' := Clone(prev, cfg, c, now);
      c.state == HalfOpen && c'.state != Closed ==>
        && c'.state == HalfOpen && c'.successes == c.successes
        && c'.inFlight == (if c.inFlight > cfg.halfOpenMax then cfg.halfOpenMax else c.inFlight)
  {
  }

  // ---------- what a closed clone remembers ----------

  /** The last of these calls is a failure that completes the threshold, counting failures from
      before. */
  ghost predicate TripsAfter(cfg: Config, before: seq<nat>, es: seq<Event>) {
    && es != [] && es[|es| - 1].call == Failure
    && |Kept(before + FailureTimes(es), es[|es| - 1].now - cfg.windowSize)| >= cfg.failureThreshold
  }

  ghost predicate NoTripAfter(cfg: Config, before: seq<nat>, es: seq<Event>) {
    forall i | 0 <= i < |es| :: es[i].call != ForceClose && !TripsAfter(cfg, before, es[..i])
  }

  lemma {:induction false} FullRunAfter(cfg: Config, before: seq<nat>, es: seq<Event>)
    requires Normal(cfg) && NoTripAfter(cfg, before, es)
    ensures FullRun(cfg, FRESH.(failures := before), es) ==
      if TripsAfter(cfg, before, es) then Opened(cfg, LastNow(es))
      else FRESH.(failures := before + FailureTimes(es))
  {
    if es == [] {
      assert before + [] == before;
    } else {
      var front, e := es[..|es| - 1], es[|es| - 1];
      assert forall i | 0 <= i < |front| :: front[..i] == es[..i];
      FullRunAfter(cfg, before, front);
      assert !TripsAfter(cfg, before, front);
      if e.call == Failure {
        assert before + FailureTimes(front) + [e.now] == before + FailureTimes(es);
      } else {
        assert FailureTimes(es) == FailureTimes(front);
      }
    }
  }

  lemma {:induction false} SameRuns(cfg: Config, c: Core, full: Core, es: seq<Event>, since: int)
    requires Normal(cfg) && SameFrom(c, full, since) && Ordered(es)
    requires forall i | 0 <= i < |es| :: since <= es[i].now - cfg.windowSize
    ensures SameFrom(Run(cfg, c, es), FullRun(cfg, full, es), if es == [] then since else LastNow(es) - cfg.windowSize)
  {
    if es != [] {
      var front, e := es[..|es| - 1], es[|es| - 1];
      SameRuns(cfg, c, full, front, since);
      SameStep(cfg, Run(cfg, c, front), FullRun(cfg, full, front), e,
               if front == [] then since else LastNow(front) - cfg.windowSize);
    }
  }

  /** A closed breaker with this list behind it, pruned or not, opens at precisely the first
      failure that completes the threshold, counting those in the list. */
  lemma {:induction false} OpensCounting(cfg: Config, c: Core, before: seq<nat>, now: nat, es: seq<Event>)
    requires Normal(cfg) && SameFrom(c, FRESH.(failures := before), now - cfg.windowSize)
    requires Ordered(es) && (forall i | 0 <= i < |es| :: now <= es[i].now) && NoTripAfter(cfg, before, es)
    ensures Run(cfg, c, es).state == if TripsAfter(cfg, before, es) then Open else Closed
    ensures TripsAfter(cfg, before, es) ==> Run(cfg, c, es).openUntil == LastNow(es) + cfg.timeout
  {
    FullRunAfter(cfg, before, es);
    SameRuns(cfg, c, FRESH.(failures := before), es, now - cfg.windowSize);
  }

  /** What the clone of a closed breaker remembers, through later calls: if it does not trip at
      once, it opens at precisely the first failure that completes the new threshold within the
      new window, counting the failures that the old breaker still held. */
  lemma {:induction false} CloneRemembers(prev: Config, cfg: Config, c: Core, now: nat, es: seq<Event>)
    requires Normal(prev) && Normal(cfg) && Valid(prev, c) && c.state == Closed
    requires Clone(prev, cfg, c, now).state == Closed
    requires Ordered(es) && (forall i | 0 <= i < |es| :: now <= es[i].now) && NoTripAfter(cfg, c.failures, es)
    ensures Run(cfg, Clone(prev, cfg, c, now), es).state == if TripsAfter(cfg, c.failures, es) then Open else Closed
    ensures TripsAfter(cfg, c.failures, es) ==>
      Run(cfg, Clone(prev, cfg, c, now), es).openUntil == LastNow(es) + cfg.timeout
  {
    PrunedAgrees(c.failures, c.failures, now - cfg.windowSize, now - cfg.windowSize);
    OpensCounting(cfg, Clone(prev, cfg, c, now), c.failures, now, es);
  }

  /** With a window that is not wider it counts every failure since the breaker last closed, as
      if there had been no reload. */
  lemma {:induction false} CloneRemembersHistory(
    prev: Config, cfg: Config, before: seq<Event>, now: nat, es: seq<Event>)
    requires Normal(prev) && Normal(cfg) && cfg.windowSize <= prev.windowSize
    requires Ordered(before) && now >= LastNow(before) && Run(prev, FRESH, before).state == Closed
    requires Clone(prev, cfg, Run(prev, FRESH, before), now).state == Closed
    requires Ordered(es) && forall i | 0 <= i < |es| :: now <= es[i].now
    requires NoTripAfter(cfg, FullRun(prev, FRESH, before).failures, es)
    ensures var history := FullRun(prev, FRESH, before).failures;
      Run(cfg, Clone(prev, cfg, Run(prev, FRESH, before), now), es).state
      == if TripsAfter(cfg, history, es) then Open else Closed
  {
    var c, history := Run(prev, FRESH, before), FullRun(prev, FRESH, before).failures;
    PruningIsInvisible(prev, before);
    RunKeepsValid(prev, FRESH, before);
    PrunedAgrees(c.failures, history, LastNow(before) - prev.windowSize, now - cfg.windowSize);
    OpensCounting(cfg, Clone(prev, cfg, c, now), history, now, es);
  }

  /** Reloading to another configuration and back restores an open breaker exactly. */
  lemma CloneThereAndBack(a: Config, b: Config, c: Core, first: nat, second: nat)
    requires Normal(a) && Normal(b) && Valid(a, c) && c.state == Open
    ensures Clone(b, a, Clone(a, b, c, first), second) == c
  {
  }

  /** When the new window is not wider, the clone of a closed breaker still decides as the
      full failure history does. */
  lemma {:induction false} NarrowerWindowKeepsHistory(prev: Config, cfg: Config, es: seq<Event>, now: nat)
    requires Normal(prev) && Normal(cfg) && Ordered(es) && now >= LastNow(es)
    requires cfg.windowSize <= prev.windowSize && Run(prev, FRESH, es).state == Closed
    ensures Clone(prev, cfg, Run(prev, FRESH, es), now).state == Open
      <==> |Kept(FullRun(prev, FRESH, es).failures, now - cfg.windowSize)| >= cfg.failureThreshold
  {
    PruningIsInvisible(prev, es);
    var c, full := Run(prev, FRESH, es), FullRun(prev, FRESH, es);
    assert Kept(c.failures, now - cfg.windowSize) == Kept(full.failures, now - cfg.windowSize);
    ClosedCloneTrips(prev, cfg, c, now);
  }

  lemma {:induction false} ClosedCloneTrips(prev: Config, cfg: Config, c: Core, now: nat)
    requires Normal(prev) && Normal(cfg) && c.state == Closed
    ensures Clone(prev, cfg, c, now).state == Open <==> |Kept(c.failures, now - cfg.windowSize)| >= cfg.failureThreshold
  {
  }

  /** A wider window cannot bring pruned failures back, whatever the two sizes are. */
  lemma {:induction false} WiderWindowForgets(narrow: nat, wide: nat)
    requires 1 <= narrow < wide
    ensures var prev, cfg := Config(2, 1, 1, narrow, 1), Config(1, 1, 1, wide, 1);
      var es := [Event(Failure, 0), Event(Success, narrow + 1)];
      && Run(prev, FRESH, es).state == Closed
      && |Kept(FullRun(prev, FRESH, es).failures, narrow + 1 - cfg.windowSize)| >= cfg.failureThreshold
      && Clone(prev, cfg, Run(prev, FRESH, es), narrow + 1).state == Closed
  {
    var prev, cfg := Config(2, 1, 1, narrow, 1), Config(1, 1, 1, wide, 1);
    var e0, e1 := Event(Failure, 0), Event(Success, narrow + 1);
    assert [e0, e1][..1] == [e0] && [e0][..0] == [] && [] + [0] == [0];
    KeptOne(0, 0 - narrow);
    KeptOne(0, narrow + 1 - narrow);
    KeptOne(0, narrow + 1 - wide);
    assert Step(prev, FRESH, e0) == FRESH.(failures := [0]) == FullStep(prev, FRESH, e0);
    assert Run(prev, FRESH, [e0]) == FRESH.(failures := [0]) == FullRun(prev, FRESH, [e0]);
    assert Run(prev, FRESH, [e0, e1]) == FRESH && FullRun(prev, FRESH, [e0, e1]) == FRESH.(failures := [0]);
    assert Clone(prev, cfg, FRESH, narrow + 1) == FRESH;
  }

  lemma {:induction false} KeptOne(t: nat, cutoff: int)
    ensures Kept([t], cutoff) == if t < cutoff then [] else [t]
  {
    KeptAppend([], t, cutoff);
    assert [] + [t] == [t];
  }
}
