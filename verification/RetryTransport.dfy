/** The round trip itself, and what follows for a caller. */
module RetryTransport {
  import opened Common
  import opened Targets
  import opened Backoff
  import opened Lifecycle
  import opened Retry
  import opened Routes

  /** All that is asked of the balancer: what it picks is a configured target that is not
      excluded. */
  ghost predicate BalancerSound(env: Env, targets: seq<Target>) {
    forall n, excluded :: env.pick(n, excluded).Some? ==> ValidSelection(targets, excluded, env.pick(n, excluded))
  }

  /** And it finds one whenever there is one. Only a round robin whose cursor wraps may fail
      to. */
  ghost predicate BalancerComplete(env: Env, targets: seq<Target>) {
    forall n, excluded :: ValidSelection(targets, excluded, env.pick(n, excluded))
  }

  function PolicyFor(route: Route, req: Request): (p: Policy)
    ensures Backoff.Normal(p)
  {
    NormalizeRetryPolicy(route.retry, IsRetryableMethod(req.verb))
  }

  /** shouldRetry, on what came back from the balancer layer. */
  predicate ShouldRetry(p: Policy, attempt: nat, result: Outcome) {
    attempt + 1 < p.maxAttempts &&
    match result
    case Failure(Upstream(err), _) => IsTransient(err)
    case Failure(_, _) => false
    case Response(status, _, _, _) => status in {502, 503, 504}
  }

  /** From this pass on no breaker admits and nobody gives up. */
  ghost predicate NothingAdmitted(env: Env, from: nat) {
    forall n | n >= from :: !env.allow(n) && !LooksDone(env, n)
  }

  /** The caller's context is done when looked at before or after the pass. */
  predicate LooksDone(env: Env, n: nat) {
    env.contextDone(2 * n) || env.contextDone(2 * n + 1)
  }

  /** What ended the round trip did happen: for a context that is done, at a loop head, after a
      refusal or during a backoff; for no healthy targets, a refusal. */
  ghost predicate Justified(env: Env, route: Route, out: Outcome, l: Ledger) {
    match out
    case Failure(ContextDone, Some(n)) =>
      || (n == |l.calls| == |l.slept| && env.contextDone(2 * l.picks))
      || (n == |l.calls| == |l.slept| && l.picks > 0
          && !env.allow(l.picks - 1) && env.contextDone(2 * (l.picks - 1) + 1))
      || (n + 1 == |l.calls| && n == |l.slept| && env.sleepCut(n))
    case Failure(NoHealthyTargets, _) => l.picks > 0 && !env.allow(l.picks - 1) && |l.calls| == |l.slept|
    case Failure(NoTargets, _) => route.targets == [] || env.pick(l.picks, l.tried).None?
    case _ => true
  }

  /** The loop's variables, and the log of what the round trip has done so far with its ledger. */
  datatype Vars = Vars(tried: set<Address>, attempt: nat, streamRead: bool, log: seq<Event>, book: Ledger)

  ghost predicate LoopOk(env: Env, p: Policy, route: Route, req: Request, captured: Captured, v: Vars)
    requires Backoff.Normal(p)
  {
    && BalancerSound(env, route.targets)
    && Books(World(env, p, route.targets), v.log, v.book)
    && AtLoopHead(p, route.targets, Content(req), v.tried, v.attempt, v.book)
    && (v.log != [] ==> route.targets != [] && KnownStrategy(route.strategy))
    && captured == CaptureRequestBody(req, p.maxAttempts > 1) && !captured.Rejected?
    && (v.streamRead ==> v.attempt > 0)
  }

  /** ErrCircuitOpen never leaves the round trip; the retry count of a response is the number of
      upstream calls before the one that answered; and ErrNoHealthyTargets on the first attempt
      means that every distinct target refused and upstream was never called. */
  ghost predicate SeenByCaller(route: Route, out: Outcome, l: Ledger) {
    && (out.Failure? ==> out.cause != CircuitOpen)
    && (out.Response? ==> l.calls != [] && out.retryCount == |l.calls| - 1)
    && (out.Response? ==> out.servedBy == l.calls[|l.calls| - 1].address)
    && (out == Failure(NoHealthyTargets, Some(0)) ==>
          l.calls == [] && l.spent == Addresses(route.targets) && l.picks == |Addresses(route.targets)|)
  }

  lemma FinishedIsSeen(p: Policy, route: Route, content: seq<byte>, out: Outcome, l: Ledger)
    requires Backoff.Normal(p) && Finished(p, route, content, out, l)
    ensures SeenByCaller(route, out, l)
  {
  }

  /** Nothing goes wrong before the first pass. */
  predicate Possible(route: Route, captured: Captured) {
    !captured.Rejected? && route.targets != [] && KnownStrategy(route.strategy)
  }

  /** What is known of a round trip that has ended. Its log follows the environment, the log's
      ledger meets Finished, and what ended it did happen. A body is refused exactly when
      capturing it fails. With a complete balancer ErrNoTargets is returned only for a route
      without targets, and ErrNoHealthyTargets on the first attempt when no breaker admits. */
  ghost predicate Carried(env: Env, route: Route, req: Request, out: Outcome, log: seq<Event>) {
    var p := PolicyFor(route, req);
    var captured := CaptureRequestBody(req, p.maxAttempts > 1);
    && Finished(p, route, Content(req), out, Sum(log)) && SeenByCaller(route, out, Sum(log))
    && Follows(World(env, p, route.targets), log) && Justified(env, route, out, Sum(log))
    && (forall cause | cause in {CaptureFailed, BodyTooLarge} ::
          out == Failure(cause, None) <==> captured == Rejected(cause))
    && (BalancerComplete(env, route.targets) && out.Failure? && out.cause == NoTargets ==>
          route.targets == [] && log == [])
    && (BalancerComplete(env, route.targets) && NothingAdmitted(env, 0) && Possible(route, captured) ==>
          out == Failure(NoHealthyTargets, Some(0)))
  }

  /** The whole round trip. */
  method RoundTrip(env: Env, found: Option<Route>, req: Request) returns (out: Outcome, log: seq<Event>)
    requires found.Some? ==> BalancerSound(env, found.value.targets)
    ensures found.None? ==> out == Failure(RouteMissing, None) && log == []
    ensures found.Some? ==> Carried(env, found.value, req, out, log)
  {
    if found.None? {
      return Failure(RouteMissing, None), [];
    }
    var route := found.value;
    var p := PolicyFor(route, req);
    var captured := CaptureRequestBody(req, p.maxAttempts > 1);
    if captured.Rejected? {
      NothingDone(p, route, Content(req), captured.cause);
      FinishedIsSeen(p, route, Content(req), Failure(captured.cause, None), BLANK);
      return Failure(captured.cause, None), [];
    }
    var total := UniqueTargetCount(route.targets);
    var v := Vars({}, 0, false, [], BLANK);
    NothingBooked(World(env, p, route.targets));
    assert route.targets != [] ==> route.targets[0].address in Addresses(route.targets);
    out, log := Loop(env, p, route, req, captured, total, v);
  }

  predicate NotCaptured(out: Outcome) {
    out.Failure? && out.cause in {CaptureFailed, BodyTooLarge}
  }

  /** The loop, from any of its heads on. If from there no breaker admits and nobody gives up, it
      ends with ErrNoHealthyTargets in the attempt it has reached. */
  method Loop(env: Env, p: Policy, route: Route, req: Request, captured: Captured, total: nat, head: Vars)
    returns (out: Outcome, log: seq<Event>)
    requires Backoff.Normal(p) && LoopOk(env, p, route, req, captured, head) && total == |Addresses(route.targets)|
    ensures Finished(p, route, Content(req), out, Sum(log)) && SeenByCaller(route, out, Sum(log))
    ensures Follows(World(env, p, route.targets), log) && Justified(env, route, out, Sum(log))
    ensures WithCompleteBalancer(env, route, head, out, log) && !NotCaptured(out)
  {
    var v := head;
    while true
      invariant LoopOk(env, p, route, req, captured, v)
      invariant head.book.picks <= v.book.picks
      invariant NothingAdmitted(env, head.book.picks) ==> v.attempt == head.attempt
      decreases p.maxAttempts - v.attempt, total - |v.tried|
    {
      var done, next := Iterate(env, p, route, req, captured, total, v);
      if done.Some? {
        BooksAreSum(World(env, p, route.targets), next.log, next.book);
        FinishedIsSeen(p, route, Content(req), done.value, next.book);
        return done.value, next.log;
      }
      v := next;
    }
  }

  ghost predicate WithCompleteBalancer(env: Env, route: Route, head: Vars, out: Outcome, log: seq<Event>) {
    BalancerComplete(env, route.targets) ==>
      && (out.Failure? && out.cause == NoTargets ==> route.targets == [] && log == [])
      && (NothingAdmitted(env, head.book.picks) && route.targets != [] && KnownStrategy(route.strategy) ==>
            out == Failure(NoHealthyTargets, Some(head.attempt)))
  }

  ghost predicate EndedWell(env: Env, p: Policy, route: Route, req: Request, out: Outcome, v: Vars)
    requires Backoff.Normal(p)
  {
    && Finished(p, route, Content(req), out, v.book) && Books(World(env, p, route.targets), v.log, v.book)
    && Justified(env, route, out, v.book) && !NotCaptured(out)
  }

  /** The body of the loop: one pass through the balancer and the breaker. */
  method Iterate(env: Env, p: Policy, route: Route, req: Request, captured: Captured, total: nat, v: Vars)
    returns (done: Option<Outcome>, next: Vars)
    requires Backoff.Normal(p) && LoopOk(env, p, route, req, captured, v) && total == |Addresses(route.targets)|
    ensures done.Some? ==> EndedWell(env, p, route, req, done.value, next)
    ensures done.Some? ==> WithCompleteBalancer(env, route, v, done.value, next.log)
    ensures done.None? ==> v.book.picks <= next.book.picks
    ensures done.None? && NothingAdmitted(env, v.book.picks) ==> next.attempt == v.attempt
    ensures done.None? ==>
      && LoopOk(env, p, route, req, captured, next)
      && (next.attempt == v.attempt + 1 || (next.attempt == v.attempt && |v.tried| < |next.tried| <= total))
  {
    if env.contextDone(2 * v.book.picks) {
      assert LooksDone(env, v.book.picks);
      HeadIsFinished(p, route, Content(req), v.tried, v.attempt, v.book);
      return Some(Failure(ContextDone, Some(v.attempt))), v;
    }
    if route.targets == [] {
      EmptyBooks(World(env, p, route.targets), v.log, v.book);
      NothingDone(p, route, Content(req), NoTargets);
      return Some(Failure(NoTargets, None)), v;
    }
    if !KnownStrategy(route.strategy) {
      EmptyBooks(World(env, p, route.targets), v.log, v.book);
      NothingDone(p, route, Content(req), UnknownStrategy);
      return Some(Failure(UnknownStrategy, None)), v;
    }
    var choice := env.pick(v.book.picks, v.tried);
    if choice.None? {
      HeadIsFinished(p, route, Content(req), v.tried, v.attempt, v.book);
      NeverEmptyHanded(env, route.targets, v.book.picks, v.tried);
      return Some(Failure(NoTargets, None)), v;
    }
    done, next := Attempt(env, p, route, req, captured, total, v, choice.value);
  }

  /** From the selection on. */
  method Attempt(
    env: Env, p: Policy, route: Route, req: Request, captured: Captured, total: nat, v: Vars, choice: Target)
    returns (done: Option<Outcome>, next: Vars)
    requires Backoff.Normal(p) && LoopOk(env, p, route, req, captured, v) && total == |Addresses(route.targets)|
    requires route.targets != [] && KnownStrategy(route.strategy)
    requires env.pick(v.book.picks, v.tried) == Some(choice)
    ensures done.Some? ==> EndedWell(env, p, route, req, done.value, next)
    ensures done.Some? ==> !(done.value.Failure? && done.value.cause == NoTargets)
    ensures done.Some? && NothingAdmitted(env, v.book.picks) ==>
      done.value == Failure(NoHealthyTargets, Some(v.attempt))
    ensures done.None? ==> v.book.picks <= next.book.picks
    ensures done.None? && NothingAdmitted(env, v.book.picks) ==> next.attempt == v.attempt
    ensures done.None? ==>
      && LoopOk(env, p, route, req, captured, next)
      && (next.attempt == v.attempt + 1 || (next.attempt == v.attempt && |v.tried| < |next.tried| <= total))
  {
    var body := if captured.Buffered? then captured.content else if v.streamRead then [] else Content(req);
    var result, call;
    assert ValidSelection(route.targets, v.tried, Some(choice));
    result, next, call := PassThroughBalancer(env, p, route, captured, v, body, choice);
    if result.Failure? && result.cause == CircuitOpen {
      done, next := FailOver(env, p, route, req, captured, total, v, next, call);
      return;
    }
    if !ShouldRetry(p, v.attempt, result) {
      AnswerEnds(env, p, route, req, captured, v, next, result, call);
      return Some(result), next;
    }
    RetriedBodyIsPlain(p, v.attempt, result, call);
    done, next := PrepareRetry(env, p, route, req, captured, total, v, result, next, call);
  }

  lemma {:induction false} AnswerEnds(
    env: Env, p: Policy, route: Route, req: Request, captured: Captured, v: Vars, next: Vars, result: Outcome,
    call: UpstreamCall)
    requires Backoff.Normal(p) && LoopOk(env, p, route, req, captured, v) && route.targets != []
    requires call.address in Addresses(route.targets) && call.address !in v.tried
    requires call.retryCount == v.attempt && call.body == Content(req)
    requires !(v.attempt + 1 < p.maxAttempts && Retryable(call.reply))
    requires result == LoadBalancerRoundTrip(call.address, true, call.reply, v.attempt, Content(req)).0
    requires next.book == Attempted(v.book, call.address, true, call, ResultPhase(result))
    requires Books(World(env, p, route.targets), next.log, next.book)
    ensures EndedWell(env, p, route, req, result, next)
    ensures !(result.Failure? && result.cause == NoTargets)
  {
    AnswerStep(p, route, Content(req), v.tried, v.attempt, v.book, call);
  }

  /** The breaker has already heard of an answer that is to be retried. */
  lemma RetriedBodyIsPlain(p: Policy, attempt: nat, result: Outcome, call: UpstreamCall)
    requires ShouldRetry(p, attempt, result)
    requires result == LoadBalancerRoundTrip(call.address, true, call.reply, attempt, call.body).0
    ensures result.Response? && result.body.Some? ==> !result.body.value.breakerPending
  {
  }

  /** What follows a refusal: the target is tried, and unless all are, the loop goes on. */
  method FailOver(env: Env, p: Policy, route: Route, req: Request, captured: Captured, total: nat,
                  v: Vars, now: Vars, call: UpstreamCall)
    returns (done: Option<Outcome>, next: Vars)
    requires Backoff.Normal(p) && LoopOk(env, p, route, req, captured, v) && total == |Addresses(route.targets)|
    requires route.targets != [] && KnownStrategy(route.strategy) && !env.allow(v.book.picks)
    requires call.address in Addresses(route.targets) && call.address !in v.tried
    requires now == v.(log := now.log, book := Attempted(v.book, call.address, false, call, Idle))
    requires Books(World(env, p, route.targets), now.log, now.book)
    ensures done.Some? ==> EndedWell(env, p, route, req, done.value, next)
    ensures done.Some? ==> done.value.Failure? && done.value.cause in {NoHealthyTargets, ContextDone}
    ensures done.Some? && NothingAdmitted(env, v.book.picks) ==>
      done.value == Failure(NoHealthyTargets, Some(v.attempt))
    ensures done.None? ==> LoopOk(env, p, route, req, captured, next)
    ensures done.None? ==> next.attempt == v.attempt && |v.tried| < |next.tried| <= total
    ensures v.book.picks <= next.book.picks
  {
    FailoverStep(p, route, Content(req), v.tried, v.attempt, v.book, call);
    next := now.(tried := v.tried + {call.address});
    if total == 0 || |next.tried| >= total {
      return Some(Failure(NoHealthyTargets, Some(v.attempt))), next;
    }
    if env.contextDone(2 * v.book.picks + 1) {
      assert LooksDone(env, v.book.picks);
      return Some(Failure(ContextDone, Some(v.attempt))), next;
    }
    return None, next;
  }

  /** A complete balancer never returns ErrNoTargets to the loop, because some configured
      target has not been tried. */
  lemma NeverEmptyHanded(env: Env, targets: seq<Target>, tick: nat, tried: set<Address>)
    requires tried < Addresses(targets)
    ensures BalancerComplete(env, targets) ==> env.pick(tick, tried).Some?
  {
    if BalancerComplete(env, targets) {
      StrictExclusionAlwaysSelects(targets, tried, env.pick(tick, tried));
    }
  }

  /** rt.next.RoundTrip once a target is selected: ask its breaker, call it if admitted. */
  method PassThroughBalancer(
    env: Env, p: Policy, route: Route, captured: Captured, v: Vars, body: seq<byte>, choice: Target)
    returns (result: Outcome, next: Vars, call: UpstreamCall)
    requires ValidSelection(route.targets, v.tried, Some(choice))
    requires env.pick(v.book.picks, v.tried) == Some(choice) && v.book.tried == v.tried
    requires Books(World(env, p, route.targets), v.log, v.book) && v.book.phase == Idle && |v.book.calls| == v.attempt
    ensures call == UpstreamCall(choice.address, v.attempt, body, env.reply(v.attempt))
    ensures call.address in Addresses(route.targets) && call.address !in v.tried
    ensures var allowed := env.allow(v.book.picks);
      && (allowed <==> result != Failure(CircuitOpen, Some(v.attempt)))
      && result == LoadBalancerRoundTrip(call.address, allowed, call.reply, v.attempt, body).0
      && next == v.(log := next.log, book := next.book, streamRead := v.streamRead || (allowed && captured.Unbuffered?))
      && next.book == Attempted(v.book, call.address, allowed, call, ResultPhase(result))
      && (allowed ==> forall p, n: nat :: ShouldRetry(p, n, result) <==> n + 1 < p.maxAttempts && Retryable(call.reply))
    ensures Books(World(env, p, route.targets), next.log, next.book) && next.log != []
    ensures result.Response? && result.body.Some? ==> WellWrapped(result.body.value)
  {
    var a, allowed, reply := choice.address, env.allow(v.book.picks), env.reply(v.attempt);
    var (r, events) := LoadBalancerRoundTrip(a, allowed, reply, v.attempt, body);
    AttemptBooks(World(env, p, route.targets), v.log, v.book, a, allowed, reply, v.attempt, body);
    result, call := r, UpstreamCall(a, v.attempt, body, reply);
    next := v.(log := v.log + events, book := Attempted(v.book, a, allowed, call, ResultPhase(result)),
               streamRead := v.streamRead || (allowed && captured.Unbuffered?));
  }

  /** Marks the target of a retried answer, clears a full set, and closes the discarded body. */
  method DiscardAnswer(
    env: Env, p: Policy, targets: seq<Target>, total: nat, ghost book: Ledger, result: Outcome, now: Vars,
    call: UpstreamCall)
    returns (next: Vars)
    requires total == |Addresses(targets)| && Books(World(env, p, targets), now.log, now.book)
    requires now.book == Attempted(book, call.address, true, call, ResultPhase(result)) && book.tried == now.tried
    requires now.tried <= Addresses(targets) && call.address in Addresses(targets)
    requires result.Response? && result.body.Some? ==> !result.body.value.breakerPending
    ensures Books(World(env, p, targets), next.log, next.book)
    ensures next.book == BookAfter(targets, now.tried, book, call)
    ensures next == now.(tried := TriedAfter(targets, now.tried, call.address), log := next.log, book := next.book)
  {
    next := now.(tried := now.tried + {call.address});
    if |next.tried| >= total {
      CardinalityOfSubset(next.tried, Addresses(targets));
      BooksSnoc(World(env, p, targets), next.log, next.book, Cleared);
      next := next.(tried := {}, log := next.log + [Cleared], book := Enter(next.book, Cleared));
    }
    if result.Response? && result.body.Some? {
      var closed := env.discard(now.attempt);
      DiscardBooks(World(env, p, targets), next.log, next.book, result.body.value, closed);
      next := next.(log := next.log + OnBody(result.body.value, Close(closed)).1, book := next.book.(phase := Idle));
    }
  }

  /** What follows an answer that is to be retried: discard it, back off, count the attempt. */
  method PrepareRetry(env: Env, p: Policy, route: Route, req: Request, captured: Captured, total: nat,
                      ghost v: Vars, result: Outcome, now: Vars, call: UpstreamCall)
    returns (done: Option<Outcome>, next: Vars)
    requires Backoff.Normal(p) && LoopOk(env, p, route, req, captured, v) && total == |Addresses(route.targets)|
    requires KnownStrategy(route.strategy)
    requires AboutToRetry(p, route, Content(req), v.tried, v.attempt, v.book, call)
    requires result.Response? && result.body.Some? ==> !result.body.value.breakerPending
    requires now.attempt == v.attempt && now.tried == v.tried && now.log != []
    requires Books(World(env, p, route.targets), now.log, now.book)
    requires now.book == Attempted(v.book, call.address, true, call, ResultPhase(result))
    ensures done.Some? ==> EndedWell(env, p, route, req, done.value, next)
    ensures done.Some? ==> done.value.Failure? && done.value.cause in {ContextDone, JitterPanic}
    ensures done.None? ==> LoopOk(env, p, route, req, captured, next) && next.attempt == v.attempt + 1
    ensures now.book.picks <= next.book.picks
  {
    next := DiscardAnswer(env, p, route.targets, total, v.book, result, now, call);
    done, next := BackOff(env, p, route, req, captured, v, next, call);
  }

  /** The backoff after a discarded answer. */
  method BackOff(env: Env, p: Policy, route: Route, req: Request, captured: Captured,
                 ghost v: Vars, now: Vars, call: UpstreamCall)
    returns (done: Option<Outcome>, next: Vars)
    requires Backoff.Normal(p) && LoopOk(env, p, route, req, captured, v) && KnownStrategy(route.strategy)
    requires AboutToRetry(p, route, Content(req), v.tried, v.attempt, v.book, call)
    requires now.attempt == v.attempt && now.tried == TriedAfter(route.targets, v.tried, call.address)
    requires Books(World(env, p, route.targets), now.log, now.book)
    requires now.book == BookAfter(route.targets, v.tried, v.book, call)
    ensures done.Some? ==> EndedWell(env, p, route, req, done.value, next)
    ensures done.Some? ==> done.value.Failure? && done.value.cause in {ContextDone, JitterPanic}
    ensures done.None? ==> LoopOk(env, p, route, req, captured, next) && next.attempt == v.attempt + 1
    ensures now.book.picks <= next.book.picks
  {
    next := now;
    var delay := NextDelay(p, now.attempt, env.draw(now.attempt));
    if delay.None? {
      RetryAbandoned(p, route, Content(req), v.tried, v.attempt, v.book, call);
      return Some(Failure(JitterPanic, Some(now.attempt))), next;
    }
    if env.sleepCut(now.attempt) {
      RetryAbandoned(p, route, Content(req), v.tried, v.attempt, v.book, call);
      return Some(Failure(ContextDone, Some(now.attempt))), next;
    }
    RetryStep(p, route, Content(req), v.tried, v.attempt, v.book, call, delay.value);
    BooksSnoc(World(env, p, route.targets), next.log, next.book, Slept(delay.value));
    next := next.(log := next.log + [Slept(delay.value)], book := Enter(next.book, Slept(delay.value)),
                  attempt := now.attempt + 1);
    done := None;
  }

  lemma EmptyBooks(w: World, log: seq<Event>, l: Ledger)
    requires Books(w, log, l) && log == []
    ensures l == BLANK
  {
    BooksAreSum(w, log, l);
  }

  lemma HeadIsFinished(p: Policy, route: Route, content: seq<byte>, tried: set<Address>, attempt: nat, l: Ledger)
    requires Backoff.Normal(p) && AtLoopHead(p, route.targets, content, tried, attempt, l)
    ensures Finished(p, route, content, Failure(ContextDone, Some(attempt)), l)
    ensures route.targets != [] ==> Finished(p, route, content, Failure(NoTargets, None), l)
  {
    CardinalityOfSubset(tried, Addresses(route.targets));
    if route.targets == [] {
      assert Addresses(route.targets) == {};
      Monotone(attempt, p.maxAttempts, 0);
    } else {
      PicksFit(attempt, p.maxAttempts, |Addresses(route.targets)|, |tried|, l.picks);
    }
  }

  // ---------- what follows for a caller ----------

  /** A reply for which the route's retries are meant. */
  predicate WorthRepeating(reply: Reply) {
    || reply in {ResponseReply(502, true), ResponseReply(503, true), ResponseReply(504, true)}
    || reply in {ResponseReply(502, false), ResponseReply(503, false), ResponseReply(504, false)}
    || (reply.ErrorReply? && (reply.err.DeadlineExceeded? || reply.err == Other(true)))
  }

  /** The attempts that a request may take. */
  function Budget(route: Route, req: Request): int {
    if req.verb in {"GET", "HEAD", "PUT", "DELETE", "OPTIONS"} && route.retry.maxAttempts >= 1 then
      route.retry.maxAttempts
    else 1
  }

  /** The first of the environment's replies that is not worth repeating, or the last for which
      there is an attempt. */
  predicate Decisive(env: Env, budget: int, j: nat) {
    && j < budget && (forall k | 0 <= k < j :: WorthRepeating(env.reply(k)))
    && (WorthRepeating(env.reply(j)) ==> j + 1 == budget)
  }

  /** The outcome is what came back for the j-th upstream call, X-Retry-Count included. */
  predicate Returns(out: Outcome, reply: Reply, j: nat) {
    match reply
    case ErrorReply(err) => out == Failure(Upstream(err), Some(j))
    case NilReply => out == Failure(NilResponse, Some(j))
    case ResponseReply(status, hasBody) =>
      && out.Response? && out.status == status && out.retryCount == j
      && (out.body.Some? <==> hasBody || status < 500)
  }

  ghost predicate Patient(env: Env) {
    forall n :: !env.contextDone(n) && !env.sleepCut(n)
  }

  /** Nothing but the breakers and the upstream can stop the request. */
  ghost predicate WellPosed(env: Env, route: Route, req: Request) {
    && Possible(route, CaptureRequestBody(req, PolicyFor(route, req).maxAttempts > 1))
    && BalancerComplete(env, route.targets)
    && PolicyFor(route, req).maxDelay < MAX_INT64
  }

  /** Retrying does what it is for: with a balancer that finds a target when there is one and a
      caller that does not give up, the outcome is the decisive reply, after exactly so many
      upstream calls; or else, before that many, every target was spent by a refusal. When
      every breaker admits it is the decisive reply. */
  lemma {:induction false} PatientCallerIsAnswered(
    env: Env, route: Route, req: Request, out: Outcome, log: seq<Event>, j: nat)
    requires Carried(env, route, req, out, log) && Patient(env) && WellPosed(env, route, req)
    requires Decisive(env, Budget(route, req), j)
    ensures var l := Sum(log);
      || (|l.calls| == j + 1 && Returns(out, env.reply(j), j))
      || (out == Failure(NoHealthyTargets, Some(|l.calls|)) && |l.calls| <= j && l.picks > 0 && !env.allow(l.picks - 1))
    ensures (forall n :: env.allow(n)) ==> |Sum(log).calls| == j + 1 && Returns(out, env.reply(j), j)
  {
    RepliesFollow(World(env, PolicyFor(route, req), route.targets), log);
    LedgerOfPatient(env, route, req, out, Sum(log), j);
  }

  lemma {:induction false} LedgerOfPatient(env: Env, route: Route, req: Request, out: Outcome, l: Ledger, j: nat)
    requires Finished(PolicyFor(route, req), route, Content(req), out, l) && Justified(env, route, out, l)
    requires Patient(env) && WellPosed(env, route, req) && Decisive(env, Budget(route, req), j)
    requires out.Failure? ==> out.cause !in {NoTargets, CaptureFailed, BodyTooLarge}
    requires forall k | 0 <= k < |l.calls| :: l.calls[k].reply == env.reply(k)
    ensures if out.Failure? && out.cause == NoHealthyTargets then
        out.after == Some(|l.calls|) && |l.calls| <= j && l.picks > 0 && !env.allow(l.picks - 1)
      else |l.calls| == j + 1 && Returns(out, env.reply(j), j)
  {
    BudgetIsPolicy(route, req);
    if out.Failure? && out.cause == NoHealthyTargets {
      HowSpent(PolicyFor(route, req), env, route, Content(req), out, l);
      SpentBefore(env, PolicyFor(route, req), l.calls, j);
    } else {
      OutcomeIsLastReply(env, route, req, out, l);
      LastIsDecisive(env, PolicyFor(route, req), l.calls, j);
    }
  }

  lemma HowSpent(p: Policy, env: Env, route: Route, content: seq<byte>, out: Outcome, l: Ledger)
    requires Backoff.Normal(p) && Finished(p, route, content, out, l) && Justified(env, route, out, l)
    requires out.Failure? && out.cause == NoHealthyTargets
    ensures out.after == Some(|l.calls|) && AllRetryable(l.calls) && |l.calls| < p.maxAttempts
    ensures l.picks > 0 && !env.allow(l.picks - 1)
  {
  }

  lemma BudgetIsPolicy(route: Route, req: Request)
    ensures PolicyFor(route, req).maxAttempts == Budget(route, req)
  {
  }

  lemma {:induction false} SpentBefore(env: Env, p: Policy, calls: seq<UpstreamCall>, j: nat)
    requires AllRetryable(calls) && |calls| < p.maxAttempts && Decisive(env, p.maxAttempts, j)
    requires forall k | 0 <= k < |calls| :: calls[k].reply == env.reply(k)
    ensures |calls| <= j
  {
    if j < |calls| {
      RetryableIsWorthRepeating(calls[j].reply);
    }
  }

  lemma RetryableIsWorthRepeating(reply: Reply)
    ensures Retryable(reply) <==> WorthRepeating(reply)
  {
  }

  lemma {:induction false} LastIsDecisive(env: Env, p: Policy, calls: seq<UpstreamCall>, j: nat)
    requires calls != [] && EndedByLastCall(p, calls, calls[|calls| - 1].reply, |calls| - 1) && |calls| <= p.maxAttempts
    requires forall k | 0 <= k < |calls| :: calls[k].reply == env.reply(k)
    requires Decisive(env, p.maxAttempts, j)
    ensures |calls| == j + 1
  {
    var m := |calls| - 1;
    RetryableIsWorthRepeating(calls[m].reply);
    if j < m {
      assert calls[..m][j] == calls[j];
      RetryableIsWorthRepeating(calls[j].reply);
    }
  }

  /** An outcome that neither the route, the caller nor the breakers decided is the last reply. */
  lemma {:induction false} OutcomeIsLastReply(env: Env, route: Route, req: Request, out: Outcome, l: Ledger)
    requires Finished(PolicyFor(route, req), route, Content(req), out, l) && Justified(env, route, out, l)
    requires Patient(env) && WellPosed(env, route, req)
    requires out.Failure? ==> out.cause !in {NoHealthyTargets, NoTargets, CaptureFailed, BodyTooLarge}
    ensures l.calls != [] && |l.calls| <= PolicyFor(route, req).maxAttempts
    ensures EndedByLastCall(PolicyFor(route, req), l.calls, l.calls[|l.calls| - 1].reply, |l.calls| - 1)
    ensures Returns(out, l.calls[|l.calls| - 1].reply, |l.calls| - 1)
  {
  }

  /** A request whose method is not retryable reaches upstream at most once, whatever number
      of open circuits it fails over; and what is retryable is idempotent. */
  lemma {:induction false} AtMostOnceUnlessIdempotent(route: Route, req: Request, out: Outcome, l: Ledger)
    requires Finished(PolicyFor(route, req), route, Content(req), out, l)
    ensures !IsRetryableMethod(req.verb) ==> |l.calls| <= 1 && l.slept == []
    ensures |l.calls| > 1 ==> req.verb in IDEMPOTENT
  {
  }

  function Total(delays: seq<nat>): nat {
    if delays == [] then 0 else Total(delays[..|delays| - 1]) + delays[|delays| - 1]
  }

  lemma {:induction false} TotalWithin(p: Policy, delays: seq<nat>)
    requires Backoff.Normal(p) && BackoffsBounded(p, delays)
    ensures Total(delays) <= |delays| * p.maxDelay as int
  {
    if delays != [] {
      var n := |delays| - 1;
      TotalWithin(p, delays[..n]);
      OneMore(n, p.maxDelay as int);
    }
  }

  /** A request sleeps at most (maxAttempts - 1) * maxDelay in all. */
  lemma TotalBackoffBounded(p: Policy, route: Route, content: seq<byte>, out: Outcome, l: Ledger)
    requires Backoff.Normal(p) && Finished(p, route, content, out, l)
    ensures Total(l.slept) <= (p.maxAttempts - 1) * p.maxDelay as int
  {
    TotalWithin(p, l.slept);
    Monotone(|l.slept|, p.maxAttempts - 1, p.maxDelay as int);
  }

  /** Exactly-once accounting of a whole request: whatever is read from the returned body,
      once it has been closed the request's log is a legal one that ends idle, so every
      admission was recorded exactly once and every selection released exactly once, also
      those of the discarded responses. */
  lemma {:induction false} SettledOnceClosed(
    p: Policy, route: Route, content: seq<byte>, out: Outcome, log: seq<Event>, es: seq<BodyEvent>)
    requires Backoff.Normal(p) && Finished(p, route, content, out, Sum(log))
    ensures if out.Response? && out.body.Some? then
        var whole := log + BodyRun(out.body.value, es).1;
        PhaseOf(whole) != Broken && ((exists e | e in es :: e.Close?) ==> PhaseOf(whole) == Idle)
      else PhaseOf(log) == Idle
  {
    SumPhase(log);
    if out.Response? && out.body.Some? {
      var b := out.body.value;
      BodySettlesExactlyOnce(b, es);
      PhaseConcat(Idle, log, BodyRun(b, es).1);
    }
  }
}
