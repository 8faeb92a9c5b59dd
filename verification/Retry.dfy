/** RetryTransport.RoundTrip over the load balancer and the circuit breaker: a loop that
    repeats after a retryable answer, counting, and also fails over past an open circuit,
    without counting, while it keeps a set of tried targets that is sometimes cleared.
    Everything outside the loop's control is an arbitrary environment. */
module Retry {
  import opened Common
  import opened Targets
  import opened Backoff
  import opened Lifecycle
  import opened Routes

  // ---------- requests, routes and what may go wrong ----------

  datatype Source = NoBody | Stream(content: seq<byte>, readable: bool)
  datatype Request = Request(verb: string, source: Source)

  const MAX_REPLAY := 1_048_576

  /** What the client sent. */
  function Content(req: Request): seq<byte> {
    if req.source.NoBody? then [] else req.source.content
  }

  datatype Cause =
    | RouteMissing
    | CaptureFailed
    | BodyTooLarge
    | UnknownStrategy
    | NoTargets
    | CircuitOpen
    | NoHealthyTargets
    | NilResponse
    | Upstream(err: UpstreamError)
    | ContextDone
    | JitterPanic

  /** The result of a round trip. An error that is an AttemptError carries its retry
      count. */
  datatype Outcome =
    | Failure(cause: Cause, after: Option<nat>)
    | Response(status: int, retryCount: nat, servedBy: Address, body: Option<Body>)

  // ---------- pure decisions ----------

  predicate IsRetryableMethod(verb: string) {
    verb in {"GET", "HEAD", "PUT", "DELETE", "OPTIONS"}
  }

  /** The idempotent methods of section 9.2.2 of RFC 9110. */
  const IDEMPOTENT := {"GET", "HEAD", "OPTIONS", "TRACE", "PUT", "DELETE"}

  predicate IsTransient(err: UpstreamError) {
    match err
    case Canceled(_) => false
    case DeadlineExceeded(_) => true
    case Other(transient) => transient
  }

  /** An answer that shouldRetry repeats while attempts remain. */
  predicate Retryable(reply: Reply) {
    match reply
    case ErrorReply(err) => IsTransient(err)
    case NilReply => false
    case ResponseReply(status, _) => status in {502, 503, 504}
  }

  predicate CountsTowardCircuit(err: UpstreamError) {
    !((err.Canceled? || err.DeadlineExceeded?) && err.callerGone)
  }

  /** What captureRequestBody makes of a body: a copy, or the stream passed on as it is, or an
      error. */
  datatype Captured = Buffered(content: seq<byte>) | Unbuffered | Rejected(cause: Cause)

  function CaptureRequestBody(req: Request, shouldBuffer: bool): (c: Captured)
    ensures c.Buffered? ==> c.content == Content(req)
    ensures c.Unbuffered? <==> !shouldBuffer || req.source.NoBody?
    ensures c == Rejected(BodyTooLarge) <==>
      shouldBuffer && req.source.Stream? && req.source.readable && |Content(req)| > MAX_REPLAY
    ensures c == Rejected(CaptureFailed) <==> shouldBuffer && req.source.Stream? && !req.source.readable
    ensures c.Rejected? ==> c.cause in {CaptureFailed, BodyTooLarge}
  {
    if !shouldBuffer || req.source.NoBody? then Unbuffered
    else if !req.source.readable then Rejected(CaptureFailed)
    else
      var content := req.source.content;
      var read := if |content| > MAX_REPLAY + 1 then content[..MAX_REPLAY + 1] else content;
      if |read| > MAX_REPLAY then Rejected(BodyTooLarge) else Buffered(read)
  }

  // ---------- one attempt through the balancer and the breaker ----------

  datatype RawBody = NilBody | Plain | Guarded
  datatype Guarding = Denied(cause: Cause) | Answered(status: int, body: RawBody)

  /** The Record call made before CircuitBreakerTransport returns; None when it is left to
      the body wrapper. */
  function RecordOnReturn(reply: Reply): Option<Record> {
    match reply
    case ErrorReply(err) => Some(if CountsTowardCircuit(err) then Failed else Ignored)
    case NilReply => Some(Failed)
    case ResponseReply(status, hasBody) =>
      if status >= 500 then Some(Failed) else if !hasBody then Some(Succeeded) else None
  }

  /** CircuitBreakerTransport.RoundTrip for a target already chosen. */
  function CircuitBreakerRoundTrip(
    a: Address, allowed: bool, reply: Reply, retryCount: nat, body: seq<byte>): (Guarding, seq<Event>) {
    if !allowed then (Denied(CircuitOpen), [Refused(a)]) else
      var record := RecordOnReturn(reply);
      var events := [Admitted(a), Called(a, retryCount, body, reply)]
        + if record.Some? then [Recorded(a, record.value)] else [];
      match reply
      case ErrorReply(err) => (Denied(Upstream(err)), events)
      case NilReply => (Denied(NilResponse), events)
      case ResponseReply(status, hasBody) =>
        if status >= 500 then (Answered(status, if hasBody then Plain else NilBody), events)
        else (Answered(status, if hasBody then Guarded else Plain), events)
  }

  /** LoadBalancerTransport.RoundTrip from the selection on: the selection is released at
      once unless a body remains to be read. */
  function LoadBalancerRoundTrip(
    a: Address, allowed: bool, reply: Reply, retryCount: nat, body: seq<byte>): (Outcome, seq<Event>) {
    var (guarding, inner) := CircuitBreakerRoundTrip(a, allowed, reply, retryCount, body);
    match guarding
    case Denied(cause) => (Failure(cause, Some(retryCount)), [Selected(a)] + inner + [Released(a)])
    case Answered(status, NilBody) => (Response(status, retryCount, a, None), [Selected(a)] + inner + [Released(a)])
    case Answered(status, raw) =>
      (Response(status, retryCount, a, Some(Body(a, raw == Guarded, true))), [Selected(a)] + inner)
  }

  // ---------- what a log amounts to ----------

  datatype UpstreamCall = UpstreamCall(address: Address, retryCount: nat, body: seq<byte>, reply: Reply)

  /** A running summary of a log: the protocol phase; the targets picked, and the targets
      that refused or gave a retryable answer, since the last clear; the number of picks and
      whether each was of a target not picked since the last clear; the upstream calls; the
      backoffs slept. */
  datatype Ledger = Ledger(
    phase: Phase, tried: set<Address>, spent: set<Address>, picks: nat, freshPicks: bool,
    calls: seq<UpstreamCall>, slept: seq<nat>)

  const BLANK := Ledger(Idle, {}, {}, 0, true, [], [])

  function Enter(l: Ledger, e: Event): Ledger {
    var l := l.(phase := Advance(l.phase, e));
    match e
    case Selected(a) => l.(tried := l.tried + {a}, picks := l.picks + 1, freshPicks := l.freshPicks && a !in l.tried)
    case Refused(a) => l.(spent := l.spent + {a})
    case Called(a, n, body, reply) =>
      l.(calls := l.calls + [UpstreamCall(a, n, body, reply)],
         spent := if Retryable(reply) then l.spent + {a} else l.spent)
    case Cleared => l.(tried := {}, spent := {})
    case Slept(d) => l.(slept := l.slept + [d])
    case _ => l
  }

  function SumFrom(l: Ledger, log: seq<Event>): Ledger {
    if log == [] then l else Enter(SumFrom(l, log[..|log| - 1]), log[|log| - 1])
  }

  function Sum(log: seq<Event>): Ledger {
    SumFrom(BLANK, log)
  }

  lemma {:induction false} SumSnoc(l: Ledger, log: seq<Event>, e: Event)
    ensures SumFrom(l, log + [e]) == Enter(SumFrom(l, log), e)
  {
    assert (log + [e])[..|log|] == log;
  }

  /** The ledger's phase is the request's protocol phase. */
  lemma {:induction false} SumPhase(log: seq<Event>)
    ensures Sum(log).phase == PhaseOf(log)
  {
    if log != [] {
      SumPhase(log[..|log| - 1]);
    }
  }

  // ---------- a log that follows its environment ----------

  /** Everything the loop does not decide. Other requests run in between, so nothing is known
      of what the balancer, a breaker, the upstream, the caller's context or the random source
      says next. `pick` and `allow` answer the n-th pass through the balancer; `reply` and
      `discard` the n-th upstream call; `draw` and `sleepCut` the n-th backoff. The context is
      looked at before the n-th pass, under 2 * n, and after its refusal, under 2 * n + 1. */
  datatype Env = Env(
    pick: (nat, set<Address>) -> Option<Target>,
    allow: nat -> bool,
    reply: nat -> Reply,
    contextDone: nat -> bool,
    sleepCut: nat -> bool,
    draw: nat -> nat,
    discard: nat -> CloseResult)

  datatype World = World(env: Env, policy: Policy, targets: seq<Target>)

  /** What the breaker hears of a reply before its transport returns: a failure for no response,
      for a status of 500 or more and for any error but the caller's own cancellation or
      deadline, of which it hears as ignored; and a success for a status below 500 without a
      body. */
  predicate HeardOnReturn(reply: Reply, r: Record) {
    match reply
    case NilReply => r == Failed
    case ErrorReply(Canceled(callerGone)) => r == if callerGone then Ignored else Failed
    case ErrorReply(DeadlineExceeded(callerGone)) => r == if callerGone then Ignored else Failed
    case ErrorReply(Other(_)) => r == Failed
    case ResponseReply(status, hasBody) =>
      (status >= 500 && r == Failed) || (status < 500 && !hasBody && r == Succeeded)
  }

  /** The event is what the environment answers at this point of the log. */
  ghost predicate Fits(w: World, l: Ledger, e: Event) {
    match e
    case Selected(a) => w.env.pick(l.picks, l.tried).Some? && w.env.pick(l.picks, l.tried).value.address == a
    case Admitted(_) => l.picks > 0 && w.env.allow(l.picks - 1)
    case Refused(_) => l.picks > 0 && !w.env.allow(l.picks - 1)
    case Called(_, _, _, reply) => reply == w.env.reply(|l.calls|)
    case Recorded(_, r) => l.calls != [] && HeardOnReturn(l.calls[|l.calls| - 1].reply, r)
    case Cleared => l.tried == Addresses(w.targets) && !l.phase.InFlight?
    case Slept(d) => !w.env.sleepCut(|l.slept|) && IsDelay(w.policy, |l.slept|, w.env.draw(|l.slept|), d)
    case Released(_) => true
  }

  /** The k-th backoff, given the draw. */
  ghost predicate IsDelay(p: Policy, k: nat, draw: nat, d: nat) {
    Backoff.Normal(p) && d == if p.jitter == FULL_JITTER then draw % (Ceiling(p, k) + 1) else Ceiling(p, k)
  }

  /** Every event of the log is what the environment answered at its point. */
  ghost predicate Follows(w: World, log: seq<Event>) {
    forall i | 0 <= i < |log| :: Fits(w, Sum(log[..i]), log[i])
  }

  /** The ledger is the log's and the log follows the environment, said without unrolling the
      log: there is a chain of ledgers from the blank one, each entering the next event. */
  ghost predicate Books(w: World, log: seq<Event>, l: Ledger) {
    exists ls: seq<Ledger> :: Chain(w, log, ls) && ls[|log|] == l
  }

  ghost predicate Chain(w: World, log: seq<Event>, ls: seq<Ledger>) {
    && |ls| == |log| + 1 && ls[0] == BLANK
    && forall i {:trigger log[i]} | 0 <= i < |log| :: Link(w, ls[i], log[i], ls[i + 1])
  }

  ghost predicate Link(w: World, l: Ledger, e: Event, l': Ledger) {
    l' == Enter(l, e) && Fits(w, l, e)
  }

  lemma {:induction false} ChainIsSum(w: World, log: seq<Event>, ls: seq<Ledger>, n: nat)
    requires Chain(w, log, ls) && n <= |log|
    ensures ls[n] == Sum(log[..n])
  {
    if n > 0 {
      ChainIsSum(w, log, ls, n - 1);
      assert Link(w, ls[n - 1], log[n - 1], ls[n]);
      assert log[..n] == log[..n - 1] + [log[n - 1]];
      SumSnoc(BLANK, log[..n - 1], log[n - 1]);
    }
  }

  lemma {:induction false} BooksAreSum(w: World, log: seq<Event>, l: Ledger)
    requires Books(w, log, l)
    ensures l == Sum(log) && Follows(w, log)
  {
    var ls :| Chain(w, log, ls) && ls[|log|] == l;
    ChainIsSum(w, log, ls, |log|);
    assert log[..|log|] == log;
    forall i | 0 <= i < |log|
      ensures Fits(w, Sum(log[..i]), log[i])
    {
      ChainIsSum(w, log, ls, i);
      assert Link(w, ls[i], log[i], ls[i + 1]);
    }
  }

  lemma {:induction false} NothingBooked(w: World)
    ensures Books(w, [], BLANK)
  {
    assert Chain(w, [], [BLANK]);
  }

  lemma {:induction false} BooksSnoc(w: World, log: seq<Event>, l: Ledger, e: Event)
    requires Books(w, log, l) && Fits(w, l, e)
    ensures Books(w, log + [e], Enter(l, e))
  {
    var ls :| Chain(w, log, ls) && ls[|log|] == l;
    var all, more := log + [e], ls + [Enter(l, e)];
    forall i | 0 <= i < |all|
      ensures Link(w, more[i], all[i], more[i + 1])
    {
      if i < |log| {
        assert all[i] == log[i];
      }
    }
    assert Chain(w, all, more);
  }

  /** Each of these events fits where it stands. */
  ghost predicate AllFit(w: World, l: Ledger, events: seq<Event>) {
    forall i | 0 <= i < |events| :: Fits(w, SumFrom(l, events[..i]), events[i])
  }

  lemma {:induction false} BooksConcat(w: World, log: seq<Event>, l: Ledger, more: seq<Event>)
    requires Books(w, log, l) && AllFit(w, l, more)
    ensures Books(w, log + more, SumFrom(l, more))
  {
    if more == [] {
      assert log + more == log;
    } else {
      var n := |more| - 1;
      AllFitPrefix(w, l, more);
      BooksConcat(w, log, l, more[..n]);
      BooksSnoc(w, log + more[..n], SumFrom(l, more[..n]), more[n]);
      LastOf(log, more);
    }
  }

  lemma AllFitPrefix(w: World, l: Ledger, more: seq<Event>)
    requires AllFit(w, l, more) && more != []
    ensures var n := |more| - 1; AllFit(w, l, more[..n]) && Fits(w, SumFrom(l, more[..n]), more[n])
  {
    var n := |more| - 1;
    forall i | 0 <= i < n
      ensures Fits(w, SumFrom(l, more[..n][..i]), more[..n][i])
    {
      assert more[..n][..i] == more[..i];
    }
  }

  lemma LastOf(log: seq<Event>, more: seq<Event>)
    requires more != []
    ensures log + more[..|more| - 1] + [more[|more| - 1]] == log + more
  {
  }

  // ---------- the effect of one attempt ----------

  function ResultPhase(out: Outcome): Phase {
    if out.Response? && out.body.Some? then BodyPhase(out.body.value) else Idle
  }

  /** The ledger after an attempt at `a`. */
  function Attempted(l: Ledger, a: Address, allowed: bool, call: UpstreamCall, phase: Phase): Ledger {
    Ledger(phase, l.tried + {a}, if !allowed || Retryable(call.reply) then l.spent + {a} else l.spent,
           l.picks + 1, l.freshPicks && a !in l.tried, if allowed then l.calls + [call] else l.calls, l.slept)
  }

  predicate SettlesOnly(events: seq<Event>) {
    forall i | 0 <= i < |events| :: events[i].Recorded? || events[i].Released?
  }

  /** Recording and releasing move the phase and nothing else. */
  lemma {:induction false} SumSettling(l: Ledger, events: seq<Event>)
    requires SettlesOnly(events)
    ensures SumFrom(l, events) == l.(phase := PhaseFrom(l.phase, events))
  {
    if events != [] {
      SumSettling(l, events[..|events| - 1]);
    }
  }

  lemma Three(log: seq<Event>, a: Event, b: Event, c: Event)
    ensures log + [a] + [b] + [c] == log + [a, b, c]
  {
  }

  /** An attempt that was refused: no call, the target spent, the selection released. */
  lemma {:induction false} RefusedBooks(
    w: World, log: seq<Event>, l: Ledger, a: Address, reply: Reply, n: nat, body: seq<byte>)
    requires Books(w, log, l) && l.phase == Idle && Fits(w, l, Selected(a)) && !w.env.allow(l.picks)
    ensures Books(w, log + [Selected(a), Refused(a), Released(a)],
                  Attempted(l, a, false, UpstreamCall(a, n, body, reply), Idle))
  {
    var l1 := Enter(l, Selected(a));
    var l2 := Enter(l1, Refused(a));
    BooksSnoc(w, log, l, Selected(a));
    BooksSnoc(w, log + [Selected(a)], l1, Refused(a));
    BooksSnoc(w, log + [Selected(a)] + [Refused(a)], l2, Released(a));
    Three(log, Selected(a), Refused(a), Released(a));
  }

  lemma {:induction false} CalledBooks(
    w: World, log: seq<Event>, l: Ledger, a: Address, reply: Reply, n: nat, body: seq<byte>)
    requires Books(w, log, l) && l.phase == Idle && Fits(w, l, Selected(a))
    requires w.env.allow(l.picks) && reply == w.env.reply(|l.calls|)
    ensures Books(w, log + [Selected(a), Admitted(a), Called(a, n, body, reply)],
                  Attempted(l, a, true, UpstreamCall(a, n, body, reply), InFlight(a)))
  {
    var l1 := Enter(l, Selected(a));
    var l2 := Enter(l1, Admitted(a));
    var called := Called(a, n, body, reply);
    BooksSnoc(w, log, l, Selected(a));
    BooksSnoc(w, log + [Selected(a)], l1, Admitted(a));
    BooksSnoc(w, log + [Selected(a)] + [Admitted(a)], l2, called);
    Three(log, Selected(a), Admitted(a), called);
  }

  /** Recording what the breaker hears of the last reply, and releasing, fit. */
  lemma {:induction false} SettlingFits(w: World, l: Ledger, events: seq<Event>)
    requires SettlesOnly(events) && l.calls != []
    requires forall i | 0 <= i < |events| && events[i].Recorded? ::
      HeardOnReturn(l.calls[|l.calls| - 1].reply, events[i].record)
    ensures AllFit(w, l, events)
  {
    forall i | 0 <= i < |events|
      ensures Fits(w, SumFrom(l, events[..i]), events[i])
    {
      SumSettling(l, events[..i]);
    }
  }

  /** What an admitted attempt does after its upstream call. */
  lemma AttemptTail(a: Address, reply: Reply, n: nat, body: seq<byte>) returns (tail: seq<Event>)
    ensures var (out, events) := LoadBalancerRoundTrip(a, true, reply, n, body);
      && events == [Selected(a), Admitted(a), Called(a, n, body, reply)] + tail
      && SettlesOnly(tail) && PhaseFrom(InFlight(a), tail) == ResultPhase(out)
      && (forall i | 0 <= i < |tail| && tail[i].Recorded? :: HeardOnReturn(reply, tail[i].record))
      && (out.Response? && out.body.Some? ==> WellWrapped(out.body.value))
  {
    var out := LoadBalancerRoundTrip(a, true, reply, n, body).0;
    var record := RecordOnReturn(reply);
    if record.None? {
      tail := [];
    } else {
      SettlingPhases(a, record.value);
      var recorded := Recorded(a, record.value);
      tail := if out.Failure? || out.body.None? then [recorded, Released(a)] else [recorded];
    }
  }

  lemma {:induction false} AttemptBooks(
    w: World, log: seq<Event>, l: Ledger, a: Address, allowed: bool, reply: Reply, n: nat, body: seq<byte>)
    requires Books(w, log, l) && l.phase == Idle && Fits(w, l, Selected(a))
    requires allowed == w.env.allow(l.picks) && reply == w.env.reply(|l.calls|)
    ensures var (out, events) := LoadBalancerRoundTrip(a, allowed, reply, n, body);
      && Books(w, log + events, Attempted(l, a, allowed, UpstreamCall(a, n, body, reply), ResultPhase(out)))
      && (out.Response? && out.body.Some? ==> WellWrapped(out.body.value))
  {
    if allowed {
      AdmittedBooks(w, log, l, a, reply, n, body);
    } else {
      RefusedBooks(w, log, l, a, reply, n, body);
      assert LoadBalancerRoundTrip(a, false, reply, n, body).1 == [Selected(a), Refused(a), Released(a)];
    }
  }

  /** An attempt that reached upstream: one call, and the breaker and balancer either settled
      or left to the body wrappers of the response. */
  lemma {:induction false} AdmittedBooks(
    w: World, log: seq<Event>, l: Ledger, a: Address, reply: Reply, n: nat, body: seq<byte>)
    requires Books(w, log, l) && l.phase == Idle && Fits(w, l, Selected(a))
    requires w.env.allow(l.picks) && reply == w.env.reply(|l.calls|)
    ensures var (out, events) := LoadBalancerRoundTrip(a, true, reply, n, body);
      && Books(w, log + events, Attempted(l, a, true, UpstreamCall(a, n, body, reply), ResultPhase(out)))
      && (out.Response? && out.body.Some? ==> WellWrapped(out.body.value))
  {
    var start := [Selected(a), Admitted(a), Called(a, n, body, reply)];
    var tail := AttemptTail(a, reply, n, body);
    CalledBooks(w, log, l, a, reply, n, body);
    var l1 := Attempted(l, a, true, UpstreamCall(a, n, body, reply), InFlight(a));
    SettlingBooks(w, log + start, l1, tail);
    assert log + start + tail == log + (start + tail);
  }

  lemma {:induction false} SettlingBooks(w: World, log: seq<Event>, l: Ledger, events: seq<Event>)
    requires Books(w, log, l) && SettlesOnly(events) && l.calls != []
    requires forall i | 0 <= i < |events| && events[i].Recorded? ::
      HeardOnReturn(l.calls[|l.calls| - 1].reply, events[i].record)
    ensures Books(w, log + events, l.(phase := PhaseFrom(l.phase, events)))
  {
    SettlingFits(w, l, events);
    BooksConcat(w, log, l, events);
    SumSettling(l, events);
  }

  /** Closing the body of a discarded response settles what it still owed. */
  lemma {:induction false} DiscardBooks(w: World, log: seq<Event>, l: Ledger, b: Body, result: CloseResult)
    requires Books(w, log, l) && !b.breakerPending && l.phase == BodyPhase(b)
    ensures Books(w, log + OnBody(b, Close(result)).1, l.(phase := Idle))
  {
    ClosedPlain(b, result);
    if b.releasePending {
      BooksSnoc(w, log, l, Released(b.address));
    } else {
      assert log + [] == log && l.(phase := Idle) == l;
    }
  }

  lemma ClosedPlain(b: Body, result: CloseResult)
    requires !b.breakerPending
    ensures OnBody(b, Close(result)).1 == if b.releasePending then [Released(b.address)] else []
  {
  }

  // ---------- what the loop keeps ----------

  /** Each call carried its ordinal as retry count and the client's complete body, to a
      configured target. */
  ghost predicate CallsDelivered(calls: seq<UpstreamCall>, targets: seq<Target>, content: seq<byte>) {
    forall k | 0 <= k < |calls| ::
      calls[k].retryCount == k && calls[k].body == content && calls[k].address in Addresses(targets)
  }

  ghost predicate AllRetryable(calls: seq<UpstreamCall>) {
    forall k | 0 <= k < |calls| :: Retryable(calls[k].reply)
  }

  ghost predicate BackoffsBounded(p: Policy, slept: seq<nat>)
    requires Backoff.Normal(p)
  {
    forall k | 0 <= k < |slept| :: slept[k] <= Ceiling(p, k)
  }

  ghost predicate AtLoopHead(
    p: Policy, targets: seq<Target>, content: seq<byte>, tried: set<Address>, attempt: nat, l: Ledger)
    requires Backoff.Normal(p)
  {
    && l.phase == Idle && l.tried == l.spent == tried && l.freshPicks
    && (if targets == [] then tried == {} else tried < Addresses(targets))
    && |l.calls| == |l.slept| == attempt < p.maxAttempts
    && l.picks <= attempt * |Addresses(targets)| + |tried|
    && (attempt == 0 ==> l.picks == |tried|)
    && CallsDelivered(l.calls, targets, content) && AllRetryable(l.calls) && BackoffsBounded(p, l.slept)
  }

  // ---------- what every finished round trip satisfies ----------

  /** At most maxAttempts upstream calls, at most maxAttempts * (distinct targets) passes
      through the balancer, each to a target not picked since the last clear, and fewer
      backoffs than attempts, each within its ceiling. */
  ghost predicate WithinLimits(p: Policy, targets: seq<Target>, l: Ledger)
    requires Backoff.Normal(p)
  {
    && |l.calls| <= p.maxAttempts && l.picks <= p.maxAttempts * |Addresses(targets)| && l.freshPicks
    && |l.slept| < p.maxAttempts && BackoffsBounded(p, l.slept)
  }

  /** The round trip ended with the answer to its last upstream call, which was not one to
      retry while attempts remained; every earlier answer was. */
  ghost predicate EndedByLastCall(p: Policy, calls: seq<UpstreamCall>, reply: Reply, retryCount: nat) {
    && calls != [] && retryCount == |calls| - 1
    && calls[|calls| - 1].reply == reply && AllRetryable(calls[..|calls| - 1])
    && !(Retryable(reply) && |calls| < p.maxAttempts)
  }

  /** The response has the reply's status, and its body unless there is none: a status of 500 or
      more leaves the breaker nothing to hear from it, and below that an absent body is replaced
      by an empty one, of which the breaker has already heard. */
  predicate Carries(reply: Reply, status: int, servedBy: Address, body: Option<Body>) {
    && reply.ResponseReply? && reply.status == status
    && body == if status >= 500 && !reply.hasBody then None
               else Some(Body(servedBy, status < 500 && reply.hasBody, true))
  }

  ghost predicate Decided(p: Policy, route: Route, out: Outcome, l: Ledger)
    requires Backoff.Normal(p)
  {
    match out
    case Response(status, n, servedBy, body) =>
      && l.calls != [] && EndedByLastCall(p, l.calls, l.calls[|l.calls| - 1].reply, n)
      && l.calls[|l.calls| - 1].address == servedBy && Carries(l.calls[|l.calls| - 1].reply, status, servedBy, body)
    case Failure(Upstream(err), Some(n)) => EndedByLastCall(p, l.calls, ErrorReply(err), n)
    case Failure(NilResponse, Some(n)) => EndedByLastCall(p, l.calls, NilReply, n)
    case Failure(NoHealthyTargets, Some(n)) =>
      // every target has, since the last clear, refused or given a retryable answer
      && n == |l.calls| && AllRetryable(l.calls) && route.targets != []
      && l.spent == l.tried == Addresses(route.targets)
      && (n == 0 ==> l.picks == |Addresses(route.targets)|)
    case Failure(ContextDone, Some(n)) => AllRetryable(l.calls) && |l.calls| - 1 <= n <= |l.calls|
    case Failure(JitterPanic, Some(n)) =>
      AllRetryable(l.calls) && |l.calls| == n + 1 && p.jitter == FULL_JITTER && Ceiling(p, n) == MAX_INT64 as int
    case Failure(NoTargets, None) => AllRetryable(l.calls) && (route.targets == [] ==> l == BLANK)
    case Failure(UnknownStrategy, None) => !KnownStrategy(route.strategy) && l == BLANK
    case Failure(CaptureFailed, None) => p.maxAttempts > 1 && l == BLANK
    case Failure(BodyTooLarge, None) => p.maxAttempts > 1 && l == BLANK
    case _ => false
  }

  ghost predicate Finished(p: Policy, route: Route, content: seq<byte>, out: Outcome, l: Ledger)
    requires Backoff.Normal(p)
  {
    && WithinLimits(p, route.targets, l) && CallsDelivered(l.calls, route.targets, content)
    && Decided(p, route, out, l)
    && l.phase == ResultPhase(out) && (out.Response? && out.body.Some? ==> WellWrapped(out.body.value))
  }

  predicate KnownStrategy(strategy: string) {
    strategy in {"round_robin", "weighted", "least_conn"}
  }

  // ---------- each way round the loop, and each way out ----------

  lemma PicksFit(attempt: nat, attempts: int, distinct: nat, tried: nat, picks: nat)
    requires attempt < attempts && tried < distinct && picks <= attempt * distinct + tried
    ensures picks + 1 <= attempts * distinct
    ensures picks + 1 <= (attempt + 1) * distinct
    ensures (attempt + 1) * distinct == attempt * distinct + distinct
  {
    OneMore(attempt, distinct);
    Monotone(attempt + 1, attempts, distinct);
  }

  lemma OneMore(n: nat, d: nat)
    ensures (n + 1) * d == n * d + d
  {
  }

  lemma Monotone(m: nat, n: nat, d: nat)
    requires m <= n
    ensures m * d <= n * d
  {
  }

  lemma Untried(targets: seq<Target>, tried: set<Address>, a: Address)
    requires tried < Addresses(targets) && a in Addresses(targets) && a !in tried
    ensures |tried + {a}| == |tried| + 1 <= |Addresses(targets)| && |tried| < |Addresses(targets)|
    ensures |tried + {a}| < |Addresses(targets)| ==> tried + {a} < Addresses(targets)
    ensures |tried + {a}| >= |Addresses(targets)| ==> tried + {a} == Addresses(targets)
  {
    var all := Addresses(targets);
    CardinalityOfSubset(tried + {a}, all);
    if |tried + {a}| < |all| {
      assert tried + {a} != all;
    }
  }

  lemma CardinalityOfSubset(s: set<Address>, t: set<Address>)
    requires s <= t
    ensures |s| <= |t| && (|s| == |t| ==> s == t)
  {
    assert t == s + (t - s);
    assert |t| == |s| + |t - s|;
  }

  /** Failover past an open circuit: the attempt is not counted, the target is. */
  lemma {:induction false} FailoverStep(
    p: Policy, route: Route, content: seq<byte>, tried: set<Address>, attempt: nat, l: Ledger, call: UpstreamCall)
    requires Backoff.Normal(p) && AtLoopHead(p, route.targets, content, tried, attempt, l) && route.targets != []
    requires call.address in Addresses(route.targets) && call.address !in tried
    ensures var l' := Attempted(l, call.address, false, call, Idle); var tried' := tried + {call.address};
      && (if |tried'| >= |Addresses(route.targets)| then
            Finished(p, route, content, Failure(NoHealthyTargets, Some(attempt)), l')
          else
            && AtLoopHead(p, route.targets, content, tried', attempt, l')
            && Finished(p, route, content, Failure(ContextDone, Some(attempt)), l'))
      && tried < tried' && |tried'| == |tried| + 1
  {
    Untried(route.targets, tried, call.address);
    PicksFit(attempt, p.maxAttempts, |Addresses(route.targets)|, |tried|, l.picks);
  }

  /** The last of the calls is the new one. */
  lemma LastCall(calls: seq<UpstreamCall>, call: UpstreamCall)
    ensures (calls + [call])[..|calls + [call]| - 1] == calls
    ensures (calls + [call])[|calls + [call]| - 1] == call
  {
  }

  /** An answer that is not retried ends the round trip. */
  lemma AnswerStep(
    p: Policy, route: Route, content: seq<byte>, tried: set<Address>, attempt: nat, l: Ledger, call: UpstreamCall)
    requires Backoff.Normal(p) && AtLoopHead(p, route.targets, content, tried, attempt, l) && route.targets != []
    requires call.address in Addresses(route.targets) && call.address !in tried
    requires call.retryCount == attempt && call.body == content
    requires !(attempt + 1 < p.maxAttempts && Retryable(call.reply))
    ensures var out := LoadBalancerRoundTrip(call.address, true, call.reply, attempt, content).0;
      Finished(p, route, content, out, Attempted(l, call.address, true, call, ResultPhase(out)))
  {
    var out := LoadBalancerRoundTrip(call.address, true, call.reply, attempt, content).0;
    Untried(route.targets, tried, call.address);
    PicksFit(attempt, p.maxAttempts, |Addresses(route.targets)|, |tried|, l.picks);
    AnswerDecides(p, route, content, tried, attempt, l, call);
  }

  /** The outcome is the answer to the call just made. */
  lemma {:induction false} AnswerDecides(
    p: Policy, route: Route, content: seq<byte>, tried: set<Address>, attempt: nat, l: Ledger, call: UpstreamCall)
    requires Backoff.Normal(p) && AtLoopHead(p, route.targets, content, tried, attempt, l)
    requires call.retryCount == attempt && !(attempt + 1 < p.maxAttempts && Retryable(call.reply))
    ensures var out := LoadBalancerRoundTrip(call.address, true, call.reply, attempt, content).0;
      && Decided(p, route, out, Attempted(l, call.address, true, call, ResultPhase(out)))
      && (out.Response? && out.body.Some? ==> WellWrapped(out.body.value))
  {
    var out := LoadBalancerRoundTrip(call.address, true, call.reply, attempt, content).0;
    LastCall(l.calls, call);
    assert EndedByLastCall(p, l.calls + [call], call.reply, attempt);
  }

  /** The tried set and ledger left by a retryable answer: the target is spent, and the set
      is cleared when it covers the route. */
  function TriedAfter(targets: seq<Target>, tried: set<Address>, a: Address): set<Address> {
    if |tried + {a}| >= |Addresses(targets)| then {} else tried + {a}
  }

  function BookAfter(targets: seq<Target>, tried: set<Address>, l: Ledger, call: UpstreamCall): Ledger {
    var l1 := Attempted(l, call.address, true, call, Idle);
    if |tried + {call.address}| >= |Addresses(targets)| then l1.(tried := {}, spent := {}) else l1
  }

  ghost predicate AboutToRetry(
    p: Policy, route: Route, content: seq<byte>, tried: set<Address>, attempt: nat, l: Ledger, call: UpstreamCall)
    requires Backoff.Normal(p)
  {
    && AtLoopHead(p, route.targets, content, tried, attempt, l) && route.targets != []
    && call.address in Addresses(route.targets) && call.address !in tried
    && call.retryCount == attempt && call.body == content
    && attempt + 1 < p.maxAttempts && Retryable(call.reply)
  }

  /** A retryable answer with attempts left: after the backoff the next attempt starts. */
  lemma RetryStep(
    p: Policy, route: Route, content: seq<byte>, tried: set<Address>, attempt: nat, l: Ledger, call: UpstreamCall,
    delay: nat)
    requires Backoff.Normal(p) && AboutToRetry(p, route, content, tried, attempt, l, call)
    requires delay <= Ceiling(p, attempt)
    ensures AtLoopHead(p, route.targets, content, TriedAfter(route.targets, tried, call.address), attempt + 1,
                       Enter(BookAfter(route.targets, tried, l, call), Slept(delay)))
  {
    Untried(route.targets, tried, call.address);
    PicksFit(attempt, p.maxAttempts, |Addresses(route.targets)|, |tried|, l.picks);
  }

  /** The caller gives up during the backoff, or drawing the jitter panics. */
  lemma {:induction false} RetryAbandoned(
    p: Policy, route: Route, content: seq<byte>, tried: set<Address>, attempt: nat, l: Ledger, call: UpstreamCall)
    requires Backoff.Normal(p) && AboutToRetry(p, route, content, tried, attempt, l, call)
    ensures var l' := BookAfter(route.targets, tried, l, call);
      && Finished(p, route, content, Failure(ContextDone, Some(attempt)), l')
      && (p.jitter == FULL_JITTER && Ceiling(p, attempt) == MAX_INT64 as int ==>
            Finished(p, route, content, Failure(JitterPanic, Some(attempt)), l'))
  {
    Untried(route.targets, tried, call.address);
    PicksFit(attempt, p.maxAttempts, |Addresses(route.targets)|, |tried|, l.picks);
  }

  /** The errors that are reported before anything has been done. */
  lemma {:induction false} NothingDone(p: Policy, route: Route, content: seq<byte>, cause: Cause)
    requires Backoff.Normal(p)
    requires (cause == NoTargets && route.targets == []) || (cause == UnknownStrategy && !KnownStrategy(route.strategy))
          || (cause in {CaptureFailed, BodyTooLarge} && p.maxAttempts > 1)
    ensures Finished(p, route, content, Failure(cause, None), BLANK)
  {
    Monotone(0, p.maxAttempts, |Addresses(route.targets)|);
  }

  // ---------- what a log that follows its environment says ----------

  /** The k-th call's reply is the environment's k-th. */
  lemma {:induction false} RepliesFollow(w: World, log: seq<Event>)
    requires Follows(w, log)
    ensures forall k | 0 <= k < |Sum(log).calls| :: Sum(log).calls[k].reply == w.env.reply(k)
  {
    if log != [] {
      var n := |log| - 1;
      FollowsPrefix(w, log, n);
      RepliesFollow(w, log[..n]);
      assert Fits(w, Sum(log[..n]), log[n]);
    }
  }

  lemma {:induction false} FollowsPrefix(w: World, log: seq<Event>, n: nat)
    requires Follows(w, log) && n <= |log|
    ensures Follows(w, log[..n])
  {
    forall i | 0 <= i < n
      ensures Fits(w, Sum(log[..n][..i]), log[..n][i])
    {
      assert log[..n][..i] == log[..i];
    }
  }

  lemma {:induction false} PhaseAfter(log: seq<Event>, i: nat)
    requires PhaseOf(log) != Broken && i < |log|
    ensures PhaseOf(log[..i + 1]) == Advance(PhaseOf(log[..i]), log[i]) != Broken
  {
    PrefixIsLegal(log, i + 1);
    assert log[..i + 1] == log[..i] + [log[i]];
    PhaseSnoc(Idle, log[..i], log[i]);
  }

  lemma OnlyRecorded(w: World, l: Ledger, e: Event)
    requires l.phase.InFlight? && Advance(l.phase, e) != Broken && Fits(w, l, e)
    ensures e.Recorded? && e.address == l.phase.address && HeardOnReturn(l.calls[|l.calls| - 1].reply, e.record)
  {
  }

  /** What comes after an upstream call in a legal log that follows its environment: the Record
      of what the breaker hears of the reply on return, or the end of the log while the breaker
      has yet to hear from the body. */
  lemma {:induction false} NextIsRecord(w: World, log: seq<Event>, i: nat)
    requires Follows(w, log) && PhaseOf(log) != Broken && i < |log| && log[i].Called?
    ensures PhaseOf(log[..i + 1]) == InFlight(log[i].address)
    ensures i + 1 < |log| ==>
      && log[i + 1].Recorded? && log[i + 1].address == log[i].address
      && HeardOnReturn(log[i].reply, log[i + 1].record)
  {
    PhaseAfter(log, i);
    CallAdvances(PhaseOf(log[..i]), log[i]);
    if i + 1 < |log| {
      AfterCall(w, log, i);
    }
  }

  lemma CallAdvances(p: Phase, e: Event)
    requires e.Called? && Advance(p, e) != Broken
    ensures Advance(p, e) == InFlight(e.address)
  {
  }

  lemma {:induction false} AfterCall(w: World, log: seq<Event>, i: nat)
    requires Follows(w, log) && PhaseOf(log) != Broken && i + 1 < |log| && log[i].Called?
    requires PhaseOf(log[..i + 1]) == InFlight(log[i].address)
    ensures log[i + 1].Recorded? && log[i + 1].address == log[i].address
    ensures HeardOnReturn(log[i].reply, log[i + 1].record)
  {
    var front := log[..i + 1];
    PhaseAfter(log, i + 1);
    FitsAt(w, log, i + 1);
    assert front[|front| - 1] == log[i];
    RecordComesNext(w, front, log[i + 1]);
  }

  lemma FitsAt(w: World, log: seq<Event>, i: nat)
    requires Follows(w, log) && i < |log|
    ensures Fits(w, Sum(log[..i]), log[i])
  {
  }

  lemma {:induction false} RecordComesNext(w: World, front: seq<Event>, e: Event)
    requires front != [] && front[|front| - 1].Called? && PhaseOf(front).InFlight?
    requires Advance(PhaseOf(front), e) != Broken && Fits(w, Sum(front), e)
    ensures e.Recorded? && e.address == PhaseOf(front).address && HeardOnReturn(front[|front| - 1].reply, e.record)
  {
    SumPhase(front);
    OnlyRecorded(w, Sum(front), e);
    LastIsCall(front);
  }

  /** Over the whole log of a round trip: right after each upstream call its breaker hears a
      failure for no response, for a status of 500 or more and for any error but the caller's
      own cancellation or deadline; it hears of that as ignored; and it hears a success for a
      status below 500 without a body. For one with a body nothing is recorded here: the call
      ends the log, and the body is returned. */
  lemma {:induction false} BreakersHearReplies(
    w: World, route: Route, content: seq<byte>, out: Outcome, log: seq<Event>, i: nat)
    requires Backoff.Normal(w.policy) && Finished(w.policy, route, content, out, Sum(log)) && Follows(w, log)
    requires i < |log| && log[i].Called?
    ensures match log[i].reply
      case NilReply => HeardNext(log, i, Failed)
      case ErrorReply(Canceled(callerGone)) => HeardNext(log, i, if callerGone then Ignored else Failed)
      case ErrorReply(DeadlineExceeded(callerGone)) => HeardNext(log, i, if callerGone then Ignored else Failed)
      case ErrorReply(Other(_)) => HeardNext(log, i, Failed)
      case ResponseReply(status, hasBody) =>
        if status >= 500 then HeardNext(log, i, Failed)
        else if !hasBody then HeardNext(log, i, Succeeded)
        else i + 1 == |log| && out.Response? && out.body == Some(Body(log[i].address, true, true))
  {
    SumPhase(log);
    NextIsRecord(w, log, i);
    if i + 1 == |log| {
      assert log[..i + 1] == log;
      LastIsCall(log);
      InFlightAtEnd(w.policy, route, content, out, Sum(log));
    }
  }

  /** A finished round trip is left in flight only by a body of which its breaker has yet to
      hear. */
  lemma InFlightAtEnd(p: Policy, route: Route, content: seq<byte>, out: Outcome, l: Ledger)
    requires Backoff.Normal(p) && Finished(p, route, content, out, l) && l.phase.InFlight? && l.calls != []
    ensures var reply := l.calls[|l.calls| - 1].reply;
      && reply.ResponseReply? && reply.status < 500 && reply.hasBody
      && out.Response? && out.body == Some(Body(l.calls[|l.calls| - 1].address, true, true))
  {
  }

  predicate HeardNext(log: seq<Event>, i: nat, r: Record)
    requires i < |log| && log[i].Called?
  {
    i + 1 < |log| && log[i + 1] == Recorded(log[i].address, r)
  }

  lemma {:induction false} LastIsCall(log: seq<Event>)
    requires log != [] && log[|log| - 1].Called?
    ensures var e, calls := log[|log| - 1], Sum(log).calls;
      calls != [] && calls[|calls| - 1] == UpstreamCall(e.address, e.retryCount, e.body, e.reply)
  {
  }
}
