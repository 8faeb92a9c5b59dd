/** What one request does to the balancer, the breakers and upstream, as a log of events, and
    the response body wrappers that settle the account after the response is returned. */
module Lifecycle {
  import opened Common
  import opened Targets

  /** The three ways a request answers its breaker. */
  datatype Record = Succeeded | Failed | Ignored

  /** Errors of the base transport. `callerGone` says whether the caller's own context ended
      that way; classification by system error is the flag of `Other`. */
  datatype UpstreamError = Canceled(callerGone: bool) | DeadlineExceeded(callerGone: bool) | Other(transient: bool)

  datatype Reply = ErrorReply(err: UpstreamError) | NilReply | ResponseReply(status: int, hasBody: bool)

  datatype Event =
    | Selected(address: Address)                // the balancer handed out a selection
    | Refused(address: Address)                 // Allow returned false
    | Admitted(address: Address)                // Allow returned true
    | Called(address: Address, retryCount: nat, body: seq<byte>, reply: Reply)
    | Recorded(address: Address, record: Record)
    | Released(address: Address)                // the selection's Done took effect
    | Cleared                                   // the tried targets were forgotten
    | Slept(delay: nat)

  // ---------- the protocol of one request ----------

  /** Where a request stands: holding nothing, or holding a selection of a target and, from
      admission to the Record call, an admission of its breaker. */
  datatype Phase =
    | Idle
    | Picked(address: Address)
    | TurnedAway(address: Address)
    | Entered(address: Address)
    | InFlight(address: Address)
    | Settled(address: Address)
    | Broken

  /** The only legal order: select, ask the breaker; if refused, release; if admitted, call
      once, record once, release once. Anything else is Broken for good. */
  function Advance(p: Phase, e: Event): Phase {
    match (p, e)
    case (_, Cleared) => p
    case (Idle, Selected(a)) => Picked(a)
    case (Idle, Slept(_)) => Idle
    case (Picked(a), Refused(b)) => if a == b then TurnedAway(a) else Broken
    case (Picked(a), Admitted(b)) => if a == b then Entered(a) else Broken
    case (Entered(a), Called(b, _, _, _)) => if a == b then InFlight(a) else Broken
    case (InFlight(a), Recorded(b, _)) => if a == b then Settled(a) else Broken
    case (TurnedAway(a), Released(b)) => if a == b then Idle else Broken
    case (Settled(a), Released(b)) => if a == b then Idle else Broken
    case _ => Broken
  }

  function PhaseFrom(p: Phase, log: seq<Event>): Phase {
    if log == [] then p else Advance(PhaseFrom(p, log[..|log| - 1]), log[|log| - 1])
  }

  function PhaseOf(log: seq<Event>): Phase {
    PhaseFrom(Idle, log)
  }

  lemma {:induction false} PhaseSnoc(p: Phase, log: seq<Event>, e: Event)
    ensures PhaseFrom(p, log + [e]) == Advance(PhaseFrom(p, log), e)
  {
    assert (log + [e])[..|log|] == log;
  }

  lemma SettlingPhases(a: Address, r: Record)
    ensures PhaseFrom(InFlight(a), [Recorded(a, r)]) == Settled(a)
    ensures PhaseFrom(InFlight(a), [Recorded(a, r), Released(a)]) == Idle
    ensures PhaseFrom(Settled(a), [Released(a)]) == Idle
  {
    PhaseSnoc(InFlight(a), [], Recorded(a, r));
    PhaseSnoc(InFlight(a), [Recorded(a, r)], Released(a));
    PhaseSnoc(Settled(a), [], Released(a));
    assert [] + [Recorded(a, r)] == [Recorded(a, r)] && [] + [Released(a)] == [Released(a)];
    assert [Recorded(a, r)] + [Released(a)] == [Recorded(a, r), Released(a)];
  }

  lemma {:induction false} PhaseConcat(p: Phase, log: seq<Event>, more: seq<Event>)
    ensures PhaseFrom(p, log + more) == PhaseFrom(PhaseFrom(p, log), more)
  {
    if more == [] {
      assert log + more == log;
    } else {
      var n := |more| - 1;
      PhaseConcat(p, log, more[..n]);
      assert log + more == (log + more[..n]) + [more[n]];
      PhaseSnoc(p, log + more[..n], more[n]);
    }
  }

  lemma {:induction false} PrefixIsLegal(log: seq<Event>, n: nat)
    requires n <= |log| && PhaseOf(log) != Broken
    ensures PhaseOf(log[..n]) != Broken
  {
    if n == |log| {
      assert log[..n] == log;
    } else {
      var front := log[..|log| - 1];
      assert front[..n] == log[..n];
      PrefixIsLegal(front, n);
    }
  }

  predicate HoldsSelection(p: Phase, a: Address) {
    p in {Picked(a), TurnedAway(a), Entered(a), InFlight(a), Settled(a)}
  }

  predicate HoldsAdmission(p: Phase, a: Address) {
    p in {Entered(a), InFlight(a)}
  }

  // ---------- response bodies ----------

  /** The two wrappers around a body: the breaker's, which has yet to record the outcome, and
      outside it the balancer's, which has yet to release the selection. */
  datatype Body = Body(address: Address, breakerPending: bool, releasePending: bool)

  datatype ReadResult = Data | Eof | WrappedEof | ReadCallerError | ReadOtherError
  datatype CloseResult = Clean | CloseCallerError | CloseOtherError
  datatype BodyEvent = Read(read: ReadResult) | Close(closed: CloseResult)

  /** What breakerOnReadCloser would record at this event. */
  function RecordAt(e: BodyEvent): Option<Record> {
    match e
    case Read(Data) => None
    case Read(Eof) => Some(Succeeded)
    case Read(WrappedEof) => Some(Succeeded)
    case Read(ReadCallerError) => Some(Ignored)
    case Read(ReadOtherError) => Some(Failed)
    case Close(Clean) => Some(Ignored)
    case Close(CloseCallerError) => Some(Ignored)
    case Close(CloseOtherError) => Some(Failed)
  }

  /** releaseOnReadCloser compares with io.EOF itself, so a wrapped EOF does not release. */
  predicate ReleasesAt(e: BodyEvent) {
    e.Close? || e == Read(Eof)
  }

  function OnBody(b: Body, e: BodyEvent): (Body, seq<Event>) {
    var record := RecordAt(e);
    var recording := b.breakerPending && record.Some?;
    var releasing := b.releasePending && ReleasesAt(e);
    (b.(breakerPending := b.breakerPending && !recording, releasePending := b.releasePending && !releasing),
     (if recording then [Recorded(b.address, record.value)] else []) + if releasing then [Released(b.address)] else [])
  }

  /** The wrapped body as the object its reader holds: two wrappers, each with a sync.Once. */
  class WrappedBody {
    const address: Address
    const guarded: bool
    var breakerOnce: bool
    var releaseOnce: bool
    var log: seq<Event>

    ghost function View(): Body
      reads this
    {
      Body(address, guarded && !breakerOnce, !releaseOnce)
    }

    constructor (address: Address, guarded: bool)
      ensures this.address == address && this.guarded == guarded && log == [] && View() == Body(address, guarded, true)
    {
      this.address, this.guarded := address, guarded;
      breakerOnce, releaseOnce, log := false, false, [];
    }

    /** breakerOnReadCloser: at most one of succeed, fail and ignore ever runs. */
    method Settle(record: Record)
      modifies this`breakerOnce, this`log
      ensures log == old(log) + if guarded && !old(breakerOnce) then [Recorded(address, record)] else []
      ensures breakerOnce == (old(breakerOnce) || guarded)
    {
      if guarded && !breakerOnce {
        breakerOnce := true;
        log := log + [Recorded(address, record)];
      }
    }

    /** releaseOnReadCloser: the selection's Done runs at most once. */
    method Release()
      modifies this`releaseOnce, this`log
      ensures log == old(log) + if old(releaseOnce) then [] else [Released(address)]
      ensures releaseOnce
    {
      if !releaseOnce {
        releaseOnce := true;
        log := log + [Released(address)];
      }
    }

    method Read(result: ReadResult)
      modifies this
      ensures View() == OnBody(old(View()), BodyEvent.Read(result)).0
      ensures log == old(log) + OnBody(old(View()), BodyEvent.Read(result)).1
    {
      match result {
        case Data =>
        case Eof => Settle(Succeeded);
        case WrappedEof => Settle(Succeeded);
        case ReadCallerError => Settle(Ignored);
        case ReadOtherError => Settle(Failed);
      }
      if result == Eof {
        Release();
      }
      assert log == old(log) + OnBody(old(View()), BodyEvent.Read(result)).1;
    }

    method Close(result: CloseResult)
      modifies this
      ensures View() == OnBody(old(View()), BodyEvent.Close(result)).0
      ensures log == old(log) + OnBody(old(View()), BodyEvent.Close(result)).1
    {
      match result {
        case Clean => Settle(Ignored);
        case CloseCallerError => Settle(Ignored);
        case CloseOtherError => Settle(Failed);
      }
      Release();
      assert log == old(log) + OnBody(old(View()), BodyEvent.Close(result)).1;
    }
  }

  function BodyRun(b: Body, es: seq<BodyEvent>): (Body, seq<Event>) {
    if es == [] then (b, []) else
      var (before, log) := BodyRun(b, es[..|es| - 1]);
      var (after, more) := OnBody(before, es[|es| - 1]);
      (after, log + more)
  }

  /** The phase a request is in while it holds this body. */
  function BodyPhase(b: Body): Phase {
    if b.breakerPending then InFlight(b.address)
    else if b.releasePending then Settled(b.address)
    else Idle
  }

  /** The breaker wrapper sits inside the balancer's, so a body still owing its record also
      still owes its release. */
  predicate WellWrapped(b: Body) {
    b.breakerPending ==> b.releasePending
  }

  lemma BodyStepIsLegal(b: Body, e: BodyEvent)
    requires WellWrapped(b)
    ensures var (after, more) := OnBody(b, e);
      WellWrapped(after) && after.address == b.address && PhaseFrom(BodyPhase(b), more) == BodyPhase(after)
  {
    var more, a := OnBody(b, e).1, b.address;
    if RecordAt(e).Some? {
      var r := RecordAt(e).value;
      SettlingPhases(a, r);
      if b.breakerPending {
        assert more == if ReleasesAt(e) then [Recorded(a, r), Released(a)] else [Recorded(a, r)];
      } else {
        assert more == if b.releasePending && ReleasesAt(e) then [Released(a)] else [];
      }
    } else {
      assert more == [];
    }
  }

  /** For every sequence of reads and closes: the log stays legal, so nothing is recorded or
      released twice; and once the body has been closed everything is settled, so both have
      happened exactly once. */
  lemma {:induction false} BodySettlesExactlyOnce(b: Body, es: seq<BodyEvent>)
    requires WellWrapped(b)
    ensures var (after, log) := BodyRun(b, es);
      && WellWrapped(after) && after.address == b.address
      && PhaseFrom(BodyPhase(b), log) == BodyPhase(after)
      && ((exists e | e in es :: e.Close?) ==> BodyPhase(after) == Idle)
  {
    if es != [] {
      var n := |es| - 1;
      var (before, log) := BodyRun(b, es[..n]);
      var (after, more) := OnBody(before, es[n]);
      BodySettlesExactlyOnce(b, es[..n]);
      BodyStepIsLegal(before, es[n]);
      PhaseConcat(BodyPhase(b), log, more);
      assert BodyRun(b, es) == (after, log + more);
      assert PhaseFrom(BodyPhase(b), log + more) == BodyPhase(after);
      if e :| e in es && e.Close? {
        assert e == es[n] || e in es[..n];
      }
    }
  }

  /** The first event that is more than data. */
  function Decider(es: seq<BodyEvent>): Option<BodyEvent> {
    if es == [] then None
    else
      var d := Decider(es[..|es| - 1]);
      if d.Some? then d else if es[|es| - 1] == Read(Data) then None else Some(es[|es| - 1])
  }

  predicate IsDecider(es: seq<BodyEvent>, k: nat) {
    k < |es| && es[k] != Read(Data) && forall i | 0 <= i < k :: es[i] == Read(Data)
  }

  lemma {:induction false} DeciderIsFirst(es: seq<BodyEvent>)
    ensures match Decider(es)
      case None => forall i | 0 <= i < |es| :: es[i] == Read(Data)
      case Some(e) => exists k: nat :: IsDecider(es, k) && es[k] == e
  {
    if es != [] {
      var n := |es| - 1;
      DeciderIsFirst(es[..n]);
      if Decider(es[..n]).None? {
        assert forall i | 0 <= i < n :: es[i] == es[..n][i];
        assert Decider(es).Some? ==> IsDecider(es, n);
      } else {
        var k: nat :| IsDecider(es[..n], k) && es[..n][k] == Decider(es[..n]).value;
        assert forall i | 0 <= i < k :: es[i] == es[..n][i];
        assert IsDecider(es, k) && es[k] == Decider(es).value;
      }
    }
  }

  /** The log tells the breaker of the body what the deciding event says: a success if and only
      if it is the end of the body; a failure if and only if it is an error that is not the
      caller's own; ignored if and only if it is one that is, or a close without an error; and
      it tells other breakers nothing. */
  ghost predicate Heard(a: Address, log: seq<Event>, d: Option<BodyEvent>) {
    && (Recorded(a, Succeeded) in log <==> d in {Some(Read(Eof)), Some(Read(WrappedEof))})
    && (Recorded(a, Failed) in log <==> d in {Some(Read(ReadOtherError)), Some(Close(CloseOtherError))})
    && (Recorded(a, Ignored) in log <==>
          d in {Some(Read(ReadCallerError)), Some(Close(Clean)), Some(Close(CloseCallerError))})
    && (forall c, r | Recorded(c, r) in log :: c == a)
  }

  /** What the breaker hears of a body, for every sequence of reads and closes. */
  lemma {:induction false} BreakerHearsFirst(b: Body, es: seq<BodyEvent>)
    requires b.breakerPending
    ensures Heard(b.address, BodyRun(b, es).1, Decider(es))
    ensures BodyRun(b, es).0.breakerPending <==> Decider(es).None?
    ensures BodyRun(b, es).0.address == b.address
  {
    if es != [] {
      var n := |es| - 1;
      BreakerHearsFirst(b, es[..n]);
      HeardStep(BodyRun(b, es[..n]).0, BodyRun(b, es[..n]).1, Decider(es[..n]), es[n]);
    }
  }

  lemma HeardStep(b: Body, log: seq<Event>, d: Option<BodyEvent>, e: BodyEvent)
    requires Heard(b.address, log, d) && (b.breakerPending <==> d.None?)
    ensures var d' := if d.Some? then d else if e == Read(Data) then None else Some(e);
      && Heard(b.address, log + OnBody(b, e).1, d')
      && (OnBody(b, e).0.breakerPending <==> d'.None?) && OnBody(b, e).0.address == b.address
  {
  }

  /** The selection is released by the first close or plain end of the body, and not before: at
      any moment it has been if and only if there has been one. */
  lemma {:induction false} ReleasedAtFirst(b: Body, es: seq<BodyEvent>)
    requires b.releasePending
    ensures Released(b.address) in BodyRun(b, es).1 <==> exists e | e in es :: e.Close? || e == Read(Eof)
    ensures BodyRun(b, es).0.releasePending <==> !exists e | e in es :: e.Close? || e == Read(Eof)
    ensures BodyRun(b, es).0.address == b.address
  {
    if es != [] {
      var n := |es| - 1;
      ReleasedAtFirst(b, es[..n]);
      assert es == es[..n] + [es[n]];
    }
  }
}
