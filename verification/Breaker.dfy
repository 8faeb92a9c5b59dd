/** The Breaker object. Each method is one critical section; `now` is the clock reading it
    takes and `emitted` the argument of the state-change callback it makes, if any. The
    failure list is a slice: a buffer of which the first `count` elements are in use. */
module Breaker {
  import opened Common
  import opened BreakerCore

  /** The body of pruneFailuresLocked: the kept instants are moved down over the dropped
      ones within the same backing array. */
  method CompactInPlace(a: array<nat>, n: nat, cutoff: int) returns (kept: nat)
    requires n <= a.Length
    modifies a
    ensures kept <= n && a[..kept] == Kept(old(a[..n]), cutoff)
  {
    ghost var was := a[..n];
    kept := 0;
    for i := 0 to n
      invariant kept <= i
      invariant a[..kept] == Kept(was[..i], cutoff)
      invariant forall j | i <= j < n :: a[j] == was[j]
    {
      assert was[..i + 1][..i] == was[..i];
      if a[i] < cutoff {
        continue;
      }
      a[kept] := a[i];
      kept := kept + 1;
      assert a[..kept] == a[..kept - 1] + [was[i]];
    }
    assert was[..n] == was;
  }

  class Breaker {
    const config: Config
    var state: State
    var openUntil: int
    var buffer: array<nat>
    var count: nat
    var halfOpenSuccesses: nat
    var halfOpenInFlight: nat

    ghost predicate Sound()
      reads this
    {
      count <= buffer.Length && Normal(config)
    }

    /** The breaker's state as a value. */
    ghost function View(): Core
      requires Sound()
      reads this, buffer
    {
      Core(state, openUntil, buffer[..count], halfOpenSuccesses, halfOpenInFlight)
    }

    constructor (cfg: Config)
      ensures Sound() && fresh(buffer) && config == Normalize(cfg) && View() == FRESH
    {
      config := Normalize(cfg);
      state := Closed;
      openUntil := 0;
      buffer := new nat[0];
      count := 0;
      halfOpenSuccesses := 0;
      halfOpenInFlight := 0;
    }

    method Allow(now: nat) returns (allowed: bool, emitted: Option<State>)
      requires Sound()
      modifies this
      ensures Sound() && buffer == old(buffer)
      ensures allowed == Admits(config, old(View()), now)
      ensures View() == Step(config, old(View()), Event(BreakerCore.Allow, now))
      ensures emitted == Emits(config, old(View()), Event(BreakerCore.Allow, now))
      ensures emitted == if state != old(state) then Some(state) else None
    {
      emitted := None;
      if state == Open && now >= openUntil {
        state := HalfOpen;
        halfOpenSuccesses := 0;
        halfOpenInFlight := 0;
        emitted := Some(HalfOpen);
      }
      match state
      case Closed => allowed := true;
      case Open => allowed := false;
      case HalfOpen =>
        if halfOpenInFlight >= config.halfOpenMax {
          allowed := false;
        } else {
          halfOpenInFlight := halfOpenInFlight + 1;
          allowed := true;
        }
    }

    method RecordSuccess(now: nat) returns (emitted: Option<State>)
      requires Sound()
      modifies this, buffer
      ensures Sound() && buffer == old(buffer)
      ensures View() == Step(config, old(View()), Event(Success, now))
      ensures emitted == Emits(config, old(View()), Event(Success, now))
      ensures emitted == if state != old(state) then Some(state) else None
    {
      emitted := None;
      match state
      case Closed => PruneFailures(now);
      case Open =>
      case HalfOpen =>
        if halfOpenInFlight > 0 {
          halfOpenInFlight := halfOpenInFlight - 1;
        }
        halfOpenSuccesses := halfOpenSuccesses + 1;
        if halfOpenSuccesses >= config.successThreshold && halfOpenInFlight == 0 {
          emitted := Close();
        }
    }

    method RecordFailure(now: nat) returns (emitted: Option<State>)
      requires Sound()
      modifies this, buffer
      ensures Sound() && (buffer == old(buffer) || fresh(buffer))
      ensures View() == Step(config, old(View()), Event(Failure, now))
      ensures emitted == Emits(config, old(View()), Event(Failure, now))
      ensures emitted == if state != old(state) then Some(state) else None
    {
      emitted := None;
      match state
      case Closed => emitted := RecordFailureWhenClosed(now);
      case Open =>
      case HalfOpen =>
        if halfOpenInFlight > 0 {
          halfOpenInFlight := halfOpenInFlight - 1;
        }
        emitted := OpenUp(now);
    }

    method RecordFailureWhenClosed(now: nat) returns (emitted: Option<State>)
      requires Sound() && state == Closed
      modifies this, buffer
      ensures Sound() && (buffer == old(buffer) || fresh(buffer))
      ensures View() == Step(config, old(View()), Event(Failure, now))
      ensures emitted == if state == Open then Some(Open) else None
    {
      emitted := None;
      Append(now);
      PruneFailures(now);
      if count >= config.failureThreshold {
        emitted := OpenUp(now);
      }
    }

    method RecordIgnored(now: nat) returns (emitted: Option<State>)
      requires Sound()
      modifies this
      ensures Sound() && buffer == old(buffer)
      ensures View() == Step(config, old(View()), Event(Ignored, now))
      ensures emitted == Emits(config, old(View()), Event(Ignored, now))
      ensures emitted == if state != old(state) then Some(state) else None
    {
      emitted := None;
      if state == HalfOpen && halfOpenInFlight > 0 {
        halfOpenInFlight := halfOpenInFlight - 1;
        if halfOpenSuccesses >= config.successThreshold && halfOpenInFlight == 0 {
          emitted := Close();
        }
      }
    }

    method ForceClose(now: nat) returns (emitted: Option<State>)
      requires Sound()
      modifies this
      ensures Sound() && buffer == old(buffer)
      ensures View() == Step(config, old(View()), Event(BreakerCore.ForceClose, now))
      ensures emitted == Emits(config, old(View()), Event(BreakerCore.ForceClose, now))
      ensures emitted == Some(Closed) && View() == FRESH
    {
      emitted := Close();
    }

    method CurrentState(now: nat) returns (s: State)
      requires Sound()
      ensures s == Reported(View(), now)
    {
      s := if state == Open && now >= openUntil then HalfOpen else state;
    }

    /** cloneWithConfig: a new object with its own failure buffer; this one is untouched. */
    method CloneWithConfig(cfg: Config, now: nat) returns (clone: Breaker, emitted: Option<State>)
      requires Sound()
      ensures fresh(clone) && fresh(clone.buffer) && clone.Sound() && clone.config == Normalize(cfg)
      ensures clone.View() == Clone(config, Normalize(cfg), View(), now)
      ensures emitted == if clone.View().state != state then Some(clone.View().state) else None
    {
      clone := new Breaker(cfg);
      var copied := new nat[count](i requires 0 <= i < count <= buffer.Length reads this, buffer => buffer[i]);
      assert copied[..count] == buffer[..count];
      clone.state, clone.openUntil := state, openUntil;
      clone.buffer, clone.count := copied, count;
      clone.halfOpenSuccesses, clone.halfOpenInFlight := halfOpenSuccesses, halfOpenInFlight;
      emitted := clone.Reconcile(config, now);
    }

    method Reconcile(previous: Config, now: nat) returns (emitted: Option<State>)
      requires Sound() && Normal(previous)
      modifies this, buffer
      ensures Sound() && buffer == old(buffer)
      ensures View() == Clone(previous, config, old(View()), now)
      ensures emitted == if state != old(state) then Some(state) else None
    {
      emitted := None;
      PruneFailures(now);
      ghost var kept := View();
      match state
      case Closed =>
        assert count == |kept.failures|;
        if count >= config.failureThreshold {
          emitted := OpenUp(now);
        }
      case Open =>
        if openUntil != 0 {
          var openedAt := openUntil - previous.timeout;
          openUntil := openedAt + config.timeout;
        }
      case HalfOpen => emitted := ReconcileHalfOpen();
    }

    method ReconcileHalfOpen() returns (emitted: Option<State>)
      requires Sound() && state == HalfOpen
      modifies this
      ensures Sound() && buffer == old(buffer)
      ensures var capped := old(View()).(inFlight := AtMost(old(halfOpenInFlight), config.halfOpenMax));
        View() == if ReadyToClose(config, capped) then FRESH else capped
      ensures emitted == if state == Closed then Some(Closed) else None
    {
      emitted := None;
      if halfOpenInFlight > config.halfOpenMax {
        halfOpenInFlight := config.halfOpenMax;
      }
      if halfOpenSuccesses >= config.successThreshold && halfOpenInFlight == 0 {
        emitted := Close();
      }
    }

    method OpenUp(now: nat) returns (emitted: Option<State>)
      requires Sound()
      modifies this
      ensures Sound() && buffer == old(buffer) && View() == Opened(config, now) && emitted == Some(Open)
    {
      state := Open;
      openUntil := now + config.timeout;
      count := 0;
      halfOpenSuccesses := 0;
      halfOpenInFlight := 0;
      emitted := Some(Open);
    }

    method Close() returns (emitted: Option<State>)
      requires Sound()
      modifies this
      ensures Sound() && buffer == old(buffer) && View() == FRESH && emitted == Some(Closed)
    {
      state := Closed;
      openUntil := 0;
      count := 0;
      halfOpenSuccesses := 0;
      halfOpenInFlight := 0;
      emitted := Some(Closed);
    }

    method PruneFailures(now: nat)
      requires Sound()
      modifies this`count, buffer
      ensures Sound()
      ensures View() == old(View()).(failures := Kept(old(View()).failures, now - config.windowSize))
    {
      if config.windowSize <= 0 || count == 0 {
        return;
      }
      count := CompactInPlace(buffer, count, now - config.windowSize);
    }

    /** append: reuses the backing array while it has room, and moves to a larger one after. */
    method Append(now: nat)
      requires Sound()
      modifies this`count, this`buffer, buffer
      ensures Sound() && (buffer == old(buffer) || fresh(buffer))
      ensures View() == old(View()).(failures := old(View()).failures + [now])
    {
      ghost var was := buffer[..count];
      if count == buffer.Length {
        var larger := new nat[2 * buffer.Length + 1](i reads this, buffer =>
          if 0 <= i < buffer.Length then buffer[i] else 0);
        assert larger[..count] == was;
        buffer := larger;
      }
      buffer[count] := now;
      count := count + 1;
      assert buffer[..count] == was + [now];
    }
  }
}
