/** The observatory runs one load scenario at a time. Starting, stopping, resetting and
    completing runs are separate goroutines that meet in critical sections under one mutex;
    each critical section is one step here, and the steps come in any order. */
module ScenarioSlot {
  import opened Common

  datatype Status = StatusIdle | StatusRunning | StatusStopping | StatusError

  /** Where a run's goroutines are: inside runner.Start; watched; stopped during its start and
      about to be completed; or done. */
  datatype Place = Launching | Watched | Late | Ended

  datatype Run = Run(name: string, place: Place, cancelled: bool)

  datatype App = App(starting: Option<nat>, active: Option<nat>, runs: seq<Run>, status: map<string, Status>)

  const INITIAL := App(None, None, [], map[])

  datatype Step =
    | Begin(name: string)                       // startScenario, first section
    | StartFailed(id: nat, canceled: bool)      // startScenario, second section, after an error
    | StartSucceeded(id: nat)                   // startScenario, second section
    | Stop(name: string)                        // stopScenario
    | CancelActive                              // cancelActiveScenario, on reset
    | Cancel(id: nat)                           // run.cancel(), outside the lock
    | Complete(id: nat, failed: bool)           // completeScenario

  function StatusOf(s: App, name: string): Status {
    if name in s.status then s.status[name] else StatusIdle
  }

  /** The run that Stop and CancelActive act on. */
  function Occupant(s: App): Option<nat> {
    if s.active.Some? then s.active else s.starting
  }

  function Unless(slot: Option<nat>, id: nat): Option<nat> {
    if slot == Some(id) then None else slot
  }

  function Moved(s: App, id: nat, place: Place): seq<Run>
    requires id < |s.runs|
  {
    s.runs[id := s.runs[id].(place := place)]
  }

  /** One critical section. A step that its goroutine cannot be at does nothing. */
  function Next(s: App, step: Step): App {
    match step
    case Begin(name) =>
      if s.active.Some? || s.starting.Some? then s
      else App(Some(|s.runs|), None, s.runs + [Run(name, Launching, false)], s.status[name := StatusRunning])
    case StartFailed(id, canceled) =>
      if id >= |s.runs| || s.runs[id].place != Launching then s else
        var name := s.runs[id].name;
        var status := if canceled && StatusOf(s, name) == StatusStopping then StatusIdle else StatusError;
        App(Unless(s.starting, id), s.active, Moved(s, id, Ended), s.status[name := status])
    case StartSucceeded(id) =>
      if id >= |s.runs| || s.runs[id].place != Launching then s
      else if s.runs[id].cancelled then App(Unless(s.starting, id), s.active, Moved(s, id, Late), s.status)
      else App(Unless(s.starting, id), Some(id), Moved(s, id, Watched), s.status)
    case Stop(name) =>
      var occupant := Occupant(s);
      if occupant.None? || occupant.value >= |s.runs| || s.runs[occupant.value].name != name then s
      else s.(status := s.status[name := StatusStopping])
    case CancelActive =>
      var occupant := Occupant(s);
      if occupant.None? || occupant.value >= |s.runs| then s
      else s.(status := s.status[s.runs[occupant.value].name := StatusStopping])
    case Cancel(id) =>
      if id >= |s.runs| then s else s.(runs := s.runs[id := s.runs[id].(cancelled := true)])
    case Complete(id, failed) =>
      if id >= |s.runs| || s.runs[id].place !in {Watched, Late} || (failed && s.runs[id].place == Late) then s else
        App(Unless(s.starting, id), Unless(s.active, id), Moved(s, id, Ended),
            s.status[s.runs[id].name := if failed then StatusError else StatusIdle])
  }

  function Exec(steps: seq<Step>): App {
    if steps == [] then INITIAL else Next(Exec(steps[..|steps| - 1]), steps[|steps| - 1])
  }

  /** Busy statuses are only shown for scenarios that have a run which is not over. */
  ghost predicate BusyOnlyWithRun(s: App) {
    forall name | StatusOf(s, name) in {StatusRunning, StatusStopping} ::
      exists id :: 0 <= id < |s.runs| && s.runs[id].name == name && s.runs[id].place != Ended
  }

  /** The slot and the places of the runs describe the same thing. */
  ghost predicate SlotOk(s: App) {
    && !(s.starting.Some? && s.active.Some?)
    && (s.starting.Some? ==> s.starting.value < |s.runs|) && (s.active.Some? ==> s.active.value < |s.runs|)
    && (forall id | 0 <= id < |s.runs| ::
      && (s.runs[id].place == Launching <==> s.starting == Some(id))
      && (s.runs[id].place == Watched <==> s.active == Some(id)))
  }

  lemma SlotStep(s: App, step: Step)
    requires SlotOk(s)
    ensures SlotOk(Next(s, step))
  {
  }

  lemma BusyStep(s: App, step: Step)
    requires SlotOk(s) && BusyOnlyWithRun(s)
    ensures BusyOnlyWithRun(Next(s, step))
  {
    var s' := Next(s, step);
    forall name | StatusOf(s', name) in {StatusRunning, StatusStopping}
      ensures exists id :: 0 <= id < |s'.runs| && s'.runs[id].name == name && s'.runs[id].place != Ended
    {
      if step.Begin? && s'.runs != s.runs && name == step.name {
        assert s'.runs[|s.runs|].name == name;
      } else if (step.Stop? || step.CancelActive?) && StatusOf(s, name) !in {StatusRunning, StatusStopping} {
        assert s'.runs[Occupant(s).value].name == name;
      } else {
        assert StatusOf(s, name) in {StatusRunning, StatusStopping};
        var id :| 0 <= id < |s.runs| && s.runs[id].name == name && s.runs[id].place != Ended;
        assert s'.runs[id].name == name && s'.runs[id].place != Ended;
      }
    }
  }

  /** The slot as the object the goroutines share. Each method is one critical section; `id`
      is the run the calling goroutine holds. */
  class Slot {
    var starting: Option<nat>
    var active: Option<nat>
    var runs: seq<Run>
    var status: map<string, Status>

    ghost function View(): App
      reads this
    {
      App(starting, active, runs, status)
    }

    constructor ()
      ensures View() == INITIAL
    {
      starting, active, runs, status := None, None, [], map[];
    }

    /** startScenario up to the launch: None is errScenarioAlreadyRunning. */
    method BeginScenario(name: string) returns (id: Option<nat>)
      requires SlotOk(View())
      modifies this
      ensures SlotOk(View()) && View() == Next(old(View()), Begin(name))
      ensures id == if old(Occupant(View())).Some? then None else Some(|old(runs)|)
    {
      SlotStep(View(), Begin(name));
      if active.Some? || starting.Some? {
        return None;
      }
      id := Some(|runs|);
      runs := runs + [Run(name, Launching, false)];
      starting := id;
      status := status[name := StatusRunning];
    }

    /** startScenario after the launch; `error` is None, or whether it was a cancellation. */
    method FinishStart(id: nat, error: Option<bool>)
      requires SlotOk(View()) && id < |runs| && runs[id].place == Launching
      modifies this
      ensures SlotOk(View())
      ensures View() == Next(old(View()), if error.Some? then StartFailed(id, error.value) else StartSucceeded(id))
    {
      SlotStep(View(), if error.Some? then StartFailed(id, error.value) else StartSucceeded(id));
      var run := runs[id];
      if starting == Some(id) {
        starting := None;
      }
      if error.Some? {
        if error.value && run.name in status && status[run.name] == StatusStopping {
          status := status[run.name := StatusIdle];
        } else {
          status := status[run.name := StatusError];
        }
        runs := runs[id := run.(place := Ended)];
        return;
      }
      if run.cancelled {
        runs := runs[id := run.(place := Late)];
        return;
      }
      active := Some(id);
      runs := runs[id := run.(place := Watched)];
    }

    /** stopScenario and cancelActiveScenario, which asks for no name, up to the cancellation;
        None is errScenarioNotRunning. */
    method MarkStopping(name: Option<string>) returns (id: Option<nat>)
      requires SlotOk(View())
      modifies this`status
      ensures SlotOk(View())
      ensures View() == Next(old(View()), if name.Some? then Stop(name.value) else CancelActive)
      ensures id.Some? ==> id == Occupant(View()) && id.value < |runs|
      ensures id.Some? ==> status == old(status)[runs[id.value].name := StatusStopping]
      ensures id.None? ==> status == old(status)
    {
      SlotStep(View(), if name.Some? then Stop(name.value) else CancelActive);
      id := active;
      if id.None? {
        id := starting;
      }
      if id.None? || (name.Some? && runs[id.value].name != name.value) {
        return None;
      }
      status := status[runs[id.value].name := StatusStopping];
    }

    /** completeScenario, of which only the first call for a run counts. */
    method CompleteScenario(id: nat, failed: bool)
      requires SlotOk(View()) && id < |runs| && runs[id].place != Launching && (failed ==> runs[id].place != Late)
      modifies this
      ensures SlotOk(View()) && View() == Next(old(View()), Complete(id, failed))
    {
      SlotStep(View(), Complete(id, failed));
      var run := runs[id];
      if run.place == Ended {
        return;
      }
      active, starting := Unless(active, id), Unless(starting, id);
      status := status[run.name := if failed then StatusError else StatusIdle];
      runs := runs[id := run.(place := Ended)];
    }
  }

  /** No run is in the slot, and none is still finishing. */
  ghost predicate Quiet(s: App) {
    s.starting.None? && s.active.None? && forall id | 0 <= id < |s.runs| :: s.runs[id].place != Late
  }

  lemma QuietIsIdle(s: App, name: string)
    requires SlotOk(s) && BusyOnlyWithRun(s) && Quiet(s)
    ensures StatusOf(s, name) in {StatusIdle, StatusError}
  {
    assert StatusOf(s, name).StatusIdle? || StatusOf(s, name).StatusError?
        || StatusOf(s, name).StatusRunning? || StatusOf(s, name).StatusStopping?;
  }

  /** In every interleaving at most one of `starting` and `active` is set; and when no run is
      in the slot or still finishing, every scenario's status is idle or error. */
  lemma {:induction false} OneRunAtATime(steps: seq<Step>)
    ensures SlotOk(Exec(steps)) && BusyOnlyWithRun(Exec(steps))
    ensures Quiet(Exec(steps)) ==> forall name :: StatusOf(Exec(steps), name) in {StatusIdle, StatusError}
  {
    if steps != [] {
      OneRunAtATime(steps[..|steps| - 1]);
      SlotStep(Exec(steps[..|steps| - 1]), steps[|steps| - 1]);
      BusyStep(Exec(steps[..|steps| - 1]), steps[|steps| - 1]);
    }
    var s := Exec(steps);
    if Quiet(s) {
      forall name
        ensures StatusOf(s, name) in {StatusIdle, StatusError}
      {
        QuietIsIdle(s, name);
      }
    }
  }

  predicate Occupies(s: App, name: string) {
    Occupant(s).Some? && Occupant(s).value < |s.runs| && s.runs[Occupant(s).value].name == name
  }

  /** A scenario's status changes only by its own begin, by the end of one of its own runs, or
      by a stop while it occupies the slot: a stop under another name changes nothing. */
  lemma StatusIsOwn(steps: seq<Step>, step: Step, name: string)
    requires StatusOf(Next(Exec(steps), step), name) != StatusOf(Exec(steps), name)
    ensures var s := Exec(steps);
      match step
      case Begin(n) => n == name && Occupant(s).None?
      case StartFailed(id, _) => id < |s.runs| && s.runs[id].name == name && s.runs[id].place == Launching
      case Complete(id, _) => id < |s.runs| && s.runs[id].name == name && s.runs[id].place in {Watched, Late}
      case Stop(n) => n == name && Occupies(s, name)
      case CancelActive => Occupies(s, name)
      case StartSucceeded(_) => false
      case Cancel(_) => false
  {
  }

  /** What each of these steps shows, over every run: a begin is refused exactly while the slot
      is occupied; a stop or reset marks the occupant and nothing else; the end of a run shows
      error exactly when it failed, and for a start that failed unless it was cancelled after a
      stop. */
  lemma StatusShown(steps: seq<Step>, step: Step)
    ensures var s := Exec(steps); var s' := Next(s, step);
      match step
      case Begin(n) =>
        if Occupant(s).Some? then s' == s
        else
          && s'.starting == Some(|s.runs|) && s'.runs == s.runs + [Run(n, Launching, false)]
          && StatusOf(s', n) == StatusRunning
      case Stop(n) => if Occupies(s, n) then s' == s.(status := s.status[n := StatusStopping]) else s' == s
      case CancelActive => forall n | Occupies(s, n) :: s' == s.(status := s.status[n := StatusStopping])
      case Complete(id, failed) =>
        id < |s.runs| && (s.runs[id].place == Watched || (s.runs[id].place == Late && !failed)) ==>
          && StatusOf(s', s.runs[id].name) == (if failed then StatusError else StatusIdle)
          && s'.runs[id].place == Ended && s'.active != Some(id) && s'.starting != Some(id)
      case StartFailed(id, canceled) =>
        id < |s.runs| && s.runs[id].place == Launching ==>
          && (StatusOf(s', s.runs[id].name) == StatusIdle <==>
                canceled && StatusOf(s, s.runs[id].name) == StatusStopping)
          && StatusOf(s', s.runs[id].name) in {StatusIdle, StatusError} && s'.starting.None? && s'.active.None?
      case StartSucceeded(id) =>
        id < |s.runs| && s.runs[id].place == Launching ==>
          && s'.starting.None? && s'.status == s.status
          && s'.active == if s.runs[id].cancelled then None else Some(id)
      case Cancel(id) => id < |s.runs| ==> s'.runs[id].cancelled && s'.status == s.status
  {
    OneRunAtATime(steps);
  }

  /** A completion never evicts a run other than its own. */
  lemma CompletionEvictsOnlyItself(s: App, id: nat, failed: bool)
    ensures var s' := Next(s, Complete(id, failed));
      && (s.active != Some(id) ==> s'.active == s.active) && (s.starting != Some(id) ==> s'.starting == s.starting)
      && (SlotOk(s) && id < |s.runs| && s.runs[id].place == Late ==> Occupant(s') == Occupant(s))
  {
  }

  // ---------- is the occupant shown as running? ----------

  /** The run in the slot is shown as running or stopping. */
  ghost predicate ShownBusy(s: App) {
    Occupant(s).Some? && Occupant(s).value < |s.runs| ==>
      StatusOf(s, s.runs[Occupant(s).value].name) in {StatusRunning, StatusStopping}
  }

  /** The completion of a run that was stopped during its start, while a newer run of the same
      scenario occupies the slot. */
  predicate LateOverwrite(s: App, step: Step) {
    && step.Complete? && !step.failed && step.id < |s.runs| && s.runs[step.id].place == Late
    && Occupant(s).Some? && Occupant(s).value < |s.runs| && s.runs[Occupant(s).value].name == s.runs[step.id].name
  }

  /** Exactly such a completion makes a running scenario show as idle. */
  lemma OnlyLateOverwriteHidesRun(s: App, step: Step)
    requires SlotOk(s) && ShownBusy(s)
    ensures ShownBusy(Next(s, step)) <==> !LateOverwrite(s, step)
  {
  }

  /** It does happen: a scenario is stopped while it starts, started again, and the first
      run's completion marks it idle although the second is active. */
  lemma {:induction false} LateOverwriteIsReachable(steps: seq<Step>, name: string)
    requires |steps| == 7 && steps[0] == steps[4] == Begin(name) && steps[1] == Stop(name) && steps[2] == Cancel(0)
    requires steps[3] == StartSucceeded(0) && steps[5] == StartSucceeded(1) && steps[6] == Complete(0, false)
    ensures Exec(steps).active == Some(1) && StatusOf(Exec(steps), name) == StatusIdle
  {
    StoppedDuringStart(steps, name);
    ExecPrefix(steps, 4);
    ExecPrefix(steps, 5);
    var late, second := Run(name, Late, true), Run(name, Watched, false);
    assert Exec(steps[..6]) == App(None, Some(1), [late, second], map[name := StatusRunning]);
    ExecPrefix(steps, 6);
    assert steps[..7] == steps;
  }

  lemma StoppedDuringStart(steps: seq<Step>, name: string)
    requires |steps| >= 4 && steps[0] == Begin(name) && steps[1] == Stop(name) && steps[2] == Cancel(0)
    requires steps[3] == StartSucceeded(0)
    ensures Exec(steps[..4]) == App(None, None, [Run(name, Late, true)], map[name := StatusStopping])
  {
    ExecPrefix(steps, 0);
    ExecPrefix(steps, 1);
    assert Exec(steps[..2]) == App(Some(0), None, [Run(name, Launching, false)], map[name := StatusStopping]);
    ExecPrefix(steps, 2);
    ExecPrefix(steps, 3);
  }

  lemma ExecPrefix(steps: seq<Step>, n: nat)
    requires n < |steps|
    ensures Exec(steps[..n + 1]) == Next(Exec(steps[..n]), steps[n])
  {
    assert steps[..n + 1][..n] == steps[..n];
  }

  /** A scenario is begun only when no earlier run of it is still finishing late. */
  predicate BeginsAlone(s: App, step: Step) {
    step.Begin? ==> forall id | 0 <= id < |s.runs| :: !(s.runs[id].place == Late && s.runs[id].name == step.name)
  }

  ghost predicate NoLateNamesake(s: App) {
    Occupant(s).Some? && Occupant(s).value < |s.runs| ==>
      forall id | 0 <= id < |s.runs| && s.runs[id].place == Late :: s.runs[id].name != s.runs[Occupant(s).value].name
  }

  lemma NamesakeStep(s: App, step: Step)
    requires SlotOk(s) && NoLateNamesake(s) && BeginsAlone(s, step)
    ensures NoLateNamesake(Next(s, step))
  {
  }

  /** If every scenario is begun alone in that sense, the run in the slot is always shown as
      running or stopping. */
  lemma {:induction false} BegunAloneIsShownBusy(steps: seq<Step>)
    requires forall i | 0 <= i < |steps| :: BeginsAlone(Exec(steps[..i]), steps[i])
    ensures ShownBusy(Exec(steps)) && NoLateNamesake(Exec(steps))
  {
    if steps != [] {
      var front, last := steps[..|steps| - 1], steps[|steps| - 1];
      forall i | 0 <= i < |front|
        ensures BeginsAlone(Exec(front[..i]), front[i])
      {
        assert front[..i] == steps[..i];
      }
      BegunAloneIsShownBusy(front);
      OneRunAtATime(front);
      NamesakeStep(Exec(front), last);
      OnlyLateOverwriteHidesRun(Exec(front), last);
    }
  }
}
