/** The life of the database units and the main loop, as a step system: every atomic
    store, channel operation and branch choice is one step, and steps of different tasks
    interleave freely. */
module Supervisor {

  datatype Status = Exited | Running | Failed

  /** Where a unit stands. Up to `Stored` the main task is inside `DatabaseUnit::start`;
      from `Selecting` on the spawned task runs. */
  datatype Pc =
    | Idle                       // not started
    | Stored                     // status stored, gauge not yet set
    | Selecting(polled: bool)    // in select!; polled: wait() has taken the pipeline
    | WaitOk | OkGauged          // the pipeline ended: gauge, then status
    | WaitErr | Reconnecting     // the pipeline failed: gauge, then reconnect
    | Rebuilt | Sleeping         // reconnected: gauge, then one second of sleep
    | ReconnectFailed
    | Stopping(polled: bool)     // the shutdown branch was chosen
    | Draining(signalled: bool)  // signal_shutdown done, waiting for at most 30 seconds
    | StopWaited | StopGauged
    | Closing | ClosingGauged    // the shutdown sender is gone
    | Sending                    // terminal status stored, about to send the exit signal
    | Done

  datatype Unit = Unit(pc: Pc, status: Status, gauge: bool, pipeline: bool, shutdownPending: bool)

  const FRESH := Unit(Idle, Exited, false, false, false)

  predicate Terminal(u: Unit) { u.status.Exited? || u.status.Failed? }

  datatype Main =
    | Starting(next: nat)        // Supervisor::start
    | Looping                    // in select!
    | Checking(next: nat)        // all_terminated, one status after the other
    | Reloading
    | Signalling(next: nat)      // Supervisor::shutdown, one unit after the other
    | Over(result: Outcome)      // run() has returned

  /** What run() returns, and the process turns into its exit code. */
  datatype Outcome = Ok | Err

  /** `queue` is the exit channel; `received` the units whose signal the loop has taken. */
  datatype State = State(units: seq<Unit>, queue: seq<nat>, capacity: nat, received: set<nat>, main: Main)

  /** What the environment or the scheduler decides for a unit's task. */
  datatype Action =
    | Poll                             // the wait branch is polled for the first time
    | WaitReturns(ok: bool)
    | ShutdownSeen                     // the shutdown branch wins
    | SenderClosed                     // ... because the sender is gone
    | Reconnected(ok: bool, built: bool)
    | Advance                          // the next statement, where there is only one

  datatype Step =
    | Local(unit: nat, action: Action) | Send(unit: nat)
    | StartStore | StartSpawn | StartFail | WatchFail | StartDone
    | Receive | Check | ReloadBegin | ReloadEnd | CtrlC | Signal

  function Act(u: Unit, a: Action, closed: bool): Unit
  {
    match (u.pc, a)
    case (Selecting(false), Poll) =>
      if u.pipeline then u.(pc := Selecting(true), pipeline := false) else u.(pc := WaitErr)
    case (Selecting(true), WaitReturns(ok)) => u.(pc := if ok then WaitOk else WaitErr)
    case (Selecting(polled), ShutdownSeen) =>
      if u.shutdownPending then u.(pc := Stopping(polled), shutdownPending := false) else u
    case (Selecting(_), SenderClosed) => if closed && !u.shutdownPending then u.(pc := Closing) else u
    case (Reconnecting, Reconnected(ok, built)) =>
      u.(pc := if ok then Rebuilt else ReconnectFailed, pipeline := ok || built)
    case (WaitOk, Advance) => u.(pc := OkGauged, gauge := false)
    case (OkGauged, Advance) => u.(pc := Sending, status := Exited)
    case (WaitErr, Advance) => u.(pc := Reconnecting, gauge := false)
    case (Rebuilt, Advance) => u.(pc := Sleeping, gauge := true)
    case (Sleeping, Advance) => u.(pc := Selecting(false))
    case (ReconnectFailed, Advance) => u.(pc := Sending, status := Failed)
    case (Stopping(_), Advance) => u.(pc := Draining(u.pipeline))
    case (Draining(_), Advance) => u.(pc := StopWaited, pipeline := false)
    case (StopWaited, Advance) => u.(pc := StopGauged, gauge := false)
    case (StopGauged, Advance) => u.(pc := Sending, status := Exited)
    case (Closing, Advance) => u.(pc := ClosingGauged, gauge := false)
    case (ClosingGauged, Advance) => u.(pc := Done, status := Exited)
    case _ => u
  }

  /** One step; a step that is not enabled changes nothing. */
  function Do(s: State, step: Step): (t: State)
    ensures |t.units| == |s.units|
  {
    var n := |s.units|;
    match (step, s.main)
    case (Local(k, a), _) =>
      if k < n then s.(units := s.units[k := Act(s.units[k], a, s.main.Over?)]) else s
    case (Send(k), main) =>
      if k >= n || s.units[k].pc != Sending then s
      else if main.Over? then s.(units := s.units[k := s.units[k].(pc := Done)])
      else if |s.queue| >= s.capacity then s
      else s.(units := s.units[k := s.units[k].(pc := Done)], queue := s.queue + [k])
    case (StartStore, Starting(k)) =>
      if k < n && s.units[k].pc == Idle
      then s.(units := s.units[k := s.units[k].(pc := Stored, status := Running, pipeline := true)]) else s
    case (StartSpawn, Starting(k)) =>
      if k < n && s.units[k].pc == Stored
      then s.(units := s.units[k := s.units[k].(pc := Selecting(false), gauge := true)], main := Starting(k + 1)) else s
    case (StartFail, Starting(k)) => if k < n && s.units[k].pc == Idle then s.(main := Over(Err)) else s
    case (WatchFail, Starting(k)) => if k == n then s.(main := Over(Err)) else s
    case (StartDone, Starting(k)) => if k == n then s.(main := Looping) else s
    case (Receive, Looping) =>
      if s.queue == [] then s
      else s.(queue := s.queue[1..], received := s.received + {s.queue[0]}, main := Checking(0))
    case (Check, Checking(k)) =>
      if k >= n then s.(main := Over(Ok))
      else if Terminal(s.units[k]) then s.(main := Checking(k + 1))
      else s.(main := Looping)
    case (ReloadBegin, Looping) => s.(main := Reloading)
    case (ReloadEnd, Reloading) => s.(main := Looping)
    case (CtrlC, Looping) => s.(main := Signalling(0))
    case (Signal, Signalling(k)) =>
      if k >= n then s.(main := Looping)
      else s.(units := s.units[k := s.units[k].(shutdownPending := true)], main := Signalling(k + 1))
    case _ => s
  }

  /** `n` units for `databases` configured databases: the unit map has at most one entry
      for each, and the exit channel one slot for each. */
  function Initial(n: nat, databases: nat): State
  {
    State(seq(n, _ => FRESH), [], if databases > 1 then databases else 1, {}, Starting(0))
  }

  function Run(s: State, steps: seq<Step>): (t: State)
    ensures |t.units| == |s.units|
  {
    if steps == [] then s else Do(Run(s, steps[..|steps| - 1]), steps[|steps| - 1])
  }

  // ----- one unit

  predicate RunningPc(pc: Pc) { !pc.Idle? && !pc.Sending? && !pc.Done? }

  predicate ClosingPc(pc: Pc) { pc.Closing? || pc.ClosingGauged? }

  predicate GaugePc(pc: Pc)
  {
    || pc.Selecting? || pc.WaitOk? || pc.WaitErr? || pc.Sleeping?
    || pc.Stopping? || pc.Draining? || pc.StopWaited? || pc.Closing?
  }

  /** Status, gauge and pipeline at each place: the terminal status is stored before the
      signal is sent, and the gauge is up only while the status is Running. */
  predicate GoodUnit(u: Unit)
  {
    && (u.status.Running? <==> RunningPc(u.pc))
    && (u.gauge <==> GaugePc(u.pc))
    && (u.pc.Selecting? ==> u.pipeline == !u.pc.polled)
    && (u.pc.Stopping? ==> u.pipeline == !u.pc.polled)
    && (u.pc.Stored? || u.pc.Rebuilt? || u.pc.Sleeping? ==> u.pipeline)
  }

  lemma ActKeeps(u: Unit, a: Action, closed: bool)
    requires GoodUnit(u)
    ensures var v := Act(u, a, closed);
      && GoodUnit(v)
      && (u.pc.Idle? || u.pc.Stored? || u.pc.Sending? || u.pc.Done? ==> v == u)
      && (v.pc.Idle? || v.pc.Stored? || v.pc.Done? ==> v == u || u.pc.ClosingGauged?)
      && (ClosingPc(v.pc) ==> closed || ClosingPc(u.pc))
  {
  }

  // ----- the invariant

  /** How far `start` has come. */
  predicate Started(s: State)
  {
    match s.main
    case Starting(k) =>
      && k <= |s.units|
      && (forall j :: 0 <= j < k ==> !s.units[j].pc.Idle? && !s.units[j].pc.Stored?)
      && (forall j :: k < j < |s.units| ==> s.units[j].pc.Idle?)
      && (k < |s.units| ==> s.units[k].pc.Idle? || s.units[k].pc.Stored?)
      && s.received == {}
    case Over(_) => true
    case _ => forall j :: 0 <= j < |s.units| ==> !s.units[j].pc.Idle? && !s.units[j].pc.Stored?
  }

  /** While the program runs, a finished unit's signal is in the channel or has been taken,
      never both and never twice. */
  predicate Signals(s: State)
  {
    && (forall i, j :: 0 <= i < j < |s.queue| ==> s.queue[i] != s.queue[j])
    && (forall k <- s.queue :: k < |s.units| && s.units[k].pc.Done? && k !in s.received)
    && (forall k <- s.received :: k < |s.units| && s.units[k].pc.Done?)
    && (!s.main.Over? ==> forall k :: 0 <= k < |s.units| && s.units[k].pc.Done? ==> k in s.queue || k in s.received)
  }

  /** Between checks some unit's signal is still to come; a check has seen terminal
      statuses so far. */
  predicate Awaited(s: State)
  {
    match s.main
    case Starting(_) => true
    case Checking(k) => k <= |s.units| && forall j :: 0 <= j < k ==> Terminal(s.units[j])
    case Over(result) => result.Ok? ==> forall j :: 0 <= j < |s.units| ==> Terminal(s.units[j])
    case _ => |s.units| > 0 ==> exists k :: 0 <= k < |s.units| && k !in s.received
  }

  predicate Inv(s: State)
  {
    && |s.units| <= s.capacity
    && (forall k :: 0 <= k < |s.units| ==> GoodUnit(s.units[k]) && (ClosingPc(s.units[k].pc) ==> s.main.Over?))
    && Started(s) && Signals(s) && Awaited(s)
  }

  lemma LocalKeeps(s: State, k: nat, a: Action)
    requires Inv(s) && k < |s.units|
    ensures Inv(Do(s, Local(k, a)))
  {
    hide Act, GoodUnit;
    ActKeeps(s.units[k], a, s.main.Over?);
    TerminalPc(s.units[k]);
    TerminalPc(Act(s.units[k], a, s.main.Over?));
  }

  lemma TerminalPc(u: Unit)
    requires GoodUnit(u)
    ensures Terminal(u) <==> u.pc.Idle? || u.pc.Sending? || u.pc.Done?
  {
  }

  /** The channel has room for whoever is about to send. */
  lemma RoomToSend(s: State, k: nat)
    requires Inv(s) && k < |s.units| && s.units[k].pc.Sending?
    ensures |s.queue| < s.capacity
  {
    Distinct(s.queue, Below(|s.units|) - {k});
  }

  lemma {:induction false} Distinct(q: seq<nat>, ids: set<nat>)
    requires forall i, j :: 0 <= i < j < |q| ==> q[i] != q[j]
    requires forall k <- q :: k in ids
    ensures |q| <= |ids|
  {
    if q != [] {
      var last := q[|q| - 1];
      Distinct(q[..|q| - 1], ids - {last});
    }
  }

  function Below(n: nat): (ids: set<nat>)
    ensures |ids| == n && forall k: nat :: k in ids <==> k < n
  {
    if n == 0 then {} else Below(n - 1) + {n - 1}
  }

  lemma SentKeeps(u: Unit)
    requires GoodUnit(u) && u.pc.Sending?
    ensures GoodUnit(u.(pc := Done))
  {
  }

  lemma SendKeeps(s: State, k: nat)
    requires Inv(s) && k < |s.units| && s.units[k].pc.Sending?
    ensures Inv(Do(s, Send(k)))
    ensures !s.main.Over? ==> Do(s, Send(k)).queue == s.queue + [k]
  {
    RoomToSend(s, k);
    SentKeeps(s.units[k]);
    hide Act, GoodUnit;
    var t := Do(s, Send(k));
    assert forall j :: 0 <= j < |s.units| && j != k ==> t.units[j] == s.units[j];
  }

  lemma StartKeeps(s: State, step: Step)
    requires Inv(s) && s.main.Starting? && !step.Local? && !step.Send?
    ensures Inv(Do(s, step))
  {
    var t, k := Do(s, step), s.main.next;
    assert forall j :: 0 <= j < |s.units| && j != k ==> t.units[j] == s.units[j];
    if t.main.Looping? && |s.units| > 0 {
      assert 0 !in s.received;
    }
  }

  lemma ReceiveKeeps(s: State)
    requires Inv(s) && s.main.Looping?
    ensures Inv(Do(s, Receive))
  {
    hide GoodUnit;
    if s.queue != [] {
      var t, first := Do(s, Receive), s.queue[0];
      assert s.queue == [first] + t.queue && first in s.queue && first !in t.queue;
      assert forall k :: k in s.queue <==> k == first || k in t.queue;
      assert t.received == s.received + {first};
    }
  }

  lemma CheckKeeps(s: State)
    requires Inv(s) && s.main.Checking?
    ensures Inv(Do(s, Check))
  {
    hide GoodUnit;
    var k := s.main.next;
    if k < |s.units| && !Terminal(s.units[k]) {
      TerminalPc(s.units[k]);
      assert k !in s.received;
    }
  }

  lemma SignalKeeps(s: State)
    requires Inv(s) && s.main.Signalling?
    ensures Inv(Do(s, Signal))
  {
    var t := Do(s, Signal);
    assert forall j :: 0 <= j < |s.units| && j != s.main.next ==> t.units[j] == s.units[j];
  }

  lemma ReloadKeeps(s: State, step: Step)
    requires Inv(s) && (step.ReloadBegin? || step.ReloadEnd? || step.CtrlC?)
    ensures Inv(Do(s, step))
  {
    hide GoodUnit;
  }

  lemma StepKeeps(s: State, step: Step)
    requires Inv(s)
    ensures Inv(Do(s, step))
  {
    if step.Local? {
      if step.unit < |s.units| {
        LocalKeeps(s, step.unit, step.action);
      }
    } else if step.Send? {
      if step.unit < |s.units| && s.units[step.unit].pc.Sending? {
        SendKeeps(s, step.unit);
      }
    } else if s.main.Starting? {
      StartKeeps(s, step);
    } else if step.ReloadBegin? || step.ReloadEnd? || step.CtrlC? {
      ReloadKeeps(s, step);
    } else if s.main.Looping? && step.Receive? {
      ReceiveKeeps(s);
    } else if s.main.Checking? && step.Check? {
      CheckKeeps(s);
    } else if s.main.Signalling? && step.Signal? {
      SignalKeeps(s);
    }
  }

  lemma {:induction false} RunKeeps(n: nat, databases: nat, steps: seq<Step>)
    requires n <= databases
    ensures Inv(Run(Initial(n, databases), steps))
  {
    hide Inv;
    if steps == [] {
      InitialGood(n, databases);
    } else {
      var before := Run(Initial(n, databases), steps[..|steps| - 1]);
      RunKeeps(n, databases, steps[..|steps| - 1]);
      StepKeeps(before, steps[|steps| - 1]);
    }
  }

  lemma InitialGood(n: nat, databases: nat)
    requires n <= databases
    ensures Inv(Initial(n, databases))
  {
  }

  // ----- what every run guarantees

  /** The loop is running, between two checks. */
  predicate InLoop(s: State) { s.main.Looping? || s.main.Reloading? || s.main.Signalling? }

  predicate AllTerminal(s: State) { forall k :: 0 <= k < |s.units| ==> Terminal(s.units[k]) }

  /** No exit is lost: in every reachable state with at least one unit, if all units are
      terminal and the loop has not broken, an exit signal is queued or about to be sent. */
  lemma NoLostExit(n: nat, databases: nat, steps: seq<Step>)
    requires 0 < n <= databases
    ensures var s := Run(Initial(n, databases), steps);
      InLoop(s) && AllTerminal(s) ==> s.queue != [] || exists k :: 0 <= k < n && s.units[k].pc.Sending?
  {
    RunKeeps(n, databases, steps);
    var s := Run(Initial(n, databases), steps);
    if InLoop(s) && AllTerminal(s) {
      var k :| 0 <= k < n && k !in s.received;
      TerminalPc(s.units[k]);
    }
  }

  /** A signal is sent only after the terminal status is stored, at most once by each
      unit, and without ever blocking; the gauge is up only while the status is Running. */
  lemma SignallingDiscipline(n: nat, databases: nat, steps: seq<Step>, k: nat)
    requires k < n <= databases
    ensures var s := Run(Initial(n, databases), steps);
      && (s.units[k].pc.Sending? ==> |s.queue| < s.capacity)
      && (s.units[k].pc.Sending? || k in s.queue || k in s.received ==> Terminal(s.units[k]))
      && (s.units[k].pc.Sending? ==> k !in s.queue && k !in s.received)
      && (k in s.queue ==> k !in s.received)
      && (forall i, j :: 0 <= i < j < |s.queue| ==> s.queue[i] != s.queue[j])
      && (s.units[k].gauge ==> s.units[k].status.Running?)
  {
    RunKeeps(n, databases, steps);
    var s := Run(Initial(n, databases), steps);
    if s.units[k].pc.Sending? {
      RoomToSend(s, k);
    }
  }

  /** When the loop breaks, every unit is terminal, and remains so. */
  lemma BreakMeansTerminal(n: nat, databases: nat, steps: seq<Step>)
    requires n <= databases
    ensures var s := Run(Initial(n, databases), steps); s.main == Over(Ok) ==> AllTerminal(s)
  {
    RunKeeps(n, databases, steps);
  }

  /** Without any unit no signal ever comes, so the loop never breaks. */
  lemma {:induction false} NoUnitsNoBreak(databases: nat, steps: seq<Step>)
    ensures var s := Run(Initial(0, databases), steps);
      s.queue == [] && !s.main.Checking? && s.main != Over(Ok)
  {
    if steps != [] {
      NoUnitsNoBreak(databases, steps[..|steps| - 1]);
    }
  }

  /** The shutdown branch reaches the pipeline exactly if it wins before the wait branch
      was polled: the first poll takes the pipeline out of the runner, and dropping the
      wait drops it. */
  lemma SignalReachesPipeline(n: nat, databases: nat, steps: seq<Step>, k: nat)
    requires k < n <= databases
    requires Run(Initial(n, databases), steps).units[k].pc.Stopping?
    ensures var s := Run(Initial(n, databases), steps);
      Do(s, Local(k, Advance)).units[k].pc == Draining(!s.units[k].pc.polled)
  {
    RunKeeps(n, databases, steps);
  }

  // ----- the result

  /** The loop has been entered at some point of the run. */
  predicate Entered(s: State, steps: seq<Step>)
  {
    steps != [] && (Entered(s, steps[..|steps| - 1]) || Run(s, steps).main.Looping?)
  }

  /** The result is an error if and only if the loop was never entered: a unit failed to
      start, or the watch on the rules file did. What becomes of the units later has no
      influence on it. */
  lemma {:induction false} ResultExact(n: nat, databases: nat, steps: seq<Step>)
    ensures var main := Run(Initial(n, databases), steps).main;
      && (main.Over? ==> (main.result.Err? <==> !Entered(Initial(n, databases), steps)))
      && (main.Starting? ==> !Entered(Initial(n, databases), steps))
      && (main.Starting? || main.Over? || Entered(Initial(n, databases), steps))
  {
    hide Act;
    if steps != [] {
      ResultExact(n, databases, steps[..|steps| - 1]);
    }
  }

  // ----- runs put together

  lemma Then(s: State, before: seq<Step>, step: Step)
    ensures Run(s, before + [step]) == Do(Run(s, before), step)
  {
    assert (before + [step])[..|before|] == before;
  }

  lemma RunOne(s: State, step: Step)
    ensures Run(s, [step]) == Do(s, step)
  {
    assert [step][..0] == [] && Run(s, []) == s;
  }

  lemma {:induction false} RunAppend(s: State, a: seq<Step>, b: seq<Step>)
    ensures Run(s, a + b) == Run(Run(s, a), b)
  {
    if b == [] {
      assert a + b == a;
    } else {
      assert (a + b)[..|a + b| - 1] == a + b[..|b| - 1];
      RunAppend(s, a, b[..|b| - 1]);
    }
  }
}
