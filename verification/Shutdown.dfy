/** Progress of the supervisor: what is left to do at any time, that shutdown comes to an end
    however the tasks interleave, and that the loop notices when all units have ended. */
module Shutdown {
  import opened Supervisor

  // ----- progress: what is left to do

  function Effort(pc: Pc): nat
  {
    match pc
    case WaitErr => 10
    case Reconnecting => 9
    case Rebuilt => 8
    case Sleeping => 7
    case Selecting(polled) => if polled then 5 else 6
    case Stopping(_) => 4
    case Draining(_) => 3
    case StopWaited | WaitOk | Closing => 2
    case StopGauged | OkGauged | ReconnectFailed | ClosingGauged => 1
    case _ => 0
  }

  /** A send costs one step more than a reception, and that one more than a check of all `n`
      units. */
  function UnitWork(u: Unit, n: nat): nat { if u.pc.Done? then 0 else Effort(u.pc) + n + 3 }

  function UnitsWork(units: seq<Unit>, n: nat): nat
  {
    if units == [] then 0 else UnitsWork(units[..|units| - 1], n) + UnitWork(units[|units| - 1], n)
  }

  function MainWork(s: State): nat
  {
    var n := |s.units|;
    match s.main
    case Reloading => 1
    case Checking(k) => if k <= n then n + 1 - k else 0
    case Signalling(k) => if k <= n then n + 1 - k else 1
    case _ => 0
  }

  /** A bound on the steps that are left, but for those that failing pipelines add. */
  function Work(s: State): nat
  {
    UnitsWork(s.units, |s.units|) + |s.queue| * (|s.units| + 2) + MainWork(s)
  }

  lemma {:induction false} UnitsWorkUpdate(units: seq<Unit>, k: nat, u: Unit, n: nat)
    requires k < |units|
    ensures UnitsWork(units[k := u], n) + UnitWork(units[k], n) == UnitsWork(units, n) + UnitWork(u, n)
  {
    hide UnitWork;
    var m := |units| - 1;
    if k == m {
      assert units[k := u][..m] == units[..m];
    } else {
      assert units[k := u][..m] == units[..m][k := u];
      UnitsWorkUpdate(units[..m], k, u, n);
    }
  }

  /** Steps that the outside world decides on. */
  predicate Outside(step: Step) { step.ReloadBegin? || step.CtrlC? }

  /** A pipeline ends with an error, and its unit goes on to reconnect. */
  predicate PipelineFails(step: Step) { step.Local? && step.action == WaitReturns(false) }

  /** Steps that need neither the outside world nor the end of a pipeline. */
  predicate Own(step: Step) { !Outside(step) && (step.Local? ==> !step.action.WaitReturns?) }

  lemma ActCost(u: Unit, a: Action, n: nat)
    requires GoodUnit(u) && Act(u, a, false) != u
    ensures UnitWork(Act(u, a, false), n) + 1 <= UnitWork(u, n) + if a == WaitReturns(false) then 6 else 0
  {
  }

  lemma LocalCost(s: State, k: nat, a: Action)
    requires Inv(s) && !s.main.Over? && Do(s, Local(k, a)) != s
    ensures Work(Do(s, Local(k, a))) + 1 <= Work(s) + if a == WaitReturns(false) then 6 else 0
  {
    var v := Act(s.units[k], a, false);
    assert s.units[k := s.units[k]] == s.units;
    ActCost(s.units[k], a, |s.units|);
    hide Act, Inv, UnitWork, UnitsWork;
    UnitsWorkUpdate(s.units, k, v, |s.units|);
  }

  lemma SendCost(s: State, k: nat)
    requires !s.main.Over? && Do(s, Send(k)) != s
    ensures Work(Do(s, Send(k))) < Work(s)
  {
    UnitsWorkUpdate(s.units, k, s.units[k].(pc := Done), |s.units|);
    OneMore(|s.queue|, |s.units| + 2);
  }

  lemma OneMore(a: nat, w: nat)
    ensures (a + 1) * w == a * w + w
  {
  }

  lemma ReceiveCost(s: State)
    requires s.main.Looping? && s.queue != []
    ensures Work(Do(s, Receive)) < Work(s)
  {
    hide UnitsWork;
    OneMore(|s.queue[1..]|, |s.units| + 2);
  }

  lemma SignalCost(s: State)
    requires s.main.Signalling?
    ensures Work(Do(s, Signal)) < Work(s)
  {
    var k := s.main.next;
    if k < |s.units| {
      UnitsWorkUpdate(s.units, k, s.units[k].(shutdownPending := true), |s.units|);
    }
  }

  /** Every step of the program that does something leaves less to do, but for a pipeline that
      fails, which adds five steps and is one. */
  lemma StepCost(s: State, step: Step)
    requires Inv(s) && (InLoop(s) || s.main.Checking?) && !Outside(step) && Do(s, step) != s
    ensures Work(Do(s, step)) + 1 <= Work(s) + if PipelineFails(step) then 6 else 0
  {
    if step.Local? {
      LocalCost(s, step.unit, step.action);
    } else if step.Send? {
      SendCost(s, step.unit);
    } else if step.Signal? {
      SignalCost(s);
    } else if step.Receive? {
      ReceiveCost(s);
    } else {
      hide GoodUnit, UnitsWork, Signals, Started;
    }
  }

  /** At most quadratic in the number of units. */
  lemma WorkBound(s: State)
    requires Inv(s)
    ensures Work(s) <= |s.units| * (2 * |s.units| + 15) + |s.units| + 1
  {
    var n := |s.units|;
    hide GoodUnit;
    Distinct(s.queue, Below(n));
    hide Inv, UnitsWork;
    UnitsWorkBound(s.units, n);
    AtMost(|s.queue|, n, n + 2);
    Distribute(n);
  }

  lemma Distribute(n: nat)
    ensures n * (n + 13) + n * (n + 2) == n * (2 * n + 15)
  {
  }

  lemma AtMost(a: nat, n: nat, w: nat)
    requires a <= n
    ensures a * w <= n * w
  {
  }

  lemma {:induction false} UnitsWorkBound(units: seq<Unit>, n: nat)
    ensures UnitsWork(units, n) <= |units| * (n + 13)
  {
    if units != [] {
      UnitsWorkBound(units[..|units| - 1], n);
      OneMore(|units| - 1, n + 13);
    }
  }

  // ----- progress: shutdown

  /** The unit has its shutdown signal, or is past the point where it needs one. */
  predicate Told(u: Unit)
  {
    u.shutdownPending
    || !(u.pc.Idle? || u.pc.Stored? || u.pc.Selecting? || u.pc.WaitErr?
         || u.pc.Reconnecting? || u.pc.Rebuilt? || u.pc.Sleeping?)
  }

  /** A shutdown signal is never lost, not even while the unit reconnects. */
  lemma ToldRemains(s: State, step: Step, k: nat)
    requires Inv(s) && k < |s.units| && Told(s.units[k])
    ensures Told(Do(s, step).units[k])
  {
  }

  /** Shutdown is under way: every unit has been told, or its turn is still to come. */
  predicate Winding(s: State)
  {
    && Inv(s) && |s.units| > 0 && (InLoop(s) || s.main.Checking?)
    && forall k :: 0 <= k < |s.units| && (s.main.Signalling? ==> k < s.main.next) ==> Told(s.units[k])
  }

  lemma CtrlCWinds(s: State)
    requires Inv(s) && |s.units| > 0 && s.main.Looping?
    ensures Winding(Do(s, CtrlC))
  {
    ReloadKeeps(s, CtrlC);
  }

  lemma WindingKeeps(s: State, step: Step)
    requires Winding(s) && !Outside(step)
    ensures Do(s, step).main == Over(Ok) || Winding(Do(s, step))
  {
    var t := Do(s, step);
    StepKeeps(s, step);
    forall k | 0 <= k < |s.units| && (t.main.Signalling? ==> k < t.main.next) ensures Told(t.units[k]) {
      if s.main.Signalling? ==> k < s.main.next {
        ToldRemains(s, step, k);
      }
    }
    hide Inv, Told, Act;
  }

  /** What a unit that was told to stop does next; `ok` and `built` are the outcome of a
      reconnect that is under way. */
  function Windup(u: Unit, ok: bool, built: bool): Action
  {
    if u.pc.Selecting? then ShutdownSeen else if u.pc.Reconnecting? then Reconnected(ok, built) else Advance
  }

  lemma WindupActs(u: Unit, ok: bool, built: bool)
    requires GoodUnit(u) && Told(u) && !Terminal(u) && !u.pc.Stored? && !ClosingPc(u.pc)
    ensures Act(u, Windup(u, ok, built), false) != u
  {
  }

  /** The last unit that is not done. */
  function LastActive(units: seq<Unit>): nat
  {
    if units == [] then 0
    else if units[|units| - 1].pc.Done? then LastActive(units[..|units| - 1])
    else |units| - 1
  }

  lemma {:induction false} LastActiveIn(units: seq<Unit>, k: nat)
    requires k < |units| && !units[k].pc.Done?
    ensures LastActive(units) < |units| && !units[LastActive(units)].pc.Done?
  {
    if units[|units| - 1].pc.Done? {
      LastActiveIn(units[..|units| - 1], k);
    }
  }

  /** What the program can do next, whatever reconnects bring. */
  function NextStep(s: State, ok: nat -> bool, built: nat -> bool): Step
  {
    var k := LastActive(s.units);
    match s.main
    case Reloading => ReloadEnd
    case Signalling(_) => Signal
    case Checking(_) => Check
    case _ =>
      if s.queue != [] then Receive
      else if k < |s.units| && !s.units[k].pc.Sending? then Local(k, Windup(s.units[k], ok(k), built(k)))
      else Send(k)
  }

  /** The program is never stuck then. */
  lemma WindingContinues(s: State, ok: nat -> bool, built: nat -> bool)
    requires Winding(s)
    ensures Own(NextStep(s, ok, built)) && Do(s, NextStep(s, ok, built)) != s
  {
    if s.main.Looping? && s.queue == [] {
      var j :| 0 <= j < |s.units| && j !in s.received;
      LastActiveIn(s.units, j);
      var k := LastActive(s.units);
      assert Told(s.units[k]);
      ActiveActs(s, k, ok(k), built(k));
    }
  }

  lemma ActiveActs(s: State, k: nat, ok: bool, built: bool)
    requires Inv(s) && s.main.Looping? && k < |s.units| && !s.units[k].pc.Done? && Told(s.units[k])
    ensures s.units[k].pc.Sending? ==> Do(s, Send(k)) != s
    ensures !s.units[k].pc.Sending? ==> Do(s, Local(k, Windup(s.units[k], ok, built))) != s
  {
    var u := s.units[k];
    TerminalPc(u);
    if u.pc.Sending? {
      RoomToSend(s, k);
    } else {
      WindupActs(u, ok, built);
      hide Act, GoodUnit, Told;
      assert Do(s, Local(k, Windup(u, ok, built))).units[k] != u;
    }
  }

  /** Steps of the program itself, each of which does something, before it returns. */
  predicate Advancing(s: State, steps: seq<Step>)
    decreases |steps|
  {
    steps == [] ||
    (!s.main.Over? && !Outside(steps[0]) && Do(s, steps[0]) != s && Advancing(Do(s, steps[0]), steps[1..]))
  }

  function Failures(steps: seq<Step>): nat
  {
    if steps == [] then 0 else Failures(steps[1..]) + if PipelineFails(steps[0]) then 1 else 0
  }

  /** Shutdown never hangs: from Ctrl-C on, however the tasks interleave, the program takes at
      most `Work(s) + 1` further steps of its own before it breaks out of the loop, and six
      more for each pipeline that fails meanwhile; and it can always take one. */
  lemma {:induction false} EveryShutdownBreaks(s: State, steps: seq<Step>, ok: nat -> bool, built: nat -> bool)
    requires Winding(s) && Advancing(s, steps)
    ensures |steps| <= Work(s) + 6 * Failures(steps) + 1
    ensures var t := Run(s, steps);
      t.main == Over(Ok) || (Winding(t) && Own(NextStep(t, ok, built)) && Do(t, NextStep(t, ok, built)) != t)
    decreases |steps|
  {
    hide Winding, Work, Do, NextStep, Own, Outside;
    if steps == [] {
      WindingContinues(s, ok, built);
    } else {
      WindingCost(s, steps[0]);
      WindingKeeps(s, steps[0]);
      assert steps == [steps[0]] + steps[1..];
      RunAppend(s, [steps[0]], steps[1..]);
      RunOne(s, steps[0]);
      if Do(s, steps[0]).main == Over(Ok) {
        assert steps[1..] == [] && Run(Do(s, steps[0]), []) == Do(s, steps[0]);
      } else {
        EveryShutdownBreaks(Do(s, steps[0]), steps[1..], ok, built);
      }
    }
  }

  lemma WindingCost(s: State, step: Step)
    requires Winding(s) && !Outside(step) && Do(s, step) != s
    ensures Work(Do(s, step)) + 1 <= Work(s) + if PipelineFails(step) then 6 else 0
  {
    StepCost(s, step);
  }

  lemma {:induction false} WindingEnds(s: State, ok: nat -> bool, built: nat -> bool) returns (steps: seq<Step>)
    requires Winding(s)
    ensures Run(s, steps).main == Over(Ok) && forall step <- steps :: Own(step)
    decreases Work(s)
  {
    hide Winding, Work, Do, NextStep;
    var step := NextStep(s, ok, built);
    WindingContinues(s, ok, built);
    WindingCost(s, step);
    WindingKeeps(s, step);
    RunOne(s, step);
    steps := [step];
    if Do(s, step).main != Over(Ok) {
      var rest := WindingEnds(Do(s, step), ok, built);
      RunAppend(s, [step], rest);
      steps := steps + rest;
    }
  }

  /** The same from every reachable state of the loop in which Ctrl-C arrives, with a bound in
      the number of units and of failing pipelines. */
  lemma ShutdownNeverHangs(n: nat, databases: nat, before: seq<Step>, after: seq<Step>)
    requires 0 < n <= databases && Run(Initial(n, databases), before).main.Looping?
    requires Advancing(Run(Initial(n, databases), before + [CtrlC]), after)
    ensures |after| <= Bound(n) + 6 * Failures(after)
    ensures var t := Run(Initial(n, databases), before + [CtrlC] + after);
      t.main == Over(Ok) || exists step :: Own(step) && Do(t, step) != t
  {
    var start := Initial(n, databases);
    RunKeeps(n, databases, before);
    hide Inv, Winding, Do, Advancing, Bound, Own, Initial;
    Then(start, before, CtrlC);
    CtrlCWinds(Run(start, before));
    WindingBounded(Do(Run(start, before), CtrlC), after);
    RunAppend(start, before + [CtrlC], after);
  }

  function Bound(n: nat): nat { n * (2 * n + 15) + n + 2 }

  lemma WindingBounded(s: State, steps: seq<Step>)
    requires Winding(s) && Advancing(s, steps)
    ensures |steps| <= Bound(|s.units|) + 6 * Failures(steps)
    ensures Run(s, steps).main == Over(Ok) || exists step :: Own(step) && Do(Run(s, steps), step) != Run(s, steps)
  {
    var no := (k: nat) => false;
    EveryShutdownBreaks(s, steps, no, no);
    WorkBound(s);
    hide *;
  }

  /** Shutdown completes: from every reachable state of the loop, Ctrl-C can be followed to
      the break by the program's own steps, whatever reconnects under way bring. */
  lemma ShutdownCompletes(n: nat, databases: nat, before: seq<Step>, ok: nat -> bool, built: nat -> bool)
      returns (after: seq<Step>)
    requires 0 < n <= databases && Run(Initial(n, databases), before).main.Looping?
    ensures Run(Initial(n, databases), before + [CtrlC] + after).main == Over(Ok)
    ensures forall step <- after :: Own(step)
  {
    var s := Run(Initial(n, databases), before);
    RunKeeps(n, databases, before);
    hide Inv, Winding;
    CtrlCWinds(s);
    after := WindingEnds(Do(s, CtrlC), ok, built);
    RunOne(s, CtrlC);
    RunAppend(Initial(n, databases), before, [CtrlC]);
    RunAppend(Initial(n, databases), before + [CtrlC], after);
  }

  // ----- progress: the loop notices that all units have ended

  /** All units are terminal, and the loop has not returned. */
  predicate Ending(s: State)
  {
    Inv(s) && |s.units| > 0 && AllTerminal(s) && (InLoop(s) || s.main.Checking?)
  }

  lemma EndingWinds(s: State)
    requires Ending(s)
    ensures Winding(s)
  {
    forall k | 0 <= k < |s.units| ensures Told(s.units[k]) {
      TerminalPc(s.units[k]);
    }
  }

  /** Then no status changes any more, and no unit's task does anything but send. */
  lemma EndingKeeps(s: State, step: Step)
    requires Ending(s) && !Outside(step)
    ensures var t := Do(s, step);
      && (t.main == Over(Ok) || Ending(t))
      && (forall k :: 0 <= k < |s.units| ==> t.units[k].status == s.units[k].status)
      && (step.Local? ==> t == s)
  {
    EndingWinds(s);
    WindingKeeps(s, step);
    if step.Local? && step.unit < |s.units| {
      TerminalPc(s.units[step.unit]);
      ActKeeps(s.units[step.unit], step.action, s.main.Over?);
    }
    hide Inv, Act;
  }

  /** Once all units are terminal, however the tasks interleave, the program takes at most
      `Work(s) + 1` further steps of its own before the break, and can always take one. */
  lemma {:induction false} EveryRunBreaks(s: State, steps: seq<Step>, ok: nat -> bool, built: nat -> bool)
    requires Ending(s) && Advancing(s, steps)
    ensures |steps| <= Work(s) + 1
    ensures var t := Run(s, steps);
      t.main == Over(Ok) || (Ending(t) && Do(t, NextStep(t, ok, built)) != t)
    decreases |steps|
  {
    hide Ending, Winding, Work, Do, NextStep;
    EndingWinds(s);
    if steps == [] {
      WindingContinues(s, ok, built);
    } else {
      EndingKeeps(s, steps[0]);
      WindingCost(s, steps[0]);
      assert steps == [steps[0]] + steps[1..];
      RunAppend(s, [steps[0]], steps[1..]);
      RunOne(s, steps[0]);
      if Do(s, steps[0]).main == Over(Ok) {
        assert steps[1..] == [] && Run(Do(s, steps[0]), []) == Do(s, steps[0]);
      } else {
        EveryRunBreaks(Do(s, steps[0]), steps[1..], ok, built);
      }
    }
  }

  /** So the break is reached, with the statuses as they are. */
  lemma {:induction false} BreakReached(s: State) returns (steps: seq<Step>)
    requires Ending(s)
    ensures var t := Run(s, steps);
      t.main == Over(Ok) && forall k :: 0 <= k < |s.units| ==> t.units[k].status == s.units[k].status
    decreases Work(s)
  {
    hide Ending, Winding, Work, Do, NextStep;
    var no := (k: nat) => false;
    var step := NextStep(s, no, no);
    EndingWinds(s);
    WindingContinues(s, no, no);
    WindingCost(s, step);
    EndingKeeps(s, step);
    RunOne(s, step);
    steps := [step];
    if Do(s, step).main != Over(Ok) {
      var rest := BreakReached(Do(s, step));
      RunAppend(s, [step], rest);
      steps := steps + rest;
    }
  }

  // ----- runs that the documentation leaves out

  const ACTIVE := Unit(Selecting(false), Running, true, true, false)

  const FAILED := Unit(Sending, Failed, false, false, false)

  /** The first `k` units have been started. */
  predicate StartedUpTo(s: State, n: nat, databases: nat, k: nat)
  {
    && k <= n == |s.units| && s.queue == [] && s.received == {} && s.capacity == Initial(n, databases).capacity
    && (forall j :: 0 <= j < k ==> s.units[j] == ACTIVE)
    && (forall j :: k <= j < n ==> s.units[j] == FRESH)
  }

  lemma StartOne(s: State, n: nat, databases: nat, k: nat)
    requires k < n && StartedUpTo(s, n, databases, k) && s.main == Starting(k)
    ensures var t := Do(Do(s, StartStore), StartSpawn); StartedUpTo(t, n, databases, k + 1) && t.main == Starting(k + 1)
  {
  }

  lemma {:induction false} StartSome(n: nat, databases: nat, k: nat) returns (steps: seq<Step>)
    requires k <= n
    ensures var s := Run(Initial(n, databases), steps); StartedUpTo(s, n, databases, k) && s.main == Starting(k)
  {
    if k == 0 {
      steps := [];
    } else {
      var before := StartSome(n, databases, k - 1);
      StartOne(Run(Initial(n, databases), before), n, databases, k - 1);
      steps := before + [StartStore] + [StartSpawn];
      hide Do, StartedUpTo;
      Then(Initial(n, databases), before, StartStore);
      Then(Initial(n, databases), before + [StartStore], StartSpawn);
    }
  }

  lemma StartAll(n: nat, databases: nat) returns (steps: seq<Step>)
    ensures var s := Run(Initial(n, databases), steps);
      s.main.Looping? && |s.units| == n && forall j :: 0 <= j < n ==> s.units[j] == ACTIVE
  {
    var before := StartSome(n, databases, n);
    steps := before + [StartDone];
    Then(Initial(n, databases), before, StartDone);
  }

  /** Replication fails, and so does the reconnect. */
  lemma FailUnit(s: State, k: nat) returns (steps: seq<Step>)
    requires k < |s.units| && s.units[k] == ACTIVE
    ensures Run(s, steps) == s.(units := s.units[k := FAILED])
  {
    var poll, wait, advance := Local(k, Poll), Local(k, WaitReturns(false)), Local(k, Advance);
    var reconnect := Local(k, Reconnected(false, false));
    steps := [] + [poll] + [wait] + [advance] + [reconnect] + [advance];
    Then(s, [], poll);
    Then(s, [] + [poll], wait);
    Then(s, [] + [poll] + [wait], advance);
    Then(s, [] + [poll] + [wait] + [advance], reconnect);
    Then(s, [] + [poll] + [wait] + [advance] + [reconnect], advance);
    assert Run(s, steps).units == s.units[k := FAILED];
  }

  lemma {:induction false} FailSome(s: State, m: nat) returns (steps: seq<Step>)
    requires m <= |s.units| && forall k :: 0 <= k < |s.units| ==> s.units[k] == ACTIVE
    ensures var t := Run(s, steps);
      && t.main == s.main
      && (forall k :: 0 <= k < m ==> t.units[k] == FAILED)
      && (forall k :: m <= k < |s.units| ==> t.units[k] == ACTIVE)
  {
    if m == 0 {
      steps := [];
    } else {
      var before := FailSome(s, m - 1);
      var last := FailUnit(Run(s, before), m - 1);
      steps := before + last;
      RunAppend(s, before, last);
    }
  }

  /** With any number of databases, all pipelines can fail for good, and the program returns
      without an error. */
  lemma AllFailedReturnsOk(n: nat, databases: nat) returns (steps: seq<Step>)
    requires 0 < n <= databases
    ensures var s := Run(Initial(n, databases), steps);
      s.main == Over(Ok) && forall k :: 0 <= k < n ==> s.units[k].status == Failed
  {
    hide Inv, Do;
    var start := StartAll(n, databases);
    var s := Run(Initial(n, databases), start);
    var fail := FailSome(s, n);
    RunAppend(Initial(n, databases), start, fail);
    RunKeeps(n, databases, start + fail);
    var end := BreakReached(Run(s, fail));
    RunAppend(Initial(n, databases), start + fail, end);
    steps := start + fail + end;
  }

  /** The shutdown branch can win after the pipeline has been taken, and then finds none: its
      signal goes nowhere. */
  lemma SignalLost(databases: nat) returns (steps: seq<Step>)
    requires databases > 0
    ensures var s := Run(Initial(1, databases), steps);
      s.units[0].pc == Stopping(true) && Do(s, Local(0, Advance)).units[0].pc == Draining(false)
  {
    var start := StartAll(1, databases);
    var s, poll, seen := Initial(1, databases), Local(0, Poll), Local(0, ShutdownSeen);
    LoseSignal(Run(s, start));
    hide Do;
    steps := start + [poll] + [CtrlC] + [Signal] + [seen];
    Then(s, start, poll);
    Then(s, start + [poll], CtrlC);
    Then(s, start + [poll] + [CtrlC], Signal);
    Then(s, start + [poll] + [CtrlC] + [Signal], seen);
  }

  lemma LoseSignal(s: State)
    requires s.main.Looping? && |s.units| == 1 && s.units[0] == ACTIVE
    ensures var t := Do(Do(Do(Do(s, Local(0, Poll)), CtrlC), Signal), Local(0, ShutdownSeen));
      |t.units| == 1 && t.units[0].pc == Stopping(true) && Do(t, Local(0, Advance)).units[0].pc == Draining(false)
  {
  }
}
