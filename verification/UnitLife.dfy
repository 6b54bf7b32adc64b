/** The life of one unit in terms of what happened to it: which events can follow each other,
    what status they leave, and that a lost connection is taken up again. */
module UnitLife {
  import opened Option
  import opened Supervisor

  /** Whether a step is an event of unit `k`: an action other than going on, that takes effect. */
  predicate IsEvent(s: State, step: Step, k: nat)
  {
    step.Local? && step.unit == k && step.action != Advance && Do(s, step) != s
  }

  /** The events of unit `k` over a run, in order. */
  function Events(s: State, steps: seq<Step>, k: nat): seq<Action>
  {
    if steps == [] then []
    else
      var before, step := steps[..|steps| - 1], steps[|steps| - 1];
      Events(s, before, k) + if IsEvent(Run(s, before), step, k) then [step.action] else []
  }

  function Last(events: seq<Action>): Option<Action>
  {
    if events == [] then None else Some(events[|events| - 1])
  }

  /** The wait begins at the start and after every successful reconnect; a reconnect follows a
      failed wait and nothing else. */
  predicate Follows(last: Option<Action>, a: Action)
  {
    match a
    case Poll => last == None || (last.value.Reconnected? && last.value.ok)
    case WaitReturns(_) => last == Some(Poll)
    case Reconnected(_, _) => last == Some(WaitReturns(false))
    case ShutdownSeen => last == None || last == Some(Poll) || (last.value.Reconnected? && last.value.ok)
    case SenderClosed => last == None || last == Some(Poll) || (last.value.Reconnected? && last.value.ok)
    case Advance => false
  }

  predicate Legal(events: seq<Action>)
  {
    forall i :: 0 <= i < |events| ==> Follows(Last(events[..i]), events[i])
  }

  /** Where the last event leaves the unit. */
  predicate Fits(u: Unit, last: Option<Action>)
  {
    match u.pc
    case Idle => last == None && u.status == Exited
    case Stored => last == None
    case Selecting(polled) =>
      if polled then last == Some(Poll) else last == None || (last.value.Reconnected? && last.value.ok)
    case WaitOk => last == Some(WaitReturns(true))
    case OkGauged => last == Some(WaitReturns(true))
    case WaitErr => last == Some(WaitReturns(false))
    case Reconnecting => last == Some(WaitReturns(false))
    case Rebuilt => last.Some? && last.value.Reconnected? && last.value.ok
    case Sleeping => last.Some? && last.value.Reconnected? && last.value.ok
    case ReconnectFailed => last.Some? && last.value.Reconnected? && !last.value.ok
    case Stopping(_) => last == Some(ShutdownSeen)
    case Draining(_) => last == Some(ShutdownSeen)
    case StopWaited => last == Some(ShutdownSeen)
    case StopGauged => last == Some(ShutdownSeen)
    case Closing => last == Some(SenderClosed)
    case ClosingGauged => last == Some(SenderClosed)
    case Sending => Ended(u.status, last)
    case Done => Ended(u.status, last)
  }

  /** The terminal status by the last event: Failed after a failed reconnect, Exited after a
      pipeline that ended by itself or a shutdown. */
  predicate Ended(status: Status, last: Option<Action>)
  {
    && last.Some?
    && (status == Failed <==> last.value.Reconnected? && !last.value.ok)
    && (status == Exited <==> last.value == WaitReturns(true) || last.value.ShutdownSeen? || last.value.SenderClosed?)
    && status != Running
  }

  lemma ActFits(u: Unit, a: Action, closed: bool, last: Option<Action>)
    requires GoodUnit(u) && Fits(u, last)
    ensures var v := Act(u, a, closed);
      if a != Advance && v != u then Follows(last, a) && Fits(v, Some(a)) else Fits(v, last)
  {
  }

  lemma StepFits(s: State, step: Step, k: nat, last: Option<Action>)
    requires Inv(s) && k < |s.units| && Fits(s.units[k], last)
    ensures var u := Do(s, step).units[k];
      if IsEvent(s, step, k) then Follows(last, step.action) && Fits(u, Some(step.action)) else Fits(u, last)
  {
    if step.Local? && step.unit == k {
      var v := Act(s.units[k], step.action, s.main.Over?);
      ActFits(s.units[k], step.action, s.main.Over?, last);
      hide Act, GoodUnit, Fits, Follows;
      assert Do(s, step).units[k] == v;
      assert s.units[k := s.units[k]] == s.units;
    } else {
      OthersFit(s, step, k, last);
    }
  }

  lemma OthersFit(s: State, step: Step, k: nat, last: Option<Action>)
    requires k < |s.units| && Fits(s.units[k], last) && !(step.Local? && step.unit == k)
    ensures Fits(Do(s, step).units[k], last)
  {
    hide Act;
  }

  /** Over every run: the events of a unit follow each other as they may, and where it stands
      fits the last one. */
  lemma {:induction false} RunFits(n: nat, databases: nat, steps: seq<Step>, k: nat)
    requires k < n <= databases
    ensures var events := Events(Initial(n, databases), steps, k);
      Legal(events) && Fits(Run(Initial(n, databases), steps).units[k], Last(events))
  {
    var i := Initial(n, databases);
    assert |i.units| == n;
    hide Fits, Follows, Do, Inv, Initial, IsEvent, Legal, Last;
    if steps == [] {
      StartFits(n, databases, k);
    } else {
      var before, step := steps[..|steps| - 1], steps[|steps| - 1];
      RunFits(n, databases, before, k);
      RunKeeps(n, databases, before);
      StepFits(Run(i, before), step, k, Last(Events(i, before, k)));
      MoreLegal(Events(i, before, k), step);
      EventIsLocal(Run(i, before), step, k);
      assert Events(i, before, k) + [] == Events(i, before, k);
    }
  }

  lemma StartFits(n: nat, databases: nat, k: nat)
    requires k < n
    ensures Fits(Initial(n, databases).units[k], Last([])) && Legal([])
  {
  }

  lemma EventIsLocal(s: State, step: Step, k: nat)
    ensures IsEvent(s, step, k) ==> step.Local?
  {
  }

  lemma MoreLegal(events: seq<Action>, step: Step)
    requires Legal(events)
    ensures step.Local? && Follows(Last(events), step.action) ==> Legal(events + [step.action])
    ensures step.Local? ==> Last(events + [step.action]) == Some(step.action)
  {
    if step.Local? {
      var more := events + [step.action];
      assert forall i :: 0 <= i <= |events| ==> more[..i] == events[..i];
      assert events[..|events|] == events;
    }
  }

  /** What the events say about the status of a unit. */
  predicate StatusFollows(u: Unit, events: seq<Action>)
  {
    var m := |events|;
    && (u.status == Failed ==>
          m >= 2 && events[m - 2] == WaitReturns(false) && events[m - 1].Reconnected? && !events[m - 1].ok)
    && (u.status == Exited && !u.pc.Idle? ==>
          m > 0 && (events[m - 1] == WaitReturns(true) || events[m - 1].ShutdownSeen? || events[m - 1].SenderClosed?))
    && (u.pc.Sending? || u.pc.Done? ==>
          u.status == if m > 0 && events[m - 1].Reconnected? then Failed else Exited)
  }

  /** A unit fails for good exactly after a reconnect that failed, and that reconnect was tried
      after a wait that failed; it has exited exactly after its pipeline ended by itself or it was
      told to stop. */
  lemma StatusExact(n: nat, databases: nat, steps: seq<Step>, k: nat)
    requires k < n <= databases
    ensures StatusFollows(Run(Initial(n, databases), steps).units[k], Events(Initial(n, databases), steps, k))
  {
    assert |Initial(n, databases).units| == n;
    hide Run, Events, Initial, Fits, Legal, GoodUnit, StatusFollows;
    RunFits(n, databases, steps, k);
    RunKeeps(n, databases, steps);
    FinalStatus(Run(Initial(n, databases), steps).units[k], Events(Initial(n, databases), steps, k));
  }

  lemma FinalStatus(u: Unit, events: seq<Action>)
    requires GoodUnit(u) && Legal(events) && Fits(u, Last(events))
    ensures StatusFollows(u, events)
  {
    if u.status == Failed {
      assert u.pc.Sending? || u.pc.Done?;
      var m := |events| - 1;
      assert Follows(Last(events[..m]), events[m]);
    }
  }

  // ----- what a unit does on its own

  /** A list of actions of one unit. */
  function Acts(u: Unit, actions: seq<Action>, closed: bool): Unit
    decreases |actions|
  {
    if actions == [] then u else Acts(Act(u, actions[0], closed), actions[1..], closed)
  }

  function Locals(k: nat, actions: seq<Action>): seq<Step>
  {
    if actions == [] then [] else [Local(k, actions[0])] + Locals(k, actions[1..])
  }

  lemma {:induction false} RunLocals(s: State, k: nat, actions: seq<Action>)
    requires k < |s.units|
    ensures Run(s, Locals(k, actions)) == s.(units := s.units[k := Acts(s.units[k], actions, s.main.Over?)])
    decreases |actions|
  {
    hide Act;
    if actions == [] {
      assert s.units[k := s.units[k]] == s.units;
    } else {
      var step := Local(k, actions[0]);
      var t := Do(s, step);
      RunOne(s, step);
      RunAppend(s, [step], Locals(k, actions[1..]));
      RunLocals(t, k, actions[1..]);
      var u := Acts(t.units[k], actions[1..], s.main.Over?);
      assert t.units[k := u] == s.units[k := u];
    }
  }

  lemma FirstAct(u: Unit, a: Action, rest: seq<Action>, closed: bool)
    ensures Acts(u, [a] + rest, closed) == Acts(Act(u, a, closed), rest, closed)
  {
    assert ([a] + rest)[1..] == rest;
  }

  lemma OneAct(u: Unit, a: Action, closed: bool)
    ensures Acts(u, [a], closed) == Act(u, a, closed)
  {
    assert [a][1..] == [];
  }

  lemma TwoMore(u: Unit, closed: bool)
    requires u.pc.Rebuilt?
    ensures Acts(u, [Advance] + [Advance], closed) == u.(pc := Selecting(false), gauge := true)
  {
    FirstAct(u, Advance, [Advance], closed);
    OneAct(u.(pc := Sleeping, gauge := true), Advance, closed);
  }

  lemma RecoverActs(u: Unit, built: bool, closed: bool)
    requires GoodUnit(u) && u.pc.WaitErr?
    ensures Acts(u, [Advance] + ([Reconnected(true, built)] + ([Advance] + [Advance])), closed)
         == Unit(Selecting(false), Running, true, true, u.shutdownPending)
  {
    var u1 := u.(pc := Reconnecting, gauge := false);
    FirstAct(u, Advance, [Reconnected(true, built)] + ([Advance] + [Advance]), closed);
    FirstAct(u1, Reconnected(true, built), [Advance] + [Advance], closed);
    TwoMore(u1.(pc := Rebuilt, pipeline := true), closed);
  }

  lemma GiveUpActs(u: Unit, built: bool, closed: bool)
    requires GoodUnit(u) && u.pc.WaitErr?
    ensures Acts(u, [Advance] + ([Reconnected(false, built)] + [Advance]), closed)
         == Unit(Sending, Failed, false, built, u.shutdownPending)
  {
    var u1 := u.(pc := Reconnecting, gauge := false);
    var u2 := u1.(pc := ReconnectFailed, pipeline := built);
    FirstAct(u, Advance, [Reconnected(false, built)] + [Advance], closed);
    FirstAct(u1, Reconnected(false, built), [Advance], closed);
    OneAct(u2, Advance, closed);
  }

  lemma EndActs(u: Unit, closed: bool)
    requires GoodUnit(u) && u.pc == Selecting(true)
    ensures Acts(u, [WaitReturns(true)] + ([Advance] + [Advance]), closed)
         == Unit(Sending, Exited, false, false, u.shutdownPending)
  {
    var u1 := u.(pc := WaitOk);
    var u2 := u1.(pc := OkGauged, gauge := false);
    FirstAct(u, WaitReturns(true), [Advance] + [Advance], closed);
    FirstAct(u1, Advance, [Advance], closed);
    OneAct(u2, Advance, closed);
  }

  lemma ThreeMore(u: Unit, closed: bool)
    requires u.pc.Draining?
    ensures Acts(u, [Advance] + ([Advance] + [Advance]), closed)
         == Unit(Sending, Exited, false, false, u.shutdownPending)
  {
    var u1 := u.(pc := StopWaited, pipeline := false);
    FirstAct(u, Advance, [Advance] + [Advance], closed);
    FirstAct(u1, Advance, [Advance], closed);
    OneAct(u1.(pc := StopGauged, gauge := false), Advance, closed);
  }

  lemma StopActs(u: Unit, closed: bool)
    requires GoodUnit(u) && u.pc.Selecting? && u.shutdownPending
    ensures Acts(u, [ShutdownSeen] + ([Advance] + ([Advance] + ([Advance] + [Advance]))), closed)
         == Unit(Sending, Exited, false, false, false)
  {
    var u1 := u.(pc := Stopping(u.pc.polled), shutdownPending := false);
    FirstAct(u, ShutdownSeen, [Advance] + ([Advance] + ([Advance] + [Advance])), closed);
    FirstAct(u1, Advance, [Advance] + ([Advance] + [Advance]), closed);
    ThreeMore(u1.(pc := Draining(u1.pipeline)), closed);
  }

  /** From every reachable state with a failed wait: if the reconnect succeeds the unit goes back
      to waiting, running, gauge up, with a pipeline, and nothing else has changed; no signal is
      sent. */
  lemma Recovers(s: State, k: nat, built: bool)
    requires Inv(s) && k < |s.units| && s.units[k].pc.WaitErr?
    ensures Run(s, Locals(k, [Advance] + ([Reconnected(true, built)] + ([Advance] + [Advance]))))
         == s.(units := s.units[k := Unit(Selecting(false), Running, true, true, s.units[k].shutdownPending)])
  {
    hide Run, Locals, Acts;
    RecoverActs(s.units[k], built, s.main.Over?);
    RunLocals(s, k, [Advance] + ([Reconnected(true, built)] + ([Advance] + [Advance])));
  }

  /** If it fails, the unit gives up: gauge down, status Failed, about to send its signal. */
  lemma GivesUp(s: State, k: nat, built: bool)
    requires Inv(s) && k < |s.units| && s.units[k].pc.WaitErr?
    ensures Run(s, Locals(k, [Advance] + ([Reconnected(false, built)] + [Advance])))
         == s.(units := s.units[k := Unit(Sending, Failed, false, built, s.units[k].shutdownPending)])
  {
    hide Run, Locals, Acts;
    GiveUpActs(s.units[k], built, s.main.Over?);
    RunLocals(s, k, [Advance] + ([Reconnected(false, built)] + [Advance]));
  }

  /** A pipeline that ends by itself ends the unit without an error. */
  lemma EndsWell(s: State, k: nat)
    requires Inv(s) && k < |s.units| && s.units[k].pc == Selecting(true)
    ensures Run(s, Locals(k, [WaitReturns(true)] + ([Advance] + [Advance])))
         == s.(units := s.units[k := Unit(Sending, Exited, false, false, s.units[k].shutdownPending)])
  {
    hide Run, Locals, Acts;
    EndActs(s.units[k], s.main.Over?);
    RunLocals(s, k, [WaitReturns(true)] + ([Advance] + [Advance]));
  }

  /** So does a shutdown signal that is seen, whether or not the wait had begun. */
  lemma StopsWhenTold(s: State, k: nat)
    requires Inv(s) && k < |s.units| && s.units[k].pc.Selecting? && s.units[k].shutdownPending
    ensures Run(s, Locals(k, [ShutdownSeen] + ([Advance] + ([Advance] + ([Advance] + [Advance])))))
         == s.(units := s.units[k := Unit(Sending, Exited, false, false, false)])
  {
    hide Run, Locals, Acts;
    StopActs(s.units[k], s.main.Over?);
    RunLocals(s, k, [ShutdownSeen] + ([Advance] + ([Advance] + ([Advance] + [Advance]))));
  }
}
