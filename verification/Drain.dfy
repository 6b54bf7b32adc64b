/** The way of a finding from a pipeline to Slack, next to the life of the units: batches
    queue for one scan task a unit, which nothing waits for; the main loop breaks, flushes
    once and returns, and with it the runtime and every task in it end. */
module Drain {
  import opened Findings
  import opened Option
  import Slack
  import Supervisor
  import Shutdown

  /** The capacity of the channel to a scan task. */
  const CAPACITY: nat := 256

  /** Between two findings, after a push that filled the buffer, or awaiting a delivery. */
  datatype Stage = Ready | Full | Sending(batch: seq<Finding>)

  /** A scan task: its channel, what is left of the batch at hand, and where it stands. A batch
      is given by the findings that scanning its events will yield. */
  datatype Scan = Scan(queue: seq<seq<Finding>>, rest: seq<Finding>, stage: Stage)

  const RESTING := Scan([], [], Ready)

  /** What `run` does after the loop. */
  datatype Finale = NotYet | Flushing(batch: seq<Finding>) | Returned

  /** `handed` to the scan tasks, `suppressed` as duplicates or routed past Slack, and `sent`
      in a request that has come to its end. */
  datatype State = State(
    sup: Supervisor.State, scans: seq<Scan>, buffer: Slack.Buffer, clock: nat, timer: Option<seq<Finding>>,
    finale: Finale, handed: multiset<Finding>, suppressed: multiset<Finding>, sent: multiset<Finding>)

  datatype Step =
    | Unit(step: Supervisor.Step)
    | HandOver(scan: nat, batch: seq<Finding>)
    | Take(scan: nat) | Suppress(scan: nat) | Push(scan: nat, now: nat) | Flush(scan: nat) | Sent(scan: nat)
    | Tick(now: nat) | TimerSent
    | FinalDrain | FinalSent

  function Initial(n: nat, databases: nat): State
  {
    State(Supervisor.Initial(n, databases), seq(n, _ => RESTING), Slack.EMPTY, 0, None, NotYet,
          multiset{}, multiset{}, multiset{})
  }

  predicate IsReady(s: State, k: nat) { k < |s.scans| && s.scans[k].stage.Ready? }

  /** One step; a step that is not enabled changes nothing. A pipeline hands over while its
      unit is running. */
  function Do(c: Slack.Settings, s: State, step: Step): State
  {
    if s.finale.Returned? then s
    else match step
      case Unit(step) => s.(sup := Supervisor.Do(s.sup, step))
      case HandOver(k, batch) =>
        if k < |s.scans| && k < |s.sup.units| && s.sup.units[k].status.Running? && |s.scans[k].queue| < CAPACITY
        then s.(scans := s.scans[k := s.scans[k].(queue := s.scans[k].queue + [batch])],
                handed := s.handed + multiset(batch))
        else s
      case Take(k) =>
        if IsReady(s, k) && s.scans[k].rest == [] && s.scans[k].queue != []
        then s.(scans := s.scans[k := Scan(s.scans[k].queue[1..], s.scans[k].queue[0], Ready)])
        else s
      case Suppress(k) =>
        if IsReady(s, k) && s.scans[k].rest != []
        then s.(scans := s.scans[k := s.scans[k].(rest := s.scans[k].rest[1..])],
                suppressed := s.suppressed + multiset{s.scans[k].rest[0]})
        else s
      case Push(k, now) =>
        if IsReady(s, k) && s.scans[k].rest != [] && s.clock <= now
        then
          var b := Slack.Pushed(s.buffer, s.scans[k].rest[0], now);
          var next := if |b.findings| >= c.batchSize then Full else Ready;
          s.(scans := s.scans[k := s.scans[k].(rest := s.scans[k].rest[1..], stage := next)], buffer := b, clock := now)
        else s
      case Flush(k) =>
        if k < |s.scans| && s.scans[k].stage.Full?
        then
          var next := if s.buffer.findings != [] then Sending(s.buffer.findings) else Ready;
          var left := if s.buffer.findings != [] then Slack.EMPTY else s.buffer;
          s.(scans := s.scans[k := s.scans[k].(stage := next)], buffer := left)
        else s
      case Sent(k) =>
        if k < |s.scans| && s.scans[k].stage.Sending?
        then s.(scans := s.scans[k := s.scans[k].(stage := Ready)], sent := s.sent + multiset(s.scans[k].stage.batch))
        else s
      case Tick(now) =>
        if s.timer.None? && s.clock <= now && Slack.Drains(s.buffer, false, c.batchWindow, now)
        then s.(timer := Some(s.buffer.findings), buffer := Slack.EMPTY, clock := now)
        else s
      case TimerSent =>
        if s.timer.Some? then s.(timer := None, sent := s.sent + multiset(s.timer.value)) else s
      case FinalDrain =>
        if s.finale.NotYet? && s.sup.main == Supervisor.Over(Supervisor.Ok)
        then s.(finale := Flushing(s.buffer.findings), buffer := Slack.EMPTY)
        else s
      case FinalSent =>
        if s.finale.Flushing? then s.(finale := Returned, sent := s.sent + multiset(s.finale.batch)) else s
  }

  function Run(c: Slack.Settings, s: State, steps: seq<Step>): State
  {
    if steps == [] then s else Do(c, Run(c, s, steps[..|steps| - 1]), steps[|steps| - 1])
  }

  // ----- the buffer is that of the Slack channel

  function SenderOf(stage: Stage): Slack.Sender
  {
    match stage case Ready => Slack.Idle case Full => Slack.Pending case Sending(_) => Slack.Delivering
  }

  /** The part of the state that the Slack channel sees, with nothing recorded yet. */
  function View(s: State): (t: Slack.State)
    ensures |t.senders| == |s.scans| && forall k :: 0 <= k < |s.scans| ==> t.senders[k] == SenderOf(s.scans[k].stage)
  {
    var senders := seq(|s.scans|, k requires 0 <= k < |s.scans| => SenderOf(s.scans[k].stage));
    Slack.State(s.buffer, senders, [], [], [], s.clock)
  }

  /** Every step on the buffer is the step of the Slack channel: a push leaves the sender to flush
      exactly if the buffer is full, and what a flush takes is what is then delivered. */
  lemma PushProjects(c: Slack.Settings, s: State, k: nat, now: nat)
    requires !s.finale.Returned? && IsReady(s, k) && s.scans[k].rest != [] && s.clock <= now
    ensures var t, u := Do(c, s, Push(k, now)), Slack.Do(c, View(s), Slack.Push(k, s.scans[k].rest[0], now));
      t.buffer == u.buffer && t.clock == u.clock && View(t).senders == u.senders && u.pushed == [s.scans[k].rest[0]]
  {
  }

  lemma FlushProjects(c: Slack.Settings, s: State, k: nat)
    requires !s.finale.Returned? && k < |s.scans| && s.scans[k].stage.Full?
    ensures var t, u := Do(c, s, Flush(k)), Slack.Do(c, View(s), Slack.SenderFlush(k, s.clock));
      && t.buffer == u.buffer && View(t).senders == u.senders
      && (u.batches == [] <==> t.scans[k].stage.Ready?)
      && (u.batches != [] ==> t.scans[k].stage == Sending(u.batches[0]))
  {
  }

  lemma TickProjects(c: Slack.Settings, s: State, now: nat)
    requires !s.finale.Returned? && s.timer.None? && s.clock <= now
    ensures var t, u := Do(c, s, Tick(now)), Slack.Do(c, View(s), Slack.TimerFlush(now));
      && t.buffer == u.buffer && View(t).senders == u.senders
      && t.timer == if u.batches == [] then None else Some(u.batches[0])
  {
  }

  lemma FinalProjects(c: Slack.Settings, s: State)
    requires s.finale.NotYet? && s.sup.main == Supervisor.Over(Supervisor.Ok)
    ensures var t, u := Do(c, s, FinalDrain), Slack.Do(c, View(s), Slack.FinalFlush(s.clock));
      && t.buffer.findings == u.buffer.findings && View(t).senders == u.senders
      && t.finale == Flushing(if u.batches == [] then [] else u.batches[0])
  {
  }

  // ----- where findings are

  function Queued(queue: seq<seq<Finding>>): multiset<Finding>
  {
    if queue == [] then multiset{} else multiset(queue[0]) + Queued(queue[1..])
  }

  /** What a scan task has not pushed to the buffer yet. */
  function Unpushed(scan: Scan): multiset<Finding> { Queued(scan.queue) + multiset(scan.rest) }

  /** What it has drained and not sent yet. */
  function InFlight(scan: Scan): multiset<Finding>
  {
    if scan.stage.Sending? then multiset(scan.stage.batch) else multiset{}
  }

  function Held(scan: Scan): multiset<Finding> { Unpushed(scan) + InFlight(scan) }

  function Total(scans: seq<Scan>): multiset<Finding>
  {
    if scans == [] then multiset{} else Total(scans[..|scans| - 1]) + Held(scans[|scans| - 1])
  }

  function AtTimer(s: State): multiset<Finding> { if s.timer.Some? then multiset(s.timer.value) else multiset{} }

  function AtMain(s: State): multiset<Finding>
  {
    if s.finale.Flushing? then multiset(s.finale.batch) else multiset{}
  }

  /** Everything that is on its way. */
  function Outstanding(s: State): multiset<Finding>
  {
    Total(s.scans) + multiset(s.buffer.findings) + AtTimer(s) + AtMain(s)
  }

  function Settled(s: State): multiset<Finding> { s.sent + s.suppressed }

  lemma {:induction false} TotalUpdate(scans: seq<Scan>, k: nat, x: Scan)
    requires k < |scans|
    ensures Total(scans[k := x]) + Held(scans[k]) == Total(scans) + Held(x)
  {
    hide Held;
    var m := |scans| - 1;
    if k == m {
      assert scans[k := x][..m] == scans[..m];
    } else {
      assert scans[k := x][..m] == scans[..m][k := x];
      TotalUpdate(scans[..m], k, x);
      BothMore(Total(scans[..m][k := x]), Held(scans[k]), Total(scans[..m]), Held(x), Held(scans[m]));
    }
  }

  lemma BothMore<T>(a: multiset<T>, b: multiset<T>, c: multiset<T>, d: multiset<T>, more: multiset<T>)
    requires a + b == c + d
    ensures (a + more) + b == (c + more) + d
  {
    forall x: T ensures ((a + more) + b)[x] == ((c + more) + d)[x] {
      assert (a + b)[x] == (c + d)[x];
    }
  }

  lemma SumEmpty(a: multiset<Finding>, b: multiset<Finding>)
    ensures a + b == multiset{} <==> a == multiset{} && b == multiset{}
  {
    assert |a + b| == |a| + |b|;
  }

  lemma {:induction false} TotalEmpty(scans: seq<Scan>)
    ensures Total(scans) == multiset{} <==> forall k :: 0 <= k < |scans| ==> Held(scans[k]) == multiset{}
  {
    hide Held;
    if scans != [] {
      TotalEmpty(scans[..|scans| - 1]);
      SumEmpty(Total(scans[..|scans| - 1]), Held(scans[|scans| - 1]));
    }
  }

  lemma {:induction false} QueuedMore(queue: seq<seq<Finding>>, batch: seq<Finding>)
    ensures Queued(queue + [batch]) == Queued(queue) + multiset(batch)
  {
    if queue == [] {
      assert [batch][1..] == [];
    } else {
      assert (queue + [batch])[1..] == queue[1..] + [batch];
      QueuedMore(queue[1..], batch);
    }
  }

  lemma HeadTail(rest: seq<Finding>)
    requires rest != []
    ensures multiset(rest) == multiset{rest[0]} + multiset(rest[1..])
  {
    assert rest == [rest[0]] + rest[1..];
  }

  // ----- conservation

  /** What was handed over is sent, suppressed, or still on its way. */
  predicate Conserved(s: State) { s.handed == Settled(s) + Outstanding(s) }

  predicate Inv(s: State)
  {
    && Supervisor.Inv(s.sup) && |s.scans| == |s.sup.units|
    && (s.buffer.first.Some? <==> s.buffer.findings != [])
    && (s.timer.Some? ==> s.timer.value != [])
    && (!s.finale.NotYet? ==> s.sup.main == Supervisor.Over(Supervisor.Ok))
    && Conserved(s)
  }

  /** A step of one scan task conserves if it balances on the task and the buffer. */
  lemma Balanced(s: State, t: State, k: nat)
    requires Conserved(s) && k < |s.scans| == |t.scans| && t.scans == s.scans[k := t.scans[k]]
    requires t.timer == s.timer && t.finale == s.finale
    requires t.handed + Settled(s) + Held(s.scans[k]) + multiset(s.buffer.findings)
          == s.handed + Settled(t) + Held(t.scans[k]) + multiset(t.buffer.findings)
    ensures Conserved(t)
  {
    hide Held, Settled, AtTimer, AtMain, Total;
    TotalUpdate(s.scans, k, t.scans[k]);
    var a, b, x, y := Total(s.scans), Total(t.scans), Held(s.scans[k]), Held(t.scans[k]);
    var w, v, p, q := multiset(s.buffer.findings), multiset(t.buffer.findings), Settled(s), Settled(t);
    assert AtTimer(t) == AtTimer(s) && AtMain(t) == AtMain(s) by { SameElsewhere(s, t); }
    forall f: Finding ensures t.handed[f] == (q + Outstanding(t))[f] {
      assert (b + x)[f] == (a + y)[f];
      assert (t.handed + p + x + w)[f] == (s.handed + q + y + v)[f];
      assert s.handed[f] == (p + Outstanding(s))[f];
    }
  }

  lemma SameElsewhere(s: State, t: State)
    requires t.timer == s.timer && t.finale == s.finale
    ensures AtTimer(t) == AtTimer(s) && AtMain(t) == AtMain(s)
  {
  }

  lemma HandOverConserves(c: Slack.Settings, s: State, k: nat, batch: seq<Finding>)
    requires Conserved(s)
    ensures Conserved(Do(c, s, HandOver(k, batch)))
  {
    var t := Do(c, s, HandOver(k, batch));
    if t != s {
      MoreHeld(s.scans[k], batch);
      SameSettled(s, t);
      hide Conserved, Held, Settled;
      Moved(s.handed, Settled(s), Held(s.scans[k]), multiset(batch), multiset(s.buffer.findings));
      Balanced(s, t, k);
    }
  }

  lemma MoreHeld(scan: Scan, batch: seq<Finding>)
    ensures Held(scan.(queue := scan.queue + [batch])) == Held(scan) + multiset(batch)
  {
    hide Queued;
    QueuedMore(scan.queue, batch);
  }

  lemma SameSettled(s: State, t: State)
    requires t.sent == s.sent && t.suppressed == s.suppressed
    ensures Settled(t) == Settled(s)
  {
  }

  lemma TakeConserves(c: Slack.Settings, s: State, k: nat)
    requires Conserved(s)
    ensures Conserved(Do(c, s, Take(k)))
  {
    var t := Do(c, s, Take(k));
    if t != s {
      TakeHolds(s.scans[k], t.scans[k]);
      SameSettled(s, t);
      hide Conserved, Held, Settled;
      Balanced(s, t, k);
    }
  }

  lemma TakeHolds(scan: Scan, next: Scan)
    requires scan.queue != [] && scan.rest == [] && scan.stage.Ready?
    requires next == Scan(scan.queue[1..], scan.queue[0], Ready)
    ensures Held(next) == Held(scan)
  {
  }

  lemma SuppressConserves(c: Slack.Settings, s: State, k: nat)
    requires Conserved(s)
    ensures Conserved(Do(c, s, Suppress(k)))
  {
    var t := Do(c, s, Suppress(k));
    if t != s {
      var f := s.scans[k].rest[0];
      LessHeld(s.scans[k], t.scans[k]);
      assert Settled(t) == Settled(s) + multiset{f};
      hide Conserved, Held, Settled;
      Moved(s.handed, Settled(s), Held(t.scans[k]), multiset{f}, multiset(s.buffer.findings));
      Balanced(s, t, k);
    }
  }

  /** The next finding leaves the scan task. */
  lemma LessHeld(scan: Scan, next: Scan)
    requires scan.rest != [] && scan.stage.Ready? && !next.stage.Sending?
    requires next.queue == scan.queue && next.rest == scan.rest[1..]
    ensures Held(scan) == Held(next) + multiset{scan.rest[0]}
  {
    hide Queued;
    HeadTail(scan.rest);
  }

  lemma Moved<T>(a: multiset<T>, b: multiset<T>, h: multiset<T>, x: multiset<T>, w: multiset<T>)
    ensures a + b + (h + x) + w == a + (b + x) + h + w == a + b + h + (w + x) == (a + x) + b + h + w
  {
  }

  lemma PushConserves(c: Slack.Settings, s: State, k: nat, now: nat)
    requires Conserved(s)
    ensures Conserved(Do(c, s, Push(k, now)))
  {
    var t := Do(c, s, Push(k, now));
    if t != s {
      var f := s.scans[k].rest[0];
      LessHeld(s.scans[k], t.scans[k]);
      SameSettled(s, t);
      assert multiset(t.buffer.findings) == multiset(s.buffer.findings) + multiset{f};
      hide Conserved, Held, Settled;
      Moved(s.handed, Settled(s), Held(t.scans[k]), multiset{f}, multiset(s.buffer.findings));
      Balanced(s, t, k);
    }
  }

  lemma DrainConserves(c: Slack.Settings, s: State, k: nat)
    requires Conserved(s)
    ensures Conserved(Do(c, s, Flush(k)))
  {
    var t := Do(c, s, Flush(k));
    if t != s {
      var m, none := multiset(s.buffer.findings), multiset(t.buffer.findings);
      if m != multiset{} {
        DeliveryHeld(s.scans[k], s.buffer.findings);
      } else {
        assert s.buffer.findings == [] by { assert |m| == |s.buffer.findings|; }
      }
      assert Held(t.scans[k]) == Held(s.scans[k]) + m && none == multiset{};
      SameSettled(s, t);
      hide Conserved, Held, Settled;
      Moved(s.handed, Settled(s), Held(s.scans[k]), m, none);
      assert none + m == m;
      Balanced(s, t, k);
    }
  }

  lemma DeliveryHeld(scan: Scan, batch: seq<Finding>)
    requires !scan.stage.Sending?
    ensures Held(scan.(stage := Sending(batch))) == Held(scan) + multiset(batch)
  {
  }

  lemma MoreSent(s: State, t: State, m: multiset<Finding>)
    requires t.sent == s.sent + m && t.suppressed == s.suppressed
    ensures Settled(t) == Settled(s) + m
  {
  }

  lemma SentConserves(c: Slack.Settings, s: State, k: nat)
    requires Conserved(s)
    ensures Conserved(Do(c, s, Sent(k)))
  {
    var t := Do(c, s, Sent(k));
    if t != s {
      var m := multiset(s.scans[k].stage.batch);
      DeliveryHeld(t.scans[k], s.scans[k].stage.batch);
      assert s.scans[k] == t.scans[k].(stage := Sending(s.scans[k].stage.batch));
      MoreSent(s, t, m);
      hide Conserved, Held, Settled;
      Moved(s.handed, Settled(s), Held(t.scans[k]), m, multiset(s.buffer.findings));
      Balanced(s, t, k);
    }
  }

  lemma TimerConserves(c: Slack.Settings, s: State, step: Step)
    requires Conserved(s) && (step.Tick? || step.TimerSent?)
    ensures Conserved(Do(c, s, step))
  {
    hide Total;
  }

  lemma FinalConserves(c: Slack.Settings, s: State, step: Step)
    requires Conserved(s) && (step.FinalDrain? || step.FinalSent?)
    ensures Conserved(Do(c, s, step))
  {
    hide Total;
  }

  lemma StepKeeps(c: Slack.Settings, s: State, step: Step)
    requires Inv(s)
    ensures Inv(Do(c, s, step))
  {
    hide Conserved, Supervisor.Inv;
    match step
    case Unit(step) =>
      if !s.finale.Returned? {
        UnitKeeps(c, s, step);
      }
    case HandOver(k, batch) => HandOverConserves(c, s, k, batch);
    case Take(k) => TakeConserves(c, s, k);
    case Suppress(k) => SuppressConserves(c, s, k);
    case Push(k, now) => PushConserves(c, s, k, now);
    case Flush(k) => DrainConserves(c, s, k);
    case Sent(k) => SentConserves(c, s, k);
    case Tick(_) => TimerConserves(c, s, step);
    case TimerSent => TimerConserves(c, s, step);
    case _ => FinalConserves(c, s, step);
  }

  lemma UnitKeeps(c: Slack.Settings, s: State, step: Supervisor.Step)
    requires Inv(s)
    ensures Inv(Do(c, s, Unit(step)))
  {
    Supervisor.StepKeeps(s.sup, step);
    hide Supervisor.Inv, Total;
    if s.sup.main == Supervisor.Over(Supervisor.Ok) {
      OverStays(s.sup, step);
    }
  }

  lemma OverStays(s: Supervisor.State, step: Supervisor.Step)
    requires s.main == Supervisor.Over(Supervisor.Ok)
    ensures Supervisor.Do(s, step).main == Supervisor.Over(Supervisor.Ok)
  {
  }

  /** Conservation, for every run of pipelines, scan tasks, timer and main loop. */
  lemma {:induction false} RunKeeps(c: Slack.Settings, n: nat, databases: nat, steps: seq<Step>)
    requires n <= databases
    ensures Inv(Run(c, Initial(n, databases), steps))
  {
    if steps == [] {
      InitialGood(n, databases);
    } else {
      hide Inv;
      RunKeeps(c, n, databases, steps[..|steps| - 1]);
      StepKeeps(c, Run(c, Initial(n, databases), steps[..|steps| - 1]), steps[|steps| - 1]);
    }
  }

  lemma InitialQuiet(n: nat, databases: nat)
    ensures var s := Initial(n, databases);
      && s.sup == Supervisor.Initial(n, databases) && |s.scans| == n && s.finale.NotYet? && s.timer.None?
      && (forall k :: 0 <= k < n ==> s.scans[k] == RESTING)
      && s.buffer == Slack.EMPTY && s.handed == s.suppressed == s.sent == multiset{}
  {
  }

  lemma InitialGood(n: nat, databases: nat)
    requires n <= databases
    ensures Inv(Initial(n, databases))
  {
    var s := Initial(n, databases);
    InitialQuiet(n, databases);
    Supervisor.InitialGood(n, databases);
    assert |s.sup.units| == n;
    hide Supervisor.Inv, Initial, Supervisor.Initial, Total, Conserved;
    assert Held(RESTING) == multiset{};
    TotalEmpty(s.scans);
    NothingYet(s);
  }

  lemma NothingYet(s: State)
    requires Total(s.scans) == multiset{} && s.buffer == Slack.EMPTY && s.timer.None? && s.finale.NotYet?
    requires s.handed == s.suppressed == s.sent == multiset{}
    ensures Conserved(s)
  {
  }

  // ----- what the return leaves behind

  /** The scan tasks have pushed or suppressed all they were handed. */
  predicate AllPushed(s: State) { forall k :: 0 <= k < |s.scans| ==> Unpushed(s.scans[k]) == multiset{} }

  /** No scan task and not the timer awaits a delivery. */
  predicate NoneInFlight(s: State)
  {
    s.timer.None? && forall k :: 0 <= k < |s.scans| ==> InFlight(s.scans[k]) == multiset{}
  }

  /** All that was handed over is sent or suppressed. */
  predicate Delivered(s: State) { s.handed == Settled(s) }

  lemma DeliveredWhere(s: State)
    requires Inv(s)
    ensures Delivered(s) <==> AllPushed(s) && NoneInFlight(s) && s.buffer.findings == [] && AtMain(s) == multiset{}
  {
    hide Supervisor.Inv, Unpushed, InFlight, Settled, AtMain, Total;
    var w := multiset(s.buffer.findings);
    NoneLeft(Settled(s), Outstanding(s));
    SumEmpty(Total(s.scans) + w + AtTimer(s), AtMain(s));
    SumEmpty(Total(s.scans) + w, AtTimer(s));
    SumEmpty(Total(s.scans), w);
    assert |w| == |s.buffer.findings|;
    assert s.timer.Some? ==> |AtTimer(s)| == |s.timer.value|;
    TotalEmpty(s.scans);
    forall k | 0 <= k < |s.scans| {
      SumEmpty(Unpushed(s.scans[k]), InFlight(s.scans[k]));
    }
  }

  lemma NoneLeft<T>(a: multiset<T>, b: multiset<T>)
    ensures a + b == a <==> b == multiset{}
  {
    assert |a + b| == |a| + |b|;
  }

  /** The loop has broken. */
  predicate Broken(s: State) { Inv(s) && s.sup.main == Supervisor.Over(Supervisor.Ok) }

  lemma BrokenKeeps(c: Slack.Settings, s: State, step: Step)
    requires Broken(s)
    ensures Broken(Do(c, s, step)) && Do(c, s, step).handed == s.handed
    ensures step.HandOver? ==> Do(c, s, step) == s
  {
    StepKeeps(c, s, step);
    if step.Unit? {
      OverStays(s.sup, step.step);
    }
    NoneRunning(s.sup);
    hide Inv, Supervisor.Inv;
  }

  /** No unit is running any more, so nothing is handed over. */
  lemma NoneRunning(s: Supervisor.State)
    requires Supervisor.Inv(s) && s.main == Supervisor.Over(Supervisor.Ok)
    ensures forall k :: 0 <= k < |s.units| ==> !s.units[k].status.Running?
  {
    assert Supervisor.AllTerminal(s);
  }

  lemma {:induction false} BrokenRun(c: Slack.Settings, s: State, after: seq<Step>)
    requires Broken(s)
    ensures Broken(Run(c, s, after))
  {
    hide Broken;
    if after != [] {
      BrokenRun(c, s, after[..|after| - 1]);
      BrokenKeeps(c, Run(c, s, after[..|after| - 1]), after[|after| - 1]);
    }
  }

  /** The main task alone, to its return. */
  const FLUSH: seq<Step> := [FinalDrain] + [FinalSent]

  lemma Then(c: Slack.Settings, s: State, before: seq<Step>, step: Step)
    ensures Run(c, s, before + [step]) == Do(c, Run(c, s, before), step)
  {
    assert (before + [step])[..|before|] == before;
  }

  lemma RunOne(c: Slack.Settings, s: State, step: Step)
    ensures Run(c, s, [step]) == Do(c, s, step)
  {
    assert [step][..0] == [] && Run(c, s, []) == s;
  }

  lemma FlushOnly(c: Slack.Settings, s: State)
    requires s.sup.main == Supervisor.Over(Supervisor.Ok) && s.finale.NotYet?
    ensures Run(c, s, FLUSH)
         == s.(finale := Returned, buffer := Slack.EMPTY, sent := s.sent + multiset(s.buffer.findings))
  {
    RunOne(c, s, FinalDrain);
    Then(c, s, [FinalDrain], FinalSent);
  }

  // ----- (1) what is drained

  /** Nothing waits before the buffer, and after the final drain nothing in it. */
  predicate Emptied(s: State)
  {
    Broken(s) && AllPushed(s) && (!s.finale.NotYet? ==> s.buffer.findings == [])
  }

  lemma NothingToPush(s: State, k: nat)
    requires AllPushed(s) && k < |s.scans|
    ensures s.scans[k].rest == [] && Queued(s.scans[k].queue) == multiset{}
  {
    SumEmpty(Queued(s.scans[k].queue), multiset(s.scans[k].rest));
    assert |multiset(s.scans[k].rest)| == |s.scans[k].rest|;
  }

  /** A scan task with nothing left of its batch takes the next one, ends a delivery or begins
      one. */
  lemma QuietScan(c: Slack.Settings, s: State, step: Step, k: nat)
    requires k < |s.scans| && s.scans[k].rest == [] && !step.HandOver?
    ensures var t := Do(c, s, step); |t.scans| == |s.scans|
    ensures var scan, next := s.scans[k], Do(c, s, step).scans[k];
      if step.Take? && next != scan
      then scan.queue != [] && next == Scan(scan.queue[1..], scan.queue[0], Ready)
      else
        && next.queue == scan.queue && next.rest == []
        && (step.Flush? || next.stage == scan.stage || next.stage.Ready?)
  {
  }

  lemma QuietBuffer(c: Slack.Settings, s: State, step: Step)
    requires forall k :: 0 <= k < |s.scans| ==> s.scans[k].rest == []
    ensures var t := Do(c, s, step);
      && (t.buffer == s.buffer || t.buffer == Slack.EMPTY)
      && (s.finale.NotYet? && !t.finale.NotYet? ==> t.buffer == Slack.EMPTY)
      && (t.finale.NotYet? ==> s.finale.NotYet?)
  {
  }

  lemma EmptiedKeeps(c: Slack.Settings, s: State, step: Step)
    requires Emptied(s)
    ensures Emptied(Do(c, s, step))
  {
    BrokenKeeps(c, s, step);
    hide Broken, Do;
    StillPushed(c, s, step);
    forall k | 0 <= k < |s.scans| ensures s.scans[k].rest == [] {
      NothingToPush(s, k);
    }
    hide AllPushed;
    QuietBuffer(c, s, step);
  }

  lemma StillPushed(c: Slack.Settings, s: State, step: Step)
    requires AllPushed(s) && (step.HandOver? ==> Do(c, s, step) == s)
    ensures AllPushed(Do(c, s, step))
  {
    hide Do, Unpushed;
    var t := Do(c, s, step);
    SameLength(c, s, step);
    if !step.HandOver? {
      forall k | 0 <= k < |s.scans| ensures Unpushed(t.scans[k]) == multiset{} {
        NothingToPush(s, k);
        QuietScan(c, s, step, k);
        QuietUnpushed(s.scans[k], t.scans[k]);
      }
    }
  }

  lemma SameLength(c: Slack.Settings, s: State, step: Step)
    ensures |Do(c, s, step).scans| == |s.scans|
  {
  }

  lemma QuietUnpushed(scan: Scan, next: Scan)
    requires Unpushed(scan) == multiset{} && scan.rest == []
    requires (scan.queue != [] && next == Scan(scan.queue[1..], scan.queue[0], Ready))
             || (next.queue == scan.queue && next.rest == [])
    ensures Unpushed(next) == multiset{}
  {
  }

  lemma {:induction false} EmptiedRun(c: Slack.Settings, s: State, after: seq<Step>)
    requires Emptied(s)
    ensures Emptied(Run(c, s, after))
  {
    hide Emptied;
    if after != [] {
      EmptiedRun(c, s, after[..|after| - 1]);
      EmptiedKeeps(c, Run(c, s, after[..|after| - 1]), after[|after| - 1]);
    }
  }

  /** From every reachable state in which the loop has broken and the final flush is still to
      come: every continuation to the return leaves nothing behind that was never drained, in a
      queue, a scan task or the buffer, if and only if the scan tasks have pushed everything. */
  lemma DrainedExactly(c: Slack.Settings, n: nat, databases: nat, before: seq<Step>)
    requires n <= databases
    requires var s := Run(c, Initial(n, databases), before);
      s.sup.main == Supervisor.Over(Supervisor.Ok) && s.finale.NotYet?
    ensures var s := Run(c, Initial(n, databases), before);
      (forall after :: var t := Run(c, s, after); t.finale.Returned? ==> AllPushed(t) && t.buffer.findings == [])
      <==> AllPushed(s)
  {
    var s := Run(c, Initial(n, databases), before);
    RunKeeps(c, n, databases, before);
    hide Inv;
    FlushOnly(c, s);
    hide Run, AllPushed;
    assert AllPushed(Run(c, s, FLUSH)) <==> AllPushed(s) by { SameScans(s, Run(c, s, FLUSH)); }
    if AllPushed(s) {
      forall after | Run(c, s, after).finale.Returned?
        ensures AllPushed(Run(c, s, after)) && Run(c, s, after).buffer.findings == []
      {
        EmptiedRun(c, s, after);
      }
    }
  }

  lemma SameScans(s: State, t: State)
    requires t.scans == s.scans
    ensures AllPushed(t) <==> AllPushed(s)
    ensures t.timer == s.timer ==> (NoneInFlight(t) <==> NoneInFlight(s))
  {
  }

  // ----- (2) what is sent

  lemma {:induction false} DeliveredRun(c: Slack.Settings, s: State, after: seq<Step>)
    requires Broken(s) && Delivered(s)
    ensures Delivered(Run(c, s, after))
  {
    hide Broken, Delivered;
    if after != [] {
      var before, step := after[..|after| - 1], after[|after| - 1];
      DeliveredRun(c, s, before);
      BrokenRun(c, s, before);
      DeliveredKeeps(c, Run(c, s, before), step);
    }
  }

  lemma DeliveredKeeps(c: Slack.Settings, s: State, step: Step)
    requires Broken(s) && Delivered(s)
    ensures Delivered(Do(c, s, step))
  {
    BrokenKeeps(c, s, step);
    var t := Do(c, s, step);
    Grows(c, s, step);
    hide Inv, Supervisor.Inv;
    StillConserved(s, t);
  }

  lemma Grows(c: Slack.Settings, s: State, step: Step)
    ensures s.sent <= Do(c, s, step).sent && s.suppressed <= Do(c, s, step).suppressed
  {
  }

  lemma StillConserved(s: State, t: State)
    requires Delivered(s) && t.handed == s.handed && s.sent <= t.sent && s.suppressed <= t.suppressed && Conserved(t)
    ensures Delivered(t)
  {
    hide Outstanding;
    forall f: Finding ensures t.handed[f] == Settled(t)[f] {
      assert t.handed[f] == (Settled(t) + Outstanding(t))[f];
      assert s.handed[f] == Settled(s)[f];
      assert s.sent[f] <= t.sent[f] && s.suppressed[f] <= t.suppressed[f];
    }
  }

  /** A reading of the clock at which the timer finds the window over. */
  function Late(c: Slack.Settings, s: State): nat
  {
    var due := if s.buffer.first.Some? then s.buffer.first.value + c.batchWindow else 0;
    if due >= s.clock then due else s.clock
  }

  /** The timer drains the buffer just before the final flush, which then finds nothing. */
  lemma TimerFirst(c: Slack.Settings, s: State) returns (after: seq<Step>)
    requires Broken(s) && s.finale.NotYet? && s.timer.None? && s.buffer.findings != []
    ensures var t := Run(c, s, after); t.finale.Returned? && t.timer.Some?
  {
    hide Supervisor.Inv, Conserved;
    var tick := Tick(Late(c, s));
    var t := Do(c, s, tick);
    assert t == s.(timer := Some(s.buffer.findings), buffer := Slack.EMPTY, clock := Late(c, s));
    hide Inv, Do;
    RunOne(c, s, tick);
    FlushOnly(c, t);
    RunAppend(c, s, [tick], FLUSH);
    after := [tick] + FLUSH;
  }

  /** From the same states: every continuation to the return sends all that was handed over if
      and only if all of it has been sent or suppressed already. The final flush guarantees
      nothing more, because the timer can take the buffer before it and is then cut off. */
  lemma DeliveredExactly(c: Slack.Settings, n: nat, databases: nat, before: seq<Step>)
    requires n <= databases
    requires var s := Run(c, Initial(n, databases), before);
      s.sup.main == Supervisor.Over(Supervisor.Ok) && s.finale.NotYet?
    ensures var s := Run(c, Initial(n, databases), before);
      (forall after :: Run(c, s, after).finale.Returned? ==> Delivered(Run(c, s, after))) <==> Delivered(s)
  {
    var s := Run(c, Initial(n, databases), before);
    RunKeeps(c, n, databases, before);
    if Delivered(s) {
      forall after | Run(c, s, after).finale.Returned? ensures Delivered(Run(c, s, after)) {
        DeliveredRun(c, s, after);
      }
    } else {
      var after := LeavesSome(c, s);
      assert Run(c, s, after).finale.Returned? && !Delivered(Run(c, s, after));
    }
  }

  lemma LeavesSome(c: Slack.Settings, s: State) returns (after: seq<Step>)
    requires Broken(s) && s.finale.NotYet? && !Delivered(s)
    ensures Run(c, s, after).finale.Returned? && !Delivered(Run(c, s, after))
  {
    hide Supervisor.Inv, Delivered, Conserved;
    DeliveredWhere(s);
    if s.buffer.findings != [] && s.timer.None? {
      after := TimerFirst(c, s);
    } else {
      after := FLUSH;
      FlushOnly(c, s);
      SameScans(s, Run(c, s, FLUSH));
    }
    BrokenRun(c, s, after);
    DeliveredWhere(Run(c, s, after));
  }

  // ----- (3) what the final flush is worth

  /** Nobody but the main task takes the buffer. */
  predicate Undisturbed(steps: seq<Step>) { forall step <- steps :: !step.Tick? && !step.Flush? }

  predicate LeftToMain(s: State) { Emptied(s) && NoneInFlight(s) }

  lemma LeftToMainKeeps(c: Slack.Settings, s: State, step: Step)
    requires LeftToMain(s) && !step.Tick? && !step.Flush?
    ensures LeftToMain(Do(c, s, step))
  {
    EmptiedKeeps(c, s, step);
    BrokenKeeps(c, s, step);
    forall k | 0 <= k < |s.scans| ensures s.scans[k].rest == [] {
      NothingToPush(s, k);
    }
    var t := Do(c, s, step);
    SameLength(c, s, step);
    TimerRests(c, s, step);
    hide Emptied, Do;
    if !step.HandOver? {
      forall k | 0 <= k < |t.scans| ensures InFlight(t.scans[k]) == multiset{} {
        assert InFlight(s.scans[k]) == multiset{};
        QuietScan(c, s, step, k);
      }
    }
  }

  lemma TimerRests(c: Slack.Settings, s: State, step: Step)
    requires s.timer.None? && !step.Tick?
    ensures Do(c, s, step).timer.None?
  {
  }

  lemma {:induction false} LeftToMainRun(c: Slack.Settings, s: State, after: seq<Step>)
    requires LeftToMain(s) && Undisturbed(after)
    ensures LeftToMain(Run(c, s, after))
  {
    hide LeftToMain;
    if after != [] {
      LeftToMainRun(c, s, after[..|after| - 1]);
      LeftToMainKeeps(c, Run(c, s, after[..|after| - 1]), after[|after| - 1]);
    }
  }

  /** From the same states, if nobody else takes the buffer: all that was handed over is sent if
      and only if the scan tasks have pushed everything and no delivery is under way in them or
      in the timer. */
  lemma FlushExactly(c: Slack.Settings, n: nat, databases: nat, before: seq<Step>)
    requires n <= databases
    requires var s := Run(c, Initial(n, databases), before);
      s.sup.main == Supervisor.Over(Supervisor.Ok) && s.finale.NotYet?
    ensures var s := Run(c, Initial(n, databases), before);
      (forall after | Undisturbed(after) :: Run(c, s, after).finale.Returned? ==> Delivered(Run(c, s, after)))
      <==> AllPushed(s) && NoneInFlight(s)
  {
    var s := Run(c, Initial(n, databases), before);
    RunKeeps(c, n, databases, before);
    hide Inv, Delivered, AllPushed, NoneInFlight, Do, Run, Initial;
    if AllPushed(s) && NoneInFlight(s) {
      forall after | Undisturbed(after) && Run(c, s, after).finale.Returned? ensures Delivered(Run(c, s, after)) {
        FlushDelivers(c, s, after);
      }
    } else {
      FlushLeaves(c, s);
    }
  }

  lemma FlushDelivers(c: Slack.Settings, s: State, after: seq<Step>)
    requires Broken(s) && s.finale.NotYet? && AllPushed(s) && NoneInFlight(s)
    requires Undisturbed(after) && Run(c, s, after).finale.Returned?
    ensures Delivered(Run(c, s, after))
  {
    hide Inv, Delivered, Do, Undisturbed;
    LeftToMainRun(c, s, after);
    DeliveredWhere(Run(c, s, after));
  }

  lemma FlushLeaves(c: Slack.Settings, s: State)
    requires Broken(s) && s.finale.NotYet? && !(AllPushed(s) && NoneInFlight(s))
    ensures Undisturbed(FLUSH) && Run(c, s, FLUSH).finale.Returned? && !Delivered(Run(c, s, FLUSH))
  {
    hide Inv, Delivered, Do, Run, AllPushed, NoneInFlight, Undisturbed;
    FlushUndisturbed();
    FlushOnly(c, s);
    SameScans(s, Run(c, s, FLUSH));
    BrokenRun(c, s, FLUSH);
    DeliveredWhere(Run(c, s, FLUSH));
  }

  lemma FlushUndisturbed()
    ensures Undisturbed(FLUSH)
  {
  }

  // ----- a run that loses a finding

  function Lift(steps: seq<Supervisor.Step>): seq<Step>
  {
    if steps == [] then [] else Lift(steps[..|steps| - 1]) + [Unit(steps[|steps| - 1])]
  }

  lemma {:induction false} RunLift(c: Slack.Settings, s: State, steps: seq<Supervisor.Step>)
    requires !s.finale.Returned?
    ensures Run(c, s, Lift(steps)) == s.(sup := Supervisor.Run(s.sup, steps))
  {
    if steps != [] {
      var lifted := Lift(steps);
      assert lifted[..|lifted| - 1] == Lift(steps[..|steps| - 1]);
      RunLift(c, s, steps[..|steps| - 1]);
    }
  }

  lemma {:induction false} RunAppend(c: Slack.Settings, s: State, a: seq<Step>, b: seq<Step>)
    ensures Run(c, s, a + b) == Run(c, Run(c, s, a), b)
  {
    if b == [] {
      assert a + b == a;
    } else {
      assert (a + b)[..|a + b| - 1] == a + b[..|b| - 1];
      RunAppend(c, s, a, b[..|b| - 1]);
    }
  }

  /** With any number of databases: a finding is handed over, Ctrl-C comes, every pipeline is
      shut down in order, the loop breaks, and the program returns without having sent it. */
  lemma EventsLost(c: Slack.Settings, n: nat, databases: nat, f: Finding) returns (steps: seq<Step>)
    requires 0 < n <= databases
    ensures var s := Run(c, Initial(n, databases), steps);
      s.finale.Returned? && s.handed == multiset{f} && s.sent == multiset{} && s.suppressed == multiset{}
  {
    hide Do, Supervisor.Do, Run, Supervisor.Run, Initial, Supervisor.Initial, Lift;
    var no := (k: nat) => false;
    var start := Shutdown.StartAll(n, databases);
    var end := Shutdown.ShutdownCompletes(n, databases, start, no, no);
    end := [Supervisor.CtrlC] + end;
    var i, hand := Initial(n, databases), [HandOver(0, [f])];
    InitialQuiet(n, databases);
    RunLift(c, i, start);
    var s := Run(c, i, Lift(start));
    HandOne(c, s, f);
    var t := Run(c, s, hand);
    RunLift(c, t, end);
    Supervisor.RunAppend(i.sup, start, end);
    assert start + end == start + [Supervisor.CtrlC] + end[1..];
    var u := Run(c, t, Lift(end));
    FlushOnly(c, u);
    RunAppend(c, i, Lift(start), hand);
    RunAppend(c, i, Lift(start) + hand, Lift(end));
    RunAppend(c, i, Lift(start) + hand + Lift(end), FLUSH);
    steps := Lift(start) + hand + Lift(end) + FLUSH;
  }

  lemma HandOne(c: Slack.Settings, s: State, f: Finding)
    requires |s.scans| == |s.sup.units| > 0 && s.sup.units[0] == Shutdown.ACTIVE && s.scans[0] == RESTING
    requires !s.finale.Returned?
    ensures Run(c, s, [HandOver(0, [f])])
         == s.(scans := s.scans[0 := Scan([[f]], [], Ready)], handed := s.handed + multiset{f})
  {
    RunOne(c, s, HandOver(0, [f]));
    assert RESTING.queue + [[f]] == [[f]] && multiset([f]) == multiset{f};
  }
}
