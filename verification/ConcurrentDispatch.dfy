/** Dispatches of several databases at once: each scan task decides under the mutex of the
    deduplicator, then goes through the channels one send at a time, while the others do
    the same. */
module ConcurrentDispatch {
  import opened Findings
  import Dedup
  import Dispatcher

  /** A finding that passed deduplication: the task that dispatches it, and when. */
  datatype Passed = Passed(task: nat, finding: Finding, time: nat)

  /** `next` is the channel that the task comes to next. */
  datatype Task = Ready | Sending(entry: Passed, next: nat)

  datatype Settings = Settings(names: seq<string>, window: nat)

  /** The cache, the time of its latest use, all that passed, the tasks, and for each
      channel what it has been asked to send. */
  datatype State = State(seen: Dedup.Cache, clock: nat, log: seq<Passed>, tasks: seq<Task>, received: seq<seq<Passed>>)

  datatype Step = Begin(task: nat, finding: Finding, prune: nat, now: nat) | Offer(task: nat)

  function Initial(c: Settings, n: nat): State
  {
    State(map[], 0, [], seq(n, _ => Ready), seq(|c.names|, _ => []))
  }

  /** One critical section or one send; a step that is not enabled changes nothing. */
  function Do(c: Settings, s: State, step: Step): (s': State)
    requires |s.received| == |c.names|
    ensures |s'.received| == |c.names|
  {
    match step
    case Begin(t, f, prune, now) =>
      if t >= |s.tasks| || !s.tasks[t].Ready? || !(s.clock <= prune <= now) then s
      else
        var call := Dedup.Call(KeyOf(f), prune, now);
        var s' := s.(seen := Dedup.After(s.seen, c.window, call), clock := now);
        if Dedup.Decide(s.seen, c.window, call)
        then s'.(log := s.log + [Passed(t, f, now)], tasks := s.tasks[t := Sending(Passed(t, f, now), 0)])
        else s'
    case Offer(t) =>
      if t >= |s.tasks| || !s.tasks[t].Sending? then s
      else
        var Sending(e, k) := s.tasks[t];
        if k >= |c.names| then s.(tasks := s.tasks[t := Ready])
        else if Dispatcher.Routed(e.finding, c.names[k])
        then s.(received := s.received[k := s.received[k] + [e]], tasks := s.tasks[t := Sending(e, k + 1)])
        else s.(tasks := s.tasks[t := Sending(e, k + 1)])
  }

  function Run(c: Settings, s: State, steps: seq<Step>): (s': State)
    requires |s.received| == |c.names|
    ensures |s'.received| == |c.names|
  {
    if steps == [] then s else Do(c, Run(c, s, steps[..|steps| - 1]), steps[|steps| - 1])
  }

  // ----- what each channel receives

  /** The findings of one task, in order. */
  function By(log: seq<Passed>, t: nat): seq<Finding>
  {
    if log == [] then []
    else
      var e := log[|log| - 1];
      By(log[..|log| - 1], t) + if e.task == t then [e.finding] else []
  }

  function History(log: seq<Passed>): (r: seq<Dedup.Alert>)
    ensures |r| == |log|
    ensures forall k :: 0 <= k < |r| ==> r[k] == Dedup.Alert(KeyOf(log[k].finding), log[k].time)
  {
    seq(|log|, k requires 0 <= k < |log| => Dedup.Alert(KeyOf(log[k].finding), log[k].time))
  }

  /** The findings of task `t` that channel `k` has been offered: all that passed, but for
      one that is on its way. */
  function Offered(s: State, t: nat, k: nat): seq<Finding>
    requires t < |s.tasks|
  {
    var all := By(s.log, t);
    if s.tasks[t].Sending? && s.tasks[t].next <= k && all != [] then all[..|all| - 1] else all
  }

  predicate OnItsWay(s: State, t: nat)
    requires t < |s.tasks|
  {
    s.tasks[t].Sending? ==>
      var all := By(s.log, t);
      s.tasks[t].entry.task == t && all != [] && all[|all| - 1] == s.tasks[t].entry.finding
  }

  /** Each channel has received, from each task, exactly the findings routed to it among
      those it was offered, in order. */
  predicate Received(c: Settings, s: State)
    requires |s.received| == |c.names|
  {
    forall t, k :: 0 <= t < |s.tasks| && 0 <= k < |s.received| ==>
      By(s.received[k], t) == Dispatcher.RoutedTo(Offered(s, t, k), c.names[k])
  }

  predicate Deliveries(c: Settings, n: nat, s: State)
    requires |s.received| == |c.names|
  {
    && |s.tasks| == n
    && (forall t :: 0 <= t < n ==> OnItsWay(s, t))
    && Received(c, s)
  }

  predicate Inv(c: Settings, n: nat, s: State)
    requires |s.received| == |c.names|
  {
    && Dedup.Agrees(s.seen, History(s.log), c.window, s.clock)
    && Dedup.Spaced(History(s.log), c.window)
    && Deliveries(c, n, s)
  }

  lemma ByMore(log: seq<Passed>, e: Passed, t: nat)
    ensures By(log + [e], t) == By(log, t) + if e.task == t then [e.finding] else []
  {
    assert (log + [e])[..|log|] == log;
  }

  lemma RoutedMore(fs: seq<Finding>, name: string)
    requires fs != []
    ensures Dispatcher.RoutedTo(fs, name)
         == Dispatcher.RoutedTo(fs[..|fs| - 1], name)
            + if Dispatcher.Routed(fs[|fs| - 1], name) then [fs[|fs| - 1]] else []
  {
  }

  lemma HistoryMore(log: seq<Passed>, e: Passed)
    ensures History(log + [e]) == History(log) + [Dedup.Alert(KeyOf(e.finding), e.time)]
  {
  }

  /** The decision under the mutex is that of the full history of all tasks. */
  lemma BeginKeeps(c: Settings, n: nat, s: State, t: nat, f: Finding, prune: nat, now: nat)
    requires |s.received| == |c.names| && Inv(c, n, s) && t < n && s.tasks[t].Ready? && s.clock <= prune <= now
    ensures var s' := Do(c, s, Begin(t, f, prune, now));
      && Inv(c, n, s')
      && s'.log == s.log + if Dedup.Live(History(s.log), c.window, KeyOf(f), now) then [] else [Passed(t, f, now)]
  {
    assert |s.tasks| == n;
    hide Deliveries, History, Dedup.Agrees, Dedup.Spaced, Dedup.Decide, Dedup.After, Dedup.Live;
    var call := Dedup.Call(KeyOf(f), prune, now);
    var s' := Do(c, s, Begin(t, f, prune, now));
    Dedup.StepAgrees(s.seen, History(s.log), c.window, s.clock, call);
    Dedup.StepSpaced(s.seen, History(s.log), c.window, s.clock, call);
    HistoryMore(s.log, Passed(t, f, now));
    BeginDelivers(c, n, s, Passed(t, f, now), s');
  }

  lemma BeginDelivers(c: Settings, n: nat, s: State, e: Passed, s': State)
    requires |s.received| == |c.names| && s'.received == s.received
    requires Deliveries(c, n, s) && e.task < n && s.tasks[e.task].Ready?
    requires (s'.log == s.log + [e] && s'.tasks == s.tasks[e.task := Sending(e, 0)])
             || (s'.log == s.log && s'.tasks == s.tasks)
    ensures Deliveries(c, n, s')
  {
    hide Dispatcher.RoutedTo, By;
    forall u, k | 0 <= u < n && 0 <= k < |s.received|
      ensures By(s'.received[k], u) == Dispatcher.RoutedTo(Offered(s', u, k), c.names[k])
    {
      ByMore(s.log, e, u);
      assert OnItsWay(s, u) && Offered(s', u, k) == Offered(s, u, k);
    }
    forall u | 0 <= u < n ensures OnItsWay(s', u) {
      ByMore(s.log, e, u);
      assert OnItsWay(s, u);
    }
  }

  lemma OfferKeeps(c: Settings, n: nat, s: State, t: nat)
    requires |s.received| == |c.names| && Inv(c, n, s) && t < n && s.tasks[t].Sending?
    ensures Inv(c, n, Do(c, s, Offer(t)))
  {
    hide Dispatcher.RoutedTo, Dispatcher.Routed, By, Dedup.Agrees, Dedup.Spaced;
    var s', e, i := Do(c, s, Offer(t)), s.tasks[t].entry, s.tasks[t].next;
    assert OnItsWay(s, t);
    forall u, k | 0 <= u < n && 0 <= k < |s.received|
      ensures By(s'.received[k], u) == Dispatcher.RoutedTo(Offered(s', u, k), c.names[k])
    {
      assert By(s.received[k], u) == Dispatcher.RoutedTo(Offered(s, u, k), c.names[k]);
      if k == i {
        ByMore(s.received[k], e, u);
        RoutedMore(By(s.log, t), c.names[k]);
      } else {
        assert Offered(s', u, k) == Offered(s, u, k);
      }
    }
    forall u | 0 <= u < n ensures OnItsWay(s', u) {
      assert OnItsWay(s, u);
    }
  }

  /** For every interleaving of the tasks, whether or not sends succeed. */
  lemma {:induction false} RunKeeps(c: Settings, n: nat, steps: seq<Step>)
    ensures Inv(c, n, Run(c, Initial(c, n), steps))
  {
    if steps != [] {
      var before, step := Run(c, Initial(c, n), steps[..|steps| - 1]), steps[|steps| - 1];
      RunKeeps(c, n, steps[..|steps| - 1]);
      hide Inv, Run;
      match step
      case Begin(t, f, prune, now) =>
        if t < |before.tasks| && before.tasks[t].Ready? && before.clock <= prune <= now {
          BeginKeeps(c, n, before, t, f, prune, now);
        }
      case Offer(t) =>
        if t < |before.tasks| && before.tasks[t].Sending? {
          OfferKeeps(c, n, before, t);
        }
    }
  }

  /** Once no dispatch is under way, every channel has received from every task exactly the
      passed findings routed to it, each once and in order; and over all tasks the alerts
      for one key are at least a window apart. */
  lemma AllDelivered(c: Settings, n: nat, steps: seq<Step>, t: nat, k: nat)
    requires t < n && k < |c.names|
    ensures var s := Run(c, Initial(c, n), steps);
      && |s.tasks| == n
      && (s.tasks[t].Ready? ==> By(s.received[k], t) == Dispatcher.RoutedTo(By(s.log, t), c.names[k]))
      && Dedup.Spaced(History(s.log), c.window)
  {
    RunKeeps(c, n, steps);
  }
}
