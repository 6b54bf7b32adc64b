/** The Slack channel: a buffer shared by concurrent senders, a timer task and the final
    flush, the message layout, and the retry loop. */
module Slack {
  import opened Clock
  import opened Findings
  import opened Option
  import opened Powers

  // ----- the two critical sections

  /** The fields under the mutex. */
  datatype Buffer = Buffer(findings: seq<Finding>, first: Option<nat>)

  const EMPTY: Buffer := Buffer([], None)

  /** The channel's configuration. */
  datatype Settings = Settings(batchSize: nat, batchWindow: nat)

  function Pushed(b: Buffer, f: Finding, now: nat): Buffer
  {
    Buffer(b.findings + [f], if b.first.None? then Some(now) else b.first)
  }

  /** Whether a flush drains: a forced one if anything is buffered, a timed one if the
      oldest finding has waited for the window. */
  predicate Drains(b: Buffer, force: bool, window: nat, now: nat)
  {
    if force then b.findings != [] else b.first.Some? && Elapsed(now, b.first.value) >= window
  }

  class BufferState {
    var findings: seq<Finding>
    var firstBufferedAt: Option<nat>

    function Contents(): Buffer
      reads this
    {
      Buffer(findings, firstBufferedAt)
    }

    constructor ()
      ensures Contents() == EMPTY
    {
      findings, firstBufferedAt := [], None;
    }

    /** The critical section of `send`. */
    method Push(f: Finding, now: nat, batchSize: nat) returns (full: bool)
      modifies this
      ensures Contents() == Pushed(old(Contents()), f, now)
      ensures full == (|Contents().findings| >= batchSize)
    {
      findings := findings + [f];
      if firstBufferedAt.None? {
        firstBufferedAt := Some(now);
      }
      full := |findings| >= batchSize;
    }

    /** The critical section of `flush`; no batch means an early return. */
    method Drain(force: bool, window: nat, now: nat) returns (batch: Option<seq<Finding>>)
      modifies this
      ensures var drains := Drains(old(Contents()), force, window, now);
        && Contents() == (if drains then EMPTY else old(Contents()))
        && batch == if drains then Some(old(findings)) else None
    {
      var shouldDrain :=
        if force then findings != []
        else match firstBufferedAt
          case None => false
          case Some(t) => Elapsed(now, t) >= window;
      if !shouldDrain {
        return None;
      }
      firstBufferedAt := None;
      batch := Some(findings);
      findings := [];
    }
  }

  // ----- interleavings

  /** Where a sender stands: not sending, between push and flush with a full buffer, or
      delivering a drained batch. */
  datatype Sender = Idle | Pending | Delivering

  /** The buffer, the senders, and what has happened so far: the findings pushed and the
      batches drained, in order, when each buffered finding was pushed, and the clock. */
  datatype State = State(buffer: Buffer, senders: seq<Sender>, pushed: seq<Finding>, batches: seq<seq<Finding>>,
                         since: seq<nat>, clock: nat)

  datatype Step =
    | Push(sender: nat, finding: Finding, now: nat)
    | SenderFlush(sender: nat, now: nat)
    | Delivered(sender: nat)
    | TimerFlush(now: nat)
    | FinalFlush(now: nat)

  function Initial(n: nat): State { State(EMPTY, seq(n, _ => Idle), [], [], [], 0) }

  function Flush(c: Settings, s: State, force: bool, now: nat): State
  {
    if Drains(s.buffer, force, c.batchWindow, now)
    then s.(buffer := EMPTY, batches := s.batches + [s.buffer.findings], since := [])
    else s
  }

  /** The clock is read inside the critical section, so the readings never go back. */
  function Do(c: Settings, s: State, step: Step): State
  {
    var now := if step.Delivered? then s.clock else step.now;
    if now < s.clock then s else Act(c, s.(clock := now), step)
  }

  /** One critical section of any task; a step that is not enabled changes nothing. */
  function Act(c: Settings, s: State, step: Step): State
  {
    match step
    case Push(i, f, now) =>
      if i >= |s.senders| || s.senders[i] != Idle then s
      else
        var b := Pushed(s.buffer, f, now);
        var next := if |b.findings| >= c.batchSize then Pending else Idle;
        s.(buffer := b, senders := s.senders[i := next], pushed := s.pushed + [f], since := s.since + [now])
    case SenderFlush(i, now) =>
      if i >= |s.senders| || s.senders[i] != Pending then s
      else
        var t := Flush(c, s, true, now);
        t.(senders := s.senders[i := if t == s then Idle else Delivering])
    case Delivered(i) =>
      if i >= |s.senders| || s.senders[i] != Delivering then s else s.(senders := s.senders[i := Idle])
    case TimerFlush(now) => Flush(c, s, false, now)
    case FinalFlush(now) => Flush(c, s, true, now)
  }

  function Run(c: Settings, s: State, steps: seq<Step>): State
  {
    if steps == [] then s else Do(c, Run(c, s, steps[..|steps| - 1]), steps[|steps| - 1])
  }

  function Flatten(batches: seq<seq<Finding>>): seq<Finding>
  {
    if batches == [] then [] else Flatten(batches[..|batches| - 1]) + batches[|batches| - 1]
  }

  function PendingCount(senders: seq<Sender>): nat
  {
    if senders == [] then 0
    else PendingCount(senders[..|senders| - 1]) + if senders[|senders| - 1] == Pending then 1 else 0
  }

  lemma {:induction false} PendingUpdate(senders: seq<Sender>, i: nat, x: Sender)
    requires i < |senders|
    ensures PendingCount(senders[i := x]) - PendingCount(senders)
         == (if x == Pending then 1 else 0) - (if senders[i] == Pending then 1 else 0)
    ensures PendingCount(senders) <= |senders|
  {
    var n := |senders| - 1;
    if i == n {
      assert senders[i := x][..n] == senders[..n];
      PendingBound(senders);
    } else {
      assert senders[i := x][..n] == senders[..n][i := x];
      PendingUpdate(senders[..n], i, x);
    }
  }

  lemma {:induction false} PendingBound(senders: seq<Sender>)
    ensures PendingCount(senders) <= |senders|
  {
    if senders != [] {
      PendingBound(senders[..|senders| - 1]);
    }
  }

  /** The largest buffer that no sender has to flush. */
  function Headroom(c: Settings): nat { if c.batchSize == 0 then 0 else c.batchSize - 1 }

  predicate Inv(c: Settings, n: nat, s: State)
  {
    && |s.senders| == n
    && s.pushed == Flatten(s.batches) + s.buffer.findings
    && (s.buffer.first.Some? <==> s.buffer.findings != [])
    && |s.buffer.findings| <= Headroom(c) + PendingCount(s.senders)
    && (forall k :: 0 <= k < |s.batches| ==> 1 <= |s.batches[k]| <= Headroom(c) + n)
    && Timed(s)
  }

  /** The timestamp is that of the oldest finding in the buffer. */
  predicate Timed(s: State)
  {
    && |s.since| == |s.buffer.findings|
    && (s.since != [] ==> s.buffer.first == Some(s.since[0]))
    && (forall i, j :: 0 <= i < j < |s.since| ==> s.since[i] <= s.since[j])
    && forall i :: 0 <= i < |s.since| ==> s.since[i] <= s.clock
  }

  lemma FlushKeeps(c: Settings, n: nat, s: State, force: bool, now: nat)
    requires Inv(c, n, s)
    ensures Inv(c, n, Flush(c, s, force, now))
    ensures force ==> Flush(c, s, force, now).buffer.findings == []
    ensures Flush(c, s, force, now).senders == s.senders
  {
    PendingBound(s.senders);
    var t := Flush(c, s, force, now);
    if t != s {
      assert t.batches[..|s.batches|] == s.batches;
      assert Flatten(t.batches) == Flatten(s.batches) + s.buffer.findings;
    }
  }

  lemma StepKeeps(c: Settings, n: nat, s: State, step: Step)
    requires Inv(c, n, s)
    ensures Inv(c, n, Do(c, s, step))
  {
    var now := if step.Delivered? then s.clock else step.now;
    if now >= s.clock {
      ActKeeps(c, n, s.(clock := now), step);
    }
  }

  lemma ActKeeps(c: Settings, n: nat, s: State, step: Step)
    requires Inv(c, n, s) && (step.Delivered? || step.now == s.clock)
    ensures Inv(c, n, Act(c, s, step))
  {
    match step
    case Push(i, f, now) => PushKeeps(c, n, s, i, f);
    case SenderFlush(i, now) => SenderFlushKeeps(c, n, s, i, now);
    case Delivered(i) =>
      if i < n && s.senders[i] == Delivering {
        PendingUpdate(s.senders, i, Idle);
      }
    case TimerFlush(now) => FlushKeeps(c, n, s, false, now);
    case FinalFlush(now) => FlushKeeps(c, n, s, true, now);
  }

  lemma PushKeeps(c: Settings, n: nat, s: State, i: nat, f: Finding)
    requires Inv(c, n, s)
    ensures Inv(c, n, Act(c, s, Push(i, f, s.clock)))
  {
    hide Flatten, PendingCount;
    if i < n && s.senders[i] == Idle {
      PendingUpdate(s.senders, i, Pending);
      PendingUpdate(s.senders, i, Idle);
    }
  }

  lemma SenderFlushKeeps(c: Settings, n: nat, s: State, i: nat, now: nat)
    requires Inv(c, n, s)
    ensures Inv(c, n, Act(c, s, SenderFlush(i, now)))
  {
    hide Flatten, PendingCount;
    if i < n && s.senders[i] == Pending {
      FlushKeeps(c, n, s, true, now);
      PendingUpdate(s.senders, i, Delivering);
      PendingUpdate(s.senders, i, Idle);
    }
  }

  /** For every interleaving: what was pushed is what was drained, in order, followed by
      the buffer; the timestamp is set exactly when something is buffered; no batch is
      empty, and none exceeds `batch_size - 1` plus the number of senders. */
  lemma {:induction false} RunKeeps(c: Settings, n: nat, steps: seq<Step>)
    ensures Inv(c, n, Run(c, Initial(n), steps))
  {
    if steps == [] {
      assert Flatten([]) == [];
    } else {
      RunKeeps(c, n, steps[..|steps| - 1]);
      StepKeeps(c, n, Run(c, Initial(n), steps[..|steps| - 1]), steps[|steps| - 1]);
    }
  }

  /** Right after a tick of the timer task everything in the buffer has waited for less
      than the window. */
  lemma FreshAfterTick(c: Settings, n: nat, steps: seq<Step>, now: nat)
    requires Run(c, Initial(n), steps).clock <= now
    ensures var s := Do(c, Run(c, Initial(n), steps), TimerFlush(now));
      |s.since| == |s.buffer.findings| && forall k :: 0 <= k < |s.since| ==> now < s.since[k] + c.batchWindow
  {
    RunKeeps(c, n, steps);
    StepKeeps(c, n, Run(c, Initial(n), steps), TimerFlush(now));
  }

  /** The time of the last tick, 0 before the first one. */
  function LastTick(c: Settings, n: nat, steps: seq<Step>): nat
  {
    if steps == [] then 0
    else
      var before, step := steps[..|steps| - 1], steps[|steps| - 1];
      if step.TimerFlush? && Run(c, Initial(n), before).clock <= step.now then step.now else LastTick(c, n, before)
  }

  /** The window, but at least one unit of time. */
  function Window(c: Settings): nat { if c.batchWindow > 0 then c.batchWindow else 1 }

  /** The last tick left nothing behind that had waited for the window. */
  lemma {:induction false} SinceLastTick(c: Settings, n: nat, steps: seq<Step>)
    ensures var s, t := Run(c, Initial(n), steps), LastTick(c, n, steps);
      t <= s.clock && forall k :: 0 <= k < |s.since| ==> t < s.since[k] + Window(c)
  {
    if steps != [] {
      var before, step := steps[..|steps| - 1], steps[|steps| - 1];
      SinceLastTick(c, n, before);
      if step.TimerFlush? && Run(c, Initial(n), before).clock <= step.now {
        FreshAfterTick(c, n, before, step.now);
      }
    }
  }

  /** The longest wait: as long as ticks are at most `d` apart, a finding waits in the buffer
      for less than the window and `d` together, also at the moment when it is drained. */
  lemma LongestWait(c: Settings, n: nat, steps: seq<Step>, d: nat, now: nat)
    requires now <= LastTick(c, n, steps) + d
    ensures var s := Run(c, Initial(n), steps);
      |s.since| == |s.buffer.findings| && forall k :: 0 <= k < |s.since| ==> now < s.since[k] + Window(c) + d
  {
    RunKeeps(c, n, steps);
    SinceLastTick(c, n, steps);
  }

  /** The last tick has just missed a finding pushed at 0. */
  lemma JustMissed(c: Settings, n: nat, f: Finding) returns (steps: seq<Step>)
    requires n > 0
    ensures var s := Run(c, Initial(n), steps);
      && s.since == [0] && |s.buffer.findings| == 1 && |s.senders| == n
      && (c.batchSize >= 2 ==> s.senders[0] == Idle) && (forall i :: 1 <= i < n ==> s.senders[i] == Idle)
      && s.clock == LastTick(c, n, steps) == if c.batchWindow > 0 then c.batchWindow - 1 else 0
  {
    var push := Push(0, f, 0);
    assert [push][..0] == [] && Run(c, Initial(n), []) == Initial(n);
    steps := [push];
    assert Run(c, Initial(n), steps).since == [0] && LastTick(c, n, steps) == 0;
    if c.batchWindow > 0 {
      var tick := TimerFlush(c.batchWindow - 1);
      steps := [push, tick];
      assert steps[..1] == [push];
    }
  }

  /** That wait is attained for every `d`, so the window alone bounds nothing: a finding can
      be in the buffer one unit of time short of the window and `d` together. */
  lemma WaitAttained(c: Settings, n: nat, f: Finding, d: nat) returns (steps: seq<Step>)
    requires c.batchWindow > 0 && n > 0 && (c.batchSize >= 2 || n >= 2)
    ensures var s := Run(c, Initial(n), steps);
      && |s.since| == |s.buffer.findings| > 0
      && s.clock == LastTick(c, n, steps) + d
      && s.clock == s.since[0] + c.batchWindow + d - 1
  {
    var before := JustMissed(c, n, f);
    var again := Push(if c.batchSize >= 2 then 0 else 1, f, c.batchWindow - 1 + d);
    steps := before + [again];
    assert steps[..|steps| - 1] == before;
    hide Run, LastTick;
    PushedAgain(c, n, before, again);
  }

  lemma PushedAgain(c: Settings, n: nat, before: seq<Step>, push: Step)
    requires push.Push? && push.sender < n && |Run(c, Initial(n), before).senders| == n
    requires var s := Run(c, Initial(n), before); s.senders[push.sender] == Idle && s.clock <= push.now
    ensures var s, t := Run(c, Initial(n), before), Run(c, Initial(n), before + [push]);
      && t.since == s.since + [push.now] && |t.buffer.findings| == |s.buffer.findings| + 1 && t.clock == push.now
    ensures LastTick(c, n, before + [push]) == LastTick(c, n, before)
  {
    assert (before + [push])[..|before|] == before;
  }

  // ----- the bound is attained

  /** Sender 0 pushes `m` times, leaving the buffer below the batch size. */
  lemma {:induction false} QuietPushes(c: Settings, n: nat, f: Finding, m: nat) returns (steps: seq<Step>)
    requires n > 0 && m <= Headroom(c)
    ensures var s := Run(c, Initial(n), steps);
      |s.buffer.findings| == m && s.senders == Initial(n).senders && s.clock == 0
  {
    if m == 0 {
      steps := [];
    } else {
      var before := QuietPushes(c, n, f, m - 1);
      steps := before + [Push(0, f, 0)];
      assert steps[..|steps| - 1] == before;
    }
  }

  /** Then each of `k` senders pushes once, and none has flushed yet. */
  lemma {:induction false} FullPushes(c: Settings, n: nat, f: Finding, k: nat) returns (steps: seq<Step>)
    requires k <= n && n > 0
    ensures var s := Run(c, Initial(n), steps);
      && |s.buffer.findings| == Headroom(c) + k && |s.senders| == n && s.clock == 0
      && forall i :: 0 <= i < n ==> s.senders[i] == if i < k then Pending else Idle
  {
    if k == 0 {
      steps := QuietPushes(c, n, f, Headroom(c));
    } else {
      var before := FullPushes(c, n, f, k - 1);
      steps := before + [Push(k - 1, f, 0)];
      assert steps[..|steps| - 1] == before;
    }
  }

  /** The bound of `Inv` is attained: a batch of `batch_size - 1 + n` findings is reachable, or of
      `n` if the batch size is 0. */
  lemma BoundAttained(c: Settings, n: nat, f: Finding) returns (steps: seq<Step>)
    requires n > 0
    ensures var batches := Run(c, Initial(n), steps).batches;
      batches != [] && |batches[|batches| - 1]| == Headroom(c) + n
  {
    var before := FullPushes(c, n, f, n);
    steps := before + [SenderFlush(0, 0)];
    assert steps[..|steps| - 1] == before;
  }

  /** All batches of a run have at most `m` findings. */
  predicate BatchesWithin(c: Settings, n: nat, steps: seq<Step>, m: nat)
  {
    forall b <- Run(c, Initial(n), steps).batches :: |b| <= m
  }

  /** Which bounds hold of every batch of every run. */
  lemma BatchBoundExact(c: Settings, n: nat, m: nat)
    ensures (forall steps :: BatchesWithin(c, n, steps, m)) <==> n == 0 || Headroom(c) + n <= m
  {
    if n == 0 || Headroom(c) + n <= m {
      forall steps ensures BatchesWithin(c, n, steps, m) {
        RunKeeps(c, n, steps);
        if n == 0 {
          NoSenders(c, steps);
        }
      }
    } else {
      var steps := BoundAttained(c, n, SomeFinding());
      var batches := Run(c, Initial(n), steps).batches;
      assert batches[|batches| - 1] in batches;
      assert !BatchesWithin(c, n, steps, m);
    }
  }

  function SomeFinding(): Finding
  {
    Finding("", "", "", "", Info, "", "", "", "", 0, [], 0, None)
  }

  lemma {:induction false} NoSenders(c: Settings, steps: seq<Step>)
    ensures var s := Run(c, Initial(0), steps); s.batches == [] && s.buffer == EMPTY && s.senders == []
  {
    if steps != [] {
      NoSenders(c, steps[..|steps| - 1]);
    }
  }

  /** `batch_size` bounds every batch of every run if and only if at most one sender uses the
      channel (and none if the size is 0). */
  lemma BatchSizeExact(c: Settings, n: nat)
    ensures (forall steps :: BatchesWithin(c, n, steps, c.batchSize)) <==> n == 0 || (n == 1 && c.batchSize >= 1)
  {
    BatchBoundExact(c, n, c.batchSize);
  }

  /** As long as ticks are at most `d` apart, nothing in the buffer waits longer than the window
      before the next one. */
  predicate WaitsWithin(c: Settings, n: nat, steps: seq<Step>, d: nat)
  {
    var s, next := Run(c, Initial(n), steps), LastTick(c, n, steps) + d;
    s.clock <= next ==> forall k :: 0 <= k < |s.since| ==> next <= s.since[k] + c.batchWindow
  }

  /** `batch_window_ms` bounds the wait in every run if and only if ticks are at most one unit of
      time apart (and follow at once if the window is 0), or nobody sends. */
  lemma WindowExact(c: Settings, n: nat, d: nat)
    ensures (forall steps :: WaitsWithin(c, n, steps, d)) <==> n == 0 || d <= (if c.batchWindow > 0 then 1 else 0)
  {
    if n == 0 {
      forall steps ensures WaitsWithin(c, n, steps, d) {
        NoSenders(c, steps);
        RunKeeps(c, n, steps);
      }
    } else if d <= (if c.batchWindow > 0 then 1 else 0) {
      forall steps ensures WaitsWithin(c, n, steps, d) {
        LongestWait(c, n, steps, d, LastTick(c, n, steps) + d);
      }
    } else {
      var steps := JustMissed(c, n, SomeFinding());
      assert Run(c, Initial(n), steps).since[0] == 0;
      assert !WaitsWithin(c, n, steps, d);
    }
  }

  // ----- the message

  datatype Block = Header(severity: Severity, count: nat) | Divider | Section(finding: Finding)
                 | Context(finding: Finding) | Fields(finding: Finding) | Sample(finding: Finding)

  function Rank(s: Severity): nat
  {
    match s case Critical => 0 case High => 1 case Medium => 2 case Low => 3 case Info => 4
  }

  /** `min_by_key(severity_rank)`, with `unwrap` on a non-empty list. */
  function Highest(fs: seq<Finding>): (s: Severity)
    requires fs != []
    ensures (exists k :: 0 <= k < |fs| && fs[k].severity == s)
    ensures forall k :: 0 <= k < |fs| ==> Rank(s) <= Rank(fs[k].severity)
  {
    var last := fs[|fs| - 1].severity;
    if |fs| == 1 then last
    else
      var s := Highest(fs[..|fs| - 1]);
      if Rank(last) < Rank(s) then last else s
  }

  /** The block that stands at position `k` of a message for several findings: after the
      header, three blocks for each finding but the first, whose divider is missing. */
  function BlockAt(fs: seq<Finding>, k: nat): Block
    requires fs != [] && k < 3 * |fs|
  {
    if k == 0 then Header(Highest(fs), |fs|)
    else if k % 3 == 1 then Section(fs[k / 3])
    else if k % 3 == 2 then Context(fs[k / 3])
    else Divider
  }

  /** The number of blocks of a message. */
  function BlockCount(n: nat): nat { if n == 1 then 4 else 3 * n }

  method BuildPayload(findings: seq<Finding>) returns (blocks: seq<Block>)
    requires findings != []
    ensures |findings| == 1 ==>
      var f := findings[0]; blocks == [Section(f), Fields(f), Sample(f), Context(f)]
    ensures |findings| >= 2 ==>
      && |blocks| == 3 * |findings| && blocks[0] == Header(Highest(findings), |findings|)
      && forall k :: 0 <= k < |findings| ==>
           && blocks[3 * k + 1] == Section(findings[k]) && blocks[3 * k + 2] == Context(findings[k])
           && (k > 0 ==> blocks[3 * k] == Divider)
    ensures |blocks| == BlockCount(|findings|)
  {
    if |findings| == 1 {
      var f := findings[0];
      return [Section(f), Fields(f), Sample(f), Context(f)];
    }
    var highest := Highest(findings);
    blocks := [Header(highest, |findings|)];
    hide Highest;
    for i := 0 to |findings|
      invariant |blocks| == if i == 0 then 1 else 3 * i
      invariant forall k :: 0 <= k < |blocks| ==> blocks[k] == BlockAt(findings, k)
    {
      if i > 0 {
        blocks := blocks + [Divider];
      }
      blocks := blocks + [Section(findings[i])];
      blocks := blocks + [Context(findings[i])];
    }
    Layout(findings, blocks);
  }

  lemma Layout(fs: seq<Finding>, blocks: seq<Block>)
    requires fs != [] && |blocks| == 3 * |fs| && forall k :: 0 <= k < |blocks| ==> blocks[k] == BlockAt(fs, k)
    ensures blocks[0] == Header(Highest(fs), |fs|)
    ensures forall k :: 0 <= k < |fs| ==>
      && blocks[3 * k + 1] == Section(fs[k]) && blocks[3 * k + 2] == Context(fs[k])
      && (k > 0 ==> blocks[3 * k] == Divider)
  {
    hide Highest, BlockAt;
    BlockOf(fs, 0);
    forall k | 0 <= k < |fs|
      ensures blocks[3 * k + 1] == Section(fs[k]) && blocks[3 * k + 2] == Context(fs[k])
      ensures k > 0 ==> blocks[3 * k] == Divider
    {
      BlockOf(fs, k);
    }
  }

  lemma BlockOf(fs: seq<Finding>, k: nat)
    requires k < |fs|
    ensures BlockAt(fs, 3 * k) == if k == 0 then Header(Highest(fs), |fs|) else Divider
    ensures BlockAt(fs, 3 * k + 1) == Section(fs[k]) && BlockAt(fs, 3 * k + 2) == Context(fs[k])
  {
    hide Highest;
    Thirds(k);
  }

  lemma Thirds(k: nat)
    ensures (3 * k) % 3 == 0 && (3 * k + 1) % 3 == 1 && (3 * k + 2) % 3 == 2
    ensures (3 * k + 1) / 3 == k && (3 * k + 2) / 3 == k
  {
  }

  /** The header shows the gravest severity among the findings. */
  lemma HighestExact(fs: seq<Finding>)
    requires fs != []
    ensures Highest(fs) ==
      if exists f <- fs :: f.severity == Critical then Critical
      else if exists f <- fs :: f.severity == High then High
      else if exists f <- fs :: f.severity == Medium then Medium
      else if exists f <- fs :: f.severity == Low then Low
      else Info
  {
    var s := Highest(fs);
    forall f | f in fs ensures Rank(s) <= Rank(f.severity) {
    }
    var k :| 0 <= k < |fs| && fs[k].severity == s;
    assert fs[k] in fs;
  }

  /** All messages of a run stay within Slack's 50 blocks. */
  predicate BlocksWithin(c: Settings, n: nat, steps: seq<Step>)
  {
    forall b <- Run(c, Initial(n), steps).batches :: BlockCount(|b|) <= 50
  }

  /** Every message of every run stays within Slack's 50 blocks if and only if `batch_size - 1`
      (or 0) plus the number of senders is at most 16, or there is no sender. */
  lemma BlocksExact(c: Settings, n: nat)
    ensures (forall steps :: BlocksWithin(c, n, steps)) <==> n == 0 || Headroom(c) + n <= 16
  {
    BatchBoundExact(c, n, 16);
    forall steps ensures BlocksWithin(c, n, steps) <==> BatchesWithin(c, n, steps, 16) {
      SixteenFindings(c, n, steps);
    }
  }

  lemma SixteenFindings(c: Settings, n: nat, steps: seq<Step>)
    ensures BlocksWithin(c, n, steps) <==> BatchesWithin(c, n, steps, 16)
  {
    assert forall m: nat :: BlockCount(m) <= 50 <==> m <= 16;
  }

  lemma BlocksFit(c: Settings, n: nat, steps: seq<Step>)
    requires Headroom(c) + n <= 16
    ensures forall b <- Run(c, Initial(n), steps).batches :: BlockCount(|b|) <= 50
  {
    RunKeeps(c, n, steps);
  }

  lemma BlocksOverflow(c: Settings, n: nat, f: Finding) returns (steps: seq<Step>)
    requires n > 0 && Headroom(c) + n > 16
    ensures exists b <- Run(c, Initial(n), steps).batches :: BlockCount(|b|) > 50
  {
    steps := BoundAttained(c, n, f);
    var batches := Run(c, Initial(n), steps).batches;
    assert batches[|batches| - 1] in batches;
  }

  // ----- the retry loop

  datatype Response = NoResponse | TooManyRequests(retryAfter: nat) | BadBody | BadStatus | NotOk | Accepted

  datatype Outcome = Sent | Failed(last: Response) | Panicked

  /** `1u64 << attempt`: from 64 on a panic if overflow is checked; otherwise only the low six
      bits of the distance count. */
  function Shifted(attempt: nat, checked: bool): (r: Option<nat>)
    ensures attempt < 64 ==> r == Some(Pow2(attempt))
    ensures r.None? <==> checked && attempt >= 64
  {
    if attempt < 64 then Some(Pow2(attempt)) else if checked then None else Some(Pow2(attempt % 64))
  }

  /** The first response from attempt `k` on that is no rate limit, or the last one. */
  function Deciding(respond: nat -> Response, k: nat, maxRetries: nat): (a: nat)
    requires k <= maxRetries
    ensures k <= a <= maxRetries
    ensures a == maxRetries || !respond(a).TooManyRequests?
    ensures forall i :: k <= i < a ==> respond(i).TooManyRequests?
    decreases maxRetries - k
  {
    if k == maxRetries || !respond(k).TooManyRequests? then k else Deciding(respond, k + 1, maxRetries)
  }

  lemma NextPower(n: nat)
    ensures Pow2(n + 1) == 2 * Pow2(n) && Pow2(0) == 1
  {
  }

  /** The wait after a refused request. */
  function Delay(response: Response, attempt: nat): nat
  {
    if !response.TooManyRequests? then 0
    else
      var backoff := Pow2(attempt % 64);
      if response.retryAfter > backoff then response.retryAfter else backoff
  }

  /** What Slack demands is honoured, and the back-off doubles: the wait is the longer of both. */
  lemma DelayHonoured(retryAfter: nat, attempt: nat)
    requires attempt < 64
    ensures var d := Delay(TooManyRequests(retryAfter), attempt);
      retryAfter <= d && Pow2(attempt) <= d && (d == retryAfter || d == Pow2(attempt))
  {
    hide Pow2;
    assert attempt % 64 == attempt;
  }

  /** The waits after the first `n` requests. */
  function Waits(respond: nat -> Response, n: nat): nat
  {
    if n == 0 then 0 else Waits(respond, n - 1) + Delay(respond(n - 1), n - 1)
  }

  lemma NextWait(respond: nat -> Response, n: nat, checked: bool)
    ensures Waits(respond, 0) == 0 && Waits(respond, n + 1) == Waits(respond, n) + Delay(respond(n), n)
    ensures Shifted(n, checked).None? <==> checked && n >= 64
    ensures n < 64 ==> Shifted(n, checked) == Some(Pow2(n))
    ensures respond(n).TooManyRequests? && Shifted(n, checked).Some? ==>
      var backoff := Shifted(n, checked).value;
      Delay(respond(n), n) == if respond(n).retryAfter > backoff then respond(n).retryAfter else backoff
  {
    hide Pow2;
    assert n < 64 ==> n % 64 == n;
  }

  /** At most `max_retries + 1` requests; the first answer other than a rate limit decides,
      unless overflow is checked and the 65th request is still refused. Between the requests
      lie exactly the waits after the refused ones, which for up to 65 requests add up to at
      least 2^(n-1) - 1 seconds. */
  method SendBatch(maxRetries: nat, checked: bool, respond: nat -> Response)
      returns (outcome: Outcome, requests: nat, waited: nat)
    ensures var a := Deciding(respond, 0, maxRetries);
      if checked && a > 64 then outcome == Panicked && requests == 65
      else
        && requests == a + 1 <= maxRetries + 1
        && outcome == if respond(a).Accepted? then Sent else Failed(respond(a))
    ensures waited == Waits(respond, requests - 1)
    ensures waited + 1 >= Pow2(if requests <= 65 then requests - 1 else 64)
  {
    hide Deciding, Pow2, Waits, Delay, Shifted;
    waited := 0;
    NextPower(0);
    NextWait(respond, 0, checked);
    for attempt := 0 to maxRetries + 1
      invariant attempt <= Deciding(respond, 0, maxRetries)
      invariant checked ==> attempt <= 64
      invariant waited == Waits(respond, attempt)
      invariant waited + 1 >= Pow2(if attempt <= 64 then attempt else 64)
    {
      requests := attempt + 1;
      var response := respond(attempt);
      if response.NoResponse? {
        return Failed(response), requests, waited;
      }
      if response.TooManyRequests? {
        if attempt == maxRetries {
          return Failed(response), requests, waited;
        }
        var backoff := Shifted(attempt, checked);
        if backoff.None? {
          return Panicked, requests, waited;
        }
        NextPower(attempt);
        NextWait(respond, attempt, checked);
        waited := waited + if response.retryAfter > backoff.value then response.retryAfter else backoff.value;
        continue;
      }
      if response.BadBody? || response.BadStatus? || response.NotOk? {
        return Failed(response), requests, waited;
      }
      return Sent, requests, waited;
    }
    assert false;
  }
}
