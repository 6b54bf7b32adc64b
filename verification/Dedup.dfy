/** The deduplicator: a time-window cache with bulk pruning, against a history that is
    never pruned. */
module Dedup {
  import opened Clock
  import opened Findings

  const PRUNE_THRESHOLD: nat := 10_000

  type Cache = map<Key, nat>

  /** An alert that passed, with the time it was recorded at. */
  datatype Alert = Alert(key: Key, time: nat)

  /** One call: its key and the two clock readings, before pruning and before deciding. */
  datatype Call = Call(key: Key, prune: nat, now: nat)

  function Pruned(seen: Cache, window: nat, now: nat): Cache
  {
    map k | k in seen && Elapsed(now, seen[k]) < window :: seen[k]
  }

  /** The cache that a call decides on. */
  function Ready(seen: Cache, window: nat, c: Call): Cache
  {
    if |seen| > PRUNE_THRESHOLD then Pruned(seen, window, c.prune) else seen
  }

  predicate Decide(seen: Cache, window: nat, c: Call)
  {
    var ready := Ready(seen, window, c);
    !(c.key in ready && Elapsed(c.now, ready[c.key]) < window)
  }

  function After(seen: Cache, window: nat, c: Call): Cache
  {
    var ready := Ready(seen, window, c);
    if Decide(seen, window, c) then ready[c.key := c.now] else ready
  }

  // ----- the unpruned history

  /** Some alert for the key lies less than a window back. */
  predicate Live(history: seq<Alert>, window: nat, key: Key, now: nat)
  {
    exists e <- history :: e.key == key && Elapsed(now, e.time) < window
  }

  function Recorded(history: seq<Alert>, window: nat, c: Call): seq<Alert>
  {
    if Live(history, window, c.key, c.now) then history else history + [Alert(c.key, c.now)]
  }

  /** The cache knows the latest alert of every key but those already out of the window. */
  predicate Agrees(seen: Cache, history: seq<Alert>, window: nat, clock: nat)
  {
    && (forall k :: k in seen ==> Alert(k, seen[k]) in history)
    && (forall e <- history :: e.time <= clock)
    && (forall e <- history :: (e.key in seen && e.time <= seen[e.key]) || window <= clock - e.time)
  }

  /** A decision on the pruned cache is the decision on the full history, and agreement
      is kept. */
  lemma StepAgrees(seen: Cache, history: seq<Alert>, window: nat, clock: nat, c: Call)
    requires Agrees(seen, history, window, clock) && clock <= c.prune <= c.now
    ensures Decide(seen, window, c) <==> !Live(history, window, c.key, c.now)
    ensures Agrees(After(seen, window, c), Recorded(history, window, c), window, c.now)
  {
    var ready := Ready(seen, window, c);
    assert Agrees(ready, history, window, c.prune);
    if c.key in ready {
      assert Alert(c.key, ready[c.key]) in history;
    }
    if Live(history, window, c.key, c.now) {
      var e :| e in history && e.key == c.key && Elapsed(c.now, e.time) < window;
      assert e.time <= c.prune;
    }
  }

  /** At the edge of the window: a key last alerted at `last` passes again from `last + window`
      on, and not before; so with a window of 0 everything passes. A new key passes at once. */
  lemma WindowEdge(seen: Cache, window: nat, c: Call)
    requires c.prune <= c.now && (c.key in seen ==> seen[c.key] <= c.prune)
    ensures Decide(seen, window, c) <==> (c.key in seen ==> seen[c.key] + window <= c.now)
    ensures Decide(seen, window, c) ==> c.key in After(seen, window, c) && After(seen, window, c)[c.key] == c.now
    ensures !Decide(seen, window, c) ==> c.key in After(seen, window, c) && After(seen, window, c)[c.key] == seen[c.key]
  {
  }

  // ----- whole runs

  function Decisions(seen: Cache, window: nat, calls: seq<Call>): seq<bool>
    decreases |calls|
  {
    if calls == [] then []
    else [Decide(seen, window, calls[0])] + Decisions(After(seen, window, calls[0]), window, calls[1..])
  }

  function HistoryDecisions(history: seq<Alert>, window: nat, calls: seq<Call>): seq<bool>
    decreases |calls|
  {
    if calls == [] then []
    else
      [!Live(history, window, calls[0].key, calls[0].now)]
      + HistoryDecisions(Recorded(history, window, calls[0]), window, calls[1..])
  }

  predicate Monotone(clock: nat, calls: seq<Call>)
    decreases |calls|
  {
    calls == [] || (clock <= calls[0].prune <= calls[0].now && Monotone(calls[0].now, calls[1..]))
  }

  /** Pruning is unobservable: over every run with a monotone clock the decisions are
      those of the full history. */
  lemma {:induction false} PruningUnobservable(seen: Cache, history: seq<Alert>, window: nat, clock: nat,
                                               calls: seq<Call>)
    requires Agrees(seen, history, window, clock) && Monotone(clock, calls)
    ensures Decisions(seen, window, calls) == HistoryDecisions(history, window, calls)
    decreases |calls|
  {
    hide Decide, After, Recorded, Live, Agrees;
    if calls != [] {
      var c := calls[0];
      StepAgrees(seen, history, window, clock, c);
      PruningUnobservable(After(seen, window, c), Recorded(history, window, c), window, c.now, calls[1..]);
    }
  }

  // ----- spacing and size

  /** Alerts for one key are at least a window apart. */
  predicate Spaced(history: seq<Alert>, window: nat)
  {
    forall i, j :: 0 <= i < j < |history| && history[i].key == history[j].key
      ==> history[i].time + window <= history[j].time
  }

  lemma StepSpaced(seen: Cache, history: seq<Alert>, window: nat, clock: nat, c: Call)
    requires Spaced(history, window) && Agrees(seen, history, window, clock) && clock <= c.now
    ensures Spaced(Recorded(history, window, c), window)
  {
    if !Live(history, window, c.key, c.now) {
      forall e | e in history && e.key == c.key ensures e.time + window <= c.now {
        assert !(Elapsed(c.now, e.time) < window);
      }
    }
  }

  function LiveKeys(history: seq<Alert>, window: nat, now: nat): set<Key>
  {
    set e <- history | Elapsed(now, e.time) < window :: e.key
  }

  /** The cache never exceeds 10 001 entries or one more than the keys alive at the
      pruning time, whichever is larger. */
  lemma SizeBound(seen: Cache, history: seq<Alert>, window: nat, clock: nat, c: Call)
    requires Agrees(seen, history, window, clock) && clock <= c.prune <= c.now
    ensures var live := |LiveKeys(history, window, c.prune)|;
      |After(seen, window, c)| <= if |seen| > PRUNE_THRESHOLD then live + 1 else PRUNE_THRESHOLD + 1
  {
    var ready, live := Ready(seen, window, c), LiveKeys(history, window, c.prune);
    if |seen| > PRUNE_THRESHOLD {
      forall k | k in ready ensures k in live {
        assert Alert(k, seen[k]) in history;
      }
      SubsetSize(ready.Keys, live);
    }
    assert ready[c.key := c.now].Keys == ready.Keys + {c.key};
  }

  // ----- ten thousand entries

  function CacheAfter(seen: Cache, window: nat, calls: seq<Call>): Cache
    decreases |calls|
  {
    if calls == [] then seen else CacheAfter(After(seen, window, calls[0]), window, calls[1..])
  }

  /** The cache holds at most 10 000 entries after every call. */
  predicate StaysWithin(seen: Cache, window: nat, calls: seq<Call>)
    decreases |calls|
  {
    calls == [] || (var next := After(seen, window, calls[0]);
                    |next| <= PRUNE_THRESHOLD && StaysWithin(next, window, calls[1..]))
  }

  function CallKeys(calls: seq<Call>): set<Key> { set c <- calls :: c.key }

  /** Up to the threshold nothing is pruned, so every key stays. */
  lemma KeyAdded(seen: Cache, window: nat, calls: seq<Call>)
    requires |seen| <= PRUNE_THRESHOLD && calls != []
    ensures var next := After(seen, window, calls[0]);
      && next.Keys == seen.Keys + {calls[0].key}
      && next.Keys + CallKeys(calls[1..]) == seen.Keys + CallKeys(calls)
      && |seen| <= |next| <= |seen| + 1
  {
    assert After(seen, window, calls[0]).Keys == seen.Keys + {calls[0].key};
    assert calls == [calls[0]] + calls[1..];
  }

  /** Exactly when the cache is bounded at 10 000 entries: from any cache within the bound it
      stays there over a run if and only if the keys it holds and the keys of the run are
      together no more than that, however old they are. */
  lemma {:induction false} BoundedExactly(seen: Cache, window: nat, calls: seq<Call>)
    requires |seen| <= PRUNE_THRESHOLD
    ensures StaysWithin(seen, window, calls) <==> |seen.Keys + CallKeys(calls)| <= PRUNE_THRESHOLD
    decreases |calls|
  {
    hide After;
    if calls == [] {
      assert seen.Keys + CallKeys([]) == seen.Keys;
    } else {
      KeyAdded(seen, window, calls);
      var next := After(seen, window, calls[0]);
      if |next| <= PRUNE_THRESHOLD {
        BoundedExactly(next, window, calls[1..]);
      } else {
        SubsetSize(next.Keys, seen.Keys + CallKeys(calls));
      }
    }
  }

  /** The first findings of `n` different values. */
  function FirstCalls(n: nat): (calls: seq<Call>)
    ensures |calls| == n
  {
    if n == 0 then [] else FirstCalls(n - 1) + [Call(Key("", "", "", "", "", n), 0, 0)]
  }

  lemma {:induction false} FirstKeys(n: nat)
    ensures |CallKeys(FirstCalls(n))| == n
    ensures forall k <- CallKeys(FirstCalls(n)) :: k.valueHash <= n
    ensures forall c <- FirstCalls(n) :: c.prune == c.now == 0
  {
    if n > 0 {
      FirstKeys(n - 1);
      var last := FirstCalls(n)[n - 1].key;
      assert CallKeys(FirstCalls(n)) == CallKeys(FirstCalls(n - 1)) + {last};
    }
  }

  lemma {:induction false} AtOnce(calls: seq<Call>)
    requires forall c <- calls :: c.prune == c.now == 0
    ensures Monotone(0, calls)
  {
    if calls != [] {
      AtOnce(calls[1..]);
    }
  }

  lemma {:induction false} AllKept(seen: Cache, window: nat, calls: seq<Call>)
    requires |seen| + |calls| <= PRUNE_THRESHOLD + 1
    ensures CacheAfter(seen, window, calls).Keys == seen.Keys + CallKeys(calls)
    decreases |calls|
  {
    hide After;
    if calls != [] {
      KeyAdded(seen, window, calls);
      AllKept(After(seen, window, calls[0]), window, calls[1..]);
    }
  }

  /** 10 001 different values, seen at one moment, exceed it from the empty cache. */
  lemma ThresholdExceeded(window: nat)
    ensures var calls := FirstCalls(PRUNE_THRESHOLD + 1);
      && Monotone(0, calls) && !StaysWithin(map[], window, calls)
      && |CacheAfter(map[], window, calls)| == PRUNE_THRESHOLD + 1
  {
    hide StaysWithin, CacheAfter, FirstCalls, Monotone;
    var calls := FirstCalls(PRUNE_THRESHOLD + 1);
    var none: Cache := map[];
    FirstKeys(PRUNE_THRESHOLD + 1);
    AtOnce(calls);
    assert none.Keys + CallKeys(calls) == CallKeys(calls);
    BoundedExactly(none, window, calls);
    AllKept(none, window, calls);
    assert CacheAfter(none, window, calls).Keys == CallKeys(calls);
  }

  lemma {:induction false} SubsetSize<T>(a: set<T>, b: set<T>)
    requires a <= b
    ensures |a| <= |b|
  {
    if a != {} {
      var x :| x in a;
      SubsetSize(a - {x}, b - {x});
    }
  }

  /** The program's object. `history` and `clock` are there for the proof only. */
  class Deduplicator {
    var seen: Cache
    const window: nat
    ghost var history: seq<Alert>
    ghost var clock: nat

    ghost predicate Valid()
      reads this
    {
      Agrees(seen, history, window, clock) && Spaced(history, window)
    }

    constructor (window: nat)
      ensures Valid() && seen == map[] && history == [] && this.window == window && clock == 0
    {
      this.window := window;
      seen, history, clock := map[], [], 0;
    }

    method ShouldAlert(finding: Finding, prune: nat, now: nat) returns (alert: bool)
      requires Valid() && clock <= prune <= now
      modifies this
      ensures Valid() && clock == now
      ensures alert <==> !Live(old(history), window, KeyOf(finding), now)
      ensures history == old(history) + if alert then [Alert(KeyOf(finding), now)] else []
      ensures seen == After(old(seen), window, Call(KeyOf(finding), prune, now))
      ensures var live := |LiveKeys(old(history), window, prune)|;
        |seen| <= if |old(seen)| > PRUNE_THRESHOLD then live + 1 else PRUNE_THRESHOLD + 1
    {
      hide Agrees, Spaced, Live, LiveKeys;
      ghost var c := Call(KeyOf(finding), prune, now);
      StepAgrees(seen, history, window, clock, c);
      StepSpaced(seen, history, window, clock, c);
      SizeBound(seen, history, window, clock, c);
      if |seen| > PRUNE_THRESHOLD {
        seen := map k | k in seen && Elapsed(prune, seen[k]) < window :: seen[k];
      }
      var key := KeyOf(finding);
      if key in seen && Elapsed(now, seen[key]) < window {
        alert := false;
      } else {
        seen := seen[key := now];
        alert := true;
      }
      history := Recorded(history, window, c);
      clock := now;
    }
  }
}
