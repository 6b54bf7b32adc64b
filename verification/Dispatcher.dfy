/** The dispatcher: deduplicate, then send to the channels that the finding is routed to. */
module Dispatcher {
  import opened Option
  import opened Findings
  import Dedup

  /** No channel list means every channel. */
  predicate Routed(f: Finding, name: string) { f.channels.None? || name in f.channels.value }

  /** The findings routed to a channel, in order. */
  function RoutedTo(fs: seq<Finding>, name: string): seq<Finding>
  {
    if fs == [] then []
    else
      var f := fs[|fs| - 1];
      RoutedTo(fs[..|fs| - 1], name) + if Routed(f, name) then [f] else []
  }

  /** What one channel has been asked to send, and how many sends succeeded and failed. */
  datatype Channel = Channel(name: string, received: seq<Finding>, ok: nat, failed: nat)

  /** The channel after one more send. */
  function Sent(c: Channel, f: Finding, ok: bool): Channel
  {
    if ok then c.(received := c.received + [f], ok := c.ok + 1)
    else c.(received := c.received + [f], failed := c.failed + 1)
  }

  predicate Delivered(c: Channel, passed: seq<Finding>)
  {
    c.received == RoutedTo(passed, c.name) && |c.received| == c.ok + c.failed
  }

  /** A channel is sent exactly the findings that name it or name none, and a send counts as ok
      if it succeeds and as failed otherwise. */
  lemma {:induction false} RoutedExact(fs: seq<Finding>, name: string, f: Finding)
    ensures f in RoutedTo(fs, name) <==> f in fs && (f.channels == None || name in f.channels.value)
  {
    if fs != [] {
      RoutedExact(fs[..|fs| - 1], name, f);
      assert fs == fs[..|fs| - 1] + [fs[|fs| - 1]];
    }
  }

  lemma CountedExact(c: Channel, f: Finding)
    ensures Sent(c, f, true).ok == c.ok + 1 && Sent(c, f, true).failed == c.failed
    ensures Sent(c, f, false).ok == c.ok && Sent(c, f, false).failed == c.failed + 1
    ensures Sent(c, f, true).received == Sent(c, f, false).received == c.received + [f]
  {
  }

  lemma OneMore(c: Channel, passed: seq<Finding>, f: Finding, ok: bool)
    requires Delivered(c, passed)
    ensures Delivered(if Routed(f, c.name) then Sent(c, f, ok) else c, passed + [f])
  {
    assert (passed + [f])[..|passed|] == passed;
  }

  class Dispatcher {
    var channels: seq<Channel>
    const dedup: Dedup.Deduplicator
    /** The findings that passed deduplication, in order. */
    ghost var passed: seq<Finding>

    /** In every state that a run reaches, each channel has received exactly the passed
        findings routed to it, in order, whether or not sends failed. */
    ghost predicate Valid()
      reads this, dedup
    {
      && dedup.Valid()
      && |passed| == |dedup.history|
      && (forall k :: 0 <= k < |passed| ==> KeyOf(passed[k]) == dedup.history[k].key)
      && forall k :: 0 <= k < |channels| ==> Delivered(channels[k], passed)
    }

    constructor (names: seq<string>, window: nat)
      ensures Valid() && fresh(dedup) && passed == [] && |channels| == |names|
      ensures forall k :: 0 <= k < |names| ==> channels[k] == Channel(names[k], [], 0, 0)
    {
      channels := seq(|names|, k requires 0 <= k < |names| => Channel(names[k], [], 0, 0));
      dedup := new Dedup.Deduplicator(window);
      passed := [];
    }

    /** The loop over the channels; a failed send does not stop it. */
    method Deliver(finding: Finding, outcome: nat -> bool)
      modifies this`channels
      ensures |channels| == |old(channels)|
      ensures forall k :: 0 <= k < |channels| ==>
        channels[k] == if Routed(finding, old(channels)[k].name)
                       then Sent(old(channels)[k], finding, outcome(k)) else old(channels)[k]
    {
      for i := 0 to |channels|
        invariant |channels| == |old(channels)|
        invariant forall k :: i <= k < |channels| ==> channels[k] == old(channels)[k]
        invariant forall k :: 0 <= k < i ==>
          channels[k] == if Routed(finding, old(channels)[k].name)
                         then Sent(old(channels)[k], finding, outcome(k)) else old(channels)[k]
      {
        var c := channels[i];
        if finding.channels.Some? && c.name !in finding.channels.value {
          continue;
        }
        if outcome(i) {
          channels := channels[i := c.(received := c.received + [finding], ok := c.ok + 1)];
        } else {
          channels := channels[i := c.(received := c.received + [finding], failed := c.failed + 1)];
        }
      }
    }

    /** `outcome` says of each channel whether its send would succeed this time. */
    method Dispatch(finding: Finding, prune: nat, now: nat, outcome: nat -> bool)
      requires Valid() && dedup.clock <= prune <= now
      modifies this, dedup
      ensures Valid() && dedup.clock == now
      ensures var alert := !Dedup.Live(old(dedup.history), dedup.window, KeyOf(finding), now);
        && passed == old(passed) + (if alert then [finding] else [])
        && |channels| == |old(channels)|
        && forall k :: 0 <= k < |channels| ==>
             channels[k] == if alert && Routed(finding, old(channels)[k].name)
                            then Sent(old(channels)[k], finding, outcome(k)) else old(channels)[k]
    {
      hide Delivered, Sent, Routed, Dedup.Live, Dedup.After, Dedup.LiveKeys, Dedup.Agrees, Dedup.Spaced;
      var alert := dedup.ShouldAlert(finding, prune, now);
      if !alert {
        return;
      }
      Deliver(finding, outcome);
      forall k | 0 <= k < |channels| ensures Delivered(channels[k], passed + [finding]) {
        OneMore(old(channels)[k], passed, finding, outcome(k));
      }
      passed := passed + [finding];
    }
  }
}
