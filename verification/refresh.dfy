/**
 One refresh cycle: discover the topics, probe each one on a worker pool,
 write a freshness gauge for every topic that yielded a timestamp, and write
 the health gauge once at the end. Discovery and the per-topic outcomes are
 inputs; the gauge writes are returned as an effect trace that `Apply`
 replays onto the metric sink.
 */
module Refresh {
  import opened Wrappers
  import opened Freshness

  /** A finished per-topic task: the topic it was submitted for, and what
      `get_topic_timestamp` returned or raised. */
  datatype Completion = Completion(topic: string, outcome: Result<TopicTimestamp>)

  /** A write to the metric sink. */
  datatype Effect = SetFreshness(topic: string, timestampMs: int) | SetHealthy | SetUnhealthy

  /** The metric sink: the freshness gauge per topic label (in milliseconds)
      and the exporter-up gauge. */
  datatype Sink = Sink(freshness: map<string, int>, up: bool)

  /** The writes a cycle performs, in order, and its `processed` counter. */
  datatype Cycle = Cycle(effects: seq<Effect>, processed: nat)

  predicate IsHealthWrite(e: Effect) {
    e.SetHealthy? || e.SetUnhealthy?
  }

  predicate HasData(c: Completion) {
    c.outcome.Success? && c.outcome.value.maxTimestampMs.Some?
  }

  function DataOf(c: Completion): int
    requires HasData(c)
  {
    c.outcome.value.maxTimestampMs.value
  }

  predicate DistinctTopics(cs: seq<Completion>) {
    forall i, j :: 0 <= i < j < |cs| ==> cs[i].topic != cs[j].topic
  }

  /** Every result names the topic its task was submitted for. */
  predicate ResultsMatchTopics(cs: seq<Completion>) {
    forall i :: 0 <= i < |cs| && cs[i].outcome.Success? ==> cs[i].outcome.value.topic == cs[i].topic
  }

  /** `cs` is an order in which the pool can complete one task per topic:
      each submitted topic completes exactly once, in any order. */
  predicate IsCompletionOrder(topics: seq<string>, cs: seq<Completion>) {
    && |cs| == |topics|
    && DistinctTopics(cs)
    && (forall i :: 0 <= i < |cs| ==> cs[i].topic in topics)
    && ResultsMatchTopics(cs)
  }

  /** Some completion for `t` carries a timestamp. */
  ghost predicate Fresh(cs: seq<Completion>, t: string) {
    exists c :: c in cs && HasData(c) && c.topic == t
  }

  /** The topics for which a gauge is written. */
  ghost function FreshTopics(cs: seq<Completion>): set<string> {
    set c | c in cs && HasData(c) :: c.topic
  }

  /** The gauge writes of the completion loop, in completion order: one per
      result that carries a timestamp, keyed by the result's topic. */
  function Updates(cs: seq<Completion>): (r: seq<Effect>)
    ensures |r| <= |cs|
    ensures forall i :: 0 <= i < |r| ==> r[i].SetFreshness?
    ensures forall e :: e in r <==>
      exists c :: c in cs && HasData(c) && e == SetFreshness(c.outcome.value.topic, DataOf(c))
    decreases |cs|
  {
    if |cs| == 0 then []
    else
      var c := cs[0];
      var head := if HasData(c) then [SetFreshness(c.outcome.value.topic, DataOf(c))] else [];
      var rest := Updates(cs[1..]);
      assert forall x :: x in cs <==> x == c || x in cs[1..];
      head + rest
  }

  /** The writes follow completion order: the loop over `a` then `b` writes
      what the loop over `a` writes, then what the loop over `b` writes. */
  lemma {:induction false} UpdatesConcat(a: seq<Completion>, b: seq<Completion>)
    ensures Updates(a + b) == Updates(a) + Updates(b)
    decreases |a|
  {
    if |a| > 0 {
      assert (a + b)[0] == a[0] && (a + b)[1..] == a[1..] + b;
      UpdatesConcat(a[1..], b);
    } else {
      assert a + b == b;
    }
  }

  function Step(s: Sink, e: Effect): Sink {
    match e
    case SetFreshness(t, v) => s.(freshness := s.freshness[t := v])
    case SetHealthy => s.(up := true)
    case SetUnhealthy => s.(up := false)
  }

  /** The sink after performing `effects` in order. */
  function Apply(s: Sink, effects: seq<Effect>): Sink
    decreases |effects|
  {
    if |effects| == 0 then s else Apply(Step(s, effects[0]), effects[1..])
  }

  lemma {:induction false} ApplyConcat(s: Sink, a: seq<Effect>, b: seq<Effect>)
    ensures Apply(s, a + b) == Apply(Apply(s, a), b)
    decreases |a|
  {
    if |a| > 0 {
      assert (a + b)[0] == a[0] && (a + b)[1..] == a[1..] + b;
      ApplyConcat(Step(s, a[0]), a[1..], b);
    } else {
      assert a + b == b;
    }
  }

  /** The completion loop over tasks with distinct topics writes, for every
      topic with a timestamp, exactly that timestamp, leaves every other
      gauge as it was, and does not touch the health gauge. */
  lemma {:induction false} ApplyUpdates(s: Sink, cs: seq<Completion>)
    requires DistinctTopics(cs) && ResultsMatchTopics(cs)
    ensures Apply(s, Updates(cs)).up == s.up
    ensures forall t :: t in Apply(s, Updates(cs)).freshness <==> t in s.freshness || Fresh(cs, t)
    ensures forall t :: t in s.freshness && !Fresh(cs, t) ==> Apply(s, Updates(cs)).freshness[t] == s.freshness[t]
    ensures forall c :: c in cs && HasData(c) ==>
      c.topic in Apply(s, Updates(cs)).freshness && Apply(s, Updates(cs)).freshness[c.topic] == DataOf(c)
    decreases |cs|
  {
    if |cs| > 0 {
      var c0, rest := cs[0], cs[1..];
      var head: seq<Effect> := if HasData(c0) then [SetFreshness(c0.outcome.value.topic, DataOf(c0))] else [];
      assert Updates(cs) == head + Updates(rest);
      ApplyConcat(s, head, Updates(rest));
      var s1 := Apply(s, head);
      assert HasData(c0) ==> s1 == s.(freshness := s.freshness[c0.topic := DataOf(c0)]);
      assert !HasData(c0) ==> s1 == s;
      assert DistinctTopics(rest) && ResultsMatchTopics(rest) by {
        forall i | 0 <= i < |rest| ensures rest[i] == cs[i + 1] { }
      }
      ApplyUpdates(s1, rest);
      assert forall c :: c in rest ==> c.topic != c0.topic by {
        forall c | c in rest ensures c.topic != c0.topic {
          var j :| 0 <= j < |rest| && rest[j] == c;
          assert cs[j + 1] == c;
        }
      }
      assert forall c :: c in cs <==> c == c0 || c in rest;
      assert forall t :: Fresh(cs, t) <==> (HasData(c0) && c0.topic == t) || Fresh(rest, t);
    }
  }

  lemma {:induction false} UpdatesCount(cs: seq<Completion>)
    requires DistinctTopics(cs)
    ensures |Updates(cs)| == |FreshTopics(cs)|
    decreases |cs|
  {
    if |cs| > 0 {
      var c0, rest := cs[0], cs[1..];
      assert DistinctTopics(rest) by {
        forall i | 0 <= i < |rest| ensures rest[i] == cs[i + 1] { }
      }
      UpdatesCount(rest);
      assert |Updates(cs)| == (if HasData(c0) then 1 else 0) + |Updates(rest)|;
      assert c0.topic !in FreshTopics(rest) by {
        forall c | c in rest
          ensures c.topic != c0.topic
        {
          var j :| 0 <= j < |rest| && rest[j] == c;
          assert cs[j + 1] == c;
        }
      }
      assert FreshTopics(cs) == (if HasData(c0) then {c0.topic} else {}) + FreshTopics(rest) by {
        assert forall c :: c in cs <==> c == c0 || c in rest;
      }
    }
  }

  /** `refresh`: `discovery` is what `discover_topics` returned or raised and
      `cs` the per-topic outcomes in completion order. The cycle ends with
      exactly one health write and performs no other kind of write; the
      health write is "down" exactly when discovery raised; a failed or empty
      discovery writes no freshness gauge; `processed` is the number of
      topics that yielded a timestamp. */
  function RefreshCycle(discovery: Result<seq<string>>, cs: seq<Completion>): (c: Cycle)
    requires discovery.Success? ==> IsCompletionOrder(discovery.value, cs)
    ensures |c.effects| >= 1 && IsHealthWrite(c.effects[|c.effects| - 1])
    ensures forall i :: 0 <= i < |c.effects| - 1 ==> c.effects[i].SetFreshness?
    ensures c.effects[|c.effects| - 1] == SetUnhealthy <==> discovery.Failure?
    ensures discovery.Failure? || |discovery.value| == 0 ==> |c.effects| == 1 && c.processed == 0
    ensures c.processed == |c.effects| - 1
    ensures discovery.Success? ==> c.processed == |FreshTopics(cs)| <= |discovery.value|
  {
    match discovery
    case Failure(_) => Cycle([SetUnhealthy], 0)
    case Success(topics) =>
      if |topics| == 0 then
        assert cs == [];
        Cycle([SetHealthy], 0)
      else
        var updates := Updates(cs);
        UpdatesCount(cs);
        Cycle(updates + [SetHealthy], |updates|)
  }

  /** The sink after a cycle: up exactly when discovery succeeded; after a
      failed or empty discovery no freshness gauge changed; otherwise the
      gauge of every topic with a timestamp holds it, and every other gauge
      (including those of topics whose probe raised or found nothing) is
      unchanged. */
  lemma RefreshSink(s: Sink, discovery: Result<seq<string>>, cs: seq<Completion>)
    requires discovery.Success? ==> IsCompletionOrder(discovery.value, cs)
    ensures Apply(s, RefreshCycle(discovery, cs).effects).up <==> discovery.Success?
    ensures discovery.Failure? || |discovery.value| == 0 ==>
      Apply(s, RefreshCycle(discovery, cs).effects).freshness == s.freshness
    ensures discovery.Success? ==> forall t ::
      t in Apply(s, RefreshCycle(discovery, cs).effects).freshness <==> t in s.freshness || Fresh(cs, t)
    ensures discovery.Success? ==> forall t :: t in s.freshness && !Fresh(cs, t) ==>
      Apply(s, RefreshCycle(discovery, cs).effects).freshness[t] == s.freshness[t]
    ensures discovery.Success? ==> forall c :: c in cs && HasData(c) ==>
      c.topic in Apply(s, RefreshCycle(discovery, cs).effects).freshness &&
      Apply(s, RefreshCycle(discovery, cs).effects).freshness[c.topic] == DataOf(c)
  {
    var effects := RefreshCycle(discovery, cs).effects;
    if discovery.Success? && |discovery.value| > 0 {
      ApplyUpdates(s, cs);
      ApplyConcat(s, Updates(cs), [SetHealthy]);
    } else if discovery.Success? {
      assert cs == [];
    }
  }

  /** A healthy cycle's sink is the one map that agrees with `RefreshSink`. */
  lemma RefreshSinkIs(s: Sink, topics: seq<string>, cs: seq<Completion>, expected: map<string, int>)
    requires |topics| > 0 && IsCompletionOrder(topics, cs)
    requires forall t :: t in expected <==> t in s.freshness || Fresh(cs, t)
    requires forall t :: t in s.freshness && !Fresh(cs, t) ==> expected[t] == s.freshness[t]
    requires forall c :: c in cs && HasData(c) ==> c.topic in expected && expected[c.topic] == DataOf(c)
    ensures Apply(s, RefreshCycle(Success(topics), cs).effects) == Sink(expected, true)
  {
    RefreshSink(s, Success(topics), cs);
    var final := Apply(s, RefreshCycle(Success(topics), cs).effects);
    forall t | t in final.freshness
      ensures final.freshness[t] == expected[t]
    {
      if Fresh(cs, t) {
        var c :| c in cs && HasData(c) && c.topic == t;
      }
    }
    assert final.freshness.Keys == expected.Keys;
  }

  /** The final gauges do not depend on the order in which tasks complete. */
  lemma CompletionOrderIrrelevant(s: Sink, topics: seq<string>, cs: seq<Completion>, cs': seq<Completion>)
    requires IsCompletionOrder(topics, cs) && IsCompletionOrder(topics, cs')
    requires multiset(cs) == multiset(cs')
    ensures Apply(s, RefreshCycle(Success(topics), cs).effects) == Apply(s, RefreshCycle(Success(topics), cs').effects)
    ensures RefreshCycle(Success(topics), cs).processed == RefreshCycle(Success(topics), cs').processed
  {
    assert forall c :: c in cs <==> c in cs' by {
      assert forall c :: c in cs <==> c in multiset(cs);
      assert forall c :: c in cs' <==> c in multiset(cs');
    }
    assert forall t :: Fresh(cs, t) <==> Fresh(cs', t);
    assert FreshTopics(cs) == FreshTopics(cs');
    if |topics| > 0 {
      var a := Apply(s, RefreshCycle(Success(topics), cs).effects);
      RefreshSink(s, Success(topics), cs);
      assert a == Sink(a.freshness, true);
      RefreshSinkIs(s, topics, cs', a.freshness);
    }
  }

  /** A topic whose probe raised does not stop the other topics' gauges from
      being written, leaves its own gauge unchanged, and the cycle still ends
      healthy. */
  lemma FailureIsolated(s: Sink, topics: seq<string>, cs: seq<Completion>, k: int)
    requires |topics| > 0 && IsCompletionOrder(topics, cs)
    requires 0 <= k < |cs| && cs[k].outcome.Failure?
    ensures Apply(s, RefreshCycle(Success(topics), cs).effects).up
    ensures forall c :: c in cs && HasData(c) ==>
      c.topic in Apply(s, RefreshCycle(Success(topics), cs).effects).freshness &&
      Apply(s, RefreshCycle(Success(topics), cs).effects).freshness[c.topic] == DataOf(c)
    ensures cs[k].topic in Apply(s, RefreshCycle(Success(topics), cs).effects).freshness <==> cs[k].topic in s.freshness
    ensures cs[k].topic in s.freshness ==>
      Apply(s, RefreshCycle(Success(topics), cs).effects).freshness[cs[k].topic] == s.freshness[cs[k].topic]
  {
    RefreshSink(s, Success(topics), cs);
    forall c | c in cs && HasData(c)
      ensures c.topic != cs[k].topic
    {
      var j :| 0 <= j < |cs| && cs[j] == c;
      assert j != k;
    }
    assert !Fresh(cs, cs[k].topic);
  }
}
