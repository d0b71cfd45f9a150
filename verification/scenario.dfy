/**
 The integration scenario end to end: prefixes `some-prefix-;one-table`, a
 broker holding `one-table-one`, `some-prefix-table-two` and
 `other-prefix-table` with one record each, and one refresh cycle.
 */
module Scenario {
  import opened Wrappers
  import opened Config
  import opened Discovery
  import opened Freshness
  import opened Refresh

  /** A topic with a single partition holding one record. */
  function OneRecordTopic(): TopicMetadata {
    Described([Partition(0, Offsets(0, 1))])
  }

  lemma OneRecordTopicPolledOnce()
    ensures PollCount(OneRecordTopic()) == 1
  {
    assert Targets([Partition(0, Offsets(0, 1))]) == [Target(0, 0)];
  }

  /** The tasks of topics `a` and `b`, each holding one record, completing
      in either order. */
  function Completions(a: string, b: string, t1: int, t2: int, firstDone: bool): seq<Completion>
  {
    OneRecordTopicPolledOnce();
    var c1 := Completion(a, ProbeTopic(a, Success(OneRecordTopic()), [Message(t1)]));
    var c2 := Completion(b, ProbeTopic(b, Success(OneRecordTopic()), [Message(t2)]));
    if firstDone then [c1, c2] else [c2, c1]
  }

  /** Both matching topics get a gauge holding their record's timestamp,
      `other-prefix-table` gets none, and the exporter is up. */
  lemma EndToEnd(s: Sink, t1: int, t2: int, firstDone: bool)
    requires t1 >= 0 && t2 >= 0
    ensures var discovery := DiscoverTopics(
              Success({"one-table-one", "some-prefix-table-two", "other-prefix-table"}),
              TopicPrefixes("some-prefix-;one-table"));
            var cs := Completions("one-table-one", "some-prefix-table-two", t1, t2, firstDone);
            && discovery == Success(["one-table-one", "some-prefix-table-two"])
            && IsCompletionOrder(discovery.value, cs)
            && Apply(s, RefreshCycle(discovery, cs).effects)
               == Sink(s.freshness["one-table-one" := t1]["some-prefix-table-two" := t2], true)
  {
    TestPrefixes();
    TestDiscovery();
    var a, b := "one-table-one", "some-prefix-table-two";
    assert a[0] != b[0];
    TwoTopicCycle(s, a, b, t1, t2, firstDone);
  }

  /** One cycle over two distinct topics with one record each. */
  lemma TwoTopicCycle(s: Sink, a: string, b: string, t1: int, t2: int, firstDone: bool)
    requires a != b
    requires t1 >= 0 && t2 >= 0
    ensures IsCompletionOrder([a, b], Completions(a, b, t1, t2, firstDone))
    ensures Apply(s, RefreshCycle(Success([a, b]), Completions(a, b, t1, t2, firstDone)).effects)
            == Sink(s.freshness[a := t1][b := t2], true)
  {
    CompletionsShape(a, b, t1, t2, firstDone);
    TwoFreshTopics(s, [a, b], Completions(a, b, t1, t2, firstDone), t1, t2);
  }

  lemma CompletionsShape(a: string, b: string, t1: int, t2: int, firstDone: bool)
    requires t1 >= 0 && t2 >= 0
    ensures var c1 := Completion(a, Success(TopicTimestamp(a, Some(t1))));
            var c2 := Completion(b, Success(TopicTimestamp(b, Some(t2))));
            Completions(a, b, t1, t2, firstDone) == (if firstDone then [c1, c2] else [c2, c1])
  {
    OneRecordTopicPolledOnce();
  }

  lemma TwoFreshTopics(s: Sink, topics: seq<string>, cs: seq<Completion>, t1: int, t2: int)
    requires |topics| == 2 && topics[0] != topics[1]
    requires var c1 := Completion(topics[0], Success(TopicTimestamp(topics[0], Some(t1))));
             var c2 := Completion(topics[1], Success(TopicTimestamp(topics[1], Some(t2))));
             cs == [c1, c2] || cs == [c2, c1]
    ensures IsCompletionOrder(topics, cs)
    ensures Apply(s, RefreshCycle(Success(topics), cs).effects)
            == Sink(s.freshness[topics[0] := t1][topics[1] := t2], true)
  {
    var c1 := Completion(topics[0], Success(TopicTimestamp(topics[0], Some(t1))));
    var c2 := Completion(topics[1], Success(TopicTimestamp(topics[1], Some(t2))));
    assert IsCompletionOrder(topics, cs);
    var expected := s.freshness[topics[0] := t1][topics[1] := t2];
    assert forall c :: c in cs <==> c == c1 || c == c2;
    assert forall t :: Fresh(cs, t) <==> t == topics[0] || t == topics[1];
    RefreshSinkIs(s, topics, cs, expected);
  }
}
