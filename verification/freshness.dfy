/**
 The per-topic freshness probe: from a topic's partition metadata and
 watermarks, choose the last offset of every non-empty partition, issue one
 poll per chosen partition, and report the largest non-negative timestamp
 the polls returned. The broker's answers are input data.
 */
module Freshness {
  import opened Wrappers

  /** The answer to a partition's watermark request: the call failed, or the
      `(low, high)` offsets, `high` exclusive. */
  datatype Watermark = WatermarkError(reason: string) | Offsets(low: int, high: int)

  /** A partition id together with the answer to its watermark request. */
  datatype Partition = Partition(id: int, watermark: Watermark)

  /** The topic's entry in the broker metadata. */
  datatype TopicMetadata =
    | Missing
    | Errored(reason: string)
    | Described(partitions: seq<Partition>)

  /** One poll of the consumer: nothing arrived, an error message arrived,
      or a record with the given timestamp (negative means "unknown"). */
  datatype PollResult = NoMessage | PollError(reason: string) | Message(timestamp: int)

  /** A partition assigned to the consumer, positioned at `offset`. */
  datatype Target = Target(partition: int, offset: int)

  /** The freshness result for one topic. */
  datatype TopicTimestamp = TopicTimestamp(topic: string, maxTimestampMs: Option<int>)

  /** The smallest consumer session timeout the exporter configures. */
  const MinSessionTimeoutMs: int := 6000

  /** The consumer's `session.timeout.ms`: twice the poll timeout, but never
      below the floor. */
  function SessionTimeoutMs(consumerTimeoutMs: int): (r: int)
    ensures r >= MinSessionTimeoutMs && r >= 2 * consumerTimeoutMs
    ensures r == MinSessionTimeoutMs || r == 2 * consumerTimeoutMs
  {
    if consumerTimeoutMs * 2 >= MinSessionTimeoutMs then consumerTimeoutMs * 2 else MinSessionTimeoutMs
  }

  /** A partition is polled when its watermark call succeeded and it is not empty. */
  predicate IsPolled(p: Partition) {
    p.watermark.Offsets? && p.watermark.low < p.watermark.high
  }

  /** `t` assigns polled partition `p` at an offset inside its watermarks. */
  predicate AssignsWithin(t: Target, p: Partition) {
    IsPolled(p) && t.partition == p.id && p.watermark.low <= t.offset < p.watermark.high
  }

  /** The assignment built from the partitions, in partition order: every
      polled partition positioned at its last record, `high - 1`, which lies
      within its watermarks; nothing else is assigned. */
  function Targets(parts: seq<Partition>): (r: seq<Target>)
    ensures |r| <= |parts|
    ensures forall p :: p in parts && IsPolled(p) ==> Target(p.id, p.watermark.high - 1) in r
    ensures forall t :: t in r ==>
      (exists p :: p in parts && AssignsWithin(t, p) && t.offset == p.watermark.high - 1)
    decreases |parts|
  {
    if |parts| == 0 then []
    else
      var p := parts[0];
      var rest := Targets(parts[1..]);
      var r := if IsPolled(p) then [Target(p.id, p.watermark.high - 1)] + rest else rest;
      assert forall q :: q in parts && IsPolled(q) ==> Target(q.id, q.watermark.high - 1) in r by {
        forall q | q in parts && IsPolled(q)
          ensures Target(q.id, q.watermark.high - 1) in r
        {
          if q != p {
            assert q in parts[1..];
          }
        }
      }
      assert forall t :: t in r ==>
        (exists q :: q in parts && AssignsWithin(t, q) && t.offset == q.watermark.high - 1) by {
        forall t | t in r
          ensures exists q :: q in parts && AssignsWithin(t, q) && t.offset == q.watermark.high - 1
        {
          if t in rest {
            var q :| q in parts[1..] && AssignsWithin(t, q) && t.offset == q.watermark.high - 1;
            assert q in parts;
          } else {
            assert AssignsWithin(t, p) && p in parts;
          }
        }
      }
      r
  }

  /** The number of polls the probe issues for the topic. */
  function PollCount(meta: TopicMetadata): nat {
    if meta.Described? then |Targets(meta.partitions)| else 0
  }

  /** The number of partitions that are polled. */
  function CountPolled(parts: seq<Partition>): nat
    decreases |parts|
  {
    if |parts| == 0 then 0 else (if IsPolled(parts[0]) then 1 else 0) + CountPolled(parts[1..])
  }

  /** Exactly one poll is issued per partition that survives the watermark
      checks. */
  lemma {:induction false} OnePollPerPolledPartition(parts: seq<Partition>)
    ensures PollCount(Described(parts)) == CountPolled(parts)
    decreases |parts|
  {
    if |parts| > 0 {
      OnePollPerPolledPartition(parts[1..]);
      var rest := Targets(parts[1..]);
      if IsPolled(parts[0]) {
        assert Targets(parts) == [Target(parts[0].id, parts[0].watermark.high - 1)] + rest;
      } else {
        assert Targets(parts) == rest;
      }
    }
  }

  /** No poll is issued exactly when no partition survives. */
  lemma {:induction false} NoPollsIffNoneSurvive(parts: seq<Partition>)
    ensures CountPolled(parts) == 0 <==> forall p :: p in parts ==> !IsPolled(p)
    decreases |parts|
  {
    if |parts| > 0 {
      NoPollsIffNoneSurvive(parts[1..]);
      assert forall q :: q in parts <==> q == parts[0] || q in parts[1..];
    }
  }

  predicate DistinctIds(parts: seq<Partition>) {
    forall i, j :: 0 <= i < j < |parts| ==> parts[i].id != parts[j].id
  }

  /** A partition whose watermark call failed or that is empty is never
      assigned (partition ids are the distinct keys of the metadata). */
  lemma SkippedPartitionNeverPolled(parts: seq<Partition>, k: int)
    requires DistinctIds(parts)
    requires 0 <= k < |parts| && !IsPolled(parts[k])
    ensures forall t :: t in Targets(parts) ==> t.partition != parts[k].id
  {
    forall t | t in Targets(parts)
      ensures t.partition != parts[k].id
    {
      var p :| p in parts && AssignsWithin(t, p);
      var i :| 0 <= i < |parts| && parts[i] == p;
      assert i != k;
    }
  }

  /** The usable timestamps among the poll results, in poll order: `None`
      results, error messages and negative timestamps are dropped. */
  function Collected(polls: seq<PollResult>): (r: seq<int>)
    ensures |r| <= |polls|
    ensures forall x :: x in r <==> Message(x) in polls && x >= 0
    decreases |polls|
  {
    if |polls| == 0 then []
    else
      var rest := Collected(polls[1..]);
      assert forall q :: q in polls <==> q == polls[0] || q in polls[1..];
      match polls[0]
      case Message(ts) => if ts >= 0 then [ts] + rest else rest
      case _ => rest
  }

  /** Python `max(xs) if xs else None`. */
  function MaxOf(xs: seq<int>): (r: Option<int>)
    ensures r.None? <==> |xs| == 0
    ensures r.Some? ==> r.value in xs && forall x :: x in xs ==> x <= r.value
    decreases |xs|
  {
    if |xs| == 0 then None
    else
      match MaxOf(xs[1..])
      case None => Some(xs[0])
      case Some(m) =>
        assert forall x :: x in xs ==> x == xs[0] || x in xs[1..];
        if xs[0] >= m then Some(xs[0]) else Some(m)
  }

  /** The largest usable timestamp among the poll results. */
  ghost predicate IsFreshest(m: int, polls: seq<PollResult>) {
    m >= 0 && Message(m) in polls && forall x :: Message(x) in polls && x >= 0 ==> x <= m
  }

  /** `get_topic_timestamp` once the topic metadata has been fetched: `polls`
      holds the broker's answers to the polls the probe issues, one per
      assigned partition, in arrival order (which partition a message came
      from is not checked). The topic is always carried through; the result
      is absent exactly when no poll yielded a non-negative timestamp, and
      otherwise it is the largest such timestamp. */
  function GetTopicTimestamp(topic: string, meta: TopicMetadata, polls: seq<PollResult>): (r: TopicTimestamp)
    requires |polls| == PollCount(meta)
    ensures r.topic == topic
    ensures !meta.Described? || |Targets(meta.partitions)| == 0 ==> r.maxTimestampMs.None?
    ensures r.maxTimestampMs.None? <==> forall x :: Message(x) in polls ==> x < 0
    ensures r.maxTimestampMs.Some? ==> IsFreshest(r.maxTimestampMs.value, polls)
  {
    match meta
    case Missing => TopicTimestamp(topic, None)
    case Errored(_) => TopicTimestamp(topic, None)
    case Described(parts) =>
      if |parts| == 0 then TopicTimestamp(topic, None)
      else if |Targets(parts)| == 0 then TopicTimestamp(topic, None)
      else
        var m := MaxOf(Collected(polls));
        assert forall x :: Message(x) in polls && x >= 0 ==> x in Collected(polls);
        TopicTimestamp(topic, m)
  }

  /** The poll answers form an unordered collection: any reordering of them
      gives the same result. */
  lemma PollOrderIrrelevant(topic: string, meta: TopicMetadata, polls: seq<PollResult>, polls': seq<PollResult>)
    requires |polls| == PollCount(meta)
    requires multiset(polls) == multiset(polls')
    ensures |polls'| == PollCount(meta)
    ensures GetTopicTimestamp(topic, meta, polls) == GetTopicTimestamp(topic, meta, polls')
  {
    assert |polls'| == |multiset(polls')| == |multiset(polls)| == |polls|;
    assert forall q :: q in polls <==> q in multiset(polls);
    assert forall q :: q in polls' <==> q in multiset(polls');
    assert forall q :: q in polls <==> q in polls';
    var r := GetTopicTimestamp(topic, meta, polls);
    var r' := GetTopicTimestamp(topic, meta, polls');
    if r.maxTimestampMs.Some? && r'.maxTimestampMs.Some? {
      var m, m' := r.maxTimestampMs.value, r'.maxTimestampMs.value;
      assert m <= m' && m' <= m;
    }
  }

  /** The maximum depends only on which values occur. */
  lemma MaxOfSameElements(xs: seq<int>, ys: seq<int>)
    requires forall x :: x in xs <==> x in ys
    ensures MaxOf(xs) == MaxOf(ys)
  {
    var a, b := MaxOf(xs), MaxOf(ys);
    if a.Some? && b.Some? {
      assert a.value <= b.value && b.value <= a.value;
    }
  }

  /** A poll answer that carries no usable timestamp changes nothing. */
  lemma IgnoredPollChangesNothing(polls: seq<PollResult>, k: int, q: PollResult)
    requires 0 <= k <= |polls|
    requires q.NoMessage? || q.PollError? || (q.Message? && q.timestamp < 0)
    ensures MaxOf(Collected(polls[..k] + [q] + polls[k..])) == MaxOf(Collected(polls))
  {
    var polls' := polls[..k] + [q] + polls[k..];
    assert polls == polls[..k] + polls[k..];
    assert forall r :: r in polls' <==> r in polls || r == q;
    MaxOfSameElements(Collected(polls'), Collected(polls));
  }

  /** Partitions that are all empty (or whose watermarks all failed) give no timestamp. */
  lemma NoPolledPartitionIsAbsent(topic: string, parts: seq<Partition>)
    requires forall p :: p in parts ==> !IsPolled(p)
    ensures PollCount(Described(parts)) == 0
    ensures GetTopicTimestamp(topic, Described(parts), []).maxTimestampMs == None
  {
    OnePollPerPolledPartition(parts);
    NoPollsIffNoneSurvive(parts);
  }

  /** One non-empty partition whose last record has timestamp 1000 next to an
      empty partition gives 1000. */
  lemma OneNonEmptyPartition(topic: string)
    ensures var meta := Described([Partition(0, Offsets(0, 1)), Partition(1, Offsets(4, 4))]);
      PollCount(meta) == 1 && GetTopicTimestamp(topic, meta, [Message(1000)]).maxTimestampMs == Some(1000)
  {
    var parts := [Partition(0, Offsets(0, 1)), Partition(1, Offsets(4, 4))];
    assert parts[1..][1..] == [];
    assert Targets(parts) == [Target(0, 0)];
  }

  /** Two non-empty partitions whose last records have timestamps 500 and 900
      give 900, whichever answer arrives first. */
  lemma TwoNonEmptyPartitions(topic: string, polls: seq<PollResult>)
    requires polls == [Message(500), Message(900)] || polls == [Message(900), Message(500)]
    ensures var meta := Described([Partition(0, Offsets(0, 3)), Partition(1, Offsets(2, 7))]);
      PollCount(meta) == 2 && GetTopicTimestamp(topic, meta, polls).maxTimestampMs == Some(900)
  {
    var parts := [Partition(0, Offsets(0, 3)), Partition(1, Offsets(2, 7))];
    assert parts[1..][1..] == [];
    assert Targets(parts) == [Target(0, 2), Target(1, 6)];
    var r := GetTopicTimestamp(topic, Described(parts), polls);
    assert Message(900) in polls;
    assert forall x :: Message(x) in polls ==> x == 500 || x == 900;
  }

  /** `get_topic_timestamp` including the metadata request itself, which may
      raise; a raised error propagates to the caller. */
  function ProbeTopic(topic: string, describe: Result<TopicMetadata>, polls: seq<PollResult>): (r: Result<TopicTimestamp>)
    requires describe.Success? ==> |polls| == PollCount(describe.value)
    ensures r.Failure? <==> describe.Failure?
    ensures r.Success? ==> r.value.topic == topic
    ensures r.Success? ==> (r.value.maxTimestampMs.None? <==> forall x :: Message(x) in polls ==> x < 0)
    ensures r.Success? && r.value.maxTimestampMs.Some? ==> IsFreshest(r.value.maxTimestampMs.value, polls)
  {
    match describe
    case Failure(e) => Failure(e)
    case Success(meta) => Success(GetTopicTimestamp(topic, meta, polls))
  }
}
