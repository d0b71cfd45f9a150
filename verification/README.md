# Topic freshness exporter — verified model

This project models the decision logic of a Kafka topic-freshness exporter.
The exporter periodically lists the broker's topics and keeps those whose
name starts with one of the configured prefixes. For each kept topic it finds
the timestamp of the most recently produced record: it reads every
partition's watermarks, positions a consumer at the last offset of every
non-empty partition, polls once per such partition, and takes the largest
non-negative timestamp. It writes one freshness gauge per topic with data,
then sets the exporter-up gauge.

Broker calls are replaced by input data. The topic listing is a
`Result<set<string>>`. The topic metadata is `Missing`, `Errored` or a list
of partitions, each carrying the answer to its watermark request. The poll
answers are a sequence with exactly one entry per assigned partition. Each
entry is `NoMessage`, `PollError` or `Message(timestamp)`. The metric sink is
a map from topic to milliseconds plus an up flag. A refresh cycle returns its
writes as an effect trace, and `Apply` replays that trace onto the sink.

Modules, one per component:

- `Wrappers`: `Option` and `Result`.
- `Strings`: Python's `isspace` character set, plus `strip`, `split` on one
  separator character, and `join`.
- `StringOrder`: Python's string ordering and `sorted` over a set of strings.
- `Config`: parsing the `TOPIC_PREFIX` setting; the scrape-interval bound.
- `Discovery`: `discover_topics`.
- `Freshness`: `get_topic_timestamp`, the `TopicTimestamp` record, and the
  consumer's `session.timeout.ms`.
- `Refresh`: `refresh`.
- `Scheduler`: the sleep computation in `main`.
- `Scenario`: the integration test's scenario, end to end.

## Model

| member | source | states |
|---|---|---|
| Strings.Strip | app/config.py:52 | `strip()` leaves no whitespace at either end, keeps only characters of the input, and is empty exactly when the input is all whitespace |
| Strings.StripRemovesPadding | app/config.py:52 | `(w1 + x + w2).strip() == x` for whitespace padding around a stripped core |
| Strings.StripIdempotent | app/config.py:52 | stripping an already stripped string changes nothing |
| Strings.Split | app/config.py:52 | `split(';')` gives at least one piece; no piece holds the separator; pieces only hold input characters; with no separator the result is `[s]` |
| Strings.SplitConcat | app/config.py:52 | splitting `a;b` gives the pieces of `a` followed by the pieces of `b` |
| Strings.JoinSplit | app/config.py:52 | `';'.join(s.split(';')) == s` |
| Strings.SplitJoin | app/config.py:52 | `';'.join(ps).split(';') == ps` when `ps` is non-empty and no piece holds `;` |
| Config.TopicPrefixes | app/config.py:43-52 | every parsed prefix is non-empty, holds no `;` and has no surrounding whitespace |
| Config.TopicPrefixesConcat | app/config.py:52 | prefixes come out in the order of their pieces: parsing `a;b` gives the prefixes of `a` then those of `b` |
| Config.TopicPrefixesSingle | app/config.py:48-52 | a value with no `;` gives its stripped form, or nothing when blank |
| Config.TopicPrefixesBlank | app/config.py:52 | a value made only of `;` and whitespace, `""` included, gives no prefixes |
| Config.TopicPrefixesRoundTrip | app/config.py:52 | joining non-empty, stripped, `;`-free prefixes with `;` and parsing the result gives them back |
| Config.TestPrefixes | tests/conftest.py:47 | `"some-prefix-;one-table"` parses to `["some-prefix-", "one-table"]` |
| StringOrder.LessIrreflexive | app/kafka_client.py:165 | no string sorts before itself |
| StringOrder.LessAsymmetric | app/kafka_client.py:165 | two strings are never each before the other |
| StringOrder.LessTransitive | app/kafka_client.py:165 | the string order is transitive |
| StringOrder.LessTotal | app/kafka_client.py:165 | any two different strings are ordered |
| StringOrder.PrefixIsLess | app/kafka_client.py:165 | a proper prefix sorts first |
| StringOrder.LeastExists | app/kafka_client.py:165 | every non-empty set of strings has a least element |
| StringOrder.SortedSeq | app/kafka_client.py:165-167 | `sorted` of a set is strictly ascending, holds exactly the set's elements, and has the set's size |
| StringOrder.StrictlySortedUnique | app/kafka_client.py:165-167 | a strictly sorted sequence is determined by its elements |
| Discovery.MatchesAnyPrefixIff | app/kafka_client.py:166 | the short-circuit `any(...startswith...)` holds exactly when some prefix starts the topic |
| Discovery.DiscoverTopics | app/kafka_client.py:147-169 | a listing error propagates unchanged; otherwise the result is strictly sorted, has no duplicates, and holds exactly the listed topics that some prefix starts |
| Discovery.TestDiscovery | tests/test_main.py:81-85 | of `one-table-one`, `some-prefix-table-two` and `other-prefix-table`, only the first two are kept, in that order |
| Freshness.SessionTimeoutMs | app/kafka_client.py:50 | `session.timeout.ms` is at least 6000 and at least twice the poll timeout, and equals one of the two |
| Freshness.Targets | app/kafka_client.py:195-210 | every partition with good, non-empty watermarks is assigned at `high - 1`; every assignment belongs to such a partition, and `low <= offset < high` |
| Freshness.SkippedPartitionNeverPolled | app/kafka_client.py:198-206 | a partition whose watermark call failed, or that is empty, is never assigned |
| Freshness.OnePollPerPolledPartition | app/kafka_client.py:212-219 | the number of polls equals the number of surviving partitions |
| Freshness.NoPollsIffNoneSurvive | app/kafka_client.py:204-213 | no poll is issued exactly when no partition survives |
| Freshness.Collected | app/kafka_client.py:218-224 | the collected values are exactly the non-negative timestamps of the message answers |
| Freshness.MaxOf | app/kafka_client.py:229 | `max(xs) if xs else None` is absent exactly for empty input, and otherwise is an element no smaller than any other |
| Freshness.MaxOfSameElements | app/kafka_client.py:229 | the maximum depends only on which values were collected, not on their order or repetition |
| Freshness.GetTopicTimestamp | app/kafka_client.py:172-231 | the topic is carried through on every path; the result is absent for missing or errored metadata, or when nothing is assigned; it is absent exactly when no poll gave a non-negative timestamp; otherwise it is the largest such timestamp |
| Freshness.PollOrderIrrelevant | app/kafka_client.py:215-224 | reordering the poll answers does not change the result |
| Freshness.IgnoredPollChangesNothing | app/kafka_client.py:220-224 | inserting an empty, errored or negative-timestamp answer does not change the maximum |
| Freshness.NoPolledPartitionIsAbsent | app/kafka_client.py:204-213 | when every partition is empty or failed, no poll is issued and the result is absent |
| Freshness.OneNonEmptyPartition | app/kafka_client.py:196-231 | one partition whose last record has timestamp 1000, plus an empty partition, gives 1000 |
| Freshness.TwoNonEmptyPartitions | app/kafka_client.py:218-229 | last-record timestamps 500 and 900 give 900 in either arrival order |
| Freshness.ProbeTopic | app/kafka_client.py:180-186 | an error from the metadata request propagates out of the probe; otherwise the probe returns the timestamp result for its own topic |
| Refresh.Updates | app/main.py:93-102 | the completion loop writes a freshness gauge for exactly the finished tasks whose result has a timestamp, keyed by the result's topic with that timestamp as value, and writes nothing else |
| Refresh.UpdatesConcat | app/main.py:93-102 | the writes follow completion order: finishing `a` then `b` writes `a`'s gauges, then `b`'s |
| Refresh.ApplyUpdates | app/main.py:93-106 | the completion loop writes each timestamped topic's value, leaves every other gauge alone, and does not touch health |
| Refresh.UpdatesCount | app/main.py:89-102 | the number of gauge writes equals the number of distinct topics with a timestamp |
| Refresh.RefreshCycle | app/main.py:63-117 | exactly one health write, placed last; "down" exactly when discovery raised (the only exception the model lets escape the loop); no freshness write after a failed or empty discovery; `processed` counts the topics with data and is at most the number of topics |
| Refresh.RefreshSink | app/main.py:77-117 | afterwards the sink is up exactly when discovery succeeded; a failed or empty discovery changes no gauge; otherwise each topic with a timestamp holds it and all other gauges are unchanged |
| Refresh.RefreshSinkIs | app/main.py:91-108 | a successful cycle's final sink equals any map that matches that description |
| Refresh.CompletionOrderIrrelevant | app/main.py:91-102 | the final gauges and `processed` do not depend on the order in which tasks complete |
| Refresh.FailureIsolated | app/main.py:105-108 | a topic whose probe raised leaves its own gauge unchanged; the other topics' gauges are still written; the cycle ends up |
| Scheduler.SleepDuration | app/main.py:149 | the pause is never negative; it is zero exactly when the cycle took the whole interval; otherwise cycle plus pause equals the interval |
| Scenario.TwoTopicCycle | app/main.py:91-108 | one cycle over two distinct one-record topics writes both timestamps and ends up, in either completion order |
| Scenario.EndToEnd | tests/test_main.py:79-85 | with the test's prefixes and broker, the gauges gain exactly `one-table-one` and `some-prefix-table-two` with their timestamps, and the exporter is up |

## Left out

- Broker and network calls: `AdminClient`, `Consumer`, `list_topics`,
  `get_watermark_offsets`, `assign`, `poll` and `close`. Their answers are
  inputs to the model.
- MSK IAM token callbacks and the rest of the consumer and admin
  configuration dictionaries. These are credential plumbing over an external
  signer. Only `session.timeout.ms` is modelled.
- The thread pool. Outcomes arrive as a completion sequence in any order,
  with each topic completing once. Nothing here depends on the pool size, so
  the 10-versus-20 worker mismatch between the pool and its log line is not
  modelled.
- Signal handlers, `time.monotonic`, the shutdown flag and the 1-second
  sleep loop in `main`. These involve wall-clock time and signals. Only the
  `sleep_duration` arithmetic is modelled, over reals.
- app/metrics.py: the sink stores milliseconds. The float conversion to
  seconds (`ms / 1000.0`) and the HTTP endpoint are left out.
- Logging (app/log_helper.py and every logger call). It is output only.
- Pydantic loading of environment variables. Only the `topic_prefixes`
  property is modelled, plus the `scrape_interval_seconds >= 1` bound that
  `SleepDuration` requires.
- Exceptions other than the modelled ones. The model covers an error from the
  metadata request inside `get_topic_timestamp`, and failed watermark calls
  (each one skips its partition). A non-Kafka exception from a watermark
  call, which would propagate in the source, is not modelled. Nor is an
  exception that escapes `refresh` after discovery succeeded, such as
  `executor.submit` raising `RuntimeError` at app/main.py:91 when no worker
  thread can start: the source's catch-all (app/main.py:115-117) then writes
  no gauge and sets the exporter down, whereas the model's cycle after a
  successful discovery always ends up.
- Poll timeouts (`consumer_timeout_ms / 1000.0`). A timed-out poll is a
  `NoMessage` answer.
- The poll answers do not say which partition they came from, and the source
  does not check it either. The model assumes the broker gives one answer
  per poll.
- Refresh.RefreshCycle: the gauge key is the result's own `topic` field.
  The model assumes each result names the topic its task was submitted for.
  `GetTopicTimestamp` proves this for every probe.
- Strings.IsSpace: Python's `str.strip()` strips Unicode whitespace. The
  model uses the fixed set of code points for which `str.isspace()` holds.
