/**
 Topic discovery: of the topic names the broker lists, keep those that start
 with any configured prefix, in sorted order.
 */
module Discovery {
  import opened Wrappers
  import opened StringOrder

  /** Python `any(topic.startswith(p) for p in prefixes)`. */
  predicate MatchesAnyPrefix(topic: string, prefixes: seq<string>)
    decreases |prefixes|
  {
    |prefixes| > 0 && (prefixes[0] <= topic || MatchesAnyPrefix(topic, prefixes[1..]))
  }

  /** The short-circuiting scan agrees with "some prefix starts the topic". */
  lemma {:induction false} MatchesAnyPrefixIff(topic: string, prefixes: seq<string>)
    ensures MatchesAnyPrefix(topic, prefixes) <==> exists i :: 0 <= i < |prefixes| && prefixes[i] <= topic
    decreases |prefixes|
  {
    if |prefixes| > 0 {
      MatchesAnyPrefixIff(topic, prefixes[1..]);
      if exists i :: 0 <= i < |prefixes| && prefixes[i] <= topic {
        var i :| 0 <= i < |prefixes| && prefixes[i] <= topic;
        if i > 0 {
          assert prefixes[1..][i - 1] == prefixes[i];
        }
      }
      if exists i :: 0 <= i < |prefixes[1..]| && prefixes[1..][i] <= topic {
        var i :| 0 <= i < |prefixes[1..]| && prefixes[1..][i] <= topic;
        assert prefixes[i + 1] <= topic;
      }
    }
  }

  /** `discover_topics`: `listing` is the broker's topic listing (the key set
      of its metadata), or the error the metadata call raised. The error is
      propagated unchanged; otherwise the result is sorted, has no duplicates,
      and holds exactly the listed topics that start with some prefix. */
  function DiscoverTopics(listing: Result<set<string>>, prefixes: seq<string>): (r: Result<seq<string>>)
    ensures listing.Failure? <==> r.Failure?
    ensures listing.Failure? ==> r.error == listing.error
    ensures r.Success? ==> StrictlySorted(r.value) && Distinct(r.value)
    ensures r.Success? ==> forall t :: t in r.value <==>
      t in listing.value && exists i :: 0 <= i < |prefixes| && prefixes[i] <= t
  {
    match listing
    case Failure(e) => Failure(e)
    case Success(topics) =>
      var matching := set t | t in topics && MatchesAnyPrefix(t, prefixes);
      var sorted := SortedSeq(matching);
      StrictlySortedDistinct(sorted);
      assert forall t :: MatchesAnyPrefix(t, prefixes) <==> exists i :: 0 <= i < |prefixes| && prefixes[i] <= t by {
        forall t {
          MatchesAnyPrefixIff(t, prefixes);
        }
      }
      Success(sorted)
  }

  /** The integration test's broker: with prefixes `some-prefix-` and
      `one-table`, only `one-table-one` and `some-prefix-table-two` are kept,
      in that order. */
  lemma TestDiscovery()
    ensures DiscoverTopics(Success({"one-table-one", "some-prefix-table-two", "other-prefix-table"}),
                           ["some-prefix-", "one-table"])
         == Success(["one-table-one", "some-prefix-table-two"])
  {
    TestDiscoveryFor("some-prefix-", "one-table", "one-table-one", "some-prefix-table-two", "other-prefix-table");
  }

  lemma TestDiscoveryFor(p0: string, p1: string, t1: string, t2: string, t3: string)
    requires p0 == "some-prefix-" && p1 == "one-table"
    requires t1 == "one-table-one" && t2 == "some-prefix-table-two" && t3 == "other-prefix-table"
    ensures DiscoverTopics(Success({t1, t2, t3}), [p0, p1]) == Success([t1, t2])
  {
    var prefixes := [p0, p1];
    var r := DiscoverTopics(Success({t1, t2, t3}), prefixes);
    assert t1[..|p1|] == p1;
    assert p1 <= t1;
    assert t2[..|p0|] == p0;
    assert p0 <= t2;
    assert p0[0] != t3[0] && p1[1] != t3[1];
    assert !(p0 <= t3) && !(p1 <= t3);
    assert prefixes[1] <= t1 && prefixes[0] <= t2;
    assert forall i :: 0 <= i < |prefixes| ==> !(prefixes[i] <= t3);
    assert t3 !in r.value;
    assert t1 in r.value && t2 in r.value;
    assert forall t :: t in r.value <==> t in [t1, t2];
    assert t1[0] < t2[0];
    assert StrictlySorted([t1, t2]);
    StrictlySortedUnique(r.value, [t1, t2]);
  }
}
