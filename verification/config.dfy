/**
 The pure part of the exporter's configuration: turning the `TOPIC_PREFIX`
 setting into the list of prefixes, and the scrape-interval bound.
 */
module Config {
  import opened Strings

  const PrefixSeparator: char := ';'

  /** The smallest scrape interval the settings loader accepts, in seconds. */
  const MinScrapeIntervalSeconds: int := 1

  predicate ValidScrapeInterval(seconds: int) {
    seconds >= MinScrapeIntervalSeconds
  }

  /** What one piece contributes: its stripped form, unless that is blank. */
  function Kept(piece: string): seq<string> {
    var p := Strip(piece);
    if p == "" then [] else [p]
  }

  /** The concatenation of `f(x)` over `xs`, in order. */
  function FlatMap<T, U>(f: T -> seq<U>, xs: seq<T>): seq<U>
  {
    if |xs| == 0 then [] else f(xs[0]) + FlatMap(f, xs[1..])
  }

  lemma {:induction false} FlatMapConcat<T, U>(f: T -> seq<U>, a: seq<T>, b: seq<T>)
    ensures FlatMap(f, a + b) == FlatMap(f, a) + FlatMap(f, b)
    decreases |a|
  {
    if |a| > 0 {
      assert (a + b)[0] == a[0] && (a + b)[1..] == a[1..] + b;
      FlatMapConcat(f, a[1..], b);
    } else {
      assert a + b == b;
    }
  }

  /** `[p.strip() for p in pieces if p.strip()]`. */
  function StripNonBlank(pieces: seq<string>): seq<string>
  {
    FlatMap(Kept, pieces)
  }

  /** What every parsed prefix looks like: non-empty, without surrounding
      whitespace, and free of the separator. */
  predicate IsCleanPrefix(p: string) {
    p != "" && IsStripped(p) && PrefixSeparator !in p
  }

  /** The configured topic prefixes: the `;`-separated pieces of `raw`,
      stripped of surrounding whitespace, with blank pieces dropped. */
  function TopicPrefixes(raw: string): (r: seq<string>)
    ensures forall p :: p in r ==> IsCleanPrefix(p)
  {
    StripNonBlankProperties(Split(raw, PrefixSeparator));
    StripNonBlank(Split(raw, PrefixSeparator))
  }

  /** Every character of `x` occurs in `q`. */
  predicate CharsWithin(x: string, q: string) {
    forall c :: c in x ==> c in q
  }

  lemma {:induction false} StripNonBlankProperties(pieces: seq<string>)
    ensures forall p :: p in StripNonBlank(pieces) ==>
      p != "" && IsStripped(p) && exists q :: q in pieces && CharsWithin(p, q)
    decreases |pieces|
  {
    if |pieces| > 0 {
      StripNonBlankProperties(pieces[1..]);
      var r := StripNonBlank(pieces);
      assert r == Kept(pieces[0]) + StripNonBlank(pieces[1..]);
      forall x | x in r
        ensures x != "" && IsStripped(x) && exists q :: q in pieces && CharsWithin(x, q)
      {
        if x in StripNonBlank(pieces[1..]) {
          var q :| q in pieces[1..] && CharsWithin(x, q);
          assert q in pieces;
        } else {
          assert x in Kept(pieces[0]);
          assert x == Strip(pieces[0]);
          assert CharsWithin(x, pieces[0]);
          assert pieces[0] in pieces;
        }
      }
    }
  }

  lemma StripNonBlankConcat(a: seq<string>, b: seq<string>)
    ensures StripNonBlank(a + b) == StripNonBlank(a) + StripNonBlank(b)
  {
    FlatMapConcat(Kept, a, b);
  }

  /** Prefix order follows piece order: parsing `a;b` gives the prefixes of
      `a` followed by the prefixes of `b`. */
  lemma TopicPrefixesConcat(a: string, b: string)
    ensures TopicPrefixes(a + [PrefixSeparator] + b) == TopicPrefixes(a) + TopicPrefixes(b)
  {
    SplitConcat(a, PrefixSeparator, b);
    StripNonBlankConcat(Split(a, PrefixSeparator), Split(b, PrefixSeparator));
  }

  /** A value with no separator yields its stripped form, or nothing when blank. */
  lemma TopicPrefixesSingle(raw: string)
    requires PrefixSeparator !in raw
    ensures !AllSpace(raw) ==> TopicPrefixes(raw) == [Strip(raw)]
    ensures AllSpace(raw) ==> TopicPrefixes(raw) == []
  {
    assert Split(raw, PrefixSeparator) == [raw];
    assert [raw][1..] == [];
    assert StripNonBlank([raw]) == Kept(raw) + StripNonBlank([]);
  }

  /** A value made only of separators and whitespace (including "") yields no prefixes. */
  lemma {:induction false} TopicPrefixesBlank(raw: string)
    requires forall i :: 0 <= i < |raw| ==> raw[i] == PrefixSeparator || IsSpace(raw[i])
    ensures TopicPrefixes(raw) == []
  {
    var pieces := Split(raw, PrefixSeparator);
    BlankPieces(pieces, raw);
  }

  lemma {:induction false} BlankPieces(pieces: seq<string>, raw: string)
    requires forall p, c :: p in pieces && c in p ==> c in raw
    requires forall p :: p in pieces ==> PrefixSeparator !in p
    requires forall i :: 0 <= i < |raw| ==> raw[i] == PrefixSeparator || IsSpace(raw[i])
    ensures StripNonBlank(pieces) == []
    decreases |pieces|
  {
    if |pieces| > 0 {
      var p := pieces[0];
      assert p in pieces;
      forall i | 0 <= i < |p|
        ensures IsSpace(p[i])
      {
        assert p[i] in p;
        assert p[i] in raw;
      }
      BlankPieces(pieces[1..], raw);
    }
  }

  lemma OnePrefix(p: string)
    requires IsCleanPrefix(p)
    ensures TopicPrefixes(p) == [p]
  {
    assert !IsSpace(p[0]);
    assert !AllSpace(p);
    TopicPrefixesSingle(p);
    StripIdempotent(p);
  }

  lemma PrependPrefix(p: string, tail: string, raw: string)
    requires IsCleanPrefix(p)
    requires raw == p + [PrefixSeparator] + tail
    ensures TopicPrefixes(raw) == [p] + TopicPrefixes(tail)
  {
    TopicPrefixesConcat(p, tail);
    OnePrefix(p);
  }

  lemma RoundTripStep(ps: seq<string>)
    requires |ps| > 1 && IsCleanPrefix(ps[0])
    requires TopicPrefixes(Join(ps[1..], PrefixSeparator)) == ps[1..]
    ensures TopicPrefixes(Join(ps, PrefixSeparator)) == ps
  {
    var tail, whole := Join(ps[1..], PrefixSeparator), Join(ps, PrefixSeparator);
    assert whole == ps[0] + [PrefixSeparator] + tail by {
      JoinCons(ps, PrefixSeparator);
    }
    assert TopicPrefixes(whole) == [ps[0]] + ps[1..] by {
      PrependPrefix(ps[0], tail, whole);
    }
    assert [ps[0]] + ps[1..] == ps;
  }

  /** Round trip: joining prefixes that are non-empty, stripped and free of
      `;` with `;` and parsing the result gives the same prefixes back. */
  lemma {:induction false} TopicPrefixesRoundTrip(ps: seq<string>)
    requires forall i :: 0 <= i < |ps| ==> IsCleanPrefix(ps[i])
    ensures TopicPrefixes(Join(ps, PrefixSeparator)) == ps
    decreases |ps|
  {
    if |ps| == 0 {
      TopicPrefixesBlank("");
    } else if |ps| == 1 {
      assert IsCleanPrefix(ps[0]);
      OnePrefix(ps[0]);
    } else {
      assert forall i :: 0 <= i < |ps[1..]| ==> ps[1..][i] == ps[i + 1];
      TopicPrefixesRoundTrip(ps[1..]);
      assert IsCleanPrefix(ps[0]);
      RoundTripStep(ps);
    }
  }

  /** The value used by the integration test configuration. */
  lemma TestPrefixes()
    ensures TopicPrefixes("some-prefix-;one-table") == ["some-prefix-", "one-table"]
  {
    var a, b := "some-prefix-", "one-table";
    CleanLiterals(a, b);
    PrependPrefix(a, b, "some-prefix-;one-table");
    OnePrefix(b);
  }

  lemma CleanLiterals(a: string, b: string)
    requires a == "some-prefix-" && b == "one-table"
    ensures IsCleanPrefix(a) && IsCleanPrefix(b)
  {
    assert !IsSpace(a[0]) && !IsSpace(a[|a| - 1]);
    assert !IsSpace(b[0]) && !IsSpace(b[|b| - 1]);
    assert forall i :: 0 <= i < |a| ==> a[i] != PrefixSeparator;
    assert forall i :: 0 <= i < |b| ==> b[i] != PrefixSeparator;
  }
}
