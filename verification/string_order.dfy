/**
 Python's ordering of `str` values (lexicographic by code point, a proper
 prefix sorting first) and `sorted()` over a set of strings.
 */
module StringOrder {

  /** Python `a < b` on strings. */
  predicate Less(a: string, b: string)
    decreases |a|
  {
    if |a| == 0 then |b| > 0
    else if |b| == 0 then false
    else a[0] < b[0] || (a[0] == b[0] && Less(a[1..], b[1..]))
  }

  lemma {:induction false} LessIrreflexive(a: string)
    ensures !Less(a, a)
    decreases |a|
  {
    if |a| > 0 {
      LessIrreflexive(a[1..]);
    }
  }

  lemma {:induction false} LessAsymmetric(a: string, b: string)
    requires Less(a, b)
    ensures !Less(b, a)
    decreases |a|
  {
    if |a| > 0 && |b| > 0 && a[0] == b[0] {
      LessAsymmetric(a[1..], b[1..]);
    }
  }

  lemma {:induction false} LessTransitive(a: string, b: string, c: string)
    requires Less(a, b) && Less(b, c)
    ensures Less(a, c)
    decreases |a|
  {
    if |a| > 0 && a[0] == b[0] && b[0] == c[0] {
      LessTransitive(a[1..], b[1..], c[1..]);
    }
  }

  /** Any two different strings are ordered one way or the other. */
  lemma {:induction false} LessTotal(a: string, b: string)
    requires a != b
    ensures Less(a, b) || Less(b, a)
    decreases |a|
  {
    if |a| > 0 && |b| > 0 && a[0] == b[0] {
      assert a == [a[0]] + a[1..] && b == [b[0]] + b[1..];
      LessTotal(a[1..], b[1..]);
    }
  }

  /** A proper prefix sorts before the string it starts. */
  lemma {:induction false} PrefixIsLess(a: string, b: string)
    requires a <= b && a != b
    ensures Less(a, b)
    decreases |a|
  {
    if |a| > 0 {
      assert a[1..] <= b[1..];
      PrefixIsLess(a[1..], b[1..]);
    }
  }

  /** Every element is strictly smaller than the next ones (sorted, no duplicates). */
  predicate StrictlySorted(s: seq<string>) {
    forall i, j :: 0 <= i < j < |s| ==> Less(s[i], s[j])
  }

  predicate Distinct<T(==)>(s: seq<T>) {
    forall i, j :: 0 <= i < j < |s| ==> s[i] != s[j]
  }

  lemma StrictlySortedDistinct(s: seq<string>)
    requires StrictlySorted(s)
    ensures Distinct(s)
  {
    forall i, j | 0 <= i < j < |s|
      ensures s[i] != s[j]
    {
      LessIrreflexive(s[i]);
    }
  }

  predicate IsLeast(m: string, s: set<string>) {
    m in s && forall y :: y in s && y != m ==> Less(m, y)
  }

  /** A non-empty finite set of strings has a least element. */
  lemma {:induction false} LeastExists(s: set<string>)
    requires s != {}
    ensures exists m :: IsLeast(m, s)
    decreases |s|
  {
    var x :| x in s;
    var rest := s - {x};
    if rest != {} {
      LeastExists(rest);
      var m :| IsLeast(m, rest);
      if Less(x, m) {
        forall y | y in s && y != x
          ensures Less(x, y)
        {
          if y != m {
            LessTransitive(x, m, y);
          }
        }
        assert IsLeast(x, s);
      } else {
        LessTotal(x, m);
        assert IsLeast(m, s);
      }
    } else {
      assert s == {x};
      assert IsLeast(x, s);
    }
  }

  /** The least element of a set is unique. */
  lemma LeastUnique(s: set<string>)
    ensures forall m, n :: IsLeast(m, s) && IsLeast(n, s) ==> m == n
  {
    forall m, n | IsLeast(m, s) && IsLeast(n, s)
      ensures m == n
    {
      if m != n {
        LessAsymmetric(m, n);
      }
    }
  }

  /** Python `sorted(s)` for a set of strings. */
  function SortedSeq(s: set<string>): (r: seq<string>)
    ensures StrictlySorted(r)
    ensures forall t :: t in r <==> t in s
    ensures |r| == |s|
    decreases |s|
  {
    if s == {} then []
    else
      LeastExists(s);
      LeastUnique(s);
      var m :| IsLeast(m, s);
      var rest := SortedSeq(s - {m});
      assert StrictlySorted([m] + rest) by {
        forall i, j | 0 <= i < j < |[m] + rest|
          ensures Less(([m] + rest)[i], ([m] + rest)[j])
        {
          assert ([m] + rest)[j] == rest[j - 1];
          if i > 0 {
            assert ([m] + rest)[i] == rest[i - 1];
          } else {
            assert rest[j - 1] in rest;
          }
        }
      }
      [m] + rest
  }

  /** A strictly sorted sequence is determined by its elements. */
  lemma {:induction false} StrictlySortedUnique(a: seq<string>, b: seq<string>)
    requires StrictlySorted(a) && StrictlySorted(b)
    requires forall t :: t in a <==> t in b
    ensures a == b
    decreases |a|
  {
    if |a| == 0 {
      assert a == [];
      assert forall i :: 0 <= i < |b| ==> b[i] in b;
    } else {
      assert a[0] in b;
      assert |b| > 0;
      if a[0] != b[0] {
        assert b[0] in a;
        var i :| 0 <= i < |a| && a[i] == b[0];
        var j :| 0 <= j < |b| && b[j] == a[0];
        assert i > 0 && j > 0;
        assert Less(a[0], b[0]) && Less(b[0], a[0]);
        LessAsymmetric(a[0], b[0]);
      }
      LessIrreflexive(a[0]);
      forall t
        ensures t in a[1..] <==> t in b[1..]
      {
        if t in a[1..] {
          var i :| 0 <= i < |a| - 1 && a[1..][i] == t;
          assert Less(a[0], a[i + 1]);
          assert t in a;
          assert t in b;
          var j :| 0 <= j < |b| && b[j] == t;
          assert j != 0;
          assert b[1..][j - 1] == t;
        }
        if t in b[1..] {
          var j :| 0 <= j < |b| - 1 && b[1..][j] == t;
          assert Less(b[0], b[j + 1]);
          assert t in b;
          assert t in a;
          var i :| 0 <= i < |a| && a[i] == t;
          assert i != 0;
          assert a[1..][i - 1] == t;
        }
      }
      StrictlySortedUnique(a[1..], b[1..]);
      assert a == [a[0]] + a[1..] && b == [b[0]] + b[1..];
    }
  }
}
