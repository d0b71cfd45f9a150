/**
 String helpers with Python semantics: `str.isspace`, `str.strip` and
 `str.split` on a single-character separator, plus the matching `join`.
 */
module Strings {

  /** The characters for which Python's `str.isspace()` holds: the ASCII
      controls TAB..CR and FS..US, SPACE, NEL, NO-BREAK SPACE and the Unicode
      space separators and line/paragraph separators. */
  predicate IsSpace(c: char) {
    || ('\t' <= c <= '\r')
    || ('\U{1C}' <= c <= ' ')
    || c == '\U{85}' || c == '\U{A0}' || c == '\U{1680}'
    || ('\U{2000}' <= c <= '\U{200A}')
    || c == '\U{2028}' || c == '\U{2029}' || c == '\U{202F}'
    || c == '\U{205F}' || c == '\U{3000}'
  }

  predicate AllSpace(s: string) {
    forall i :: 0 <= i < |s| ==> IsSpace(s[i])
  }

  /** Neither the first nor the last character is whitespace. */
  predicate IsStripped(s: string) {
    |s| > 0 ==> !IsSpace(s[0]) && !IsSpace(s[|s| - 1])
  }

  /** Python `s.lstrip()`. */
  function TrimLeft(s: string): (r: string)
    ensures |r| <= |s|
    ensures forall i :: 0 <= i < |r| ==> r[i] == s[|s| - |r| + i]
    ensures forall i :: 0 <= i < |s| - |r| ==> IsSpace(s[i])
    ensures |r| > 0 ==> !IsSpace(r[0])
    decreases |s|
  {
    if |s| > 0 && IsSpace(s[0]) then TrimLeft(s[1..]) else s
  }

  /** Python `s.rstrip()`. */
  function TrimRight(s: string): (r: string)
    ensures |r| <= |s|
    ensures forall i :: 0 <= i < |r| ==> r[i] == s[i]
    ensures forall i :: |r| <= i < |s| ==> IsSpace(s[i])
    ensures |r| > 0 ==> !IsSpace(r[|r| - 1])
    decreases |s|
  {
    if |s| > 0 && IsSpace(s[|s| - 1]) then TrimRight(s[..|s| - 1]) else s
  }

  /** Python `s.strip()`: the result is a piece of `s` with no whitespace at
      either end, and it is empty exactly when `s` is all whitespace. */
  function Strip(s: string): (r: string)
    ensures IsStripped(r)
    ensures forall c :: c in r ==> c in s
    ensures r == "" <==> AllSpace(s)
  {
    TrimBothStripped(s);
    TrimBothWithin(s);
    TrimBothEmpty(s);
    TrimRight(TrimLeft(s))
  }

  lemma TrimBothStripped(s: string)
    ensures IsStripped(TrimRight(TrimLeft(s)))
  {
    var l := TrimLeft(s);
    var r := TrimRight(l);
    if |r| > 0 {
      assert r[0] == l[0];
    }
  }

  lemma TrimBothWithin(s: string)
    ensures forall c :: c in TrimRight(TrimLeft(s)) ==> c in s
  {
    TrimLeftWithin(s);
    TrimRightWithin(TrimLeft(s));
  }

  lemma {:induction false} TrimLeftWithin(s: string)
    ensures forall c :: c in TrimLeft(s) ==> c in s
    decreases |s|
  {
    if |s| > 0 && IsSpace(s[0]) {
      TrimLeftWithin(s[1..]);
      assert forall c :: c in s[1..] ==> c in s;
    }
  }

  lemma {:induction false} TrimRightWithin(s: string)
    ensures forall c :: c in TrimRight(s) ==> c in s
    decreases |s|
  {
    if |s| > 0 && IsSpace(s[|s| - 1]) {
      TrimRightWithin(s[..|s| - 1]);
      assert forall c :: c in s[..|s| - 1] ==> c in s;
    }
  }

  lemma TrimBothEmpty(s: string)
    ensures TrimRight(TrimLeft(s)) == "" <==> AllSpace(s)
  {
    var l := TrimLeft(s);
    var r := TrimRight(l);
    if r == "" {
      assert |l| == 0;
    } else {
      assert !IsSpace(r[0]) && r[0] == s[|s| - |l|];
    }
  }

  lemma {:induction false} TrimLeftPadding(w: string, x: string)
    requires AllSpace(w)
    requires |x| > 0 ==> !IsSpace(x[0])
    ensures TrimLeft(w + x) == x
    decreases |w|
  {
    if |w| > 0 {
      assert (w + x)[1..] == w[1..] + x;
      TrimLeftPadding(w[1..], x);
    } else {
      assert w + x == x;
    }
  }

  lemma {:induction false} TrimRightPadding(x: string, w: string)
    requires AllSpace(w)
    requires |x| > 0 ==> !IsSpace(x[|x| - 1])
    ensures TrimRight(x + w) == x
    decreases |w|
  {
    if |w| > 0 {
      assert (x + w)[..|x + w| - 1] == x + w[..|w| - 1];
      TrimRightPadding(x, w[..|w| - 1]);
    } else {
      assert x + w == x;
    }
  }

  /** Stripping removes exactly the whitespace padding around a stripped core:
      `(w1 + x + w2).strip() == x`. */
  lemma StripRemovesPadding(w1: string, x: string, w2: string)
    requires AllSpace(w1) && AllSpace(w2) && IsStripped(x)
    ensures Strip(w1 + x + w2) == x
  {
    if |x| == 0 {
      assert w1 + x + w2 == w1 + w2;
      assert AllSpace(w1 + w2);
    } else {
      assert w1 + x + w2 == w1 + (x + w2);
      TrimLeftPadding(w1, x + w2);
      TrimRightPadding(x, w2);
    }
  }

  /** Stripping an already stripped string leaves it unchanged. */
  lemma StripIdempotent(s: string)
    requires IsStripped(s)
    ensures Strip(s) == s
  {
    StripRemovesPadding("", s, "");
    assert "" + s + "" == s;
  }

  /** Python `s.split(sep)` for a one-character separator: the pieces between
      separators, always at least one (so `"".split(sep) == [""]`). */
  function Split(s: string, sep: char): (r: seq<string>)
    ensures |r| >= 1
    ensures forall p :: p in r ==> sep !in p
    ensures forall p, c :: p in r && c in p ==> c in s
    ensures sep !in s ==> r == [s]
    decreases |s|
  {
    if |s| == 0 then [""]
    else
      var rest := Split(s[1..], sep);
      if s[0] == sep then [""] + rest
      else
        assert s == [s[0]] + s[1..];
        [[s[0]] + rest[0]] + rest[1..]
  }

  /** Python `sep.join(ps)`. */
  function Join(ps: seq<string>, sep: char): string
  {
    if |ps| == 0 then ""
    else if |ps| == 1 then ps[0]
    else ps[0] + [sep] + Join(ps[1..], sep)
  }

  /** Splitting at a separator occurrence splits the pieces there. */
  lemma {:induction false} SplitAppend(a: string, sep: char, b: string)
    requires sep !in a
    ensures Split(a + [sep] + b, sep) == [a] + Split(b, sep)
    decreases |a|
  {
    var s := a + [sep] + b;
    if |a| == 0 {
      assert s[0] == sep && s[1..] == b;
    } else {
      assert s[0] == a[0] && s[1..] == a[1..] + [sep] + b;
      SplitAppend(a[1..], sep, b);
      assert [a[0]] + a[1..] == a;
    }
  }

  /** Splitting a concatenation at a separator concatenates the splits. */
  lemma {:induction false} SplitConcat(a: string, sep: char, b: string)
    ensures Split(a + [sep] + b, sep) == Split(a, sep) + Split(b, sep)
    decreases |a|
  {
    var s := a + [sep] + b;
    if |a| == 0 {
      assert s[0] == sep && s[1..] == b;
    } else {
      assert s[0] == a[0] && s[1..] == a[1..] + [sep] + b;
      SplitConcat(a[1..], sep, b);
    }
  }

  lemma JoinCons(ps: seq<string>, sep: char)
    requires |ps| > 1
    ensures Join(ps, sep) == ps[0] + [sep] + Join(ps[1..], sep)
  {
  }

  lemma JoinExtendHead(c: char, ps: seq<string>, sep: char)
    requires |ps| >= 1
    ensures Join([[c] + ps[0]] + ps[1..], sep) == [c] + Join(ps, sep)
  {
    var qs := [[c] + ps[0]] + ps[1..];
    if |ps| > 1 {
      assert qs[1..] == ps[1..];
    }
  }

  lemma JoinEmptyHead(ps: seq<string>, sep: char)
    requires |ps| >= 1
    ensures Join([""] + ps, sep) == [sep] + Join(ps, sep)
  {
    assert ([""] + ps)[1..] == ps;
  }

  /** `sep.join(s.split(sep)) == s`. */
  lemma {:induction false} JoinSplit(s: string, sep: char)
    ensures Join(Split(s, sep), sep) == s
    decreases |s|
  {
    if |s| > 0 {
      var rest := Split(s[1..], sep);
      JoinSplit(s[1..], sep);
      if s[0] == sep {
        JoinEmptyHead(rest, sep);
      } else {
        JoinExtendHead(s[0], rest, sep);
      }
      assert s == [s[0]] + s[1..];
    }
  }

  /** `sep.join(ps).split(sep) == ps` when no piece contains `sep`. */
  lemma {:induction false} SplitJoin(ps: seq<string>, sep: char)
    requires |ps| >= 1
    requires forall p :: p in ps ==> sep !in p
    ensures Split(Join(ps, sep), sep) == ps
    decreases |ps|
  {
    if |ps| > 1 {
      SplitJoin(ps[1..], sep);
      SplitAppend(ps[0], sep, Join(ps[1..], sep));
      assert ps == [ps[0]] + ps[1..];
    }
  }
}
