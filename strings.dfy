/** Python's string operations used by the collector's storage scheme:
    the `<` order on `str` (which `max` uses), prefix and suffix tests,
    and `s.split(c)[0]`. */
module Strings {

  /** `a < b` on Python strings: code-point lexicographic order, in which a
      proper prefix sorts before the longer string. */
  predicate Below(a: string, b: string)
    ensures Below(a, b) ==> a != b
    ensures a < b ==> Below(a, b)
    decreases |a|
  {
    if |a| == 0 then |b| > 0
    else if |b| == 0 then false
    else if a[0] != b[0] then a[0] < b[0]
    else Below(a[1..], b[1..])
  }

  /** `s.endswith(suffix)` */
  predicate EndsWith(s: string, suffix: string)
    ensures EndsWith(s, suffix) ==> |suffix| <= |s| && s == s[..|s| - |suffix|] + suffix
  {
    |suffix| <= |s| && s[|s| - |suffix|..] == suffix
  }

  /** `s.split(c)[0]`: the text before the first `c`, or all of `s` when `c`
      does not occur in it. */
  function Before(s: string, c: char): (r: string)
    ensures r <= s
    ensures c !in r
    ensures r == s || (|r| < |s| && s[|r|] == c)
  {
    if s == [] then []
    else if s[0] == c then []
    else [s[0]] + Before(s[1..], c)
  }

  lemma {:induction false} BelowIrreflexive(a: string)
    ensures !Below(a, a)
    decreases |a|
  {
    if |a| > 0 {
      BelowIrreflexive(a[1..]);
    }
  }

  lemma {:induction false} BelowAsymmetric(a: string, b: string)
    requires Below(a, b)
    ensures !Below(b, a)
    decreases |a|
  {
    if |a| > 0 && |b| > 0 && a[0] == b[0] {
      BelowAsymmetric(a[1..], b[1..]);
    }
  }

  lemma {:induction false} BelowTransitive(a: string, b: string, c: string)
    requires Below(a, b) && Below(b, c)
    ensures Below(a, c)
    decreases |a|
  {
    if |a| > 0 && |b| > 0 && |c| > 0 && a[0] == b[0] && b[0] == c[0] {
      BelowTransitive(a[1..], b[1..], c[1..]);
    }
  }

  lemma {:induction false} BelowTotal(a: string, b: string)
    requires a != b
    ensures Below(a, b) || Below(b, a)
    decreases |a|
  {
    if |a| > 0 && |b| > 0 && a[0] == b[0] {
      assert a == [a[0]] + a[1..] && b == [b[0]] + b[1..];
      BelowTotal(a[1..], b[1..]);
    }
  }

  /** Two strings of the same width followed by anything compare on the
      fixed-width part first and only on a tie look at what follows. This is
      what makes fixed-width fields sort like the tuples they encode. */
  lemma {:induction false} BelowFixedWidth(a: string, b: string, c: string, d: string)
    requires |a| == |b|
    ensures Below(a + c, b + d) <==> Below(a, b) || (a == b && Below(c, d))
    decreases |a|
  {
    if |a| == 0 {
      assert a + c == c && b + d == d;
    } else {
      assert (a + c)[0] == a[0] && (b + d)[0] == b[0];
      assert (a + c)[1..] == a[1..] + c && (b + d)[1..] == b[1..] + d;
      assert a == [a[0]] + a[1..] && b == [b[0]] + b[1..];
      BelowFixedWidth(a[1..], b[1..], c, d);
    }
  }

  /** Equal-width heads of equal strings are equal, and so are their tails. */
  lemma ConcatSplit(a: string, b: string, c: string, d: string)
    requires |a| == |b|
    ensures a + c == b + d <==> a == b && c == d
  {
    if a + c == b + d {
      assert a == (a + c)[..|a|] && b == (b + d)[..|b|];
      assert c == (a + c)[|a|..] && d == (b + d)[|b|..];
    }
  }

  /** Whatever follows a `c`, the text before the first `c` of `head + [c]
      + tail` is that of `head`: `split("_")[0]` never looks past the first
      underscore. */
  lemma {:induction false} BeforeJoined(head: string, c: char, tail: string)
    ensures Before(head + [c] + tail, c) == Before(head, c)
    decreases |head|
  {
    var s := head + [c] + tail;
    if head == [] {
      assert s[0] == c;
    } else if head[0] != c {
      assert s[0] == head[0];
      assert s[1..] == head[1..] + [c] + tail;
      BeforeJoined(head[1..], c, tail);
    }
  }
}
