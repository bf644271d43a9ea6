/** String helpers the learner relies on: decimal rendering of feature
    numbers, Python's code-point ordering of strings, sorting a set of
    strings, and joining a list with a separator. */
module Text {

  /** The decimal digit character for `d`. */
  function DigitChar(d: nat): (c: char)
    requires d < 10
    ensures '0' <= c <= '9'
    ensures c as int == 48 + d
  {
    (48 + d) as char
  }

  /** Decimal rendering of a natural number, as Python formats an `int` in an f-string. */
  function NatToString(n: nat): (s: string)
    ensures |s| >= 1
    ensures forall i :: 0 <= i < |s| ==> '0' <= s[i] <= '9'
    ensures n < 10 <==> |s| == 1
    decreases n
  {
    if n < 10 then [DigitChar(n)] else NatToString(n / 10) + [DigitChar(n % 10)]
  }

  /** Different numbers have different decimal renderings. */
  lemma {:induction false} NatToStringInjective(m: nat, n: nat)
    requires NatToString(m) == NatToString(n)
    ensures m == n
    decreases m
  {
    var s, t := NatToString(m), NatToString(n);
    if m < 10 {
      assert s[0] == DigitChar(m) && t[0] == DigitChar(n);
    } else {
      var k := |s| - 1;
      assert s[..k] == NatToString(m / 10);
      assert t[..k] == NatToString(n / 10);
      NatToStringInjective(m / 10, n / 10);
      assert s[k] == DigitChar(m % 10) && t[k] == DigitChar(n % 10);
    }
  }

  /** Python's `<` on `str`: lexicographic by code point, a proper prefix first. */
  predicate Less(a: string, b: string)
    decreases |a|
  {
    if |a| == 0 then |b| > 0
    else |b| > 0 && (a[0] < b[0] || (a[0] == b[0] && Less(a[1..], b[1..])))
  }

  lemma {:induction false} LessIrreflexive(a: string)
    ensures !Less(a, a)
    decreases |a|
  {
    if |a| > 0 { LessIrreflexive(a[1..]); }
  }

  lemma {:induction false} LessAsymmetric(a: string, b: string)
    requires Less(a, b)
    ensures !Less(b, a)
    decreases |a|
  {
    if |a| > 0 && a[0] == b[0] { LessAsymmetric(a[1..], b[1..]); }
  }

  lemma {:induction false} LessTransitive(a: string, b: string, c: string)
    requires Less(a, b) && Less(b, c)
    ensures Less(a, c)
    decreases |a|
  {
    if |a| > 0 && a[0] == b[0] && b[0] == c[0] {
      LessTransitive(a[1..], b[1..], c[1..]);
    }
  }

  lemma {:induction false} LessTotal(a: string, b: string)
    requires a != b
    ensures Less(a, b) || Less(b, a)
    decreases |a|
  {
    if |a| > 0 && |b| > 0 && a[0] == b[0] {
      assert a == [a[0]] + a[1..] && b == [b[0]] + b[1..];
      LessTotal(a[1..], b[1..]);
    }
  }

  /** `m` is the smallest member of `s` in Python's string order. */
  predicate IsLeast(m: string, s: set<string>)
  {
    m in s && forall y :: y in s && y != m ==> Less(m, y)
  }

  lemma {:induction false} LeastExists(s: set<string>)
    requires s != {}
    ensures exists m :: IsLeast(m, s)
    decreases |s|
  {
    var x :| x in s;
    if s == {x} {
      assert IsLeast(x, s);
    } else {
      var rest := s - {x};
      LeastExists(rest);
      var m :| IsLeast(m, rest);
      if Less(m, x) {
        assert IsLeast(m, s);
      } else {
        LessTotal(m, x);
        forall y | y in s && y != x
          ensures Less(x, y)
        {
          if y != m { LessTransitive(x, m, y); }
        }
        assert IsLeast(x, s);
      }
    }
  }

  lemma LeastUnique(s: set<string>)
    ensures forall a, b :: IsLeast(a, s) && IsLeast(b, s) ==> a == b
  {
    forall a, b | IsLeast(a, s) && IsLeast(b, s)
      ensures a == b
    {
      if a != b { LessAsymmetric(a, b); }
    }
  }

  /** Every earlier element is smaller than every later one (so no duplicates). */
  predicate StrictlySorted(xs: seq<string>)
  {
    forall i, j :: 0 <= i < j < |xs| ==> Less(xs[i], xs[j])
  }

  /** Python's `sorted(s)` for a set of strings. */
  function SortedStrings(s: set<string>): (r: seq<string>)
    ensures |r| == |s|
    ensures forall x :: x in r <==> x in s
    ensures StrictlySorted(r)
    decreases |s|
  {
    if s == {} then []
    else
      LeastExists(s);
      LeastUnique(s);
      var m :| IsLeast(m, s);
      [m] + SortedStrings(s - {m})
  }

  /** A sorted list of distinct strings is determined by its members: there is
      exactly one way to list a set in ascending order. */
  lemma {:induction false} SortedStringsUnique(xs: seq<string>, s: set<string>)
    requires StrictlySorted(xs)
    requires forall x :: x in xs <==> x in s
    ensures xs == SortedStrings(s)
    decreases |xs|
  {
    if xs == [] {
      assert s == {};
    } else {
      var m := xs[0];
      assert IsLeast(m, s) by {
        forall y | y in s && y != m
          ensures Less(m, y)
        {
          var j :| 0 <= j < |xs| && xs[j] == y;
          assert j != 0;
        }
      }
      LeastUnique(s);
      var rest := xs[1..];
      forall x
        ensures x in rest <==> x in s - {m}
      {
        if x in rest {
          var j :| 0 <= j < |rest| && rest[j] == x;
          LessIrreflexive(m);
          assert Less(xs[0], xs[j + 1]);
        }
        if x in s - {m} {
          var j :| 0 <= j < |xs| && xs[j] == x;
          assert j != 0;
          assert rest[j - 1] == x;
        }
      }
      SortedStringsUnique(rest, s - {m});
      LeastExists(s);
      assert xs == [m] + rest;
    }
  }

  /** A list without repeated elements holds each of its members once. */
  lemma {:induction false} DistinctCountsOnce(xs: seq<string>, x: string)
    requires forall i, j :: 0 <= i < j < |xs| ==> xs[i] != xs[j]
    ensures multiset(xs)[x] == if x in xs then 1 else 0
    decreases |xs|
  {
    if xs != [] {
      var init := xs[..|xs| - 1];
      var last := xs[|xs| - 1];
      assert xs == init + [last];
      DistinctCountsOnce(init, x);
      if x == last {
        assert x !in init by {
          forall k | 0 <= k < |init|
            ensures init[k] != last
          {
            assert init[k] == xs[k];
          }
        }
      }
    }
  }

  /** A strictly sorted list repeats nothing. */
  lemma StrictlySortedDistinct(xs: seq<string>)
    requires StrictlySorted(xs)
    ensures forall i, j :: 0 <= i < j < |xs| ==> xs[i] != xs[j]
  {
    forall i, j | 0 <= i < j < |xs|
      ensures xs[i] != xs[j]
    {
      LessIrreflexive(xs[i]);
    }
  }

  /** Python's `sep.join(xs)`. */
  function Join(xs: seq<string>, sep: string): string
    decreases |xs|
  {
    if |xs| == 0 then "" else if |xs| == 1 then xs[0] else xs[0] + sep + Join(xs[1..], sep)
  }

  /** The text produced by `Join` ends with the last character of the last item. */
  lemma {:induction false} JoinLastChar(xs: seq<string>, sep: string)
    requires |xs| > 0 && |xs[|xs| - 1]| > 0
    ensures var j := Join(xs, sep); |j| > 0 && j[|j| - 1] == xs[|xs| - 1][|xs[|xs| - 1]| - 1]
    decreases |xs|
  {
    if |xs| > 1 { JoinLastChar(xs[1..], sep); }
  }

  predicate EndsWith(s: string, suffix: string)
  {
    |suffix| <= |s| && s[|s| - |suffix|..] == suffix
  }
}
