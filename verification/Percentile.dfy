/** The load probe's latency percentile: sort, then take the element at the nearest rank. */
module Percentile {
  import opened Wrappers
  import opened Sequences

  /** Elements not above, and below, a value. */
  function AtMost(values: seq<real>, x: real): nat {
    if values == [] then 0 else AtMost(values[1..], x) + (if values[0] <= x then 1 else 0)
  }

  function Below(values: seq<real>, x: real): nat {
    if values == [] then 0 else Below(values[1..], x) + (if values[0] < x then 1 else 0)
  }

  predicate Sorted(s: seq<real>) {
    forall i, k :: 0 <= i < k < |s| ==> s[i] <= s[k]
  }

  function InsertSorted(x: real, s: seq<real>): (r: seq<real>)
    requires Sorted(s)
    ensures Sorted(r) && multiset(r) == multiset(s) + multiset{x}
  {
    if s == [] then [x]
    else if x <= s[0] then [x] + s
    else
      assert s == [s[0]] + s[1..];
      var rest := InsertSorted(x, s[1..]);
      HeadIsLeast(s, x, rest);
      [s[0]] + rest
  }

  lemma {:induction false} HeadIsLeast(s: seq<real>, x: real, rest: seq<real>)
    requires s != [] && Sorted(s) && s[0] <= x && multiset(rest) == multiset(s[1..]) + multiset{x}
    ensures forall i :: 0 <= i < |rest| ==> s[0] <= rest[i]
  {
    forall i | 0 <= i < |rest| ensures s[0] <= rest[i] {
      assert rest[i] in multiset(rest);
      assert rest[i] in s[1..] || rest[i] == x;
    }
  }

  function Sort(values: seq<real>): (r: seq<real>)
    ensures Sorted(r) && multiset(r) == multiset(values)
    ensures |r| == |values|
  {
    if values == [] then []
    else
      assert values == [values[0]] + values[1..];
      var r := InsertSorted(values[0], Sort(values[1..]));
      assert |multiset(r)| == |multiset(values)|;
      r
  }

  function Ceil(x: real): int {
    -((-x).Floor)
  }

  /** `max(0, ceil(n * fraction) - 1)`. */
  function Rank(n: nat, fraction: real): nat {
    var k := Ceil(n as real * fraction) - 1;
    if k < 0 then 0 else k
  }

  /** `percentile`; None is the IndexError of a rank past the end. */
  function Percentile(values: seq<real>, fraction: real): Option<real> {
    if values == [] then Some(0.0)
    else if Rank(|values|, fraction) < |values| then Some(Sort(values)[Rank(|values|, fraction)])
    else None
  }

  /** It raises exactly for fractions above one, and never on an empty list. */
  lemma {:induction false} PercentileRaisesIff(values: seq<real>, fraction: real)
    ensures Percentile(values, fraction).None? <==> values != [] && fraction > 1.0
  {
    if values != [] {
      RankInRangeIff(|values|, fraction);
    }
  }

  /** The ends of the range: no latencies give 0.0, and a fraction that is not positive gives the least one. */
  lemma {:induction false} PercentileAtTheEnds(values: seq<real>, fraction: real)
    ensures values == [] ==> Percentile(values, fraction) == Some(0.0)
    ensures values != [] && fraction <= 0.0 ==>
              && Percentile(values, fraction).Some?
              && Percentile(values, fraction).value in values
              && forall v :: v in values ==> Percentile(values, fraction).value <= v
  {
    if values != [] && fraction <= 0.0 {
      var s := Sort(values);
      RankOfLow(|values|, fraction);
      assert s[0] in multiset(s);
      forall v | v in values ensures s[0] <= v {
        assert v in multiset(values);
        assert v in s;
      }
    }
  }

  lemma RankOfLow(n: nat, fraction: real)
    requires fraction <= 0.0
    ensures Rank(n, fraction) == 0
  {
    assert n as real * fraction <= 0.0;
  }

  lemma {:induction false} RankInRangeIff(n: nat, fraction: real)
    requires n > 0
    ensures Rank(n, fraction) < n <==> fraction <= 1.0
  {
    if fraction > 1.0 {
      ScaledPast(n as real, fraction);
    } else {
      RankInRange(n, fraction);
    }
  }

  lemma ScaledPast(n: real, fraction: real)
    requires n > 0.0 && fraction > 1.0
    ensures n * fraction > n
  {
    assert n * fraction == n + n * (fraction - 1.0);
    assert n * (fraction - 1.0) > 0.0;
  }

  lemma {:induction false} RankInRange(n: nat, fraction: real)
    requires n > 0 && fraction <= 1.0
    ensures Rank(n, fraction) < n
    ensures 0.0 < fraction ==>
              Rank(n, fraction) as real < n as real * fraction <= Rank(n, fraction) as real + 1.0
  {
    var x := n as real * fraction;
    assert x <= n as real;
    assert fraction > 0.0 ==> x > 0.0;
  }

  // ---- Counting does not depend on order ---------------------------------------------------------------

  lemma {:induction false} CountsOfConcat(a: seq<real>, b: seq<real>, x: real)
    ensures AtMost(a + b, x) == AtMost(a, x) + AtMost(b, x) && Below(a + b, x) == Below(a, x) + Below(b, x)
  {
    if a == [] {
      assert a + b == b;
    } else {
      assert (a + b)[1..] == a[1..] + b;
      CountsOfConcat(a[1..], b, x);
    }
  }

  lemma {:induction false} CountsOfSame(a: seq<real>, b: seq<real>, x: real)
    requires multiset(a) == multiset(b)
    ensures AtMost(a, x) == AtMost(b, x) && Below(a, x) == Below(b, x)
    decreases |a|
  {
    if a == [] {
      assert |multiset(b)| == 0;
    } else {
      assert a[0] in multiset(b);
      var k :| 0 <= k < |b| && b[k] == a[0];
      TakeOut(a, b, k);
      CountsOfSame(a[1..], b[..k] + b[k + 1..], x);
      CountsOfConcat(b[..k], b[k + 1..], x);
      CountsOfConcat(b[..k], b[k..], x);
      assert b == b[..k] + b[k..] && b[k..][1..] == b[k + 1..];
    }
  }

  lemma {:induction false} RemoveAt(s: seq<real>, k: nat)
    requires k < |s|
    ensures multiset(s[..k] + s[k + 1..]) == multiset(s) - multiset{s[k]}
  {
    assert s == s[..k] + ([s[k]] + s[k + 1..]);
    assert multiset(s) == multiset(s[..k]) + multiset([s[k]] + s[k + 1..]);
    assert multiset([s[k]] + s[k + 1..]) == multiset{s[k]} + multiset(s[k + 1..]);
  }

  lemma {:induction false} TakeOut(a: seq<real>, b: seq<real>, k: nat)
    requires a != [] && k < |b| && b[k] == a[0] && multiset(a) == multiset(b)
    ensures multiset(a[1..]) == multiset(b[..k] + b[k + 1..])
  {
    RemoveAt(b, k);
    TailOf(a);
  }

  // ---- Order statistics --------------------------------------------------------------------------------

  lemma {:induction false} AllAtMost(s: seq<real>, x: real)
    requires forall i :: 0 <= i < |s| ==> s[i] <= x
    ensures AtMost(s, x) == |s|
  {
    if s != [] {
      AllAtMost(s[1..], x);
    }
  }

  lemma {:induction false} NoneBelow(s: seq<real>, x: real)
    requires forall i :: 0 <= i < |s| ==> x <= s[i]
    ensures Below(s, x) == 0
  {
    if s != [] {
      NoneBelow(s[1..], x);
    }
  }

  lemma {:induction false} BelowAtMostAll(s: seq<real>, x: real)
    ensures Below(s, x) <= |s|
  {
    if s != [] {
      BelowAtMostAll(s[1..], x);
    }
  }

  lemma {:induction false} SortedAtMost(s: seq<real>, k: nat)
    requires Sorted(s) && k < |s|
    ensures AtMost(s, s[k]) >= k + 1
  {
    assert s == s[..k + 1] + s[k + 1..];
    CountsOfConcat(s[..k + 1], s[k + 1..], s[k]);
    AllAtMost(s[..k + 1], s[k]);
  }

  lemma {:induction false} SortedBelow(s: seq<real>, k: nat)
    requires Sorted(s) && k < |s|
    ensures Below(s, s[k]) <= k
  {
    assert s == s[..k] + s[k..];
    CountsOfConcat(s[..k], s[k..], s[k]);
    BelowAtMostAll(s[..k], s[k]);
    NoneBelow(s[k..], s[k]);
  }

  /** In sorted order, at least k + 1 elements are not above the one at k, and at most k are below it. */
  lemma {:induction false} SortedRank(s: seq<real>, k: nat)
    requires Sorted(s) && k < |s|
    ensures AtMost(s, s[k]) >= k + 1 && Below(s, s[k]) <= k
  {
    SortedAtMost(s, k);
    SortedBelow(s, k);
  }

  /** What a percentile is: an element with at least f·n values not above it and fewer than f·n below it. */
  ghost predicate IsPercentile(values: seq<real>, f: real, r: real) {
    r in values && Reaches(AtMost(values, r), f, |values|) && !Reaches(Below(values, r), f, |values|)
  }

  /** `k` of `n` elements are at least the fraction `f` of them. */
  predicate Reaches(k: nat, f: real, n: nat) {
    n as real * f <= k as real
  }

  lemma {:induction false} MoreReaches(k: nat, m: nat, f: real, g: real, n: nat)
    requires f <= g && k <= m && Reaches(k, g, n)
    ensures Reaches(m, f, n)
  {
    assert n as real * (g - f) >= 0.0;
    assert n as real * g == n as real * f + n as real * (g - f);
  }

  lemma {:induction false} PercentileIsCorrect(values: seq<real>, f: real)
    requires values != [] && 0.0 < f <= 1.0
    ensures Percentile(values, f).Some? && IsPercentile(values, f, Percentile(values, f).value)
  {
    RankInRange(|values|, f);
    RankedIsPercentile(values, Sort(values), Rank(|values|, f), f);
  }

  lemma {:induction false} RankedIsPercentile(values: seq<real>, s: seq<real>, k: nat, f: real)
    requires Sorted(s) && multiset(s) == multiset(values) && k < |s| == |values|
    requires Reaches(k + 1, f, |values|) && !Reaches(k, f, |values|)
    ensures IsPercentile(values, f, s[k])
  {
    CountsAround(values, s, k);
    StillReaches(k + 1, AtMost(values, s[k]), f, |values|);
    StillReaches(Below(values, s[k]), k, f, |values|);
    assert s[k] in multiset(s);
  }

  lemma {:induction false} CountsAround(values: seq<real>, s: seq<real>, k: nat)
    requires Sorted(s) && multiset(s) == multiset(values) && k < |s|
    ensures AtMost(values, s[k]) >= k + 1 && Below(values, s[k]) <= k
  {
    SortedRank(s, k);
    CountsOfSame(s, values, s[k]);
  }

  lemma {:induction false} StillReaches(k: nat, m: nat, f: real, n: nat)
    requires k <= m
    ensures Reaches(k, f, n) ==> Reaches(m, f, n)
  {
  }

  lemma {:induction false} BelowVersusAtMost(values: seq<real>, x: real, y: real)
    requires x < y
    ensures AtMost(values, x) <= Below(values, y)
  {
    if values != [] {
      BelowVersusAtMost(values[1..], x, y);
    }
  }

  /** A larger fraction has no smaller percentile, whichever two values have the defining property. */
  lemma {:induction false} PercentilesAreOrdered(values: seq<real>, f: real, g: real, r: real, q: real)
    requires f <= g && IsPercentile(values, f, r) && IsPercentile(values, g, q)
    ensures r <= q
  {
    if q < r {
      BelowVersusAtMost(values, q, r);
      MoreReaches(AtMost(values, q), Below(values, r), f, g, |values|);
    }
  }

  /** The defining property determines the percentile, so the code computes it and nothing else. */
  lemma {:induction false} PercentileIsUnique(values: seq<real>, f: real, r: real)
    requires values != [] && 0.0 < f <= 1.0
    ensures IsPercentile(values, f, r) <==> Percentile(values, f) == Some(r)
  {
    PercentileIsCorrect(values, f);
    SameForBoth(values, f, r, Percentile(values, f).value);
  }

  lemma {:induction false} SameForBoth(values: seq<real>, f: real, r: real, q: real)
    requires IsPercentile(values, f, q)
    ensures IsPercentile(values, f, r) <==> r == q
  {
    if IsPercentile(values, f, r) {
      PercentilesAreOrdered(values, f, f, r, q);
      PercentilesAreOrdered(values, f, f, q, r);
    }
  }

  lemma {:induction false} PercentileIsMonotone(values: seq<real>, f: real, g: real)
    requires values != [] && 0.0 < f <= g <= 1.0
    ensures Percentile(values, f).Some? && Percentile(values, g).Some?
    ensures Percentile(values, f).value <= Percentile(values, g).value
  {
    PercentileIsCorrect(values, f);
    PercentileIsCorrect(values, g);
    PercentilesAreOrdered(values, f, g, Percentile(values, f).value, Percentile(values, g).value);
  }

  lemma {:induction false} PercentileIgnoresOrder(values: seq<real>, other: seq<real>, f: real)
    requires multiset(values) == multiset(other) && values != [] && 0.0 < f <= 1.0
    ensures other != [] && Percentile(values, f) == Percentile(other, f)
  {
    assert |multiset(values)| == |multiset(other)|;
    PercentileIsCorrect(other, f);
    SamePercentiles(other, values, f, Percentile(other, f).value);
    PercentileIsUnique(values, f, Percentile(other, f).value);
  }

  lemma {:induction false} SamePercentiles(a: seq<real>, b: seq<real>, f: real, r: real)
    requires multiset(a) == multiset(b) && IsPercentile(a, f, r)
    ensures IsPercentile(b, f, r)
  {
    assert |multiset(a)| == |multiset(b)|;
    CountsOfSame(a, b, r);
    assert r in multiset(b);
    assert |a| == |b|;
  }
}
