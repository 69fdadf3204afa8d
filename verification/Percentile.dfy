/** Nearest-rank percentiles of retained latencies (internal/application/decisions/log.go). */
module Percentile {
  import opened Ordering

  function AtMost(s: seq<real>, v: real): nat {
    if s == [] then 0 else AtMost(s[..|s| - 1], v) + if s[|s| - 1] <= v then 1 else 0
  }

  function Below(s: seq<real>, v: real): nat {
    if s == [] then 0 else Below(s[..|s| - 1], v) + if s[|s| - 1] < v then 1 else 0
  }

  function Ceil(x: real): int {
    -(-x).Floor
  }

  /** The rank a percentile asks for, counted from 1. */
  function Rank(n: nat, p: real): int {
    var k := Ceil(p * n as real);
    if k < 1 then 1 else k
  }

  predicate RealLeq(a: real, b: real) {
    a <= b
  }

  /** `percentile`: the smallest sample with at least `rank` samples at or below it. */
  method NearestRank(values: seq<real>, p: real) returns (v: real)
    requires 0.0 <= p <= 1.0
    ensures values == [] ==> v == 0.0
    ensures values != [] ==> v in values && AtMost(values, v) >= Rank(|values|, p) > Below(values, v)
    ensures values != [] ==> IsPercentile(values, p, v)
  {
    if |values| == 0 {
      return 0.0;
    }
    var sorted := SortedCopy(values);
    var rank := RankIndex(|sorted|, p);
    v := sorted[rank];
    RankedElement(sorted, values, rank);
    RankMeans(|values|, p, AtMost(values, v), Below(values, v));
  }

  /** At least the fraction p of the samples is at or below v, and less than that fraction, or none, is below v. */
  ghost predicate IsPercentile(values: seq<real>, p: real, v: real) {
    && AtMost(values, v) as real >= p * |values| as real
    && (Below(values, v) == 0 || (Below(values, v) as real) < p * |values| as real)
  }

  lemma RankMeans(n: nat, p: real, atMost: nat, below: nat)
    requires atMost >= Rank(n, p) > below
    ensures atMost as real >= p * n as real
    ensures below == 0 || (below as real) < p * n as real
  {
    var x := p * n as real;
    assert (Ceil(x) as real) >= x && (Ceil(x) as real) < x + 1.0;
  }

  method RankIndex(n: nat, p: real) returns (rank: nat)
    requires n > 0 && 0.0 <= p <= 1.0
    ensures rank + 1 == Rank(n, p) && rank < n
  {
    RankInRange(n, p);
    var k := Ceil(p * n as real) - 1;
    if k < 0 {
      k := 0;
    }
    return k;
  }

  function SortedCopy(values: seq<real>): (s: seq<real>)
    ensures SortedBy(s, RealLeq) && multiset(s) == multiset(values) && |s| == |values|
  {
    assert TotalPreorder(RealLeq);
    var s := SortBy(values, RealLeq);
    assert |multiset(s)| == |multiset(values)|;
    s
  }

  lemma RankedElement(sorted: seq<real>, values: seq<real>, k: nat)
    requires SortedBy(sorted, RealLeq) && multiset(sorted) == multiset(values) && k < |sorted|
    ensures sorted[k] in values && AtMost(values, sorted[k]) >= k + 1 > Below(values, sorted[k])
  {
    assert sorted[k] in multiset(values);
    SortedCounts(sorted, k);
    SameCounts(sorted, values, sorted[k]);
  }

  lemma RankInRange(n: nat, p: real)
    requires n > 0 && 0.0 <= p <= 1.0
    ensures 1 <= Rank(n, p) <= n
  {
    assert 0.0 <= p * n as real <= n as real;
  }

  lemma {:induction false} SortedCounts(s: seq<real>, k: nat)
    requires SortedBy(s, RealLeq) && k < |s|
    ensures AtMost(s, s[k]) >= k + 1 && Below(s, s[k]) <= k
  {
    var n := |s| - 1;
    if k < n {
      assert RealLeq(s[k], s[n]);
      SortedCounts(s[..n], k);
    } else {
      NoneAbove(s, s[k]);
    }
  }

  lemma {:induction false} NoneAbove(s: seq<real>, v: real)
    requires forall i :: 0 <= i < |s| ==> RealLeq(s[i], v)
    ensures AtMost(s, v) == |s| && Below(s, v) <= |s|
    ensures s != [] && s[|s| - 1] == v ==> Below(s, v) <= |s| - 1
  {
    if s != [] {
      NoneAbove(s[..|s| - 1], v);
    }
  }

  lemma {:induction false} CountConcat(a: seq<real>, b: seq<real>, v: real)
    ensures AtMost(a + b, v) == AtMost(a, v) + AtMost(b, v)
    ensures Below(a + b, v) == Below(a, v) + Below(b, v)
  {
    if b == [] {
      assert a + b == a;
    } else {
      CountConcat(a, b[..|b| - 1], v);
      assert (a + b)[..|a + b| - 1] == a + b[..|b| - 1];
    }
  }

  lemma {:induction false} SameCounts(a: seq<real>, b: seq<real>, v: real)
    requires multiset(a) == multiset(b)
    ensures AtMost(a, v) == AtMost(b, v) && Below(a, v) == Below(b, v)
    decreases |a|
  {
    assert |multiset(a)| == |multiset(b)|;
    if a != [] {
      var x := a[|a| - 1];
      assert x in multiset(b);
      var j :| 0 <= j < |b| && b[j] == x;
      var rest := b[..j] + b[j + 1..];
      assert b == b[..j] + ([x] + b[j + 1..]);
      assert multiset(rest) == multiset(b) - multiset{x};
      MultisetInit(a);
      SameCounts(a[..|a| - 1], rest, v);
      CountConcat(b[..j], [x] + b[j + 1..], v);
      CountConcat([x], b[j + 1..], v);
      CountConcat(b[..j], b[j + 1..], v);
    }
  }
}
