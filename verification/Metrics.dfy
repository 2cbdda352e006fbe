/** The nearest-rank percentile: `assert_metric` of `xtask/src/metrics.rs`. */
module Metrics {
  import opened Prelude
  import Sorting

  datatype Assertion = Assertion(minimumSamples: nat, maximumP95: u64)

  datatype MetricError = MissingSamples(actual: nat, minimum: nat) | Threshold(p95: u64, maximum: u64)

  datatype Metric = Metric(p95: u64, samples: nat)

  function Ascending(): (u64, u64) -> bool {
    (a: u64, b: u64) => a < b
  }

  function AtMost(v: int): u64 -> bool {
    (x: u64) => x <= v
  }

  /** `v` covers 95 in 100 of the samples. */
  predicate Covers(samples: seq<u64>, v: int) {
    100 * Sorting.Count(samples, AtMost(v)) >= 95 * |samples|
  }

  /** The least value that covers 95 in 100 of the samples. */
  ghost predicate IsP95(samples: seq<u64>, v: u64) {
    v in samples && Covers(samples, v) && forall w: int :: w < v ==> !Covers(samples, w)
  }

  /** `usize::div_ceil`. */
  function DivCeil(a: nat, b: nat): nat
    requires b > 0
  {
    (a + b - 1) / b
  }

  /** In sorted samples, those at most the one at `k` include all up to it, and those at most
      anything smaller all lie before it. */
  lemma {:induction false} CountSorted(s: seq<u64>, k: nat, v: int)
    requires Sorting.IsSorted(s, Ascending()) && k < |s|
    ensures v >= s[k] ==> Sorting.Count(s, AtMost(v)) >= k + 1
    ensures v < s[k] ==> Sorting.Count(s, AtMost(v)) <= k
  {
    if k > 0 {
      CountSorted(s[1..], k - 1, v);
      assert !Ascending()(s[k], s[0]);
    } else if v < s[0] {
      forall i | 0 <= i < |s| ensures s[i] > v {
        assert i > 0 ==> !Ascending()(s[i], s[0]);
      }
      CountNone(s, v);
    }
  }

  lemma {:induction false} CountNone(s: seq<u64>, v: int)
    requires forall i :: 0 <= i < |s| ==> s[i] > v
    ensures Sorting.Count(s, AtMost(v)) == 0
  {
    if s != [] {
      CountNone(s[1..], v);
    }
  }

  /** The rank is the least number of samples that makes 95 in 100 of them. */
  lemma RankIsLeast(n: nat, c: nat)
    requires n > 0
    ensures 0 < DivCeil(95 * n, 100) <= n
    ensures 100 * c >= 95 * n <==> c >= DivCeil(95 * n, 100)
  {
  }

  lemma NearestRank(samples: seq<u64>)
    requires samples != []
    ensures var rank := DivCeil(95 * |samples|, 100);
            0 < rank <= |samples| && IsP95(samples, Sorting.Sort(samples, Ascending())[rank - 1])
  {
    var (sorted, rank) := (Sorting.Sort(samples, Ascending()), DivCeil(95 * |samples|, 100));
    RankIsLeast(|samples|, 0);
    var v := sorted[rank - 1];
    Sorting.SortSorts(samples, Ascending());
    Sorting.SortPermutes(samples, Ascending());
    assert v in multiset(sorted) && v in multiset(samples);
    forall w: int ensures Covers(samples, w) <==> w >= v {
      CountSorted(sorted, rank - 1, w);
      Sorting.CountPermutes(sorted, samples, AtMost(w));
      RankIsLeast(|samples|, Sorting.Count(samples, AtMost(w)));
    }
  }

  lemma P95IsUnique(a: seq<u64>, b: seq<u64>, v: u64, w: u64)
    requires multiset(a) == multiset(b) && IsP95(a, v) && IsP95(b, w)
    ensures v == w
  {
    Sorting.CountPermutes(a, b, AtMost(v));
    Sorting.CountPermutes(a, b, AtMost(w));
    assert |multiset(a)| == |multiset(b)|;
    assert Covers(b, v) && Covers(a, w);
  }

  /** `assert_metric`: it reports the 95th percentile of enough samples, when that is low enough. */
  method AssertMetric(samples: seq<u64>, assertion: Assertion) returns (r: Result<Metric, MetricError>)
    ensures (r.Err? && r.error.MissingSamples?) <==> |samples| < assertion.minimumSamples || samples == []
    ensures r.Ok? ==> r.value.samples == |samples| && IsP95(samples, r.value.p95) && r.value.p95 <= assertion.maximumP95
    ensures r.Err? && r.error.Threshold? ==> IsP95(samples, r.error.p95) && r.error.p95 > assertion.maximumP95
    ensures r.Err? && r.error.MissingSamples? ==>
              r.error.actual == |samples| && r.error.minimum == (if assertion.minimumSamples > 1 then assertion.minimumSamples else 1)
  {
    if |samples| < assertion.minimumSamples || samples == [] {
      return Err(MissingSamples(|samples|, if assertion.minimumSamples > 1 then assertion.minimumSamples else 1));
    }
    NearestRank(samples);
    hide IsP95, Sorting.Sort;
    var sorted := Sorting.Sort(samples, Ascending());
    var rank := DivCeil(95 * |sorted|, 100);
    var p95 := sorted[rank - 1];
    if p95 > assertion.maximumP95 {
      return Err(Threshold(p95, assertion.maximumP95));
    }
    return Ok(Metric(p95, |sorted|));
  }

  /** The verdict does not depend on the order of the samples. */
  lemma OrderIsIrrelevant(a: seq<u64>, b: seq<u64>)
    requires multiset(a) == multiset(b)
    ensures forall v: u64 :: IsP95(a, v) <==> IsP95(b, v)
    ensures a != [] ==> exists v: u64 :: IsP95(a, v)
  {
    assert |multiset(a)| == |multiset(b)|;
    forall v: u64 ensures IsP95(a, v) <==> IsP95(b, v) {
      forall w: int ensures Covers(a, w) <==> Covers(b, w) {
        Sorting.CountPermutes(a, b, AtMost(w));
      }
      assert v in multiset(a) <==> v in multiset(b);
    }
    if a != [] {
      NearestRank(a);
    }
  }
}
