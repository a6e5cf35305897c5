/** The 95th percentile of a baseline: the measurement in `scripts/measure_provider_baseline.py`, and
    its check in `BaselineMeasurement::validate`, `collect-diff-context-cli/src/artifacts/contract.rs`. */
module Percentile {

  import opened Sorting

  predicate Below(a: nat, b: nat) {
    a < b
  }

  function Sorted(samples: seq<nat>): (s: seq<nat>)
    ensures multiset(s) == multiset(samples)
    ensures |s| == |samples|
  {
    SortKeepsMembers(samples, Below);
    Sort(samples, Below)
  }

  ghost predicate NonDecreasing(s: seq<nat>) {
    forall i, j :: 0 <= i < j < |s| ==> s[i] <= s[j]
  }

  lemma SortedIsOrdered(samples: seq<nat>)
    ensures NonDecreasing(Sorted(samples))
  {
    SortOrders(samples, Below);
  }

  // ---------------------------------------------------------------- nearest rank

  /** The rank as the script computes it. */
  function ScriptRank(n: nat): nat {
    (n * 95 + 99) / 100
  }

  /** `div_ceil`. */
  function DivCeil(a: nat, b: nat): nat
    requires b > 0
  {
    if a % b > 0 then a / b + 1 else a / b
  }

  /** The rank as the check computes it. */
  function CheckRank(n: nat): nat {
    DivCeil(n * 95, 100)
  }

  lemma RanksAgree(n: nat)
    ensures ScriptRank(n) == CheckRank(n)
    ensures n > 0 ==> 1 <= CheckRank(n) <= n
    ensures 100 * CheckRank(n) >= 95 * n && (n > 0 ==> 100 * (CheckRank(n) - 1) < 95 * n)
  {
  }

  function NearestRank(samples: seq<nat>): nat
    requires samples != []
  {
    RanksAgree(|samples|);
    Sorted(samples)[ScriptRank(|samples|) - 1]
  }

  /** How many samples are at most `v`. */
  function AtMost(samples: seq<nat>, v: nat): (n: nat)
    ensures n <= |samples|
  {
    if samples == [] then 0 else (if samples[0] <= v then 1 else 0) + AtMost(samples[1..], v)
  }

  /** The count depends on the samples, not on their order. */
  lemma {:induction false} AtMostOfInsert(x: nat, sorted: seq<nat>, v: nat)
    ensures AtMost(Insert(x, sorted, Below), v) == (if x <= v then 1 else 0) + AtMost(sorted, v)
  {
    if sorted != [] && sorted[0] < x {
      AtMostOfInsert(x, sorted[1..], v);
    }
  }

  lemma {:induction false} AtMostOfSorted(samples: seq<nat>, v: nat)
    ensures AtMost(Sorted(samples), v) == AtMost(samples, v)
  {
    if samples != [] {
      AtMostOfSorted(samples[1..], v);
      AtMostOfInsert(samples[0], Sorted(samples[1..]), v);
    }
  }

  lemma {:induction false} AtMostInOrder(s: seq<nat>, k: nat, v: nat)
    requires NonDecreasing(s) && k <= |s|
    ensures k > 0 && s[k - 1] <= v ==> AtMost(s, v) >= k
    ensures k < |s| && v < s[k] ==> AtMost(s, v) <= k
  {
    if s != [] {
      if k > 0 {
        AtMostInOrder(s[1..], k - 1, v);
      } else {
        NoneAtMost(s, v);
      }
    }
  }

  lemma {:induction false} NoneAtMost(s: seq<nat>, v: nat)
    requires NonDecreasing(s)
    ensures s != [] && v < s[0] ==> AtMost(s, v) == 0
  {
    if |s| > 1 {
      NoneAtMost(s[1..], v);
    }
  }

  lemma RankReached(samples: seq<nat>, rank: nat, value: nat)
    requires 1 <= rank <= |samples| && value == Sorted(samples)[rank - 1]
    ensures AtMost(samples, value) >= rank
    ensures forall v :: 0 <= v < value ==> AtMost(samples, v) < rank
  {
    var s := Sorted(samples);
    SortedIsOrdered(samples);
    AtMostInOrder(s, rank, value);
    AtMostOfSorted(samples, value);
    forall v | 0 <= v < value
      ensures AtMost(samples, v) < rank
    {
      AtMostInOrder(s, rank - 1, v);
      AtMostOfSorted(samples, v);
    }
  }

  /** The nearest-rank value is a sample, at least 95 percent of the samples are at or below it, and for
      every smaller number that is not so: for every non-empty list, in any order. */
  lemma NearestRankIsTheSmallest(samples: seq<nat>)
    requires samples != []
    ensures NearestRank(samples) in samples
    ensures 100 * AtMost(samples, NearestRank(samples)) >= 95 * |samples|
    ensures forall v :: 0 <= v < NearestRank(samples) ==> 100 * AtMost(samples, v) < 95 * |samples|
  {
    var rank := ScriptRank(|samples|);
    RanksAgree(|samples|);
    assert Sorted(samples)[rank - 1] in multiset(Sorted(samples));
    RankReached(samples, rank, NearestRank(samples));
    IsSmallest(samples, rank, NearestRank(samples));
  }

  lemma IsSmallest(samples: seq<nat>, rank: nat, value: nat)
    requires samples != [] && 100 * rank >= 95 * |samples| && 100 * (rank - 1) < 95 * |samples|
    requires AtMost(samples, value) >= rank && forall v :: 0 <= v < value ==> AtMost(samples, v) < rank
    ensures 100 * AtMost(samples, value) >= 95 * |samples|
    ensures forall v :: 0 <= v < value ==> 100 * AtMost(samples, v) < 95 * |samples|
  {
    RankDecides(|samples|, rank, AtMost(samples, value));
    forall v | 0 <= v < value
      ensures 100 * AtMost(samples, v) < 95 * |samples|
    {
      RankDecides(|samples|, rank, AtMost(samples, v));
    }
  }

  lemma RankDecides(n: nat, rank: nat, count: nat)
    requires n > 0 && 100 * rank >= 95 * n && 100 * (rank - 1) < 95 * n
    ensures count >= rank <==> 100 * count >= 95 * n
  {
  }

  lemma OrderDoesNotMatter(a: seq<nat>, b: seq<nat>)
    requires a != [] && multiset(a) == multiset(b)
    ensures b != [] && NearestRank(a) == NearestRank(b)
  {
    assert |a| == |multiset(a)| == |multiset(b)| == |b|;
    SortedIsOrdered(a);
    SortedIsOrdered(b);
    SortedUnique(Sorted(a), Sorted(b), Below);
  }

  // ---------------------------------------------------------------- the two programs

  /** What the script reports of its samples. */
  method Measure(runs: seq<(nat, nat)>) returns (samples: seq<nat>, p95: nat, peak: nat)
    requires runs != []
    ensures |samples| == |runs| && forall i :: 0 <= i < |runs| ==> samples[i] == runs[i].0
    ensures p95 == NearestRank(samples)
    ensures forall i :: 0 <= i < |runs| ==> runs[i].1 <= peak
    ensures peak == 0 || exists i :: 0 <= i < |runs| && runs[i].1 == peak
  {
    samples, peak := [], 0;
    for n := 0 to |runs|
      invariant |samples| == n && forall i :: 0 <= i < n ==> samples[i] == runs[i].0
      invariant forall i :: 0 <= i < n ==> runs[i].1 <= peak
      invariant peak == 0 || exists i :: 0 <= i < n && runs[i].1 == peak
    {
      samples := samples + [runs[n].0];
      if runs[n].1 > peak {
        peak := runs[n].1;
      }
    }
    var ordered := Sorted(samples);
    var rank := ScriptRank(|ordered|);
    RanksAgree(|ordered|);
    p95 := ordered[rank - 1];
  }

  const MAX_SAMPLE_MS: nat := 30000

  /** The checks on the samples and on the percentile. */
  predicate BaselineAccepts(samples: seq<nat>, p95: nat) {
    && 20 <= |samples| <= 100
    && (forall i :: 0 <= i < |samples| ==> 0 < samples[i] <= MAX_SAMPLE_MS)
    && (RanksAgree(|samples|); p95 == Sorted(samples)[CheckRank(|samples|) - 1])
  }

  /** The smallest number with at least 95 percent of the samples at or below it. */
  ghost predicate IsPercentile(samples: seq<nat>, p95: nat) {
    && 100 * AtMost(samples, p95) >= 95 * |samples|
    && forall v :: 0 <= v < p95 ==> 100 * AtMost(samples, v) < 95 * |samples|
  }

  lemma PercentileExactly(samples: seq<nat>, p95: nat)
    requires samples != []
    ensures IsPercentile(samples, p95) <==> p95 == NearestRank(samples)
  {
    NearestRankIsTheSmallest(samples);
    var least := NearestRank(samples);
    if p95 < least {
      assert 100 * AtMost(samples, p95) < 95 * |samples|;
    } else if least < p95 {
      assert 100 * AtMost(samples, least) >= 95 * |samples|;
    }
  }

  /** The check accepts exactly 20 to 100 samples of 1 to 30000 ms with what the script computes of them. */
  lemma CheckAcceptsTheMeasurement(samples: seq<nat>, p95: nat)
    ensures BaselineAccepts(samples, p95) <==>
            && 20 <= |samples| <= 100 && (forall x :: x in samples ==> 1 <= x <= 30000)
            && IsPercentile(samples, p95)
  {
    if 20 <= |samples| <= 100 {
      RanksAgree(|samples|);
      PercentileExactly(samples, p95);
    }
    assert forall i :: 0 <= i < |samples| ==> samples[i] in samples;
  }
}
