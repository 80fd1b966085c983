/** Bounded random sampling without replacement: the cluster-count sample in
    `determine_optimal_clusters` and the PCA and map samples in main.py. */
module Sampling {
  import opened Sequences

  const ClusterSampleCap: nat := 200000
  const PcaSampleCap: nat := 50000
  const MapSampleCap: nat := 10000

  /** `min(cap, n)`: the whole table when it is small, the cap otherwise. */
  function SampleSize(cap: nat, n: nat): (r: nat)
    ensures r <= n && r <= cap
    ensures r == n || r == cap
  {
    if n < cap then n else cap
  }

  /** The PCA scatter sample size. */
  function PcaSampleSize(n: nat): (r: nat)
    ensures r <= n && r <= PcaSampleCap
    ensures n <= PcaSampleCap ==> r == n
    ensures n > PcaSampleCap ==> r == PcaSampleCap
  {
    SampleSize(PcaSampleCap, n)
  }

  /** The map sample size. */
  function MapSampleSize(n: nat): (r: nat)
    ensures r <= n && r <= MapSampleCap
    ensures n <= MapSampleCap ==> r == n
    ensures n > MapSampleCap ==> r == MapSampleCap
  {
    SampleSize(MapSampleCap, n)
  }

  /** The row positions `0, 1, ..., n - 1`. */
  function Range(n: nat): (r: seq<nat>)
    ensures |r| == n
    ensures forall i :: 0 <= i < n ==> r[i] == i
  {
    seq(n, i requires 0 <= i < n => i)
  }

  /** `s` without its element at position `j`. */
  function RemoveAt(s: seq<nat>, j: nat): (r: seq<nat>)
    requires j < |s|
    ensures |r| == |s| - 1
    ensures forall x :: x in r ==> x in s
    ensures forall x :: x in s && x != s[j] ==> x in r
    ensures Distinct(s) ==> Distinct(r) && s[j] !in r
  {
    var r := s[..j] + s[j + 1..];
    assert forall i :: 0 <= i < |r| ==> r[i] == if i < j then s[i] else s[i + 1];
    assert forall x :: x in s && x != s[j] ==> x in r by {
      forall x | x in s && x != s[j] ensures x in r {
        var i :| 0 <= i < |s| && s[i] == x;
        assert r[if i < j then i else i - 1] == x;
      }
    }
    r
  }

  /** Sampling without replacement driven by random draws: each draw picks
      an element of the remaining pool (modulo its size) and removes it from
      the pool. The draws stand for `np.random.choice`'s unseeded generator. */
  function Draw(pool: seq<nat>, draws: seq<nat>): (r: seq<nat>)
    requires |draws| <= |pool|
    ensures |r| == |draws|
    ensures forall i :: 0 <= i < |r| ==> r[i] in pool
    ensures Distinct(pool) ==> Distinct(r)
    decreases |draws|
  {
    if |draws| == 0 then []
    else
      var j := draws[0] % |pool|;
      [pool[j]] + Draw(RemoveAt(pool, j), draws[1..])
  }

  /** The cluster-count sample: `min(200000, n)` row positions drawn without replacement. */
  function SampleIndices(n: nat, draws: seq<nat>): (idx: seq<nat>)
    requires |draws| == SampleSize(ClusterSampleCap, n)
    ensures |idx| == SampleSize(ClusterSampleCap, n)
    ensures Distinct(idx)
    ensures forall i :: 0 <= i < |idx| ==> idx[i] < n
  {
    Draw(Range(n), draws)
  }

  /** The position of `x` in `s`. */
  function IndexOf(s: seq<nat>, x: nat): (i: nat)
    requires x in s
    ensures i < |s| && s[i] == x
  {
    if s[0] == x then 0 else 1 + IndexOf(s[1..], x)
  }

  /** The draws that make `Draw` pick exactly `idx`. */
  function DrawsFor(pool: seq<nat>, idx: seq<nat>): (draws: seq<nat>)
    requires Distinct(idx)
    requires forall i :: 0 <= i < |idx| ==> idx[i] in pool
    requires |idx| <= |pool|
    ensures |draws| == |idx|
    decreases |idx|
  {
    if |idx| == 0 then []
    else
      var j := IndexOf(pool, idx[0]);
      assert forall i :: 1 <= i < |idx| ==> idx[i] != idx[0];
      [j] + DrawsFor(RemoveAt(pool, j), idx[1..])
  }

  lemma SmallModulus(a: nat, m: nat)
    requires a < m
    ensures a % m == a
  {
  }

  /** After the first pick, the rest of the sample is still distinct and
      lies in the remaining pool. */
  lemma RestOfSampleInRestOfPool(pool: seq<nat>, idx: seq<nat>)
    requires Distinct(idx) && |idx| > 0
    requires forall i :: 0 <= i < |idx| ==> idx[i] in pool
    ensures Distinct(idx[1..])
    ensures forall i :: 0 <= i < |idx| - 1 ==> idx[1..][i] in RemoveAt(pool, IndexOf(pool, idx[0]))
  {
    forall i | 0 <= i < |idx| - 1
      ensures idx[1..][i] in RemoveAt(pool, IndexOf(pool, idx[0]))
    {
      assert idx[1..][i] == idx[i + 1] && idx[i + 1] != idx[0];
    }
  }

  /** Every sample without repetitions can come out of the draws, so the
      model claims no particular sample. */
  lemma {:induction false} DrawReachesEverySample(pool: seq<nat>, idx: seq<nat>)
    requires Distinct(idx)
    requires forall i :: 0 <= i < |idx| ==> idx[i] in pool
    requires |idx| <= |pool|
    ensures Draw(pool, DrawsFor(pool, idx)) == idx
    decreases |idx|
  {
    if |idx| > 0 {
      var j := IndexOf(pool, idx[0]);
      var rest := RemoveAt(pool, j);
      var tail := idx[1..];
      RestOfSampleInRestOfPool(pool, idx);
      DrawReachesEverySample(rest, tail);
      var d := DrawsFor(pool, idx);
      assert d == [j] + DrawsFor(rest, tail);
      SmallModulus(j, |pool|);
      assert d[0] == j && d[1..] == DrawsFor(rest, tail);
      assert Draw(pool, d) == [idx[0]] + tail;
      assert [idx[0]] + tail == idx;
    }
  }

  /** Any `min(200000, n)` distinct row positions form a possible sample. */
  lemma EverySampleIsPossible(n: nat, idx: seq<nat>)
    requires |idx| == SampleSize(ClusterSampleCap, n)
    requires Distinct(idx)
    requires forall i :: 0 <= i < |idx| ==> idx[i] < n
    ensures exists draws :: |draws| == |idx| && SampleIndices(n, draws) == idx
  {
    assert forall i :: 0 <= i < |idx| ==> idx[i] in Range(n) by {
      forall i | 0 <= i < |idx| ensures idx[i] in Range(n) {
        assert Range(n)[idx[i]] == idx[i];
      }
    }
    var draws := DrawsFor(Range(n), idx);
    DrawReachesEverySample(Range(n), idx);
    assert |draws| == |idx| && SampleIndices(n, draws) == idx;
  }
}

/** The trial loop of `determine_optimal_clusters` in
    src/clustering_analysis.py. K-Means and the silhouette score are an
    oracle: `fit(sample, k)` is the pair of numbers one trial reports, or
    `None` when the trial raises. */
module ClusterCount {
  import opened Options
  import opened Sequences
  import opened Sampling

  /** What a fit with `k` clusters reports: its inertia and mean silhouette. */
  datatype Fit = Fit(inertia: real, silhouette: real)

  /** The loop's outcome: the two lists have equal length, entry `i` is the
      fit for `k = i + 2` on the one sample, no `k` beyond `maxK` was tried,
      and the lists stop short of `maxK` only at a failing `k`. */
  predicate StopsAtFirstFailure<P(!new)>(sample: seq<P>, maxK: int, fit: (seq<P>, nat) -> Option<Fit>,
                                          inertia: seq<real>, silhouette: seq<real>)
  {
    && |inertia| == |silhouette|
    && (|inertia| == 0 || |inertia| + 1 <= maxK)
    && (forall i :: 0 <= i < |inertia| ==> fit(sample, i + 2) == Some(Fit(inertia[i], silhouette[i])))
    && (|inertia| + 2 <= maxK ==> fit(sample, |inertia| + 2) == None)
  }

  /** For k = 2 up to and including `maxK`: fit, record both numbers, and stop at
      the first failure. */
  method TryClusterCounts<P(!new)>(sample: seq<P>, maxK: int, fit: (seq<P>, nat) -> Option<Fit>)
    returns (inertia: seq<real>, silhouette: seq<real>)
    ensures StopsAtFirstFailure(sample, maxK, fit, inertia, silhouette)
  {
    inertia := [];
    silhouette := [];
    var k := 2;
    while k <= maxK
      invariant |inertia| == |silhouette| == k - 2
      invariant k == 2 || k <= maxK + 1
      invariant forall i :: 0 <= i < |inertia| ==> fit(sample, i + 2) == Some(Fit(inertia[i], silhouette[i]))
    {
      match fit(sample, k) {
        case None =>
          break;
        case Some(f) =>
          inertia := inertia + [f.inertia];
          silhouette := silhouette + [f.silhouette];
      }
      k := k + 1;
    }
  }

  lemma RecordedTrialSucceeded<P(!new)>(sample: seq<P>, maxK: int, fit: (seq<P>, nat) -> Option<Fit>,
                                         inertia: seq<real>, silhouette: seq<real>, n: nat)
    requires StopsAtFirstFailure(sample, maxK, fit, inertia, silhouette)
    requires n < |inertia|
    ensures fit(sample, n + 2).Some?
    ensures n + 2 <= maxK
  {
    assert fit(sample, n + 2) == Some(Fit(inertia[n], silhouette[n]));
  }

  /** The loop's outcome is fully determined by the fits on the sample. */
  lemma TrialsAreDetermined<P(!new)>(sample: seq<P>, maxK: int, fit: (seq<P>, nat) -> Option<Fit>,
                                      inertia1: seq<real>, silhouette1: seq<real>,
                                      inertia2: seq<real>, silhouette2: seq<real>)
    requires StopsAtFirstFailure(sample, maxK, fit, inertia1, silhouette1)
    requires StopsAtFirstFailure(sample, maxK, fit, inertia2, silhouette2)
    ensures inertia1 == inertia2 && silhouette1 == silhouette2
  {
    if |inertia1| < |inertia2| {
      RecordedTrialSucceeded(sample, maxK, fit, inertia2, silhouette2, |inertia1|);
      assert false;
    }
    if |inertia2| < |inertia1| {
      RecordedTrialSucceeded(sample, maxK, fit, inertia1, silhouette1, |inertia2|);
      assert false;
    }
    assert |inertia1| == |inertia2|;
    forall i | 0 <= i < |inertia1| ensures inertia1[i] == inertia2[i] && silhouette1[i] == silhouette2[i] {
      assert fit(sample, i + 2) == Some(Fit(inertia1[i], silhouette1[i]));
    }
  }

  /** When every `k` from 2 to `maxK` fits, one trial is recorded per `k`. */
  lemma AllTrialsRecorded<P(!new)>(sample: seq<P>, maxK: int, fit: (seq<P>, nat) -> Option<Fit>,
                                    inertia: seq<real>, silhouette: seq<real>)
    requires StopsAtFirstFailure(sample, maxK, fit, inertia, silhouette)
    requires maxK >= 2
    requires forall k: nat :: 2 <= k <= maxK ==> fit(sample, k).Some?
    ensures |inertia| == |silhouette| == maxK - 1
  {
    var next: nat := |inertia| + 2;
    assert next <= maxK ==> fit(sample, next).Some?;
  }

  /** When the first trial fails, nothing is recorded. */
  lemma FirstFailureRecordsNothing<P(!new)>(sample: seq<P>, maxK: int, fit: (seq<P>, nat) -> Option<Fit>,
                                             inertia: seq<real>, silhouette: seq<real>)
    requires StopsAtFirstFailure(sample, maxK, fit, inertia, silhouette)
    requires fit(sample, 2).None?
    ensures |inertia| == |silhouette| == 0
  {
    if |inertia| > 0 {
      RecordedTrialSucceeded(sample, maxK, fit, inertia, silhouette, 0);
    }
  }

  /** `determine_optimal_clusters`: one bounded sample of distinct rows,
      then the trial loop on that sample for every `k`. */
  method DetermineOptimalClusters<P(!new)>(data: seq<P>, maxK: int, draws: seq<nat>,
                                           fit: (seq<P>, nat) -> Option<Fit>)
    returns (sampleIdx: seq<nat>, inertia: seq<real>, silhouette: seq<real>)
    requires |draws| == SampleSize(ClusterSampleCap, |data|)
    ensures |sampleIdx| == SampleSize(ClusterSampleCap, |data|)
    ensures Distinct(sampleIdx)
    ensures forall i :: 0 <= i < |sampleIdx| ==> sampleIdx[i] < |data|
    ensures StopsAtFirstFailure(Select(data, sampleIdx), maxK, fit, inertia, silhouette)
  {
    sampleIdx := SampleIndices(|data|, draws);
    var sample := Select(data, sampleIdx);
    inertia, silhouette := TryClusterCounts(sample, maxK, fit);
  }
}
