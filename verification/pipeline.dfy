/** The decision rules of the analysis driver (main.py): which columns feed
    the clustering, which cluster count is used, and how a cluster's mean
    speed and vehicle count are labelled. */
module Pipeline {
  import opened Options
  import opened Sequences
  import opened Frame
  import opened Features
  import opened ClusterCount

  const AverageSpeed: Name := "AVERAGE_SPEED"
  const NumberOfVehicles: Name := "NUMBER_OF_VEHICLES"
  const MinimumSpeed: Name := "MINIMUM_SPEED"
  const MaximumSpeed: Name := "MAXIMUM_SPEED"

  /** The clustering features, in the order they are tried. */
  const FeatureCandidates: seq<Name> :=
    [AverageSpeed, NumberOfVehicles, MinimumSpeed, MaximumSpeed, Hour, DayOfWeek]

  /** The largest cluster count tried. */
  const MaxClusters: int := 6

  /** The cluster count used when no silhouette score is available. */
  const DefaultK: int := 4

  lemma CandidatesDistinct()
    ensures Distinct(FeatureCandidates)
  {
  }

  /** The candidate features present among the table's columns, in candidate
      order: each present candidate exactly once, nothing else. */
  function SelectFeatures(available: seq<Name>): (r: seq<Name>)
    ensures forall n :: n in r <==> n in FeatureCandidates && n in available
    ensures Distinct(r)
    ensures IsSubsequence(r, FeatureCandidates)
  {
    var present := n => n in available;
    CandidatesDistinct();
    FilterKeepsDistinct(FeatureCandidates, present);
    FilterIsSubsequence(FeatureCandidates, present);
    Filter(FeatureCandidates, present)
  }

  /** The first position of a largest score (`np.argmax`). */
  function FirstArgMax(s: seq<real>): (i: nat)
    requires |s| > 0
    ensures i < |s|
    ensures forall j :: 0 <= j < |s| ==> s[j] <= s[i]
    ensures forall j :: 0 <= j < i ==> s[j] < s[i]
    decreases |s|
  {
    if |s| == 1 then 0
    else
      var m := FirstArgMax(s[..|s| - 1]);
      if s[|s| - 1] > s[m] then |s| - 1 else m
  }

  /** Only one position is a first largest score. */
  lemma FirstArgMaxUnique(s: seq<real>, i: nat)
    requires i < |s|
    requires forall j :: 0 <= j < |s| ==> s[j] <= s[i]
    requires forall j :: 0 <= j < i ==> s[j] < s[i]
    ensures i == FirstArgMax(s)
  {
  }

  /** The chosen cluster count: `argmax + 2` over the silhouette scores of
      k = 2, 3, ...; the default when no score was recorded, or when the
      selection stage raised (`None`). */
  function ChooseK(scores: Option<seq<real>>): (k: int)
    ensures scores.None? || |scores.value| == 0 ==> k == DefaultK
    ensures scores.Some? && |scores.value| > 0 ==>
      && 2 <= k <= |scores.value| + 1
      && (forall j :: 0 <= j < |scores.value| ==> scores.value[j] <= scores.value[k - 2])
      && (forall j :: 0 <= j < k - 2 ==> scores.value[j] < scores.value[k - 2])
  {
    match scores
    case None => DefaultK
    case Some(s) => if |s| > 0 then FirstArgMax(s) + 2 else DefaultK
  }

  /** The chosen count is one the trial loop actually fitted, and no fitted
      count scored a higher silhouette. */
  lemma ChosenKWasTried<P(!new)>(sample: seq<P>, maxK: int, fit: (seq<P>, nat) -> Option<Fit>,
                                  inertia: seq<real>, silhouette: seq<real>)
    requires StopsAtFirstFailure(sample, maxK, fit, inertia, silhouette)
    requires |silhouette| > 0
    ensures 2 <= ChooseK(Some(silhouette)) <= maxK
    ensures fit(sample, ChooseK(Some(silhouette))).Some?
    ensures forall k :: 2 <= k < |silhouette| + 2 ==>
      fit(sample, k).Some? && fit(sample, k).value.silhouette <= fit(sample, ChooseK(Some(silhouette))).value.silhouette
  {
    var k := ChooseK(Some(silhouette));
    assert fit(sample, k) == Some(Fit(inertia[k - 2], silhouette[k - 2]));
    forall k' | 2 <= k' < |silhouette| + 2
      ensures fit(sample, k').Some? && fit(sample, k').value.silhouette <= silhouette[k - 2]
    {
      assert fit(sample, k') == Some(Fit(inertia[k' - 2], silhouette[k' - 2]));
    }
  }

  /** With at most six clusters tried, the count used lies in 2..6, whether
      it was chosen from scores, taken by default, or the stage raised. */
  lemma ChosenKInRange<P(!new)>(sample: seq<P>, fit: (seq<P>, nat) -> Option<Fit>,
                                 inertia: seq<real>, silhouette: seq<real>)
    requires StopsAtFirstFailure(sample, MaxClusters, fit, inertia, silhouette)
    ensures 2 <= ChooseK(Some(silhouette)) <= MaxClusters
    ensures 2 <= ChooseK(None) <= MaxClusters
  {
  }

  /** When the first trial already fails, the default count is used. */
  lemma FailedSelectionFallsBack<P(!new)>(sample: seq<P>, maxK: int, fit: (seq<P>, nat) -> Option<Fit>,
                                           inertia: seq<real>, silhouette: seq<real>)
    requires StopsAtFirstFailure(sample, maxK, fit, inertia, silhouette)
    requires fit(sample, 2).None?
    ensures ChooseK(Some(silhouette)) == DefaultK
  {
    FirstFailureRecordsNothing(sample, maxK, fit, inertia, silhouette);
  }

  /** How the run proceeds after feature selection: it stops when no
      candidate feature is present, stops when scaling the selected features
      raises, stops when the final clustering raises, and otherwise clusters
      the selected features with the chosen count. */
  datatype Plan = NoFeatures | PreparationFailed | ClusteringFailed | Clustering(features: seq<Name>, k: int)

  /** Some candidate feature is among the columns. */
  predicate AnyCandidate(available: seq<Name>) {
    exists i :: 0 <= i < |FeatureCandidates| && FeatureCandidates[i] in available
  }

  /** `scalingRaised` and `clusteringRaised` are the outcomes of the scaler
      and of the final K-Means call, which are library code; `selection` is
      the silhouette list of the selection stage, `None` when that stage
      raised. */
  function PlanRun(available: seq<Name>, scalingRaised: bool, selection: Option<seq<real>>,
                   clusteringRaised: bool): (p: Plan)
    ensures p.NoFeatures? <==> !AnyCandidate(available)
    ensures p.PreparationFailed? <==> AnyCandidate(available) && scalingRaised
    ensures p.ClusteringFailed? <==> AnyCandidate(available) && !scalingRaised && clusteringRaised
    ensures p.Clustering? <==> AnyCandidate(available) && !scalingRaised && !clusteringRaised
    ensures p.Clustering? ==> |p.features| > 0 && Distinct(p.features)
    ensures p.Clustering? ==> forall n :: n in p.features ==> n in available
    ensures p.Clustering? ==> p.features == SelectFeatures(available) && p.k == ChooseK(selection)
  {
    var features := SelectFeatures(available);
    if |features| == 0 then
      assert !AnyCandidate(available);
      NoFeatures
    else
      assert features[0] in FeatureCandidates && features[0] in available;
      if scalingRaised then PreparationFailed
      else if clusteringRaised then ClusteringFailed
      else Clustering(features, ChooseK(selection))
  }

  /** The traffic pattern printed for a cluster. */
  datatype Pattern = Congested | FreeFlowing | Medium | Mixed

  /** The ordered threshold tests on a cluster's mean speed and mean vehicle
      count. Each label corresponds to one region of the plane, whatever the
      order of the tests. */
  function Classify(speed: real, vehicles: real): (p: Pattern)
    ensures p == Congested <==> speed < 30.0 && vehicles > 150.0
    ensures p == FreeFlowing <==> speed > 50.0 && vehicles < 100.0
    ensures p == Medium <==> 30.0 <= speed <= 50.0
    ensures p == Mixed <==> (speed < 30.0 && vehicles <= 150.0) || (speed > 50.0 && vehicles >= 100.0)
  {
    if speed < 30.0 && vehicles > 150.0 then Congested
    else if speed > 50.0 && vehicles < 100.0 then FreeFlowing
    else if 30.0 <= speed <= 50.0 then Medium
    else Mixed
  }

  /** The label of one cluster: none without a speed column; a missing
      vehicle column counts as zero vehicles, so a slow cluster is mixed and
      a fast one free-flowing. */
  function ClusterPattern(speed: Option<real>, vehicles: Option<real>): (p: Option<Pattern>)
    ensures p.None? <==> speed.None?
    ensures speed.Some? && vehicles.None? ==>
      && (speed.value < 30.0 ==> p == Some(Mixed))
      && (speed.value > 50.0 ==> p == Some(FreeFlowing))
      && (30.0 <= speed.value <= 50.0 ==> p == Some(Medium))
    ensures speed.Some? && vehicles.Some? ==> p == Some(Classify(speed.value, vehicles.value))
  {
    match speed
    case None => None
    case Some(s) => Some(Classify(s, vehicles.GetOr(0.0)))
  }
}
