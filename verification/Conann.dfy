/** The classifier with fixed thresholds, and the calibration of its threshold
    distance from sampled queries. */
module Conann {
  import opened OrderStats
  import opened ProbeLoop

  datatype ConAnn = ConAnn(epsilon: real, dk: real, safeinDk: real)
  {
    function TauIn(): real {
      safeinDk - 2.0 * epsilon
    }

    function TauOut(): real {
      dk + 2.0 * epsilon
    }

    /** With the stored epsilon; SafeIn is tested first. */
    function Classify(approx: real): ResultClass {
      if approx < TauIn() then SafeIn
      else if approx > TauOut() then SafeOut
      else Uncertain
    }

    /** With a margin for this cluster and query; SafeOut is tested first. */
    function ClassifyWith(approx: real, margin: real): ResultClass {
      if approx > dk + 2.0 * margin then SafeOut
      else if approx < safeinDk - 2.0 * margin then SafeIn
      else Uncertain
    }
  }

  function Legacy(epsilon: real, dk: real): ConAnn {
    ConAnn(epsilon, dk, dk)
  }

  function WithSafeIn(epsilon: real, legacyDk: real, safeinDk: real, hasSafeinDk: bool): ConAnn {
    ConAnn(epsilon, legacyDk, if hasSafeinDk then safeinDk else legacyDk)
  }

  // ----- classification -----

  /** An estimate within twice the margin of the exact distance is classed soundly. */
  lemma {:induction false} ClassifiedSoundly(c: ConAnn, approx: real, margin: real, exact: real)
    requires -2.0 * margin <= approx - exact <= 2.0 * margin
    ensures c.ClassifyWith(approx, margin) == SafeOut ==> exact > c.dk
    ensures c.ClassifyWith(approx, margin) == SafeIn ==> exact < c.safeinDk
    ensures exact > c.dk + 4.0 * margin ==> c.ClassifyWith(approx, margin) == SafeOut
  {
  }

  /** With the stored epsilon as margin the two overloads agree on every estimate if and
      only if the thresholds do not cross; crossed, they disagree between them. */
  lemma {:induction false} OverloadsAgree(c: ConAnn)
    ensures (forall approx :: c.Classify(approx) == c.ClassifyWith(approx, c.epsilon)) <==> c.TauIn() <= c.TauOut()
  {
    if c.TauOut() < c.TauIn() {
      var between := (c.TauOut() + c.TauIn()) / 2.0;
      assert c.Classify(between) == SafeIn && c.ClassifyWith(between, c.epsilon) == SafeOut;
    }
  }

  /** A classifier without a SafeIn distance of its own never has crossed thresholds. */
  lemma {:induction false} LegacyAgrees(epsilon: real, dk: real, safeinDk: real, approx: real)
    requires 0.0 <= epsilon
    ensures WithSafeIn(epsilon, dk, safeinDk, false) == Legacy(epsilon, dk)
    ensures Legacy(epsilon, dk).Classify(approx) == Legacy(epsilon, dk).ClassifyWith(approx, epsilon)
  {
    OverloadsAgree(Legacy(epsilon, dk));
  }

  /** The four-argument classifier: its SafeOut threshold is the legacy distance, its
      SafeIn threshold the calibrated distance if there is one and the legacy one if
      not, each moved by twice the margin away from Uncertain. */
  lemma {:induction false} ThresholdsOf(epsilon: real, dk: real, safeinDk: real, has: bool, approx: real, margin: real)
    ensures var c := WithSafeIn(epsilon, dk, safeinDk, has); var center := if has then safeinDk else dk;
      && (c.ClassifyWith(approx, margin) == SafeOut <==> approx - dk > 2.0 * margin)
      && (c.ClassifyWith(approx, margin) == SafeIn <==> approx - dk <= 2.0 * margin && center - approx > 2.0 * margin)
      && (c.Classify(approx) == SafeIn <==> center - approx > 2.0 * epsilon)
      && (c.Classify(approx) == SafeOut <==> center - approx <= 2.0 * epsilon && approx - dk > 2.0 * epsilon)
  {
  }

  // ----- calibration -----

  /** Which order statistic of n distances is taken for topK. */
  function KthIndex(topK: nat, n: nat): (i: nat)
    requires 0 < n
    ensures i < n
  {
    var k := if topK > n then n else topK;
    Min((if k == 0 then 1 else k) - 1, n - 1)
  }

  function KthDistance(dists: seq<real>, topK: nat): real
    requires dists != []
  {
    SortSize(dists);
    Sort(dists)[KthIndex(topK, |dists|)]
  }

  lemma {:induction false} SortSize(s: seq<real>)
    ensures |Sort(s)| == |s|
  {
    SortBag(s);
    BagSize(Sort(s), s);
  }

  /** The place of the percentile among m sorted samples. */
  function PercentileIndex(percentile: real, m: nat): (i: nat)
    requires 0 < m && percentile <= 1.0
    ensures i < m
  {
    var share := (1.0 - percentile) * m as real;
    ShareNotNegative(percentile, m);
    Min(share.Floor, m - 1)
  }

  lemma {:induction false} ShareNotNegative(percentile: real, m: nat)
    requires percentile <= 1.0
    ensures 0 <= ((1.0 - percentile) * m as real).Floor
  {
    assert (1.0 - percentile) * m as real >= 0.0;
  }

  function SampleDistances(rows: seq<seq<real>>, topK: nat): (r: seq<real>)
    requires forall s :: 0 <= s < |rows| ==> rows[s] != []
    ensures |r| == |rows|
  {
    seq(|rows|, s requires 0 <= s < |rows| => KthDistance(rows[s], topK))
  }

  function Threshold(rows: seq<seq<real>>, topK: nat, percentile: real): real
    requires rows != [] && percentile <= 1.0
    requires forall s :: 0 <= s < |rows| ==> rows[s] != []
  {
    var samples := SampleDistances(rows, topK);
    SortSize(samples);
    Sort(samples)[PercentileIndex(percentile, |rows|)]
  }

  /** rows holds, for each sampled query, its distances to the n database vectors. */
  method CalibrateDistanceThreshold(rows: seq<seq<real>>, n: nat, topK: nat, percentile: real) returns (dk: real)
    requires (forall s :: 0 <= s < |rows| ==> |rows[s]| == n) && percentile <= 1.0
    ensures |rows| == 0 || n == 0 ==> dk == 0.0
    ensures |rows| != 0 && n != 0 ==> dk == Threshold(rows, topK, percentile)
  {
    hide PercentileIndex, Sort;
    if |rows| == 0 || n == 0 {
      return 0.0;
    }
    var k := if topK > n then n else topK;
    k := if k == 0 then 1 else k;
    var sampleDk: seq<real> := [];
    for s := 0 to |rows|
      invariant sampleDk == SampleDistances(rows, topK)[..s]
    {
      var nth := Min(k - 1, n - 1);
      SortSize(rows[s]);
      var dists := Sort(rows[s]);
      sampleDk := sampleDk + [dists[nth]];
    }
    assert SampleDistances(rows, topK)[..|rows|] == SampleDistances(rows, topK);
    SortSize(sampleDk);
    sampleDk := Sort(sampleDk);
    dk := sampleDk[PercentileIndex(percentile, |rows|)];
  }

  /** The threshold splits the samples: at most a share of 1 - percentile of them lies
      strictly below it (never all), and more than that share below anything larger. */
  lemma {:induction false} ThresholdRank(rows: seq<seq<real>>, topK: nat, percentile: real, x: real)
    requires rows != [] && percentile <= 1.0
    requires forall s :: 0 <= s < |rows| ==> rows[s] != []
    ensures var samples := SampleDistances(rows, topK); var share := (1.0 - percentile) * |rows| as real;
      Threshold(rows, topK, percentile) < x <==>
        CountBelow(samples, x) == |rows| || CountBelow(samples, x) as real > share
  {
    var samples, n := SampleDistances(rows, topK), CountBelow(SampleDistances(rows, topK), x);
    KthSmallestBelow(samples, PercentileIndex(percentile, |rows|) + 1, x);
    CountBelowSize(samples, x);
    PastShare(percentile, |rows|, n);
  }

  lemma {:induction false} CountBelowSize(s: seq<real>, x: real)
    ensures CountBelow(s, x) <= |s|
  {
    if s != [] {
      CountBelowSize(s[1..], x);
    }
  }

  lemma {:induction false} PastShare(percentile: real, m: nat, n: nat)
    requires 0 < m && percentile <= 1.0 && n <= m
    ensures PercentileIndex(percentile, m) < n <==> n == m || n as real > (1.0 - percentile) * m as real
  {
  }

  /** A sample's distance is the topK-th smallest: fewer than topK database vectors are
      strictly nearer, and topK of them are nearer than anything larger.  No neighbours
      are taken for one, and more than there are for all. */
  lemma {:induction false} KthDistanceRank(dists: seq<real>, topK: nat, x: real)
    requires dists != []
    ensures var k := if topK == 0 then 1 else if |dists| < topK then |dists| else topK;
      CountBelow(dists, x) >= k <==> KthDistance(dists, topK) < x
  {
    KthSmallestBelow(dists, KthIndex(topK, |dists|) + 1, x);
  }

  /** Raising the percentile never raises the threshold. */
  lemma {:induction false} PercentileTightens(rows: seq<seq<real>>, topK: nat, p: real, q: real)
    requires rows != [] && p <= q <= 1.0
    requires forall s :: 0 <= s < |rows| ==> rows[s] != []
    ensures Threshold(rows, topK, q) <= Threshold(rows, topK, p)
  {
    hide PercentileIndex, SampleDistances, Sort;
    var samples := SampleDistances(rows, topK);
    SortSize(samples);
    PlaceMonotone(p, q, |rows|);
    SortedAt(Sort(samples), PercentileIndex(q, |rows|), PercentileIndex(p, |rows|));
  }

  lemma {:induction false} SortedAt(s: seq<real>, i: nat, j: nat)
    requires Sorted(s) && i <= j < |s|
    ensures s[i] <= s[j]
  {
  }

  lemma {:induction false} PlaceMonotone(p: real, q: real, m: nat)
    requires 0 < m && p <= q <= 1.0
    ensures PercentileIndex(q, m) <= PercentileIndex(p, m)
  {
    ShareMonotone(p, q, m);
  }

  lemma {:induction false} NotNegative(a: real, b: real)
    requires 0.0 <= a && 0.0 <= b
    ensures 0.0 <= a * b
  {
  }

  lemma {:induction false} ShareMonotone(p: real, q: real, m: nat)
    requires p <= q
    ensures ((1.0 - q) * m as real).Floor <= ((1.0 - p) * m as real).Floor
  {
    NotNegative(q - p, m as real);
    assert (1.0 - p) * m as real == (1.0 - q) * m as real + (q - p) * m as real;
  }

  /** Sampling queries from the database itself: asking for one more neighbour makes up
      for the query's own zero distance, so the sample is the topK-th nearest other
      vector. */
  lemma {:induction false} SelfHitMadeUpFor(dists: seq<real>, self: nat, topK: nat)
    requires 1 <= topK && 2 <= |dists| && self < |dists| && dists[self] == 0.0
    requires forall i :: 0 <= i < |dists| ==> dists[i] >= 0.0
    ensures KthDistance(dists, topK + 1) == KthDistance(dists[..self] + dists[self + 1..], topK)
  {
    var others := dists[..self] + dists[self + 1..];
    SelfFirst(dists, self);
    SortSize(dists);
    SortSize(others);
  }

  lemma {:induction false} SelfFirst(dists: seq<real>, self: nat)
    requires self < |dists| && dists[self] == 0.0
    requires forall i :: 0 <= i < |dists| ==> dists[i] >= 0.0
    ensures Sort(dists) == [0.0] + Sort(dists[..self] + dists[self + 1..])
  {
    hide Sort;
    var others := dists[..self] + dists[self + 1..];
    var sorted := [0.0] + Sort(others);
    RemoveAt(dists, self);
    SortBag(dists);
    SortBag(others);
    forall i | 0 <= i < |Sort(others)| ensures 0.0 <= Sort(others)[i] {
      assert Sort(others)[i] in multiset(Sort(others));
      assert Sort(others)[i] in others;
    }
    SortedUnique(Sort(dists), sorted);
  }
}
