/**
 * `select_representative_frames` once KMeans has labelled the batch: for each cluster id
 * in `[0, k)` that has members, the member with the highest score (the first on ties,
 * as `np.argmax` does), the picks then sorted by timestamp. The KMeans labels and the
 * per-frame entropy scores are inputs.
 */
module Clustering {
  import opened Results
  import opened Timeline
  import opened Seqs

  /** `np.where(labels == c)[0]`: the indices labelled `c`, increasing. */
  function Members(labels: seq<int>, c: int): (m: seq<nat>)
    ensures forall q :: 0 <= q < |m| ==> m[q] < |labels| && labels[m[q]] == c
    decreases |labels|
  {
    if |labels| == 0 then []
    else
      var n := |labels| - 1;
      var prev := Members(labels[..n], c);
      if labels[n] == c then prev + [n] else prev
  }

  /** `np.where` lists the indices in increasing order. */
  lemma {:induction false} MembersIncreasing(labels: seq<int>, c: int)
    ensures Increasing(Members(labels, c))
    decreases |labels|
  {
    if |labels| > 0 {
      var n := |labels| - 1;
      var prev := Members(labels[..n], c);
      MembersIncreasing(labels[..n], c);
      assert forall q :: 0 <= q < |prev| ==> prev[q] < n;
      assert Members(labels, c) == if labels[n] == c then prev + [n] else prev;
    }
  }

  /** Every index labelled `c` is a member of cluster `c`. */
  lemma {:induction false} MembersComplete(labels: seq<int>, c: int, i: nat)
    requires i < |labels| && labels[i] == c
    ensures i in Members(labels, c)
    decreases |labels|
  {
    var n := |labels| - 1;
    if i < n {
      MembersComplete(labels[..n], c, i);
    }
  }

  /** `np.argmax`: the first position holding the maximum. */
  function ArgMax(xs: seq<real>): (p: nat)
    requires |xs| > 0
    ensures p < |xs|
    ensures forall q :: 0 <= q < |xs| ==> xs[q] <= xs[p]
    ensures forall q :: 0 <= q < p ==> xs[q] < xs[p]
    decreases |xs|
  {
    if |xs| == 1 then 0
    else
      var n := |xs| - 1;
      var b := ArgMax(xs[..n]);
      if xs[n] > xs[b] then n else b
  }

  /** `r` scores highest among the frames sharing its label, and is the earliest such. */
  predicate IsBestOf(labels: seq<int>, scores: seq<real>, r: nat)
    requires |scores| == |labels|
  {
    && r < |labels|
    && forall i :: 0 <= i < |labels| && labels[i] == labels[r] ==>
         scores[i] <= scores[r] && (scores[i] == scores[r] ==> r <= i)
  }

  /** `cluster_indices[np.argmax(entropy_scores)]` for a non-empty cluster `c`. */
  function Best(labels: seq<int>, scores: seq<real>, c: int): (r: nat)
    requires |scores| == |labels| && |Members(labels, c)| > 0
    ensures r < |labels| && labels[r] == c
  {
    var m := Members(labels, c);
    m[ArgMax(seq(|m|, q requires 0 <= q < |m| => scores[m[q]]))]
  }

  /** The argmax over the cluster's scores is the cluster's best frame. */
  lemma BestIsBest(labels: seq<int>, scores: seq<real>, c: int)
    requires |scores| == |labels| && |Members(labels, c)| > 0
    ensures IsBestOf(labels, scores, Best(labels, scores, c))
  {
    var m := Members(labels, c);
    var ys := seq(|m|, q requires 0 <= q < |m| => scores[m[q]]);
    var p := ArgMax(ys);
    MembersIncreasing(labels, c);
    forall i | 0 <= i < |labels| && labels[i] == c
      ensures scores[i] <= scores[m[p]] && (scores[i] == scores[m[p]] ==> m[p] <= i)
    {
      MembersComplete(labels, c, i);
      var q :| 0 <= q < |m| && m[q] == i;
      assert ys[q] <= ys[p];
    }
  }

  /** The cluster ids of picked indices. */
  function LabelsOf(labels: seq<int>, picks: seq<nat>): seq<int>
    requires forall q :: 0 <= q < |picks| ==> picks[q] < |labels|
  {
    seq(|picks|, q requires 0 <= q < |picks| => labels[picks[q]])
  }

  /**
   * The loop `for cluster_idx in range(k)` before sorting: one pick per non-empty
   * cluster below `k`, in cluster order, each the best of its cluster.
   */
  function ClusterPicks(labels: seq<int>, scores: seq<real>, k: nat): (r: seq<nat>)
    requires |scores| == |labels|
    ensures forall q :: 0 <= q < |r| ==> r[q] < |labels| && 0 <= labels[r[q]] < k
    decreases k
  {
    if k == 0 then []
    else
      var prev := ClusterPicks(labels, scores, k - 1);
      var c := k - 1;
      if |Members(labels, c)| > 0 then prev + [Best(labels, scores, c)] else prev
  }

  /** At most one pick per cluster id, so at most `k` picks. */
  lemma {:induction false} ClusterPicksBound(labels: seq<int>, scores: seq<real>, k: nat)
    requires |scores| == |labels|
    ensures |ClusterPicks(labels, scores, k)| <= k
    decreases k
  {
    if k > 0 {
      assert |ClusterPicks(labels, scores, k - 1)| <= k - 1 by {
        ClusterPicksBound(labels, scores, k - 1);
      }
    }
  }

  /** Each of `picks` is the best of its cluster. */
  predicate AllBest(labels: seq<int>, scores: seq<real>, picks: seq<nat>)
    requires |scores| == |labels|
  {
    forall q :: 0 <= q < |picks| ==> IsBestOf(labels, scores, picks[q])
  }

  /** Picks come in increasing cluster order, so no cluster is picked twice. */
  lemma {:induction false} ClusterPicksOrdered(labels: seq<int>, scores: seq<real>, k: nat)
    requires |scores| == |labels|
    ensures Increasing(LabelsOf(labels, ClusterPicks(labels, scores, k)))
    decreases k
  {
    if k > 0 {
      var prev := ClusterPicks(labels, scores, k - 1);
      assert Increasing(LabelsOf(labels, prev)) by {
        ClusterPicksOrdered(labels, scores, k - 1);
      }
      if |Members(labels, k - 1)| > 0 {
        var lp := LabelsOf(labels, prev);
        var b := Best(labels, scores, k - 1);
        assert ClusterPicks(labels, scores, k) == prev + [b];
        assert LabelsOf(labels, prev + [b]) == lp + [k - 1];
        assert forall q :: 0 <= q < |lp| ==> lp[q] < k - 1;
      }
    }
  }

  /** Each pick is the highest-scoring, earliest frame of its cluster. */
  lemma {:induction false} ClusterPicksAreBest(labels: seq<int>, scores: seq<real>, k: nat)
    requires |scores| == |labels|
    ensures AllBest(labels, scores, ClusterPicks(labels, scores, k))
    decreases k
  {
    if k > 0 {
      var prev := ClusterPicks(labels, scores, k - 1);
      assert AllBest(labels, scores, prev) by {
        ClusterPicksAreBest(labels, scores, k - 1);
      }
      if |Members(labels, k - 1)| > 0 {
        var b := Best(labels, scores, k - 1);
        assert IsBestOf(labels, scores, b) by {
          BestIsBest(labels, scores, k - 1);
        }
        AllBestExtend(labels, scores, prev, b);
      }
    }
  }

  lemma AllBestExtend(labels: seq<int>, scores: seq<real>, picks: seq<nat>, b: nat)
    requires |scores| == |labels|
    requires AllBest(labels, scores, picks) && IsBestOf(labels, scores, b)
    ensures AllBest(labels, scores, picks + [b])
  {
    var r := picks + [b];
    forall q | 0 <= q < |r|
      ensures IsBestOf(labels, scores, r[q])
    {
      if q < |picks| {
        assert r[q] == picks[q];
      }
    }
  }

  /** Every non-empty cluster below `k` contributes a pick. */
  lemma {:induction false} ClusterPicksCover(labels: seq<int>, scores: seq<real>, k: nat, c: int)
    requires |scores| == |labels|
    requires 0 <= c < k && |Members(labels, c)| > 0
    ensures c in LabelsOf(labels, ClusterPicks(labels, scores, k))
    decreases k
  {
    var r := ClusterPicks(labels, scores, k);
    var prev := ClusterPicks(labels, scores, k - 1);
    assert prev <= r;
    if c < k - 1 {
      assert c in LabelsOf(labels, prev) by {
        ClusterPicksCover(labels, scores, k - 1, c);
      }
      var q :| 0 <= q < |prev| && LabelsOf(labels, prev)[q] == c;
      assert LabelsOf(labels, r)[q] == c;
    } else {
      assert LabelsOf(labels, r)[|r| - 1] == c;
    }
  }

  /**
   * `select_representative_frames(frames, histograms, timestamps, k)` with the KMeans labels
   * and the entropy scores given. KMeans refuses `k` outside `[1, len(frames)]`.
   */
  function SelectRepresentatives<F(==)>(items: seq<TimedFrame<F>>, scores: seq<real>, labels: seq<int>, k: int)
    : (r: Result<seq<TimedFrame<F>>>)
    requires |scores| == |items| && |labels| == |items|
    ensures r.Err? <==> k < 1 || k > |items|
    ensures r.Ok? ==> |r.value| <= k
    ensures r.Ok? ==> forall i, j :: 0 <= i < j < |r.value| ==> r.value[i].time <= r.value[j].time
    ensures r.Ok? ==> multiset(r.value) == multiset(Pick(items, ClusterPicks(labels, scores, k)))
  {
    if k < 1 || k > |items| then Err(InvalidClusterCount)
    else
      ClusterPicksBound(labels, scores, k);
      Ok(SortByTime(Pick(items, ClusterPicks(labels, scores, k))))
  }

  /** Every representative is one of the clustered frames. */
  lemma RepresentativesAreInputs<F>(items: seq<TimedFrame<F>>, scores: seq<real>, labels: seq<int>, k: int)
    requires |scores| == |items| && |labels| == |items|
    requires SelectRepresentatives(items, scores, labels, k).Ok?
    ensures forall x :: x in SelectRepresentatives(items, scores, labels, k).value ==> x in items
  {
    var picks := ClusterPicks(labels, scores, k);
    var picked := Pick(items, picks);
    forall x | x in SelectRepresentatives(items, scores, labels, k).value
      ensures x in items
    {
      assert x in multiset(picked);
      var q :| 0 <= q < |picked| && picked[q] == x;
      assert x == items[picks[q]];
    }
  }
}
