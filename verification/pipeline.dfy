/**
 * `get_distinct_frames` and `get_filtered_frames` once the video file has been found and
 * decoded: cluster the frames sampled at 10 fps and keep one per cluster, add ten frames
 * evenly spaced over the 1 fps sampling, order everything by timestamp, then drop frames
 * that barely differ from the last kept one while keeping at least five. KMeans and the
 * entropy score are inputs.
 */
module Pipeline {
  import opened Results
  import opened Seqs
  import opened Arith
  import opened Timeline
  import opened Images
  import opened Histograms
  import opened Extraction
  import opened Clustering
  import opened Dedup

  /** A decoded video: its frames in order and the frame rate the container reports. */
  datatype Video = Video(frames: seq<Frame>, rate: real)

  /** Sampling rate of `get_distinct_frames`. */
  const DenseFps: real := 10.0
  /** Default sampling rate of `extract_frames`, used for the evenly spaced frames. */
  const SparseFps: real := 1.0
  /** Default `num_blocks` of `calculate_combined_histograms`. */
  const BlockCount: int := 4
  /** `interval_count`. */
  const IntervalCount: nat := 10
  /** Arguments `get_filtered_frames` passes to `remove_similar_frames`. */
  const DedupThreshold: real := 0.08
  const MinFrames: int := 5

  /** KMeans fitted on the feature vectors with `k` clusters: the label of vector `i`. */
  type Clusterer = (seq<seq<nat>>, int, nat) -> int

  /** The per-frame score `np.sum(-h * np.log(h + 1e-10))` of a feature vector. */
  type Scorer = seq<nat> -> real

  /** How many frames the 10 fps sampling keeps. */
  function DenseCount(video: Video): nat {
    var iv := Interval(video.rate, DenseFps);
    (|video.frames| + iv - 1) / iv
  }

  /**
   * `get_distinct_frames(video, max_frames)`: sample at 10 fps, compute the combined
   * histograms with 4 x 4 blocks, and select one representative per cluster.
   */
  function DistinctFrames(video: Video, maxFrames: int, kmeans: Clusterer, entropy: Scorer)
    : (r: Result<seq<TimedFrame<Frame>>>)
    ensures r.Err? <==> video.rate == 0.0 || maxFrames < 1 || maxFrames > DenseCount(video)
    ensures r.Ok? ==> |r.value| <= maxFrames && Chronological(r.value)
    ensures r.Ok? ==> forall x :: x in r.value ==> Genuine(video.frames, video.rate, x)
  {
    var dense :- ExtractFrames(video.frames, video.rate, DenseFps);
    var hs := CalculateCombinedHistograms(Map(FrameOf, dense), BlockCount).value;
    var labels := seq(|dense|, i requires 0 <= i < |dense| => kmeans(hs, maxFrames, i));
    DenseFacts(video, dense);
    var reps := SelectRepresentatives(dense, Map(entropy, hs), labels, maxFrames);
    if reps.Ok? then
      RepresentativesAreInputs(dense, Map(entropy, hs), labels, maxFrames);
      reps
    else reps
  }

  /** What the 10 fps sampling yields: its size, and frames the decoder really produced. */
  lemma DenseFacts(video: Video, dense: seq<TimedFrame<Frame>>)
    requires ExtractFrames(video.frames, video.rate, DenseFps) == Ok(dense)
    ensures |dense| == DenseCount(video)
    ensures video.rate == 0.0 ==> |dense| == 0
    ensures forall x :: x in dense ==> Genuine(video.frames, video.rate, x)
  {
    var iv := Interval(video.rate, DenseFps);
    SampledCount(dense, video.frames, video.rate, iv);
    SampledAreGenuine(dense, video.frames, video.rate, iv);
  }

  /**
   * `np.linspace(0, n - 1, 10, dtype=int)` for `n` frames: the ten positions `k * (n - 1) / 9`
   * truncated to integers.
   */
  function UniformIndices(n: nat): (idx: seq<nat>)
    requires n > 0
    ensures |idx| == IntervalCount
  {
    seq(IntervalCount, k requires 0 <= k < IntervalCount => (k * (n - 1)) / (IntervalCount - 1))
  }

  /** The positions start at the first frame, end at the last, stay in range and never go back. */
  lemma UniformIndicesSpan(n: nat)
    requires n > 0
    ensures var idx := UniformIndices(n);
      && idx[0] == 0 && idx[IntervalCount - 1] == n - 1
      && (forall q :: 0 <= q < |idx| ==> idx[q] < n)
      && (forall p, q :: 0 <= p <= q < |idx| ==> idx[p] <= idx[q])
  {
    var idx := UniformIndices(n);
    assert idx[IntervalCount - 1] == (9 * (n - 1)) / 9;
    forall p, q | 0 <= p <= q < |idx|
      ensures idx[p] <= idx[q] && idx[q] < n
    {
      MulMono(p, q, n - 1);
      MulMono(q, 9, n - 1);
      DivMono(p * (n - 1), q * (n - 1), 9);
      DivMono(q * (n - 1), 9 * (n - 1), 9);
    }
  }

  /** With ten or more frames the positions are pairwise distinct. */
  lemma UniformIndicesDistinct(n: nat)
    requires n >= 10
    ensures Increasing(UniformIndices(n))
  {
    var idx := UniformIndices(n);
    forall p, q | 0 <= p < q < |idx|
      ensures idx[p] < idx[q]
    {
      var m := n - 1;
      MulMono(p + 1, q, m);
      MulSucc(p, m);
      DivMono(p * m + 9, q * m, 9);
      DivUnique(p * m + 9, 9, p * m / 9 + 1, p * m % 9);
    }
  }

  /** With fewer than ten frames positions repeat: five frames give 0, 0, 0, 1, 1, 2, 2, 3, 3, 4. */
  lemma UniformIndicesRepeat()
    ensures UniformIndices(5) == [0, 0, 0, 1, 1, 2, 2, 3, 3, 4]
  {
  }

  /**
   * `np.mean(cv2.absdiff(a, b))` for two frames of one video. All frames of one decoded video
   * share their shape; a pair of different shapes, or of empty frames, is scored 0.
   */
  function FrameDiff(a: Frame, b: Frame): (d: real)
    ensures 0.0 <= d <= 255.0
    ensures a.height == b.height && a.width == b.width && a.height * a.width > 0 ==>
      (d == 0.0 <==> a == b)
  {
    if a.height == b.height && a.width == b.width && a.height * a.width > 0 then MeanAbsDiff(a, b)
    else 0.0
  }

  /** Every frame of the video has one and the same non-empty shape, as decoding gives. */
  predicate UniformShape(video: Video) {
    && |video.frames| > 0
    && video.frames[0].height * video.frames[0].width > 0
    && forall k :: 0 <= k < |video.frames| ==>
         video.frames[k].height == video.frames[0].height && video.frames[k].width == video.frames[0].width
  }

  /**
   * On a video whose frames share one non-empty shape, the fallback score is never taken:
   * any two of its frames are scored by the mean absolute difference, 0 only when equal.
   */
  lemma UniformShapeScoresExactly(video: Video, i: nat, j: nat)
    requires UniformShape(video) && i < |video.frames| && j < |video.frames|
    ensures FrameDiff(video.frames[i], video.frames[j]) == MeanAbsDiff(video.frames[i], video.frames[j])
    ensures FrameDiff(video.frames[i], video.frames[j]) == 0.0 <==> video.frames[i] == video.frames[j]
  {
    var a := video.frames[i];
    assert a.height == video.frames[0].height && a.width == video.frames[0].width;
    assert a.height * a.width > 0;
  }

  /** The representatives followed by the evenly spaced frames, ordered by timestamp. */
  function Concatenated(reps: seq<TimedFrame<Frame>>, all: seq<TimedFrame<Frame>>)
    : (merged: seq<TimedFrame<Frame>>)
    requires |all| > 0
    ensures |merged| == |reps| + IntervalCount
    ensures Chronological(merged)
    ensures multiset(merged) == multiset(reps) + multiset(Pick(all, UniformIndices(|all|)))
  {
    UniformIndicesSpan(|all|);
    SortByTime(reps + Pick(all, UniformIndices(|all|)))
  }

  /**
   * `get_filtered_frames(video_id, directory, max_frames)` after the file lookup. The
   * 1 fps list is indexed by `np.linspace`, which fails on an empty list.
   */
  function GetFilteredFrames(video: Video, maxFrames: int, kmeans: Clusterer, entropy: Scorer)
    : (r: Result<seq<TimedFrame<Frame>>>)
    ensures r.Err? <==> video.rate == 0.0 || maxFrames < 1 || maxFrames > DenseCount(video)
    ensures r.Ok? ==> MinFrames <= |r.value| <= maxFrames + IntervalCount
    ensures r.Ok? ==> Chronological(r.value)
  {
    var reps :- DistinctFrames(video, maxFrames, kmeans, entropy);
    SparseNonEmpty(video);
    var all := ExtractFrames(video.frames, video.rate, SparseFps).value;
    if |all| == 0 then Err(IndexOutOfRange)
    else
      var merged := Concatenated(reps, all);
      var out := RemoveSimilarFramesClamped(merged, FrameDiff, DedupThreshold, true, MinFrames);
      DedupNoLonger(merged, out);
      out
  }

  /**
   * The merged list always holds at least ten frames, so the pipeline never reaches the
   * unguarded backfill failure: the guarded pass it uses returns what the source returns.
   */
  lemma PipelineDedupUnguardedAgrees(video: Video, maxFrames: int, kmeans: Clusterer, entropy: Scorer)
    requires GetFilteredFrames(video, maxFrames, kmeans, entropy).Ok?
    ensures DistinctFrames(video, maxFrames, kmeans, entropy).Ok?
    ensures ExtractFrames(video.frames, video.rate, SparseFps).Ok?
    ensures |ExtractFrames(video.frames, video.rate, SparseFps).value| > 0
    ensures var merged := Concatenated(DistinctFrames(video, maxFrames, kmeans, entropy).value,
                                       ExtractFrames(video.frames, video.rate, SparseFps).value);
      && |merged| >= IntervalCount
      && RemoveSimilarFrames(merged, FrameDiff, DedupThreshold, true, MinFrames).Ok?
      && GetFilteredFrames(video, maxFrames, kmeans, entropy)
           == RemoveSimilarFrames(merged, FrameDiff, DedupThreshold, true, MinFrames)
  {
    var reps, all := Stages(video, maxFrames, kmeans, entropy);
    var merged := Concatenated(reps, all);
    assert |merged| >= IntervalCount;
  }

  /** A video with a known frame rate and at least one frame has a non-empty 1 fps sampling. */
  lemma SparseNonEmpty(video: Video)
    requires video.rate != 0.0 && DenseCount(video) >= 1
    ensures ExtractFrames(video.frames, video.rate, SparseFps).Ok?
    ensures |ExtractFrames(video.frames, video.rate, SparseFps).value| > 0
  {
    var iv := Interval(video.rate, DenseFps);
    if |video.frames| == 0 {
      DivFromBounds(iv - 1, 0, iv);
    }
  }

  lemma DedupNoLonger(merged: seq<TimedFrame<Frame>>, out: Result<seq<TimedFrame<Frame>>>)
    requires out.Ok? ==> multiset(out.value) <= multiset(merged)
    ensures out.Ok? ==> |out.value| <= |merged|
  {
    if out.Ok? {
      var a, b := multiset(out.value), multiset(merged);
      assert b == a + (b - a);
    }
  }

  /** Every frame returned was decoded from the video, with timestamp `index / frame_rate`. */
  lemma FilteredFramesAreGenuine(video: Video, maxFrames: int, kmeans: Clusterer, entropy: Scorer)
    requires GetFilteredFrames(video, maxFrames, kmeans, entropy).Ok?
    ensures forall x :: x in GetFilteredFrames(video, maxFrames, kmeans, entropy).value ==>
      Genuine(video.frames, video.rate, x)
  {
    var reps, all := Stages(video, maxFrames, kmeans, entropy);
    var merged := Concatenated(reps, all);
    MergedAreGenuine(video, reps, all);
    var out := GetFilteredFrames(video, maxFrames, kmeans, entropy).value;
    forall x | x in out
      ensures Genuine(video.frames, video.rate, x)
    {
      assert x in multiset(merged);
    }
  }

  /** The two intermediate lists of a run that succeeds. */
  lemma Stages(video: Video, maxFrames: int, kmeans: Clusterer, entropy: Scorer)
    returns (reps: seq<TimedFrame<Frame>>, all: seq<TimedFrame<Frame>>)
    requires GetFilteredFrames(video, maxFrames, kmeans, entropy).Ok?
    ensures DistinctFrames(video, maxFrames, kmeans, entropy) == Ok(reps)
    ensures ExtractFrames(video.frames, video.rate, SparseFps) == Ok(all)
    ensures |all| > 0 && video.rate != 0.0
    ensures GetFilteredFrames(video, maxFrames, kmeans, entropy)
      == RemoveSimilarFramesClamped(Concatenated(reps, all), FrameDiff, DedupThreshold, true, MinFrames)
  {
    reps := DistinctFrames(video, maxFrames, kmeans, entropy).value;
    SparseNonEmpty(video);
    all := ExtractFrames(video.frames, video.rate, SparseFps).value;
  }

  /** Both the representatives and the evenly spaced frames come from the decoder. */
  lemma MergedAreGenuine(video: Video, reps: seq<TimedFrame<Frame>>, all: seq<TimedFrame<Frame>>)
    requires forall x :: x in reps ==> Genuine(video.frames, video.rate, x)
    requires ExtractFrames(video.frames, video.rate, SparseFps) == Ok(all) && |all| > 0
    ensures forall x :: x in Concatenated(reps, all) ==> Genuine(video.frames, video.rate, x)
  {
    assert forall x :: x in all ==> Genuine(video.frames, video.rate, x) by {
      SparseAreGenuine(video, all);
    }
    assert forall x :: x in Concatenated(reps, all) ==> x in reps || x in all by {
      MergedFromInputs(reps, all);
    }
  }

  /** Every merged frame is a representative or one of the evenly spaced frames. */
  lemma MergedFromInputs(reps: seq<TimedFrame<Frame>>, all: seq<TimedFrame<Frame>>)
    requires |all| > 0
    ensures forall x :: x in Concatenated(reps, all) ==> x in reps || x in all
  {
    var merged := Concatenated(reps, all);
    var picked := Pick(all, UniformIndices(|all|));
    UniformIndicesSpan(|all|);
    forall x | x in merged
      ensures x in reps || x in all
    {
      assert x in multiset(merged);
      if x !in multiset(reps) {
        assert x in multiset(picked);
        var q :| 0 <= q < |picked| && picked[q] == x;
      }
    }
  }

  lemma SparseAreGenuine(video: Video, all: seq<TimedFrame<Frame>>)
    requires ExtractFrames(video.frames, video.rate, SparseFps) == Ok(all)
    ensures forall x :: x in all ==> Genuine(video.frames, video.rate, x)
  {
    SampledAreGenuine(all, video.frames, video.rate, Interval(video.rate, SparseFps));
  }

  /**
   * For a positive frame rate the opening frame, at timestamp 0, is always returned: the
   * evenly spaced frames start with it, nothing sorts before it, and the similarity pass
   * always keeps its first input.
   */
  lemma FirstFrameSurvives(video: Video, maxFrames: int, kmeans: Clusterer, entropy: Scorer)
    requires GetFilteredFrames(video, maxFrames, kmeans, entropy).Ok? && video.rate > 0.0
    ensures |video.frames| > 0
    ensures TimedFrame(video.frames[0], 0.0) in GetFilteredFrames(video, maxFrames, kmeans, entropy).value
  {
    var reps, all := Stages(video, maxFrames, kmeans, entropy);
    MergedAreGenuine(video, reps, all);
    var first := MergedStartsAtZero(video, reps, all);
  }

  /** The merged list of a video with positive frame rate opens with frame 0 at timestamp 0. */
  lemma MergedStartsAtZero(video: Video, reps: seq<TimedFrame<Frame>>, all: seq<TimedFrame<Frame>>)
    returns (first: TimedFrame<Frame>)
    requires video.rate > 0.0
    requires ExtractFrames(video.frames, video.rate, SparseFps) == Ok(all) && |all| > 0
    requires forall x :: x in Concatenated(reps, all) ==> Genuine(video.frames, video.rate, x)
    ensures |video.frames| > 0 && first == TimedFrame(video.frames[0], 0.0)
    ensures Concatenated(reps, all)[0] == first
  {
    var merged := Concatenated(reps, all);
    SampledEvery0(all, video.frames, video.rate, Interval(video.rate, SparseFps));
    first := all[0];
    UniformIndicesSpan(|all|);
    assert Pick(all, UniformIndices(|all|))[0] == first;
    assert first in multiset(merged);
    var p :| 0 <= p < |merged| && merged[p] == first;
    assert merged[0].time <= merged[p].time;
    assert merged[0] in merged;
    GenuineAtZero(video.frames, video.rate, merged[0]);
  }

  /** With a positive rate only frame 0 has a timestamp at or before 0. */
  lemma GenuineAtZero<F>(decoded: seq<F>, rate: real, tf: TimedFrame<F>)
    requires rate > 0.0 && Genuine(decoded, rate, tf) && tf.time <= 0.0
    ensures |decoded| > 0 && tf == TimedFrame(decoded[0], 0.0)
  {
    var i :| 0 <= i < |decoded| && rate != 0.0 && tf == TimedFrame(decoded[i], i as real / rate);
  }

  lemma SampledEvery0<F>(out: seq<TimedFrame<F>>, decoded: seq<F>, rate: real, iv: nat)
    requires SampledEvery(out, decoded, rate, iv) && |out| > 0
    ensures |decoded| > 0 && out[0] == TimedFrame(decoded[0], 0.0)
  {
    assert out[0] == TimedFrame(decoded[0 * iv], (0 * iv) as real / rate);
  }
}
