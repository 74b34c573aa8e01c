# Frame selection for VALOR32K-AVQA question generation — a Dafny model

This project models the deterministic core of the dataset-generation scripts of
VALOR32K-AVQA v2. The core is the frame-selection pipeline of `code/selecting_frames.py`,
which picks a small, time-ordered, visually varied set of frames from a video:

- **Extraction** (`extract_frames`) keeps every `interval`-th decoded frame with timestamp
  `index / frame_rate`.
- **Histograms** (`calculate_histograms`, `calculate_block_histograms`,
  `calculate_combined_histograms`) compute 8x8x8-bin colour histograms of the whole frame
  and of an N x N grid of blocks.
- **Clustering** (`select_representative_frames`) picks the best-scoring member of each
  KMeans cluster and orders the picks by time.
- **Dedup** (`remove_similar_frames`) drops frames too close to the last kept frame. It can
  use a running-average threshold, and it backfills the most different removed frames up to
  `min_frames`.
- **Pipeline** (`get_distinct_frames`, `get_filtered_frames`) merges the representatives
  with ten evenly spaced frames, sorts the result by time and deduplicates it.

The model also covers two small pure cores:

- the AudioSet label rewriting of `code/audioset/utils.py`;
- the rules inside the question-generation loop of `code/gpt4o-data-generation.py`:
  - the video queue;
  - the user message;
  - the JSON brace span;
  - `oid` allocation;
  - question numbering;
  - re-indexing the correct answer after a shuffle.

Modules, leaves first:

- `Results`: `Result`/`Option` types and the Python exceptions the code can raise.
- `Arith`, `Seqs`: arithmetic facts and sequence helpers.
- `Sorting`: a stable sort by a real key. It stands in for `np.argsort` and for
  `list.sort`.
- `Timeline`: a frame paired with its timestamp. The source's parallel `frames` and
  `timestamps` lists become one list of pairs, so "equal length" holds by construction.
- `Images`: frames as `height x width` grids of three 8-bit channels, and
  `np.mean(cv2.absdiff(a, b))`.
- `Extraction`, `Histograms`, `Clustering`, `Dedup`, `Pipeline`: the five pieces above.
- `AudiosetLabels`: `replace_by_class_names`.
- `Generation`: the rules of the generation loop.

External collaborators become parameters:

- the decoder is a given sequence of frames plus the frame rate it reports;
- the KMeans labels are a function `Clusterer` of the feature vectors, `k` and the position;
- the entropy score is an uninterpreted `Scorer`;
- the frame difference used by `Dedup` is a parameter `diff`. The pipeline instantiates it
  with the concrete `Images.MeanAbsDiff`;
- the order produced by `random.shuffle` is a parameter, constrained only to be a
  permutation.

Thresholds, timestamps and scores are exact `real`s.

Some behaviour of the code is easy to misread. The model follows the code:

- The interval is `max(1, int(rate / fps))`, which truncates instead of rounding
  (`Extraction.IntervalTruncates`).
- KMeans is called with `num_clusters` unclamped. A count outside `[1, number of frames]`
  is an error (`InvalidClusterCount`), not a reduced `k`.
- The output of `get_filtered_frames` is only nondecreasing in time, not strictly
  increasing. Frame 0 at time 0 can be both a representative and the first evenly
  spaced frame. The backfill can re-admit that duplicate.
- An empty input to `remove_similar_frames` raises `IndexError` at `frames[0]`.

## Model

| member | source | states |
|---|---|---|
| Extraction.Trunc | code/selecting_frames.py:18 | `int(x)` truncates toward zero: the result is within one of `x`, on the zero side |
| Extraction.Interval | code/selecting_frames.py:18 | the sampling interval is always at least 1; when `rate / fps >= 1` it is the whole part of `rate / fps`, and below 2 it is exactly 1 |
| Extraction.IntervalTruncates | code/selecting_frames.py:18 | a 29.97 fps video sampled at 1 fps keeps every 29th frame, so the interval truncates rather than rounds |
| Extraction.Sample | code/selecting_frames.py:20-30 | after `count` reads, the kept list holds output `k` = decoded frame `k * interval` with timestamp `k * interval / rate`, and no multiple of the interval below `count` is missed |
| Extraction.ExtractFrames | code/selecting_frames.py:13-33 | fails exactly when `fps` is 0 or the rate is 0 with a frame to timestamp; otherwise returns exactly the frames at multiples of the interval, each paired with `index / rate` |
| Extraction.KeptIffMultiple | code/selecting_frames.py:26-29 | decoded frame `i` is kept if and only if `i % interval == 0`, and it is then output number `i / interval` with timestamp `i / rate` |
| Extraction.SampledCount | code/selecting_frames.py:20-30 | the number of kept frames is `ceil(n / interval)` |
| Extraction.SampleStrictlyIncreasing | code/selecting_frames.py:26-29 | with a positive frame rate the kept timestamps strictly increase |
| Extraction.SampledAreGenuine | code/selecting_frames.py:26-29 | every kept pair is some decoded frame `i` with timestamp `i / rate` |
| Images.PixelDiff | code/selecting_frames.py:168 | the per-pixel absolute difference summed over the three channels is at most 765 and is 0 exactly for equal pixels |
| Images.GridDiff | code/selecting_frames.py:168 | the summed absolute difference of two equal-shaped grids is bounded by 765 per pixel and is 0 exactly for equal grids |
| Images.MeanAbsDiff | code/selecting_frames.py:168-170 | `np.mean(cv2.absdiff(a, b))` lies in `[0, 255]` and is 0 exactly when the frames are identical |
| Images.MeanAbsDiffSymmetric | code/selecting_frames.py:168 | the mean absolute difference does not depend on argument order |
| Histograms.BinOf | code/selecting_frames.py:39 | a pixel `(a, b, c)` falls in the bin whose three coordinates are `a / 32`, `b / 32`, `c / 32`, one of 512 |
| Histograms.Histogram | code/selecting_frames.py:39 | a 512-bin histogram whose bin `k` counts exactly the pixels whose bin is `k` |
| Histograms.GlobalHistogram | code/selecting_frames.py:39 | the global histogram of a frame has 512 bins and counts every one of its `height * width` pixels exactly once |
| Histograms.SinglePixelBin | code/selecting_frames.py:39 | one pixel puts a single count in bin `64 * (a / 32) + 8 * (b / 32) + c / 32` and nothing elsewhere |
| Histograms.HistogramTotal | code/selecting_frames.py:39 | the raw bins of a pixel list add up to its length |
| Histograms.Block | code/selecting_frames.py:78 | block `(i, j)` is `bh x bw` and its cell `(r, c)` is frame cell `(i * bh + r, j * bw + c)` |
| Histograms.BlockSeries | code/selecting_frames.py:76-81 | the block histograms are concatenated i-outer, j-inner: slice `b` of 512 bins is the histogram of block `(b / n, b % n)` |
| Histograms.BlockFeature | code/selecting_frames.py:48-59 | a negative block count gives no blocks; a positive `n` gives `512 * n * n` bins |
| Histograms.CombinedFeature | code/selecting_frames.py:84 | a combined feature holds `512 * (1 + n * n)` bins for `n > 0` and 512 for `n < 0`, and its first 512 bins count every pixel of the frame once |
| Histograms.CalculateHistograms | code/selecting_frames.py:36-42 | one 512-bin histogram per frame, whose bins add up to the frame's `height * width` |
| Histograms.CalculateBlockHistograms | code/selecting_frames.py:45-61 | `h // 0` fails exactly when `num_blocks` is 0 and there is a frame; otherwise one feature of `512 * n * n` bins per frame |
| Histograms.CalculateCombinedHistograms | code/selecting_frames.py:64-86 | each combined feature is that frame's global histogram followed by its block histograms, of length `512 * (1 + n * n)`, with the same failure condition |
| Histograms.BlockTotal | code/selecting_frames.py:78-79 | the unnormalised counts of a block add up to `bh * bw` |
| Histograms.OneBlockIsGlobal | code/selecting_frames.py:71-81 | with `num_blocks = 1` the block feature equals the global histogram |
| Histograms.BlocksDisjoint | code/selecting_frames.py:76-78 | no cell lies in two different blocks |
| Histograms.BlocksInsideFrame | code/selecting_frames.py:71-78 | every block of the grid with sizes `h // n`, `w // n` lies inside the frame |
| Histograms.BlockCoverage | code/selecting_frames.py:71-81 | every cell of the `n * bh` by `n * bw` area lies in block `(r / bh, c / bw)`; leftover rows and columns lie in no block |
| Clustering.Members | code/selecting_frames.py:97 | `np.where(labels == c)` lists only positions labelled `c` |
| Clustering.MembersIncreasing | code/selecting_frames.py:97 | `np.where` lists the positions in increasing order |
| Clustering.MembersComplete | code/selecting_frames.py:97 | every position labelled `c` is listed |
| Clustering.ArgMax | code/selecting_frames.py:103 | `np.argmax` returns a position of the maximum, and no earlier position holds it |
| Clustering.Best | code/selecting_frames.py:99-103 | the chosen frame of a non-empty cluster carries that cluster's label |
| Clustering.BestIsBest | code/selecting_frames.py:96-103 | the chosen frame scores highest in its cluster and is the earliest of the top scorers |
| Clustering.ClusterPicks | code/selecting_frames.py:96-105 | every pick is a valid position whose label lies in `[0, k)` |
| Clustering.ClusterPicksBound | code/selecting_frames.py:96-98 | at most `k` representatives are picked |
| Clustering.ClusterPicksOrdered | code/selecting_frames.py:96-105 | the picks' labels strictly increase, so each cluster contributes at most one pick |
| Clustering.ClusterPicksAreBest | code/selecting_frames.py:96-105 | every pick is the highest-scoring, earliest member of its cluster |
| Clustering.ClusterPicksCover | code/selecting_frames.py:96-105 | every non-empty cluster below `k` contributes a pick |
| Clustering.SelectRepresentatives | code/selecting_frames.py:90-120 | fails exactly when `k` is outside `[1, n]`; otherwise returns at most `k` pairs, ordered by timestamp, forming a permutation of the cluster picks |
| Clustering.RepresentativesAreInputs | code/selecting_frames.py:99-110 | every representative is one of the clustered frame/timestamp pairs |
| Sorting.SortBy | code/selecting_frames.py:190-192 | the result is a permutation of the input, ordered by the key |
| Sorting.SortByIsStable | code/selecting_frames.py:183 | equal keys keep their input order, as Python's stable sort does |
| Sorting.SortByConstantKey | code/selecting_frames.py:183 | when all keys are equal, sorting changes nothing |
| Timeline.SortByTime | code/selecting_frames.py:108-110 | reindexing both lists by `np.argsort(timestamps)` yields a permutation of the pairs with nondecreasing timestamps |
| Dedup.LastBelow | code/selecting_frames.py:168 | `filtered_frames[-1]` when position `i` is examined is the last kept position below `i`: every position kept after it is `i` or later |
| Dedup.ScanUpTo | code/selecting_frames.py:161-179 | the pass always keeps position 0 first, and only keeps positions it has scanned |
| Dedup.NextThreshold | code/selecting_frames.py:172-173 | without `dynamic` the threshold is unchanged; with it, the new threshold lies between the old one and the score divided by 255, and it moves exactly when those two differ |
| Dedup.Keeps | code/selecting_frames.py:175 | a frame is kept iff its score divided by 255 exceeds the threshold, so a zero score is never kept under a non-negative threshold |
| Dedup.DynamicTestMatchesPrevious | code/selecting_frames.py:172-175 | testing `d > t' * 255` after the update `t' = (t + d / 255) / 2` decides the same as `d > t * 255` with the old `t` |
| Dedup.ThresholdStaysInUnit | code/selecting_frames.py:172-173 | a starting threshold in `[0, 1]` and scores in `[0, 255]` keep the running threshold in `[0, 1]` |
| Dedup.StaticThresholdFixed | code/selecting_frames.py:172-173 | without `dynamic` the threshold never changes |
| Dedup.ScanCount | code/selecting_frames.py:166-179 | kept plus removed count the scanned frames exactly |
| Dedup.ScanKeptIncreasing | code/selecting_frames.py:166-177 | kept positions strictly increase |
| Dedup.ScanRemovals | code/selecting_frames.py:178-179 | each removal record carries its input frame and timestamp; removals are recorded in input order |
| Dedup.ScanDisjoint | code/selecting_frames.py:175-179 | no position is both kept and removed |
| Dedup.ScanCovers | code/selecting_frames.py:166-179 | every scanned position is kept or removed |
| Dedup.ScanMultiset | code/selecting_frames.py:161-179 | together, the kept and removed entries are exactly the scanned input entries |
| Dedup.ScanStep | code/selecting_frames.py:166-179 | one iteration scores the frame against the last kept frame, updates the threshold, and either appends the frame to the kept list or records it as removed with that score |
| Dedup.RemovedAgainstLastKept | code/selecting_frames.py:168-179 | each removal was scored against the last frame kept before it, not the previous input frame, and failed the threshold in force then |
| Dedup.KeptAgainstLastKept | code/selecting_frames.py:168-177 | each kept frame after the first passed the threshold against the frame kept just before it |
| Dedup.Backfill | code/selecting_frames.py:183-187 | exactly `min_frames - kept` removed entries come back, all drawn from the removals; which ones is stated over this function by `Dedup.BackfillTakesMostDifferent` |
| Dedup.BackfillTakesMostDifferent | code/selecting_frames.py:183-186 | the backfill is the items of `need` removals that, in the order returned, each rank ahead of every later one and of every removal left out: a higher score, or an equal score and an earlier removal |
| Dedup.BackfillEqualScores | code/selecting_frames.py:183 | with equal scores the backfill takes removals in removal order |
| Dedup.Restore | code/selecting_frames.py:181-187 | the result is the kept frames, in kept order, followed by exactly the `min_frames - kept` backfilled removals when that is positive; `max(kept, min_frames)` long |
| Dedup.Survivors | code/selecting_frames.py:161-187 | before sorting, the result is the frames the full pass kept, in order, followed by the backfill of its removals for the shortfall; it starts with the first input frame, is a sub-multiset of the input and has `max(kept, min_frames)` entries |
| Dedup.RemoveSimilarFrames | code/selecting_frames.py:160-193 | fails exactly on empty input or `min_frames > n`; otherwise returns `max(kept, min_frames)` entries in time order, a sub-multiset of the input that contains the first frame, and exactly the kept frames plus the backfilled removals up to order |
| Dedup.RemoveSimilarFramesRestoresMostDifferent | code/selecting_frames.py:160-193 | a successful result is, up to order, the kept frames plus `min_frames - kept` removals that each rank ahead of every removal not restored |
| Dedup.EnoughKeptNoBackfill | code/selecting_frames.py:181-192 | when the pass keeps at least `min_frames`, the output is the kept frames sorted by time |
| Dedup.IdenticalFramesKeepOnlyFirst | code/selecting_frames.py:161-179 | on identical frames the pass keeps only the first and removes the rest in order, each with score 0 |
| Dedup.IdenticalFramesBackfillToFive | code/selecting_frames.py:160-193 | identical frames at threshold 0.08, dynamic, `min_frames = 5` give the first five frames |
| Dedup.RemoveSimilarFramesClamped | code/selecting_frames.py:181-187 | the guarded backfill fails only on empty input, returns `max(kept, min(min_frames, n))` frames, and equals the unguarded result whenever `min_frames <= n` |
| Dedup.ShortInputBackfillFails | code/selecting_frames.py:184-186 | one frame with `min_frames = 5` raises as written; the guarded version returns the frame |
| Pipeline.DistinctFrames | code/selecting_frames.py:124-129 | fails exactly on a zero rate or a cluster count outside `[1, dense frames]`; otherwise returns at most `max_frames` decoded frames in time order |
| Pipeline.DenseFacts | code/selecting_frames.py:125 | the 10 fps sampling has `ceil(n / interval)` frames, all really decoded |
| Pipeline.UniformIndices | code/selecting_frames.py:206 | `np.linspace(0, n - 1, 10, dtype=int)` yields ten positions |
| Pipeline.UniformIndicesSpan | code/selecting_frames.py:206 | the positions start at 0, end at `n - 1`, lie in range and are nondecreasing |
| Pipeline.UniformIndicesDistinct | code/selecting_frames.py:206 | with at least ten frames the positions strictly increase |
| Pipeline.UniformIndicesRepeat | code/selecting_frames.py:206 | with five frames the positions are 0,0,0,1,1,2,2,3,3,4 |
| Pipeline.UniformShapeScoresExactly | code/selecting_frames.py:168-170 | on a video whose frames share one non-empty shape, any two frames are scored by the mean absolute difference, 0 exactly when they are equal |
| Pipeline.FrameDiff | code/selecting_frames.py:168-170 | the score lies in `[0, 255]`; for equal-shaped non-empty frames it is 0 exactly when they are identical |
| Pipeline.Concatenated | code/selecting_frames.py:207-213 | the merged list has `len(reps) + 10` entries in time order and is a permutation of the representatives plus the evenly spaced frames |
| Pipeline.MergedFromInputs | code/selecting_frames.py:207-213 | every merged frame is a representative or an evenly spaced frame |
| Pipeline.GetFilteredFrames | code/selecting_frames.py:196-218 | fails exactly as `DistinctFrames` does; otherwise returns between 5 and `max_frames + 10` frames in time order |
| Pipeline.SparseNonEmpty | code/selecting_frames.py:205-206 | when the dense pass produced a frame, the 1 fps pass is non-empty, so `linspace` indexing is safe |
| Pipeline.FilteredFramesAreGenuine | code/selecting_frames.py:196-218 | every returned pair is a decoded frame `i` with timestamp `i / rate` |
| Pipeline.MergedStartsAtZero | code/selecting_frames.py:206-213 | with a positive rate the merged list opens with frame 0 at time 0 |
| Pipeline.FirstFrameSurvives | code/selecting_frames.py:206-216 | with a positive rate, frame 0 at time 0 is always in the final output |
| Pipeline.PipelineDedupUnguardedAgrees | code/selecting_frames.py:210-216 | on a successful run, the merged list `Concatenated` builds from the representatives and the 1 fps frames is at least ten long, so the source's unguarded dedup succeeds on it and returns exactly the pipeline's output |
| AudiosetLabels.Split | code/audioset/utils.py:10 | `str.split(",")` returns at least one part |
| AudiosetLabels.SplitPartsFree | code/audioset/utils.py:10 | no part contains a comma |
| AudiosetLabels.SplitCount | code/audioset/utils.py:10 | there is one more part than there are commas |
| AudiosetLabels.Join | code/audioset/utils.py:14 | the joined string opens with the first part; with `SplitJoin` and `JoinSplit` it is the inverse of `Split` on comma-free parts |
| AudiosetLabels.SplitJoin | code/audioset/utils.py:10 | joining the parts with "," gives back the string |
| AudiosetLabels.JoinSplit | code/audioset/utils.py:14 | comma-free parts joined with "," split back into the same parts |
| AudiosetLabels.BuildMapping | code/audioset/utils.py:5 | `dict(zip(mid, display_name))` has exactly the ids of the paired rows as keys |
| AudiosetLabels.MappingLastWins | code/audioset/utils.py:5 | a repeated id maps to the display name on its last row |
| AudiosetLabels.Lookup | code/audioset/utils.py:12 | a known id becomes its display name; an unknown id passes through unchanged |
| AudiosetLabels.ReplaceLabels | code/audioset/utils.py:8-14 | the rewritten cell opens with the first id's display name, and an empty cell becomes the lookup of the one id "". Its full behaviour is stated by `ReplaceLabelsSplitsBack`, `UnknownIdsOnlyRespace` and `CommaNameAddsParts` |
| AudiosetLabels.UnknownIdsOnlyRespace | code/audioset/utils.py:8-14 | with no id known, the cell comes back with every "," turned into ", ", which is not the identity |
| AudiosetLabels.ReplaceLabelsSplitsBack | code/audioset/utils.py:8-14 | when no display name contains a comma, the output re-splits on "," into one part per input id, in order: the first is the id's lookup, and each later one is that lookup after the added space |
| AudiosetLabels.CommaNameAddsParts | code/audioset/utils.py:8-14 | a single known id whose display name holds commas re-splits into one more part per comma, so the one-part-per-id promise needs comma-free names |
| AudiosetLabels.CommaNameExample | code/audioset/utils.py:8-14 | one id named "a, b" gives a cell that re-splits into two parts |
| AudiosetLabels.ReplaceByClassNames | code/audioset/utils.py:3-18 | a missing column raises; otherwise only the coded column changes, each cell is rewritten, and the row count and other columns are unchanged |
| Generation.DropDuplicateIds | code/gpt4o-data-generation.py:38 | every kept row is an input row whose video was not seen earlier |
| Generation.DropDuplicateIdsDistinct | code/gpt4o-data-generation.py:38 | no video appears twice after `drop_duplicates` |
| Generation.DropDuplicateIdsInOrder | code/gpt4o-data-generation.py:38 | the surviving rows are picked from the input at strictly increasing positions, so input order is kept |
| Generation.DropDuplicateIdsKeepsFirst | code/gpt4o-data-generation.py:38 | the first row of every video survives |
| Generation.Pending | code/gpt4o-data-generation.py:87 | the queue holds only rows whose video is in neither the processed set nor the failed set |
| Generation.PendingComplete | code/gpt4o-data-generation.py:87 | every row whose video is in neither set stays in the queue |
| Generation.FailedVideos | code/gpt4o-data-generation.py:67-70 | the failed set is exactly the videos named in the error log |
| Generation.UserContent | code/gpt4o-data-generation.py:97-114 | the content holds `min(10, n)` low-detail image entries followed by the prompt as its last entry |
| Generation.UserContentCarries | code/gpt4o-data-generation.py:99-114 | the attached images are the first `min(10, n)` frames in order, and the prompt is the only text entry |
| Generation.Find | code/gpt4o-data-generation.py:143 | `find` returns the first position of the character, or -1 exactly when it is absent |
| Generation.RFind | code/gpt4o-data-generation.py:144 | `rfind` returns the last position of the character, or -1 exactly when it is absent |
| Generation.BraceSpan | code/gpt4o-data-generation.py:142-148 | the no-JSON branch is taken exactly when either brace is missing; a non-empty span starts with `{` and ends with `}` |
| Generation.BraceSpanWrapped | code/gpt4o-data-generation.py:143-148 | an object with brace-free text before it and no `}` after it is extracted whole |
| Generation.BraceSpanReversed | code/gpt4o-data-generation.py:143-148 | for every string holding both braces, the span is the empty string (not an error) exactly when every `}` stands before every `{` |
| Generation.Get | code/gpt4o-data-generation.py:152-153 | lookup of a video's oid finds an existing entry, or none exactly when the video is absent |
| Generation.MaxOid | code/gpt4o-data-generation.py:155 | `max(values, default=-1)` bounds every oid and is one of them, or -1 for an empty table |
| Generation.AllocateOid | code/gpt4o-data-generation.py:152-157 | a known video keeps its oid and the table; a new video gets one more than an existing oid and above every existing one, that is the maximum plus one, and 0 in an empty table |
| Generation.AllocationPreservesTable | code/gpt4o-data-generation.py:152-157 | afterwards the video maps to the returned oid and no other entry changes; distinct keys and distinct oids are preserved |
| Generation.MaxOr | code/gpt4o-data-generation.py:75 | `max(ids, default=0)` bounds every id and is one of them, or 0 when there are none |
| Generation.LastQuestionId | code/gpt4o-data-generation.py:72-75 | the starting counter is the largest saved question id: at least every saved id and one of them, or 0 when none is saved |
| Generation.IndexOf | code/gpt4o-data-generation.py:172 | `options.index(x)` returns the first position holding `x` |
| Generation.Reshuffle | code/gpt4o-data-generation.py:168-175 | fails exactly when the correct index is outside `[-len, len)`; otherwise the options are the shuffled list, and the new index points to the originally correct text |
| Generation.ReshuffleFirstCopy | code/gpt4o-data-generation.py:172 | with repeated option texts the new index points to the first copy |
| Generation.NumberQuestions | code/gpt4o-data-generation.py:165-175 | a complete pass advances the counter by the number of questions; a failing pass still consumes at least one id |
| Generation.NumberQuestionsStopsAtFailure | code/gpt4o-data-generation.py:165-175 | a failing pass stops at the first question whose correct index is out of range: the questions before it are numbered, the error is an index error, and the counter keeps the id stamped on the failing question |
| Generation.NumberQuestionsConsecutive | code/gpt4o-data-generation.py:165-175 | a complete pass numbers the questions `last + 1 .. last + q` in order, and each keeps its correct answer text at the new index |
| Generation.NewIdsFresh | code/gpt4o-data-generation.py:165-167 | ids handed out after starting from the saved results never equal a saved id |

## Left out

- Video decoding (`cv2.VideoCapture`, `cap.read`, `cap.release`) is not modelled: the decoder is a given frame sequence and frame rate.
- KMeans fitting is a foreign library call: the labels are an input (`Pipeline.Clusterer`, or a label sequence in `Clustering`). The fixed seed is left out with it.
- The entropy score `sum(-h * log(h + 1e-10))` uses floating point and `log`: it is the uninterpreted `Pipeline.Scorer`.
- L2 normalisation by `cv2.normalize` needs floating `sqrt`: histograms are raw counts.
- Float rounding is not modelled: timestamps, thresholds and scores are exact reals.
- Pipeline.UniformIndices: uses the exact floor of `k * (n - 1) / 9`. It does not model the float rounding inside `np.linspace`, which could truncate an exact integer quotient one lower.
- Timeline.SortByTime: `np.argsort` defaults to a quicksort that does not promise an order for equal timestamps. The model fixes one order: stable, by input position.
- Pipeline.FrameDiff: scores frames of different shapes, or empty frames, as 0. The source's `cv2.absdiff` raises on a shape mismatch, and `np.mean` of an empty array is NaN. Frames of one decoded video share one non-empty shape; `Pipeline.UniformShapeScoresExactly` shows the fallback is never taken on such a video. The pipeline functions do not require that shape, since the source does not check it.
- AudiosetLabels.ReplaceLabelsSplitsBack: the one-part-per-id promise holds only when no display name contains a comma. Real AudioSet names such as "Male speech, man speaking" do contain commas, and for them `AudiosetLabels.CommaNameAddsParts` shows the re-split cell has more parts than the input had ids.
- Histograms.BlockFeature: the model gives zero counts for a block of zero area. It does not model OpenCV's own handling of an empty block.
- `find_video_path_by_id`, `convert_frames_to_base64`, `get_base64_image_size` and `get_base64_image_dimensions` are left out: they walk the filesystem or wrap image codecs.
- The generation script's OpenAI client, retry/backoff, httpx URL rewrite, `json.load`/`json.dump` file handling and `tqdm` are left out: they are network and file I/O. `json.loads` of the reply is an input: the parsed questions.
- The JSON repair branch (code/gpt4o-data-generation.py:194-246) is left out: it is a second model call. It reuses the numbering and reshuffle rules already modelled.
- Generation.Reshuffle: the shuffle's randomness is left out; any permutation of the options is accepted. A non-integer `correct_answer_idx` (a `TypeError`) and a missing key are not modelled.
- AudiosetLabels.ReplaceByClassNames: every cell is a string. A pandas NaN cell, on which `.split` raises, is not modelled. Nor are columns of unequal length.
- code/prompt_builder.py and script.js are not part of this model: they are CSV/TSV loading, prompt templating and chart code.

## Findings

| source | as written | input that shows it | evidently intended | confidence | as-written member | corrected member |
|---|---|---|---|---|---|---|
| code/selecting_frames.py:184-186 | the backfill indexes `removed_frames[i]` for `i < min_frames - len(filtered_frames)` without checking how many frames were removed | one frame with the default `min_frames = 5` raises `IndexError` | re-admit at most the removed frames, returning `min(min_frames, n)` or more frames | high that it raises; not executed | Dedup.ShortInputBackfillFails | Dedup.RemoveSimilarFramesClamped |
