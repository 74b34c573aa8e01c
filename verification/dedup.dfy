/**
 * `remove_similar_frames`: one pass that keeps a frame only when it differs enough from
 * the last frame kept so far, an optional running-average threshold, a backfill of the
 * most different removed frames up to `min_frames`, and a final sort by timestamp.
 * The per-pair mean absolute difference is a parameter `diff`.
 */
module Dedup {
  import opened Results
  import opened Seqs
  import opened Sorting
  import opened Timeline

  /** An entry of `removed_frames`: the frame with its timestamp and its difference score,
    * together with its position in the input. */
  datatype Removal<F> = Removal(index: nat, item: TimedFrame<F>, diff: real)

  /** The loop state after a prefix of the input: positions kept, removals in order,
    * and the working threshold. */
  datatype Scan<F> = Scan(kept: seq<nat>, removed: seq<Removal<F>>, threshold: real)

  /** `np.mean([threshold, mean_diff / 255])` when `dynamic`, the unchanged threshold otherwise.
    * The new threshold lies between the old one and the score rescaled to [0, 1], and moves
    * only when the two differ. */
  function NextThreshold(t: real, d: real, dynamic: bool): (r: real)
    ensures !dynamic ==> r == t
    ensures dynamic ==> (r == t <==> d == t * 255.0)
    ensures dynamic && t <= d / 255.0 ==> t <= r <= d / 255.0
    ensures dynamic && d / 255.0 <= t ==> d / 255.0 <= r <= t
  {
    if dynamic then (t + d / 255.0) / 2.0 else t
  }

  /** `mean_diff > threshold * 255`: the score, rescaled to the threshold's [0, 1] scale,
    * exceeds the threshold. A zero score is never kept under a non-negative threshold. */
  function Keeps(d: real, t: real): (b: bool)
    ensures b <==> d / 255.0 > t
    ensures d <= 0.0 && t >= 0.0 ==> !b
  {
    d > t * 255.0
  }

  function IndexOf<F>(r: Removal<F>): int { r.index }

  function ItemOf<F>(r: Removal<F>): TimedFrame<F> { r.item }

  /** The key of `removed_frames.sort(key=..., reverse=True)`: a stable ascending sort on
    * the negated score puts the highest score first and keeps removal order on ties. */
  function NegDiff<F>(r: Removal<F>): real { -r.diff }

  /** The last kept position below `i`: the frame `filtered_frames[-1]` at the moment
    * position `i` was examined. */
  function LastBelow(kept: seq<nat>, i: int): (p: nat)
    requires |kept| > 0 && kept[0] < i
    ensures p < i && p in kept
    ensures exists k :: 0 <= k < |kept| && kept[k] == p && forall q :: k < q < |kept| ==> kept[q] >= i
    decreases |kept|
  {
    var n := |kept| - 1;
    if kept[n] < i then kept[n]
    else
      var p := LastBelow(kept[..n], i);
      assert forall q :: 0 <= q < n ==> kept[..n][q] == kept[q];
      p
  }

  /** The loop `for i in range(1, n)` run over the first `n` input frames. */
  function ScanUpTo<F>(frames: seq<TimedFrame<F>>, diff: (F, F) -> real, t0: real, dynamic: bool, n: nat)
    : (s: Scan<F>)
    requires 1 <= n <= |frames|
    ensures |s.kept| > 0 && s.kept[0] == 0
    ensures forall q :: 0 <= q < |s.kept| ==> s.kept[q] < n
    ensures |s.kept| + |s.removed| == n
    decreases n
  {
    if n == 1 then Scan([0], [], t0)
    else
      var s := ScanUpTo(frames, diff, t0, dynamic, n - 1);
      var i := n - 1;
      var d := diff(frames[i].frame, frames[s.kept[|s.kept| - 1]].frame);
      var t := NextThreshold(s.threshold, d, dynamic);
      if Keeps(d, t) then Scan(s.kept + [i], s.removed, t)
      else Scan(s.kept, s.removed + [Removal(i, frames[i], d)], t)
  }

  /** The working threshold in force when position `i` is examined. */
  function ThresholdBefore<F>(frames: seq<TimedFrame<F>>, diff: (F, F) -> real, t0: real, dynamic: bool, i: nat)
    : real
    requires 1 <= i <= |frames|
  {
    ScanUpTo(frames, diff, t0, dynamic, i).threshold
  }

  /** Updating the threshold first and then testing against it decides exactly as testing
    * against the threshold before the update. */
  lemma DynamicTestMatchesPrevious(t: real, d: real, dynamic: bool)
    ensures Keeps(d, NextThreshold(t, d, dynamic)) <==> Keeps(d, t)
  {
  }

  /** With a start threshold in `[0, 1]` and every score in `[0, 255]`, the running average
    * stays in `[0, 1]`. */
  lemma {:induction false} ThresholdStaysInUnit<F>(frames: seq<TimedFrame<F>>, diff: (F, F) -> real, t0: real,
                                                     dynamic: bool, n: nat)
    requires 1 <= n <= |frames|
    requires 0.0 <= t0 <= 1.0
    requires forall i, j :: 0 <= i < |frames| && 0 <= j < |frames| ==>
      0.0 <= diff(frames[i].frame, frames[j].frame) <= 255.0
    ensures 0.0 <= ScanUpTo(frames, diff, t0, dynamic, n).threshold <= 1.0
    decreases n
  {
    if n > 1 {
      ThresholdStaysInUnit(frames, diff, t0, dynamic, n - 1);
    }
  }

  /** Kept positions and removals together number the frames scanned. */
  lemma {:induction false} ScanCount<F>(frames: seq<TimedFrame<F>>, diff: (F, F) -> real, t0: real, dynamic: bool,
                                         n: nat)
    requires 1 <= n <= |frames|
    ensures |ScanUpTo(frames, diff, t0, dynamic, n).kept| + |ScanUpTo(frames, diff, t0, dynamic, n).removed| == n
    decreases n
  {
    if n > 1 {
      ScanCount(frames, diff, t0, dynamic, n - 1);
      ScanStep(frames, diff, t0, dynamic, n);
    }
  }

  /** Kept positions strictly increase. */
  lemma {:induction false} ScanKeptIncreasing<F>(frames: seq<TimedFrame<F>>, diff: (F, F) -> real, t0: real,
                                                  dynamic: bool, n: nat)
    requires 1 <= n <= |frames|
    ensures Increasing(ScanUpTo(frames, diff, t0, dynamic, n).kept)
    decreases n
  {
    if n > 1 {
      ScanKeptIncreasing(frames, diff, t0, dynamic, n - 1);
      ScanStep(frames, diff, t0, dynamic, n);
    }
  }

  /** Each removal carries the input entry at its position, a position in `[1, n)`. */
  ghost predicate RemovalsFromInput<F>(frames: seq<TimedFrame<F>>, removed: seq<Removal<F>>, n: nat) {
    forall q :: 0 <= q < |removed| ==>
      1 <= removed[q].index < n && removed[q].index < |frames| && removed[q].item == frames[removed[q].index]
  }

  /** Removals come in increasing position order and carry their input entries. */
  lemma {:induction false} ScanRemovals<F>(frames: seq<TimedFrame<F>>, diff: (F, F) -> real, t0: real,
                                            dynamic: bool, n: nat)
    requires 1 <= n <= |frames|
    ensures RemovalsFromInput(frames, ScanUpTo(frames, diff, t0, dynamic, n).removed, n)
    ensures Increasing(Map(IndexOf, ScanUpTo(frames, diff, t0, dynamic, n).removed))
    decreases n
  {
    if n > 1 {
      ScanRemovals(frames, diff, t0, dynamic, n - 1);
      ScanStep(frames, diff, t0, dynamic, n);
      var s := ScanUpTo(frames, diff, t0, dynamic, n - 1);
      var r := ScanUpTo(frames, diff, t0, dynamic, n);
      if r.removed != s.removed {
        RemovalsStep(frames, s.removed, r.removed, n);
      }
    }
  }

  lemma RemovalsStep<F>(frames: seq<TimedFrame<F>>, removed: seq<Removal<F>>, removed': seq<Removal<F>>, n: nat)
    requires 2 <= n <= |frames|
    requires RemovalsFromInput(frames, removed, n - 1) && Increasing(Map(IndexOf, removed))
    requires |removed'| == |removed| + 1 && removed'[..|removed|] == removed
    requires removed'[|removed|].index == n - 1 && removed'[|removed|].item == frames[n - 1]
    ensures RemovalsFromInput(frames, removed', n) && Increasing(Map(IndexOf, removed'))
  {
    var ix := Map(IndexOf, removed);
    var ix' := Map(IndexOf, removed');
    assert ix' == ix + [n - 1];
    forall q | 0 <= q < |removed'|
      ensures 1 <= removed'[q].index < n && removed'[q].index < |frames|
      ensures removed'[q].item == frames[removed'[q].index]
    {
      if q < |removed| {
        assert removed'[q] == removed[q];
      }
    }
  }

  /** No position is both kept and removed. */
  lemma {:induction false} ScanDisjoint<F>(frames: seq<TimedFrame<F>>, diff: (F, F) -> real, t0: real,
                                            dynamic: bool, n: nat, q: nat, q': nat)
    requires 1 <= n <= |frames|
    requires q < |ScanUpTo(frames, diff, t0, dynamic, n).kept|
    requires q' < |ScanUpTo(frames, diff, t0, dynamic, n).removed|
    ensures ScanUpTo(frames, diff, t0, dynamic, n).kept[q] != ScanUpTo(frames, diff, t0, dynamic, n).removed[q'].index
    decreases n
  {
    if n > 1 {
      var s := ScanUpTo(frames, diff, t0, dynamic, n - 1);
      var r := ScanUpTo(frames, diff, t0, dynamic, n);
      ScanStep(frames, diff, t0, dynamic, n);
      ScanRemovals(frames, diff, t0, dynamic, n - 1);
      if q < |s.kept| && q' < |s.removed| {
        ScanDisjoint(frames, diff, t0, dynamic, n - 1, q, q');
        assert r.kept[q] == s.kept[q] && r.removed[q'] == s.removed[q'];
      } else if q < |s.kept| {
        assert r.kept[q] == s.kept[q] && r.removed[q'].index == n - 1;
      } else {
        assert r.kept[q] == n - 1 && r.removed[q'] == s.removed[q'];
      }
    }
  }

  /** Before the loop only the first frame is kept. */
  lemma ScanStartShape<F>(frames: seq<TimedFrame<F>>, diff: (F, F) -> real, t0: real, dynamic: bool)
    requires 1 <= |frames|
    ensures ScanUpTo(frames, diff, t0, dynamic, 1) == Scan([0], [], t0)
  {
  }

  /**
   * One iteration on position `i`: the threshold is updated with the score against the last
   * kept frame, and `i` is appended to the kept positions when the score passes the test
   * (equivalently, the test against the threshold before the update), else recorded as a
   * removal with that score.
   */
  ghost predicate Stepped<F>(frames: seq<TimedFrame<F>>, diff: (F, F) -> real, dynamic: bool,
                             s: Scan<F>, r: Scan<F>, i: nat)
    requires i < |frames| && |s.kept| > 0 && s.kept[|s.kept| - 1] < |frames|
  {
    var d := diff(frames[i].frame, frames[s.kept[|s.kept| - 1]].frame);
    && r.threshold == NextThreshold(s.threshold, d, dynamic)
    && (|| (r.kept == s.kept + [i] && r.removed == s.removed && Keeps(d, s.threshold))
        || (r.kept == s.kept && r.removed == s.removed + [Removal(i, frames[i], d)] && !Keeps(d, s.threshold)))
  }

  lemma ScanStep<F>(frames: seq<TimedFrame<F>>, diff: (F, F) -> real, t0: real, dynamic: bool, n: nat)
    requires 2 <= n <= |frames|
    ensures Stepped(frames, diff, dynamic, ScanUpTo(frames, diff, t0, dynamic, n - 1),
                    ScanUpTo(frames, diff, t0, dynamic, n), n - 1)
  {
    var s := ScanUpTo(frames, diff, t0, dynamic, n - 1);
    var d := diff(frames[n - 1].frame, frames[s.kept[|s.kept| - 1]].frame);
    DynamicTestMatchesPrevious(s.threshold, d, dynamic);
  }

  /** Every position below `n` is kept or removed. */
  ghost predicate Covers<F>(kept: seq<nat>, removed: seq<Removal<F>>, n: nat) {
    forall i :: 0 <= i < n ==> i in kept || i in Map(IndexOf, removed)
  }

  /** Every scanned position is kept or removed (and by `ScanDisjoint` not both). */
  lemma {:induction false} ScanCovers<F>(frames: seq<TimedFrame<F>>, diff: (F, F) -> real, t0: real,
                                          dynamic: bool, n: nat)
    requires 1 <= n <= |frames|
    ensures Covers(ScanUpTo(frames, diff, t0, dynamic, n).kept, ScanUpTo(frames, diff, t0, dynamic, n).removed, n)
    decreases n
  {
    if n == 1 {
      ScanStartShape(frames, diff, t0, dynamic);
    } else {
      var s := ScanUpTo(frames, diff, t0, dynamic, n - 1);
      var r := ScanUpTo(frames, diff, t0, dynamic, n);
      ScanStep(frames, diff, t0, dynamic, n);
      ScanCovers(frames, diff, t0, dynamic, n - 1);
      CoversStep(s.kept, s.removed, r.kept, r.removed, n);
    }
  }

  lemma CoversStep<F>(kept: seq<nat>, removed: seq<Removal<F>>, kept': seq<nat>, removed': seq<Removal<F>>, n: nat)
    requires n >= 1 && Covers(kept, removed, n - 1)
    requires || (kept' == kept + [n - 1] && removed' == removed)
             || (kept' == kept && |removed'| == |removed| + 1 && removed'[..|removed|] == removed
                 && removed'[|removed|].index == n - 1)
    ensures Covers(kept', removed', n)
  {
    var ix := Map(IndexOf, removed);
    var ix' := Map(IndexOf, removed');
    if kept' == kept {
      forall q | 0 <= q < |removed|
        ensures ix'[q] == ix[q]
      {
        assert removed'[q] == removed'[..|removed|][q];
      }
      assert ix' == ix + [n - 1];
    }
    forall i | 0 <= i < n
      ensures i in kept' || i in ix'
    {
      if i < n - 1 {
        assert i in kept || i in ix;
      }
    }
  }

  /** Kept and removed entries of `s` together are exactly the first `n` input entries. */
  ghost predicate Accounts<F>(frames: seq<TimedFrame<F>>, s: Scan<F>, n: nat)
    requires n <= |frames| && forall q :: 0 <= q < |s.kept| ==> s.kept[q] < |frames|
  {
    multiset(Pick(frames, s.kept)) + multiset(Map(ItemOf, s.removed)) == multiset(frames[..n])
  }

  lemma ScanStart<F>(frames: seq<TimedFrame<F>>, diff: (F, F) -> real, t0: real, dynamic: bool)
    requires 1 <= |frames|
    ensures Accounts(frames, ScanUpTo(frames, diff, t0, dynamic, 1), 1)
  {
    var r := ScanUpTo(frames, diff, t0, dynamic, 1);
    assert Pick(frames, r.kept) == frames[..1];
  }

  /** Kept and removed entries together are exactly the scanned input entries. */
  lemma {:induction false} ScanMultiset<F>(frames: seq<TimedFrame<F>>, diff: (F, F) -> real, t0: real,
                                            dynamic: bool, n: nat)
    requires 1 <= n <= |frames|
    ensures Accounts(frames, ScanUpTo(frames, diff, t0, dynamic, n), n)
    decreases n
  {
    if n == 1 {
      ScanStart(frames, diff, t0, dynamic);
    } else {
      ScanMultiset(frames, diff, t0, dynamic, n - 1);
      ScanMultisetStep(frames, diff, t0, dynamic, n);
    }
  }

  /** One more step of the pass keeps the kept and removed entries accounting for the input. */
  lemma ScanMultisetStep<F>(frames: seq<TimedFrame<F>>, diff: (F, F) -> real, t0: real, dynamic: bool, n: nat)
    requires 2 <= n <= |frames|
    requires Accounts(frames, ScanUpTo(frames, diff, t0, dynamic, n - 1), n - 1)
    ensures Accounts(frames, ScanUpTo(frames, diff, t0, dynamic, n), n)
  {
    ScanStep(frames, diff, t0, dynamic, n);
    MultisetStep(frames, diff, dynamic, ScanUpTo(frames, diff, t0, dynamic, n - 1),
                 ScanUpTo(frames, diff, t0, dynamic, n), n - 1);
  }

  lemma MultisetStep<F>(frames: seq<TimedFrame<F>>, diff: (F, F) -> real, dynamic: bool, s: Scan<F>, r: Scan<F>,
                        i: nat)
    requires i < |frames| && |s.kept| > 0
    requires forall q :: 0 <= q < |s.kept| ==> s.kept[q] < |frames|
    requires forall q :: 0 <= q < |r.kept| ==> r.kept[q] < |frames|
    requires Accounts(frames, s, i)
    requires Stepped(frames, diff, dynamic, s, r, i)
    ensures Accounts(frames, r, i + 1)
  {
    var x := frames[i];
    assert frames[..i + 1] == frames[..i] + [x];
    if r.kept == s.kept + [i] {
      assert Pick(frames, r.kept) == Pick(frames, s.kept) + [x];
    } else {
      var last := r.removed[|s.removed|];
      assert r.removed == s.removed + [last];
      MapConcat(ItemOf, s.removed, [last]);
      assert Map(ItemOf, [last]) == [x];
    }
  }

  /**
   * Every removal in `s` was compared with the last frame kept before it, under the
   * threshold in force at that moment, and fell at or below it.
   */
  predicate RemovalsScored<F>(frames: seq<TimedFrame<F>>, diff: (F, F) -> real, t0: real, dynamic: bool,
                              s: Scan<F>, n: nat)
    requires n <= |frames| && |s.kept| > 0 && s.kept[0] == 0
  {
    forall q :: 0 <= q < |s.removed| ==>
      var i := s.removed[q].index;
      && 1 <= i < n
      && s.removed[q].diff == diff(frames[i].frame, frames[LastBelow(s.kept, i)].frame)
      && !Keeps(s.removed[q].diff, ThresholdBefore(frames, diff, t0, dynamic, i))
  }

  /** The loop scores each removal against the last kept frame, not the previous input frame. */
  lemma {:induction false} RemovedAgainstLastKept<F>(frames: seq<TimedFrame<F>>, diff: (F, F) -> real, t0: real,
                                                      dynamic: bool, n: nat)
    requires 1 <= n <= |frames|
    ensures RemovalsScored(frames, diff, t0, dynamic, ScanUpTo(frames, diff, t0, dynamic, n), n)
    decreases n
  {
    if n == 1 {
      ScanStartShape(frames, diff, t0, dynamic);
    } else {
      var s := ScanUpTo(frames, diff, t0, dynamic, n - 1);
      var r := ScanUpTo(frames, diff, t0, dynamic, n);
      RemovedAgainstLastKept(frames, diff, t0, dynamic, n - 1);
      ScanStep(frames, diff, t0, dynamic, n);
      var d := diff(frames[n - 1].frame, frames[s.kept[|s.kept| - 1]].frame);
      DynamicTestMatchesPrevious(s.threshold, d, dynamic);
      ScoredStep(frames, diff, t0, dynamic, s, r, n, d);
    }
  }

  lemma ScoredStep<F>(frames: seq<TimedFrame<F>>, diff: (F, F) -> real, t0: real, dynamic: bool,
                      s: Scan<F>, r: Scan<F>, n: nat, d: real)
    requires 2 <= n <= |frames|
    requires |s.kept| > 0 && s.kept[0] == 0 && forall q :: 0 <= q < |s.kept| ==> s.kept[q] < n - 1
    requires RemovalsScored(frames, diff, t0, dynamic, s, n - 1)
    requires d == diff(frames[n - 1].frame, frames[s.kept[|s.kept| - 1]].frame)
    requires || (r.kept == s.kept + [n - 1] && r.removed == s.removed)
             || (r.kept == s.kept && r.removed == s.removed + [Removal(n - 1, frames[n - 1], d)]
                 && !Keeps(d, ThresholdBefore(frames, diff, t0, dynamic, n - 1)))
    ensures RemovalsScored(frames, diff, t0, dynamic, r, n)
  {
    if r.kept == s.kept + [n - 1] {
      assert r.kept[..|s.kept|] == s.kept;
      forall q | 0 <= q < |r.removed|
        ensures LastBelow(r.kept, r.removed[q].index) == LastBelow(s.kept, r.removed[q].index)
      {
        assert r.removed[q] == s.removed[q];
      }
    } else {
      assert LastBelow(s.kept, n - 1) == s.kept[|s.kept| - 1];
      forall q | 0 <= q < |r.removed|
        ensures var i := r.removed[q].index;
          && 1 <= i < n
          && r.removed[q].diff == diff(frames[i].frame, frames[LastBelow(r.kept, i)].frame)
          && !Keeps(r.removed[q].diff, ThresholdBefore(frames, diff, t0, dynamic, i))
      {
        if q < |s.removed| {
          assert r.removed[q] == s.removed[q];
        }
      }
    }
  }

  /**
   * Every kept position after the first passed the test against the position kept just
   * before it, under the threshold in force when it was examined.
   */
  ghost predicate KeptScored<F>(frames: seq<TimedFrame<F>>, diff: (F, F) -> real, t0: real, dynamic: bool,
                                kept: seq<nat>)
    requires forall q :: 0 <= q < |kept| ==> kept[q] < |frames|
  {
    forall q :: 0 < q < |kept| ==>
      && 1 <= kept[q]
      && Keeps(diff(frames[kept[q]].frame, frames[kept[q - 1]].frame),
               ThresholdBefore(frames, diff, t0, dynamic, kept[q]))
  }

  /** Each kept frame is kept because it differs enough from the previous kept frame. */
  lemma {:induction false} KeptAgainstLastKept<F>(frames: seq<TimedFrame<F>>, diff: (F, F) -> real, t0: real,
                                                   dynamic: bool, n: nat)
    requires 1 <= n <= |frames|
    ensures KeptScored(frames, diff, t0, dynamic, ScanUpTo(frames, diff, t0, dynamic, n).kept)
    decreases n
  {
    if n > 1 {
      var s := ScanUpTo(frames, diff, t0, dynamic, n - 1);
      var r := ScanUpTo(frames, diff, t0, dynamic, n);
      KeptAgainstLastKept(frames, diff, t0, dynamic, n - 1);
      ScanStep(frames, diff, t0, dynamic, n);
      if r.kept != s.kept {
        KeptStep(frames, diff, t0, dynamic, s.kept, n);
      }
    }
  }

  lemma KeptStep<F>(frames: seq<TimedFrame<F>>, diff: (F, F) -> real, t0: real, dynamic: bool,
                    kept: seq<nat>, n: nat)
    requires 2 <= n <= |frames| && |kept| > 0
    requires forall q :: 0 <= q < |kept| ==> kept[q] < n - 1
    requires KeptScored(frames, diff, t0, dynamic, kept)
    requires Keeps(diff(frames[n - 1].frame, frames[kept[|kept| - 1]].frame),
                   ThresholdBefore(frames, diff, t0, dynamic, n - 1))
    ensures KeptScored(frames, diff, t0, dynamic, kept + [n - 1])
  {
    var r := kept + [n - 1];
    forall q | 0 < q < |r|
      ensures 1 <= r[q]
      ensures Keeps(diff(frames[r[q]].frame, frames[r[q - 1]].frame), ThresholdBefore(frames, diff, t0, dynamic, r[q]))
    {
      if q < |kept| {
        assert r[q] == kept[q] && r[q - 1] == kept[q - 1];
      }
    }
  }

  /** With a fixed threshold every decision is against the starting threshold. */
  lemma {:induction false} StaticThresholdFixed<F>(frames: seq<TimedFrame<F>>, diff: (F, F) -> real, t0: real,
                                                    n: nat)
    requires 1 <= n <= |frames|
    ensures ScanUpTo(frames, diff, t0, false, n).threshold == t0
    decreases n
  {
    if n > 1 {
      StaticThresholdFixed(frames, diff, t0, n - 1);
    }
  }

  /** The `min_frames - len(filtered_frames)` most different removals. */
  function Backfill<F(==)>(removed: seq<Removal<F>>, need: nat): (r: seq<TimedFrame<F>>)
    requires need <= |removed|
    ensures |r| == need
    ensures multiset(r) <= multiset(Map(ItemOf, removed))
  {
    var sorted := SortBy(removed, NegDiff);
    MapSameMultiset(ItemOf, sorted, removed);
    assert sorted == sorted[..need] + sorted[need..];
    MapConcat(ItemOf, sorted[..need], sorted[need..]);
    Map(ItemOf, sorted[..need])
  }

  /** Removal `a` is restored ahead of removal `b`: a higher score, or an equal score and an
    * earlier position. */
  predicate RanksAhead<F>(a: Removal<F>, b: Removal<F>) {
    a.diff > b.diff || (a.diff == b.diff && a.index < b.index)
  }

  /**
   * `chosen` and `rest` together are `removed`; each chosen removal ranks ahead of every
   * later chosen one and of every removal left in `rest`.
   */
  ghost predicate MostDifferentFirst<F>(removed: seq<Removal<F>>, chosen: seq<Removal<F>>, rest: seq<Removal<F>>) {
    && multiset(chosen) + multiset(rest) == multiset(removed)
    && (forall a, b :: 0 <= a < b < |chosen| ==> RanksAhead(chosen[a], chosen[b]))
    && (forall a, b :: 0 <= a < |chosen| && 0 <= b < |rest| ==> RanksAhead(chosen[a], rest[b]))
  }

  /**
   * The backfill restores the `need` most different removals, highest score first; among
   * equal scores the earlier removal is taken first and restored first.
   */
  lemma BackfillTakesMostDifferent<F>(removed: seq<Removal<F>>, need: nat)
    requires need <= |removed| && Increasing(Map(IndexOf, removed))
    ensures exists chosen, rest ::
              && |chosen| == need
              && MostDifferentFirst(removed, chosen, rest)
              && Backfill(removed, need) == Map(ItemOf, chosen)
  {
    var ix := Map(IndexOf, removed);
    assert RankIncreasing(removed, IndexOf) by {
      forall i, j | 0 <= i < j < |removed| ensures IndexOf(removed[i]) < IndexOf(removed[j]) {
        assert ix[i] < ix[j];
      }
    }
    SortByIsStable(removed, NegDiff, IndexOf);
    var sorted := SortBy(removed, NegDiff);
    var chosen := sorted[..need];
    var rest := sorted[need..];
    assert sorted == chosen + rest;
    forall a, b | 0 <= a < b < |sorted|
      ensures RanksAhead(sorted[a], sorted[b])
    {
      assert NegDiff(sorted[a]) < NegDiff(sorted[b])
        || (NegDiff(sorted[a]) == NegDiff(sorted[b]) && IndexOf(sorted[a]) < IndexOf(sorted[b]));
    }
    assert forall a :: 0 <= a < |chosen| ==> chosen[a] == sorted[a];
    assert forall b :: 0 <= b < |rest| ==> rest[b] == sorted[need + b];
    assert MostDifferentFirst(removed, chosen, rest);
  }

  /** The kept entries followed, when fewer than `min_frames` were kept, by the backfilled
    * removals. */
  function Restore<F(==)>(frames: seq<TimedFrame<F>>, kept: seq<nat>, removed: seq<Removal<F>>, minFrames: int)
    : (out: seq<TimedFrame<F>>)
    requires forall q :: 0 <= q < |kept| ==> kept[q] < |frames|
    requires minFrames - |kept| <= |removed|
    ensures |out| == Max(|kept|, minFrames)
    ensures out[..|kept|] == Pick(frames, kept)
    ensures |kept| < minFrames ==> out[|kept|..] == Backfill(removed, minFrames - |kept|)
    ensures multiset(out) <= multiset(Pick(frames, kept)) + multiset(Map(ItemOf, removed))
  {
    var picked := Pick(frames, kept);
    if |kept| < minFrames then
      var extra := Backfill(removed, minFrames - |kept|);
      assert (picked + extra)[..|kept|] == picked;
      assert (picked + extra)[|kept|..] == extra;
      picked + extra
    else
      picked
  }

  /** `min_frames - len(filtered_frames)` when positive: how many removals are restored. */
  function Shortfall(kept: nat, minFrames: int): nat {
    if kept < minFrames then minFrames - kept else 0
  }

  /** The result of the source before its final sort. */
  function Survivors<F(==)>(frames: seq<TimedFrame<F>>, diff: (F, F) -> real, threshold: real, dynamic: bool,
                            minFrames: int): (out: seq<TimedFrame<F>>)
    requires 0 < |frames| && minFrames <= |frames|
    ensures |out| == Max(|ScanUpTo(frames, diff, threshold, dynamic, |frames|).kept|, minFrames)
    ensures |out| > 0 && out[0] == frames[0]
    ensures multiset(out) <= multiset(frames)
    ensures var s := ScanUpTo(frames, diff, threshold, dynamic, |frames|);
      && out[..|s.kept|] == Pick(frames, s.kept)
      && out[|s.kept|..] == Backfill(s.removed, Shortfall(|s.kept|, minFrames))
  {
    var s := ScanUpTo(frames, diff, threshold, dynamic, |frames|);
    ScanCount(frames, diff, threshold, dynamic, |frames|);
    ScanMultiset(frames, diff, threshold, dynamic, |frames|);
    assert frames[..|frames|] == frames;
    var out := Restore(frames, s.kept, s.removed, minFrames);
    assert |s.kept| >= minFrames ==> |out[|s.kept|..]| == 0 && |Backfill(s.removed, 0)| == 0;
    out
  }

  /**
   * `remove_similar_frames(frames, timestamps, threshold, dynamic, min_frames)` with the
   * two parallel lists paired. An empty input fails at `frames[0]`; a backfill that needs
   * more removals than there are fails at `removed_frames[i]`.
   */
  function RemoveSimilarFrames<F(==)>(frames: seq<TimedFrame<F>>, diff: (F, F) -> real, threshold: real,
                                      dynamic: bool, minFrames: int)
    : (r: Result<seq<TimedFrame<F>>>)
    ensures r.Err? <==> |frames| == 0 || minFrames > |frames|
    ensures r.Ok? ==> |r.value| == Max(|ScanUpTo(frames, diff, threshold, dynamic, |frames|).kept|, minFrames)
    ensures r.Ok? ==> Chronological(r.value)
    ensures r.Ok? ==> multiset(r.value) <= multiset(frames)
    ensures r.Ok? ==> frames[0] in r.value
    ensures r.Ok? ==> var s := ScanUpTo(frames, diff, threshold, dynamic, |frames|);
      multiset(r.value) == multiset(Pick(frames, s.kept)) + multiset(Backfill(s.removed, Shortfall(|s.kept|, minFrames)))
  {
    if |frames| == 0 then Err(IndexOutOfRange)
    else
      var s := ScanUpTo(frames, diff, threshold, dynamic, |frames|);
      ScanCount(frames, diff, threshold, dynamic, |frames|);
      if |s.kept| < minFrames && minFrames - |s.kept| > |s.removed| then Err(IndexOutOfRange)
      else
        var out := Survivors(frames, diff, threshold, dynamic, minFrames);
        var res := SortByTime(out);
        assert out == out[..|s.kept|] + out[|s.kept|..];
        assert frames[0] in multiset(res);
        Ok(res)
  }

  /**
   * A successful call returns, up to order, the kept frames together with the
   * `min_frames - len(filtered_frames)` most different removals: every restored removal
   * ranks ahead of every removal left out.
   */
  ghost predicate KeptPlusMostDifferent<F(!new)>(frames: seq<TimedFrame<F>>, kept: seq<nat>, removed: seq<Removal<F>>,
                                          need: nat, out: seq<TimedFrame<F>>)
    requires forall q :: 0 <= q < |kept| ==> kept[q] < |frames|
  {
    exists chosen, rest ::
      && |chosen| == need
      && MostDifferentFirst(removed, chosen, rest)
      && multiset(out) == multiset(Pick(frames, kept)) + multiset(Map(ItemOf, chosen))
  }

  lemma RemoveSimilarFramesRestoresMostDifferent<F(!new)>(frames: seq<TimedFrame<F>>, diff: (F, F) -> real,
                                                    threshold: real, dynamic: bool, minFrames: int)
    requires RemoveSimilarFrames(frames, diff, threshold, dynamic, minFrames).Ok?
    ensures var s := ScanUpTo(frames, diff, threshold, dynamic, |frames|);
      KeptPlusMostDifferent(frames, s.kept, s.removed, Shortfall(|s.kept|, minFrames),
                            RemoveSimilarFrames(frames, diff, threshold, dynamic, minFrames).value)
  {
    var s := ScanUpTo(frames, diff, threshold, dynamic, |frames|);
    var need := Shortfall(|s.kept|, minFrames);
    var out := RemoveSimilarFrames(frames, diff, threshold, dynamic, minFrames).value;
    ScanRemovals(frames, diff, threshold, dynamic, |frames|);
    BackfillTakesMostDifferent(s.removed, need);
    var chosen, rest :| && |chosen| == need
                        && MostDifferentFirst(s.removed, chosen, rest)
                        && Backfill(s.removed, need) == Map(ItemOf, chosen);
    assert multiset(out) == multiset(Pick(frames, s.kept)) + multiset(Map(ItemOf, chosen));
    assert KeptPlusMostDifferent(frames, s.kept, s.removed, need, out);
  }

  /** When the pass alone keeps `min_frames` or more, nothing is restored: the output is the
    * kept frames in timestamp order. */
  lemma EnoughKeptNoBackfill<F>(frames: seq<TimedFrame<F>>, diff: (F, F) -> real, threshold: real, dynamic: bool,
                                minFrames: int)
    requires 0 < |frames|
    requires |ScanUpTo(frames, diff, threshold, dynamic, |frames|).kept| >= minFrames
    ensures var s := ScanUpTo(frames, diff, threshold, dynamic, |frames|);
      RemoveSimilarFrames(frames, diff, threshold, dynamic, minFrames) == Ok(SortByTime(Pick(frames, s.kept)))
  {
    var s := ScanUpTo(frames, diff, threshold, dynamic, |frames|);
    var out := Survivors(frames, diff, threshold, dynamic, minFrames);
    assert |out| == |s.kept|;
    assert out == out[..|s.kept|] == Pick(frames, s.kept);
  }

  /** No two input frames differ at all. */
  predicate AllIdentical<F>(frames: seq<TimedFrame<F>>, diff: (F, F) -> real) {
    forall i, j :: 0 <= i < |frames| && 0 <= j < |frames| ==> diff(frames[i].frame, frames[j].frame) == 0.0
  }

  /** With a non-negative threshold, identical frames keep only the first and remove the
    * rest in order, each with score 0. */
  lemma {:induction false} IdenticalFramesKeepOnlyFirst<F>(frames: seq<TimedFrame<F>>, diff: (F, F) -> real,
                                                          t0: real, dynamic: bool, n: nat)
    requires 1 <= n <= |frames| && 0.0 <= t0 && AllIdentical(frames, diff)
    ensures var s := ScanUpTo(frames, diff, t0, dynamic, n);
      && s.kept == [0]
      && 0.0 <= s.threshold
      && |s.removed| == n - 1
      && forall q :: 0 <= q < n - 1 ==> s.removed[q] == Removal(q + 1, frames[q + 1], 0.0)
    decreases n
  {
    if n == 1 {
      ScanStartShape(frames, diff, t0, dynamic);
    } else {
      var s := ScanUpTo(frames, diff, t0, dynamic, n - 1);
      var r := ScanUpTo(frames, diff, t0, dynamic, n);
      IdenticalFramesKeepOnlyFirst(frames, diff, t0, dynamic, n - 1);
      assert diff(frames[n - 1].frame, frames[0].frame) == 0.0;
      ZeroScoreStepRemoves(frames, diff, t0, dynamic, n);
      var last := Removal(n - 1, frames[n - 1], 0.0);
      assert r.removed == s.removed + [last];
      assert |r.removed| == n - 1;
      forall q | 0 <= q < n - 1
        ensures r.removed[q] == Removal(q + 1, frames[q + 1], 0.0)
      {
        if q < n - 2 {
          assert r.removed[q] == s.removed[q];
        } else {
          assert r.removed[q] == last;
        }
      }
    }
  }

  /** Once only the first frame is kept, a frame scoring 0 against it is removed, and a
    * non-negative threshold stays non-negative. */
  lemma ZeroScoreStepRemoves<F>(frames: seq<TimedFrame<F>>, diff: (F, F) -> real,
                                t0: real, dynamic: bool, n: nat)
    requires 2 <= n <= |frames|
    requires ScanUpTo(frames, diff, t0, dynamic, n - 1).kept == [0]
    requires 0.0 <= ScanUpTo(frames, diff, t0, dynamic, n - 1).threshold
    requires diff(frames[n - 1].frame, frames[0].frame) == 0.0
    ensures var s := ScanUpTo(frames, diff, t0, dynamic, n - 1);
      var r := ScanUpTo(frames, diff, t0, dynamic, n);
      && r.kept == [0]
      && 0.0 <= r.threshold
      && r.removed == s.removed + [Removal(n - 1, frames[n - 1], 0.0)]
  {
    var s := ScanUpTo(frames, diff, t0, dynamic, n - 1);
    var t := NextThreshold(s.threshold, 0.0, dynamic);
    assert 0.0 <= t;
    assert !Keeps(0.0, t);
  }

  /** With equal scores the backfill takes removals in removal order. */
  lemma BackfillEqualScores<F>(removed: seq<Removal<F>>, need: nat)
    requires need <= |removed|
    requires forall q :: 0 <= q < |removed| ==> removed[q].diff == removed[0].diff
    ensures Backfill(removed, need) == Map(ItemOf, removed[..need])
  {
    SortByConstantKey(removed, NegDiff);
  }

  lemma RestoreFirstFive<F>(frames: seq<TimedFrame<F>>, removed: seq<Removal<F>>)
    requires |frames| >= 5 && |removed| == |frames| - 1
    requires forall q :: 0 <= q < |removed| ==> removed[q] == Removal(q + 1, frames[q + 1], 0.0)
    ensures Restore(frames, [0], removed, 5) == frames[..5]
  {
    var extra := Backfill(removed, 4);
    assert extra == frames[1..5] by {
      BackfillEqualScores(removed, 4);
      var m := Map(ItemOf, removed[..4]);
      forall q | 0 <= q < 4
        ensures m[q] == frames[1..5][q]
      {
        assert removed[..4][q] == removed[q] == Removal(q + 1, frames[q + 1], 0.0);
      }
    }
    assert Pick(frames, [0]) == frames[..1];
    assert frames[..5] == frames[..1] + frames[1..5];
  }

  lemma IdenticalFramesSurvivors<F>(frames: seq<TimedFrame<F>>, diff: (F, F) -> real)
    requires |frames| >= 5 && AllIdentical(frames, diff)
    ensures Survivors(frames, diff, 0.08, true, 5) == frames[..5]
  {
    var s := ScanUpTo(frames, diff, 0.08, true, |frames|);
    IdenticalFramesKeepOnlyFirst(frames, diff, 0.08, true, |frames|);
    RestoreFirstFive(frames, s.removed);
  }

  /**
   * A run of identical frames under the pipeline's settings keeps the first frame, then
   * backfills the next four in removal order: the output is the first five frames.
   */
  lemma IdenticalFramesBackfillToFive<F>(frames: seq<TimedFrame<F>>, diff: (F, F) -> real)
    requires |frames| >= 5 && AllIdentical(frames, diff)
    ensures RemoveSimilarFrames(frames, diff, 0.08, true, 5) == Ok(SortByTime(frames[..5]))
  {
    IdenticalFramesSurvivors(frames, diff);
  }

  /**
   * `remove_similar_frames` with the backfill guarded: it re-admits at most as many
   * removals as there are, so a short input comes back whole instead of raising. It agrees
   * with `RemoveSimilarFrames` whenever that one does not fail on the backfill.
   */
  function RemoveSimilarFramesClamped<F(==)>(frames: seq<TimedFrame<F>>, diff: (F, F) -> real, threshold: real,
                                             dynamic: bool, minFrames: int)
    : (r: Result<seq<TimedFrame<F>>>)
    ensures r.Err? <==> |frames| == 0
    ensures r.Ok? ==> |r.value| == Max(|ScanUpTo(frames, diff, threshold, dynamic, |frames|).kept|,
                                       Min(minFrames, |frames|))
    ensures r.Ok? ==> Chronological(r.value)
    ensures r.Ok? ==> multiset(r.value) <= multiset(frames)
    ensures r.Ok? ==> frames[0] in r.value
    ensures minFrames <= |frames| ==> r == RemoveSimilarFrames(frames, diff, threshold, dynamic, minFrames)
  {
    RemoveSimilarFrames(frames, diff, threshold, dynamic, Min(minFrames, |frames|))
  }

  /**
   * As written, a single frame with the default `min_frames = 5` keeps that frame and then
   * indexes `removed_frames[0]` of an empty list; the guarded version returns the frame.
   */
  lemma ShortInputBackfillFails<F>(x: TimedFrame<F>, diff: (F, F) -> real, threshold: real, dynamic: bool)
    ensures RemoveSimilarFrames([x], diff, threshold, dynamic, 5).Err?
    ensures RemoveSimilarFramesClamped([x], diff, threshold, dynamic, 5) == Ok([x])
  {
    var s := ScanUpTo([x], diff, threshold, dynamic, 1);
    assert s.kept == [0];
    var r := RemoveSimilarFramesClamped([x], diff, threshold, dynamic, 5);
    assert r.Ok?;
    var out := r.value;
    assert |out| == 1 && out[0] in multiset(out);
    assert out[0] == x;
    assert out == [x];
  }
}
