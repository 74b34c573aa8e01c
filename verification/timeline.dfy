/** Frames paired with their timestamps, and ordering by time. */
module Timeline {
  import opened Sorting

  /** One entry of the parallel `frames` / `timestamps` lists of the source. */
  datatype TimedFrame<F> = TimedFrame(frame: F, time: real)

  function Time<F>(tf: TimedFrame<F>): real { tf.time }

  function FrameOf<F>(tf: TimedFrame<F>): F { tf.frame }

  /** Timestamps nondecreasing. */
  predicate Chronological<F>(s: seq<TimedFrame<F>>) {
    SortedBy(s, Time)
  }

  /** `np.argsort(timestamps)` applied to both lists. */
  function SortByTime<F(==)>(s: seq<TimedFrame<F>>): (r: seq<TimedFrame<F>>)
    ensures |r| == |s|
    ensures multiset(r) == multiset(s)
    ensures forall i, j :: 0 <= i < j < |r| ==> r[i].time <= r[j].time
  {
    SortBy(s, Time)
  }
}
