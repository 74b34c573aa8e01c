/**
 * `extract_frames`: decode a video and keep every `interval`-th frame with timestamp
 * `index / frame_rate`. The decoder is a given sequence of frames and its reported
 * frame rate; the frames themselves are opaque here.
 */
module Extraction {
  import opened Results
  import opened Timeline
  import opened Arith

  /** Python's `int(x)` on a float: truncation toward zero. */
  function Trunc(x: real): (n: int)
    ensures x >= 0.0 ==> n as real <= x < n as real + 1.0
    ensures x < 0.0 ==> n as real - 1.0 < x <= n as real
  {
    if x >= 0.0 then x.Floor else -((-x).Floor)
  }

  /** `interval = max(1, int(frame_rate / fps))`. */
  function Interval(rate: real, fps: real): (iv: nat)
    requires fps != 0.0
    ensures iv >= 1
    ensures rate / fps >= 1.0 ==> iv as real <= rate / fps < iv as real + 1.0
    ensures rate / fps < 2.0 ==> iv == 1
  {
    var t := Trunc(rate / fps);
    if t >= 1 then t else 1
  }

  /**
   * `out` holds exactly the decoded frames at indices `0, iv, 2 * iv, ...` below
   * `|decoded|`, each with the timestamp `index / rate`.
   */
  ghost predicate SampledEvery<F>(out: seq<TimedFrame<F>>, decoded: seq<F>, rate: real, iv: nat) {
    && iv >= 1
    && (forall k :: 0 <= k < |out| ==>
          && k * iv < |decoded|
          && rate != 0.0
          && out[k] == TimedFrame(decoded[k * iv], (k * iv) as real / rate))
    && |out| * iv >= |decoded|
  }

  /** The only multiple of `iv` in `((p - 1) * iv, p * iv]` is `p * iv`. */
  lemma MultipleInWindow(x: nat, p: nat, iv: nat)
    requires iv >= 1 && x % iv == 0 && x <= p * iv
    requires p > 0 ==> (p - 1) * iv < x
    ensures x == p * iv
  {
    var q := x / iv;
    assert x == q * iv;
    if q < p {
      MulMono(q + 1, p, iv);
      MulSucc(q, iv);
    }
    if q > p {
      MulMono(p + 1, q, iv);
      MulSucc(p, iv);
    }
  }

  /** The frames the decode loop has kept after reading `count` frames. */
  function Sample<F>(decoded: seq<F>, rate: real, iv: nat, count: nat): (out: seq<TimedFrame<F>>)
    requires iv >= 1 && count <= |decoded| && (count > 0 ==> rate != 0.0)
    ensures forall k :: 0 <= k < |out| ==>
      k * iv < count && out[k] == TimedFrame(decoded[k * iv], (k * iv) as real / rate)
    ensures |out| * iv >= count
    ensures |out| > 0 ==> (|out| - 1) * iv < count
    decreases count
  {
    if count == 0 then []
    else
      var prev := Sample(decoded, rate, iv, count - 1);
      var p := |prev|;
      if (count - 1) % iv == 0 then
        MultipleInWindow(count - 1, p, iv);
        MulSucc(p, iv);
        prev + [TimedFrame(decoded[count - 1], (count - 1) as real / rate)]
      else
        MultipleRemainder(p, iv);
        prev
  }

  /**
   * `extract_frames(video, fps)`. Division by zero is raised by `frame_rate / fps` when
   * `fps` is zero, and by `count / frame_rate` on the first frame when the reported
   * rate is zero.
   */
  function ExtractFrames<F>(decoded: seq<F>, rate: real, fps: real): (r: Result<seq<TimedFrame<F>>>)
    ensures r.Err? <==> fps == 0.0 || (rate == 0.0 && |decoded| > 0)
    ensures r.Ok? ==> SampledEvery(r.value, decoded, rate, Interval(rate, fps))
  {
    if fps == 0.0 then Err(DivisionByZero)
    else if rate == 0.0 && |decoded| > 0 then Err(DivisionByZero)
    else Ok(Sample(decoded, rate, Interval(rate, fps), |decoded|))
  }

  /** Decoded frame `i` is kept exactly when `i % interval == 0`, as output number `i / interval`. */
  lemma KeptIffMultiple<F>(out: seq<TimedFrame<F>>, decoded: seq<F>, rate: real, iv: nat, i: nat)
    requires SampledEvery(out, decoded, rate, iv) && i < |decoded|
    ensures (exists k :: 0 <= k < |out| && k * iv == i) <==> i % iv == 0
    ensures i % iv == 0 ==> i / iv < |out| && out[i / iv] == TimedFrame(decoded[i], i as real / rate)
  {
    if i % iv == 0 {
      var k := i / iv;
      assert k * iv == i;
      if k >= |out| {
        MulMono(|out|, k, iv);
      }
    }
    if exists k :: 0 <= k < |out| && k * iv == i {
      var k :| 0 <= k < |out| && k * iv == i;
      MultipleRemainder(k, iv);
    }
  }

  /** The number of kept frames is `ceil(|decoded| / interval)`. */
  lemma SampledCount<F>(out: seq<TimedFrame<F>>, decoded: seq<F>, rate: real, iv: nat)
    requires SampledEvery(out, decoded, rate, iv)
    ensures |out| == (|decoded| + iv - 1) / iv
  {
    var n := |decoded|;
    var c := |out|;
    if c > 0 {
      assert (c - 1) * iv < n;
      MulSucc(c - 1, iv);
    }
    assert c * iv <= n + iv - 1;
    assert n + iv - 1 < (c + 1) * iv by { MulSucc(c, iv); }
    DivFromBounds(n + iv - 1, c, iv);
  }

  /** With a positive frame rate the kept timestamps strictly increase. */
  lemma SampleStrictlyIncreasing<F>(out: seq<TimedFrame<F>>, decoded: seq<F>, rate: real, iv: nat)
    requires SampledEvery(out, decoded, rate, iv) && rate > 0.0
    ensures forall a, b :: 0 <= a < b < |out| ==> out[a].time < out[b].time
  {
    forall a, b | 0 <= a < b < |out|
      ensures out[a].time < out[b].time
    {
      MulMono(a + 1, b, iv);
      MulSucc(a, iv);
      assert out[a].time == (a * iv) as real / rate;
      assert out[b].time == (b * iv) as real / rate;
      DivideByPositive((a * iv) as real, (b * iv) as real, rate);
    }
  }

  lemma DivideByPositive(x: real, y: real, d: real)
    requires x < y && d > 0.0
    ensures x / d < y / d
  {
    assert y / d - x / d == (y - x) / d;
  }

  /** A pair the decoder really produced: frame `i` with timestamp `i / rate`. */
  ghost predicate Genuine<F>(decoded: seq<F>, rate: real, tf: TimedFrame<F>) {
    exists i :: 0 <= i < |decoded| && rate != 0.0 && tf == TimedFrame(decoded[i], i as real / rate)
  }

  lemma SampledAreGenuine<F>(out: seq<TimedFrame<F>>, decoded: seq<F>, rate: real, iv: nat)
    requires SampledEvery(out, decoded, rate, iv)
    ensures forall k :: 0 <= k < |out| ==> Genuine(decoded, rate, out[k])
  {
    forall k | 0 <= k < |out|
      ensures Genuine(decoded, rate, out[k])
    {
      var i := k * iv;
      assert out[k] == TimedFrame(decoded[i], i as real / rate);
    }
  }

  /** The interval truncates: a 29.97 fps video sampled at 1 fps keeps every 29th frame, not every 30th. */
  lemma IntervalTruncates()
    ensures Interval(29.97, 1.0) == 29
  {
  }
}
