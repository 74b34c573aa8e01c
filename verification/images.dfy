/**
 * Decoded video frames: a height x width grid of three 8-bit channels (OpenCV's BGR
 * order, kept as channels 0, 1, 2), and the mean absolute pixel difference
 * `np.mean(cv2.absdiff(a, b))` that deduplication compares frames with.
 */
module Images {
  import opened Arith

  type Byte = x: int | 0 <= x < 256

  datatype Pixel = Pixel(c0: Byte, c1: Byte, c2: Byte)

  datatype Raster = Raster(height: nat, width: nat, rows: seq<seq<Pixel>>) {
    /** The shape `(height, width, 3)` of a numpy image array. */
    predicate WellShaped() {
      |rows| == height && forall r :: 0 <= r < |rows| ==> |rows[r]| == width
    }
  }

  type Frame = f: Raster | f.WellShaped() witness Raster(0, 0, [])

  function Abs(x: int): nat { if x < 0 then -x else x }

  /** Sum of the three channel differences of one pixel. */
  function PixelDiff(p: Pixel, q: Pixel): (d: nat)
    ensures d <= 765
    ensures d == 0 <==> p == q
  {
    Abs(p.c0 - q.c0) + Abs(p.c1 - q.c1) + Abs(p.c2 - q.c2)
  }

  function RowDiff(x: seq<Pixel>, y: seq<Pixel>): (d: nat)
    requires |x| == |y|
    ensures d <= 765 * |x|
    ensures d == 0 <==> x == y
    decreases |x|
  {
    if |x| == 0 then 0
    else
      var d := RowDiff(x[1..], y[1..]) + PixelDiff(x[0], y[0]);
      assert x == [x[0]] + x[1..] && y == [y[0]] + y[1..];
      d
  }

  function GridDiff(xs: seq<seq<Pixel>>, ys: seq<seq<Pixel>>, w: nat): (d: nat)
    requires |xs| == |ys|
    requires forall r :: 0 <= r < |xs| ==> |xs[r]| == w && |ys[r]| == w
    ensures d <= |xs| * (765 * w)
    ensures d == 0 <==> xs == ys
    decreases |xs|
  {
    if |xs| == 0 then 0
    else
      var rest := GridDiff(xs[1..], ys[1..], w);
      var d := rest + RowDiff(xs[0], ys[0]);
      assert xs == [xs[0]] + xs[1..] && ys == [ys[0]] + ys[1..];
      MulSucc(|xs[1..]|, 765 * w);
      d
  }

  lemma CapacityOfFrame(w: nat, h: nat)
    ensures h * (765 * w) == 255 * (3 * h * w)
  {
    calc {
      h * (765 * w);
      765 * (w * h);
      255 * (3 * (h * w));
      255 * (3 * h * w);
    }
  }

  lemma MeanBound(total: nat, count: nat)
    requires count > 0 && total <= 255 * count
    ensures 0.0 <= total as real / count as real <= 255.0
    ensures total as real / count as real == 0.0 <==> total == 0
  {
    assert (total as real) <= 255.0 * (count as real);
  }

  /** `np.mean(cv2.absdiff(a, b))`: the mean over all `height * width * 3` channel values. */
  function MeanAbsDiff(a: Frame, b: Frame): (d: real)
    requires a.height == b.height && a.width == b.width
    requires a.height * a.width > 0
    ensures 0.0 <= d <= 255.0
    ensures d == 0.0 <==> a == b
  {
    var total := GridDiff(a.rows, b.rows, a.width);
    var count := 3 * a.height * a.width;
    CapacityOfFrame(a.width, a.height);
    MeanBound(total, count);
    assert a == b <==> a.rows == b.rows;
    total as real / count as real
  }

  lemma MeanAbsDiffSymmetric(a: Frame, b: Frame)
    requires a.height == b.height && a.width == b.width
    requires a.height * a.width > 0
    ensures MeanAbsDiff(a, b) == MeanAbsDiff(b, a)
  {
    GridDiffSymmetric(a.rows, b.rows, a.width);
  }

  lemma {:induction false} GridDiffSymmetric(xs: seq<seq<Pixel>>, ys: seq<seq<Pixel>>, w: nat)
    requires |xs| == |ys|
    requires forall r :: 0 <= r < |xs| ==> |xs[r]| == w && |ys[r]| == w
    ensures GridDiff(xs, ys, w) == GridDiff(ys, xs, w)
    decreases |xs|
  {
    if |xs| > 0 {
      GridDiffSymmetric(xs[1..], ys[1..], w);
      RowDiffSymmetric(xs[0], ys[0]);
    }
  }

  lemma {:induction false} RowDiffSymmetric(x: seq<Pixel>, y: seq<Pixel>)
    requires |x| == |y|
    ensures RowDiff(x, y) == RowDiff(y, x)
    decreases |x|
  {
    if |x| > 0 {
      RowDiffSymmetric(x[1..], y[1..]);
    }
  }
}
