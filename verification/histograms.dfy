/**
 * Colour histograms of frames: `cv2.calcHist` with 8 bins per channel over [0, 256),
 * a global histogram, the histograms of an N x N grid of blocks in row-major order,
 * and their concatenation. Bins hold raw pixel counts (L2 normalisation is not modelled).
 */
module Histograms {
  import opened Results
  import opened Seqs
  import opened Images
  import opened Arith

  const BinsPerChannel: nat := 8
  const BinWidth: nat := 256 / BinsPerChannel
  const HistogramSize: nat := BinsPerChannel * BinsPerChannel * BinsPerChannel

  /** The flattened index of the 8x8x8 bin a pixel falls in. */
  function BinOf(p: Pixel): (b: nat)
    ensures b < HistogramSize
    ensures b / 64 == p.c0 / BinWidth
    ensures (b / 8) % 8 == p.c1 / BinWidth
    ensures b % 8 == p.c2 / BinWidth
  {
    var b := (p.c0 / 32) * 64 + (p.c1 / 32) * 8 + p.c2 / 32;
    DecodeBin(p.c0 / 32, p.c1 / 32, p.c2 / 32);
    b
  }

  lemma DecodeBin(x: nat, y: nat, z: nat)
    requires x < 8 && y < 8 && z < 8
    ensures var b := x * 64 + y * 8 + z;
      b < 512 && b / 64 == x && (b / 8) % 8 == y && b % 8 == z
  {
    var b := x * 64 + y * 8 + z;
    DivUnique(b, 64, x, y * 8 + z);
    DivUnique(b, 8, x * 8 + y, z);
    DivUnique(x * 8 + y, 8, x, y);
  }

  function Bins(ps: seq<Pixel>): seq<nat> { Map(BinOf, ps) }

  function Zeros(): (h: seq<nat>)
    ensures |h| == HistogramSize
    ensures forall k :: 0 <= k < HistogramSize ==> h[k] == 0
  {
    seq(HistogramSize, _ => 0)
  }

  /** One pass of `calcHist`: bin `k` counts the pixels whose bin is `k`. */
  function Histogram(ps: seq<Pixel>): (h: seq<nat>)
    ensures |h| == HistogramSize
    ensures forall k :: 0 <= k < HistogramSize ==> h[k] == multiset(Bins(ps))[k]
    decreases |ps|
  {
    if |ps| == 0 then Zeros()
    else
      var init := ps[..|ps| - 1];
      var h := Histogram(init);
      var b := BinOf(ps[|ps| - 1]);
      assert ps == init + [ps[|ps| - 1]];
      MapConcat(BinOf, init, [ps[|ps| - 1]]);
      assert Bins(ps) == Bins(init) + [b];
      h[b := h[b] + 1]
  }

  /** Row-major pixel order of a frame. */
  function Flatten(rows: seq<seq<Pixel>>): seq<Pixel>
    decreases |rows|
  {
    if |rows| == 0 then [] else Flatten(rows[..|rows| - 1]) + rows[|rows| - 1]
  }

  function Pixels(f: Frame): seq<Pixel> { Flatten(f.rows) }

  /** `cv2.calcHist([frame], [0, 1, 2], None, [8, 8, 8], [0, 256] * 3)`, before normalisation:
    * every pixel of the frame is counted once. */
  function GlobalHistogram(f: Frame): (h: seq<nat>)
    ensures |h| == HistogramSize
    ensures Sum(h) == f.height * f.width
  {
    HistogramTotal(Pixels(f));
    PixelsLength(f.rows, f.width);
    Histogram(Pixels(f))
  }

  /** The sub-frame `frame[i*bh:(i+1)*bh, j*bw:(j+1)*bw]`. */
  function Block(f: Frame, i: nat, j: nat, bh: nat, bw: nat): (b: Frame)
    requires (i + 1) * bh <= f.height && (j + 1) * bw <= f.width
    ensures b.height == bh && b.width == bw
    ensures forall r, c :: 0 <= r < bh && 0 <= c < bw ==> b.rows[r][c] == f.rows[i * bh + r][j * bw + c]
  {
    MulSucc(i, bh);
    MulSucc(j, bw);
    Raster(bh, bw, SubGrid(f.rows, f.width, i * bh, j * bw, bh, bw))
  }

  /** The `bh x bw` window of a grid of `w`-wide rows whose top-left pixel is (`top`, `left`). */
  function SubGrid(rows: seq<seq<Pixel>>, w: nat, top: nat, left: nat, bh: nat, bw: nat)
    : (g: seq<seq<Pixel>>)
    requires top + bh <= |rows| && left + bw <= w
    requires forall k :: 0 <= k < |rows| ==> |rows[k]| == w
    ensures |g| == bh && forall r :: 0 <= r < bh ==> |g[r]| == bw
    ensures forall r, c :: 0 <= r < bh && 0 <= c < bw ==> g[r][c] == rows[top + r][left + c]
  {
    seq(bh, r requires 0 <= r < bh => rows[top + r][left .. left + bw])
  }

  function BlockHistogram(f: Frame, i: nat, j: nat, bh: nat, bw: nat): (h: seq<nat>)
    requires (i + 1) * bh <= f.height && (j + 1) * bw <= f.width
    ensures |h| == HistogramSize
  {
    GlobalHistogram(Block(f, i, j, bh, bw))
  }

  /** Block number `b` of an n x n grid sits in block row `b / n` and block column `b % n`. */
  lemma BlockFits(n: nat, b: nat, bh: nat, bw: nat, h: nat, w: nat)
    requires 0 <= b < n * n && n * bh <= h && n * bw <= w
    ensures (b / n + 1) * bh <= h && (b % n + 1) * bw <= w
  {
    assert n > 0;
    var q := b / n;
    assert b == q * n + b % n;
    assert q < n by {
      if q >= n {
        MulMono(n, q, n);
      }
    }
    MulMono(q + 1, n, bh);
    MulMono(b % n + 1, n, bw);
  }

  /** The histogram of block number `b`, i.e. of block `(b / n, b % n)`. */
  function NumberedBlockHistogram(f: Frame, n: nat, bh: nat, bw: nat, b: nat): (h: seq<nat>)
    requires 0 <= b < n * n && n * bh <= f.height && n * bw <= f.width
    ensures |h| == HistogramSize
  {
    BlockFits(n, b, bh, bw, f.height, f.width);
    BlockHistogram(f, b / n, b % n, bh, bw)
  }

  /**
   * The first `m` block histograms of an `n` x `n` grid, concatenated in the loop order
   * of the source (block row outer, block column inner).
   */
  function BlockSeries(f: Frame, n: nat, bh: nat, bw: nat, m: nat): (r: seq<nat>)
    requires 0 < n && m <= n * n && n * bh <= f.height && n * bw <= f.width
    ensures |r| == 512 * m
    ensures SeriesOf(f, n, bh, bw, r, m)
    decreases m
  {
    if m == 0 then []
    else
      var prefix := BlockSeries(f, n, bh, bw, m - 1);
      AppendBlock(f, n, bh, bw, prefix, m - 1);
      prefix + NumberedBlockHistogram(f, n, bh, bw, m - 1)
  }

  /** Slice `b` of 512 bins of `r` is the histogram of block number `b`, for every `b < m`. */
  ghost predicate SeriesOf(f: Frame, n: nat, bh: nat, bw: nat, r: seq<nat>, m: nat)
    requires m <= n * n && n * bh <= f.height && n * bw <= f.width
  {
    && |r| == 512 * m
    && forall b :: 0 <= b < m ==> r[512 * b .. 512 * b + 512] == NumberedBlockHistogram(f, n, bh, bw, b)
  }

  /** Appending the next block's histogram extends the series by one block. */
  lemma AppendBlock(f: Frame, n: nat, bh: nat, bw: nat, prefix: seq<nat>, m: nat)
    requires m < n * n && n * bh <= f.height && n * bw <= f.width
    requires SeriesOf(f, n, bh, bw, prefix, m)
    ensures SeriesOf(f, n, bh, bw, prefix + NumberedBlockHistogram(f, n, bh, bw, m), m + 1)
  {
    var last := NumberedBlockHistogram(f, n, bh, bw, m);
    var r := prefix + last;
    forall b | 0 <= b < m + 1
      ensures r[512 * b .. 512 * b + 512] == NumberedBlockHistogram(f, n, bh, bw, b)
    {
      if b < m {
        assert r[512 * b .. 512 * b + 512] == prefix[512 * b .. 512 * b + 512];
      } else {
        assert r[512 * b .. 512 * b + 512] == last;
      }
    }
  }

  /**
   * `calculate_block_histograms` for one frame: block sizes `h // n`, `w // n`; a negative
   * `n` makes `range(n)` empty. A zero `n` divides by zero and is excluded here.
   */
  function BlockFeature(f: Frame, n: int): (r: seq<nat>)
    requires n != 0
    ensures n < 0 ==> r == []
    ensures n > 0 ==> |r| == HistogramSize * (n * n)
  {
    if n < 0 then []
    else
      GridFits(f.height, n);
      GridFits(f.width, n);
      BlockSeries(f, n, f.height / n, f.width / n, n * n)
  }

  lemma GridFits(len: nat, n: nat)
    requires n > 0
    ensures n * (len / n) <= len
  {
  }

  /** The per-frame feature of `calculate_combined_histograms`: global, then blocks. */
  function CombinedFeature(f: Frame, n: int): (r: seq<nat>)
    requires n != 0
    ensures n > 0 ==> |r| == HistogramSize * (1 + n * n)
    ensures n < 0 ==> |r| == HistogramSize
    ensures |r| >= HistogramSize && Sum(r[..HistogramSize]) == f.height * f.width
  {
    var m := n * n;
    assert HistogramSize + HistogramSize * m == HistogramSize * (1 + m);
    GlobalHistogram(f) + BlockFeature(f, n)
  }

  /** `calculate_histograms`: one global histogram per frame. */
  function CalculateHistograms(frames: seq<Frame>): (hs: seq<seq<nat>>)
    ensures |hs| == |frames|
    ensures forall k :: 0 <= k < |hs| ==>
      |hs[k]| == HistogramSize && Sum(hs[k]) == frames[k].height * frames[k].width
  {
    var hs := Map(GlobalHistogram, frames);
    assert forall k :: 0 <= k < |frames| ==> hs[k] == GlobalHistogram(frames[k]);
    hs
  }

  /** `calculate_block_histograms`: `h // 0` raises as soon as there is a frame. */
  function CalculateBlockHistograms(frames: seq<Frame>, n: int): (r: Result<seq<seq<nat>>>)
    ensures r.Err? <==> n == 0 && |frames| > 0
    ensures r.Ok? ==> |r.value| == |frames|
    ensures r.Ok? && n > 0 ==> forall k :: 0 <= k < |frames| ==>
      |r.value[k]| == HistogramSize * (n * n)
  {
    if n == 0 then
      if |frames| > 0 then Err(DivisionByZero) else Ok([])
    else
      Ok(seq(|frames|, k requires 0 <= k < |frames| => BlockFeature(frames[k], n)))
  }

  /**
   * `calculate_combined_histograms`: each frame's feature is its global histogram
   * followed by its block histograms, `512 * (1 + n * n)` bins for `n > 0`.
   */
  function CalculateCombinedHistograms(frames: seq<Frame>, n: int): (r: Result<seq<seq<nat>>>)
    ensures r.Err? <==> CalculateBlockHistograms(frames, n).Err?
    ensures r.Ok? ==> |r.value| == |frames| && forall k :: 0 <= k < |frames| ==>
      r.value[k] == CalculateHistograms(frames)[k] + CalculateBlockHistograms(frames, n).value[k]
    ensures r.Ok? && n > 0 ==> forall k :: 0 <= k < |frames| ==>
      |r.value[k]| == HistogramSize * (1 + n * n)
  {
    if n == 0 then
      if |frames| > 0 then Err(DivisionByZero) else Ok([])
    else
      Ok(seq(|frames|, k requires 0 <= k < |frames| => CombinedFeature(frames[k], n)))
  }

  // ----- properties -----

  /** A single pixel with channels (a, b, c) lands in bin (a / 32, b / 32, c / 32). */
  lemma SinglePixelBin(p: Pixel, k: nat)
    requires k < HistogramSize
    ensures Histogram([p])[k] == (if k == 64 * (p.c0 / 32) + 8 * (p.c1 / 32) + p.c2 / 32 then 1 else 0)
  {
    assert Bins([p]) == [BinOf(p)];
  }

  lemma {:induction false} SumIncrement(h: seq<nat>, b: nat)
    requires b < |h|
    ensures Sum(h[b := h[b] + 1]) == Sum(h) + 1
    decreases |h|
  {
    var h' := h[b := h[b] + 1];
    var n := |h|;
    if b == n - 1 {
      assert h'[..n - 1] == h[..n - 1];
    } else {
      assert h'[..n - 1] == h[..n - 1][b := h[b] + 1];
      SumIncrement(h[..n - 1], b);
    }
  }

  lemma {:induction false} SumZeros(n: nat)
    ensures Sum(seq(n, _ => 0)) == 0
  {
    if n > 0 {
      assert seq(n, _ => 0)[..n - 1] == seq(n - 1, _ => 0);
      SumZeros(n - 1);
    }
  }

  /** Unnormalised bins add up to the number of pixels counted. */
  lemma {:induction false} HistogramTotal(ps: seq<Pixel>)
    ensures Sum(Histogram(ps)) == |ps|
    decreases |ps|
  {
    if |ps| == 0 {
      SumZeros(HistogramSize);
    } else {
      var init := ps[..|ps| - 1];
      HistogramTotal(init);
      SumIncrement(Histogram(init), BinOf(ps[|ps| - 1]));
    }
  }

  lemma {:induction false} PixelsLength(rows: seq<seq<Pixel>>, w: nat)
    requires forall r :: 0 <= r < |rows| ==> |rows[r]| == w
    ensures |Flatten(rows)| == |rows| * w
    decreases |rows|
  {
    if |rows| > 0 {
      PixelsLength(rows[..|rows| - 1], w);
      MulSucc(|rows| - 1, w);
    }
  }

  /** The counts of block (i, j) add up to the block area `bh * bw`. */
  lemma BlockTotal(f: Frame, i: nat, j: nat, bh: nat, bw: nat)
    requires (i + 1) * bh <= f.height && (j + 1) * bw <= f.width
    ensures Sum(BlockHistogram(f, i, j, bh, bw)) == bh * bw
  {
    var b := Block(f, i, j, bh, bw);
    HistogramTotal(Pixels(b));
    PixelsLength(b.rows, bw);
  }

  /** With one block the block histogram is the global histogram. */
  lemma OneBlockIsGlobal(f: Frame)
    ensures BlockFeature(f, 1) == GlobalHistogram(f)
  {
    assert Block(f, 0, 0, f.height, f.width) == f by {
      WholeBlock(f);
    }
    var s := BlockSeries(f, 1, f.height, f.width, 1);
    assert s[0 .. 512] == NumberedBlockHistogram(f, 1, f.height, f.width, 0);
    assert s == s[0 .. 512];
  }

  /** The single block of a 1 x 1 grid is the frame itself. */
  lemma WholeBlock(f: Frame)
    ensures Block(f, 0, 0, f.height, f.width) == f
  {
    var b := Block(f, 0, 0, f.height, f.width);
    forall r | 0 <= r < f.height
      ensures b.rows[r] == f.rows[r]
    {
      assert b.rows[r] == f.rows[r][0 .. f.width];
    }
  }

  /** Cell (r, c) lies in block (i, j) of a grid of `bh` x `bw` blocks. */
  predicate InBlock(r: nat, c: nat, i: nat, j: nat, bh: nat, bw: nat) {
    i * bh <= r < (i + 1) * bh && j * bw <= c < (j + 1) * bw
  }

  /** No cell lies in two blocks. */
  lemma BlocksDisjoint(r: nat, c: nat, i: nat, j: nat, i': nat, j': nat, bh: nat, bw: nat)
    requires InBlock(r, c, i, j, bh, bw) && InBlock(r, c, i', j', bh, bw)
    ensures i == i' && j == j'
  {
    if i < i' { MulMono(i + 1, i', bh); }
    if i' < i { MulMono(i' + 1, i, bh); }
    if j < j' { MulMono(j + 1, j', bw); }
    if j' < j { MulMono(j' + 1, j, bw); }
  }

  /** Every block of the n x n grid with sizes `h // n`, `w // n` lies inside the frame. */
  lemma BlocksInsideFrame(h: nat, w: nat, n: nat, r: nat, c: nat, i: nat, j: nat)
    requires 0 < n && i < n && j < n
    requires InBlock(r, c, i, j, h / n, w / n)
    ensures r < h && c < w
  {
    GridFits(h, n);
    GridFits(w, n);
    MulMono(i + 1, n, h / n);
    MulMono(j + 1, n, w / n);
  }

  /**
   * The cells of the grid area are each in exactly the block `(r / bh, c / bw)`; the
   * leftover rows `r >= n * bh` and columns `c >= n * bw` are in no block.
   */
  lemma BlockCoverage(n: nat, bh: nat, bw: nat, r: nat, c: nat)
    requires 0 < n && 0 < bh && 0 < bw
    ensures r < n * bh && c < n * bw ==>
      r / bh < n && c / bw < n && InBlock(r, c, r / bh, c / bw, bh, bw)
    ensures r >= n * bh || c >= n * bw ==>
      forall i, j :: 0 <= i < n && 0 <= j < n ==> !InBlock(r, c, i, j, bh, bw)
  {
    DivBounds(r, bh);
    DivBounds(c, bw);
    if r < n * bh && c < n * bw {
      if r / bh >= n { MulMono(n, r / bh, bh); }
      if c / bw >= n { MulMono(n, c / bw, bw); }
    }
    forall i, j | 0 <= i < n && 0 <= j < n && (r >= n * bh || c >= n * bw)
      ensures !InBlock(r, c, i, j, bh, bw)
    {
      MulMono(i + 1, n, bh);
      MulMono(j + 1, n, bw);
    }
  }

}
