/**
  Downscaling by block averages.  A colour is widened to 32-bit channel
  sums (`WColor2`, `WColor4`), summed over a `x_factor` by `y_factor`
  block, divided by the block's size and narrowed back to bytes.  The
  four-channel image checks that both sizes divide; the two-channel copy
  of the same routine checks the height the wrong way round.
 */
module ImageAverages {
  import opened Wrappers
  import opened IntArith
  import opened Images

  /** A wide colour: one unbounded sum per channel. */
  type WColor = seq<nat>

  /** `WColor::zero()`. */
  function ZeroW(channels: nat): (w: WColor)
    ensures |w| == channels && forall k :: 0 <= k < channels ==> w[k] == 0
  {
    seq(channels, _ => 0)
  }

  /** `From<Color> for WColor`: each byte widened. */
  function Widen(c: seq<Byte>): (w: WColor)
    ensures |w| == |c| && forall k :: 0 <= k < |c| ==> w[k] == c[k]
  {
    seq(|c|, k requires 0 <= k < |c| => c[k] as nat)
  }

  /** `add_assign`: channel by channel. */
  function AddW(a: WColor, b: WColor): (s: WColor)
    requires |a| == |b|
    ensures |s| == |a| && forall k :: 0 <= k < |a| ==> s[k] == a[k] + b[k]
  {
    seq(|a|, k requires 0 <= k < |a| => a[k] + b[k])
  }

  /** `Div<u32>`: each channel divided, rounding down. */
  function DivW(a: WColor, d: nat): (q: WColor)
    requires d > 0
    ensures |q| == |a|
    ensures forall k :: 0 <= k < |a| ==> q[k] * d <= a[k] < (q[k] + 1) * d
  {
    seq(|a|, k requires 0 <= k < |a| => a[k] / d)
  }

  /** `TryFrom<WColor> for Color`: fails exactly when a channel does not fit a byte. */
  function Narrow(w: WColor): (r: Option<seq<Byte>>)
    ensures r.Some? <==> forall k :: 0 <= k < |w| ==> w[k] < 256
    ensures r.Some? ==> |r.value| == |w| && forall k :: 0 <= k < |w| ==> r.value[k] == w[k]
  {
    if forall k :: 0 <= k < |w| ==> w[k] < 256 then Some(seq(|w|, k requires 0 <= k < |w| => w[k] as Byte)) else None
  }

  /** Widening and narrowing back gives the colour again. */
  lemma NarrowWiden(c: seq<Byte>)
    ensures Narrow(Widen(c)) == Some(c)
  {
    var w := Widen(c);
    assert forall k :: 0 <= k < |w| ==> w[k] < 256;
    var r := Narrow(w);
    assert r.Some?;
    assert forall k :: 0 <= k < |c| ==> r.value[k] == c[k];
    assert r.value == c;
  }

  /** Channel `k` summed over `n` pixels of row `y` from column `x0`. */
  function RowSum(img: Image, x0: nat, y: nat, n: nat, k: nat): (s: nat)
    requires Fits(img) && x0 + n <= img.width && y < img.height && k < img.channels
    ensures s <= 255 * n
  {
    if n == 0 then 0 else RowSum(img, x0, y, n - 1, k) + GetPixel(img, x0 + n - 1, y)[k]
  }

  /** Channel `k` summed over the `xf` by `m` block whose corner is `(x0, y0)`. */
  function BlockSum(img: Image, x0: nat, y0: nat, xf: nat, m: nat, k: nat): (s: nat)
    requires Fits(img) && x0 + xf <= img.width && y0 + m <= img.height && k < img.channels
    ensures s <= 255 * (xf * m)
  {
    if m == 0 then 0
    else
      var s := BlockSum(img, x0, y0, xf, m - 1, k) + RowSum(img, x0, y0 + m - 1, xf, k);
      assert xf * m == xf * (m - 1) + xf;
      s
  }

  /** The block of output pixel `(x, y)` lies inside the image. */
  predicate BlockInside(img: Image, x: nat, y: nat, xf: nat, yf: nat) {
    x * xf + xf <= img.width && y * yf + yf <= img.height
  }

  /** The rounded-down mean of each channel over the block of output pixel `(x, y)`. */
  function AverageColor(img: Image, x: nat, y: nat, xf: nat, yf: nat): (c: seq<Byte>)
    requires Fits(img) && xf > 0 && yf > 0 && BlockInside(img, x, y, xf, yf)
    ensures |c| == img.channels
    ensures forall k :: 0 <= k < img.channels ==>
      c[k] * (xf * yf) <= BlockSum(img, x * xf, y * yf, xf, yf, k) < (c[k] + 1) * (xf * yf)
  {
    seq(img.channels, k requires 0 <= k < img.channels => Mean(BlockSum(img, x * xf, y * yf, xf, yf, k), xf * yf))
  }

  /** The rounded-down mean of a sum of at most `n` bytes is a byte. */
  function Mean(s: nat, n: nat): (q: Byte)
    requires n > 0 && s <= 255 * n
    ensures q * n <= s < (q + 1) * n
  {
    var q := s / n;
    assert q * n + s % n == s;
    assert (q + 1) * n == q * n + n;
    q
  }

  /** One more pixel adds its channel to the row sum. */
  lemma RowSumStep(img: Image, x0: nat, y: nat, i: nat, k: nat)
    requires Fits(img) && x0 + i < img.width && y < img.height && k < img.channels
    ensures RowSum(img, x0, y, i + 1, k) == RowSum(img, x0, y, i, k) + GetPixel(img, x0 + i, y)[k]
  {
    assert x0 + (i + 1) - 1 == x0 + i;
  }

  /** The innermost loop: the `n` pixels of row `y` from column `x0` added to the wide sum. */
  method AddRow(img: Image, x0: nat, y: nat, n: nat, sum: WColor) returns (sum': WColor)
    requires Fits(img) && x0 + n <= img.width && y < img.height && |sum| == img.channels
    ensures |sum'| == img.channels
    ensures forall k :: 0 <= k < img.channels ==> sum'[k] == sum[k] + RowSum(img, x0, y, n, k)
  {
    sum' := sum;
    var i := 0;
    while i < n
      invariant i <= n && |sum'| == img.channels
      invariant forall k :: 0 <= k < img.channels ==> sum'[k] == sum[k] + RowSum(img, x0, y, i, k)
    {
      assert InData(img, x0 + i, y);
      var c := GetPixel(img, x0 + i, y);
      var next := AddW(sum', Widen(c));
      forall k | 0 <= k < img.channels
        ensures next[k] == sum[k] + RowSum(img, x0, y, i + 1, k)
      {
        RowSumStep(img, x0, y, i, k);
      }
      sum' := next;
      i := i + 1;
    }
  }

  /**
    The two inner loops of `downscale_by_average` for one output pixel:
    the block's colours summed row by row as wide colours, the sum divided
    by the block's size and narrowed back, which never fails.
   */
  method BlockAverage(img: Image, x: nat, y: nat, xf: nat, yf: nat) returns (c: seq<Byte>)
    requires Fits(img) && xf > 0 && yf > 0 && BlockInside(img, x, y, xf, yf)
    ensures c == AverageColor(img, x, y, xf, yf)
  {
    var sum := SumBlock(img, x * xf, y * yf, xf, yf);
    MeanOfSums(img, x, y, xf, yf, sum);
    var narrowed := Narrow(DivW(sum, xf * yf));
    c := narrowed.value;
  }

  /** The two outer loops of the block: the wide sum of the `xf` by `yf` pixels from corner `(x0, y0)`. */
  method SumBlock(img: Image, x0: nat, y0: nat, xf: nat, yf: nat) returns (sum: WColor)
    requires Fits(img) && x0 + xf <= img.width && y0 + yf <= img.height
    ensures |sum| == img.channels
    ensures forall k :: 0 <= k < img.channels ==> sum[k] == BlockSum(img, x0, y0, xf, yf, k)
  {
    sum := ZeroW(img.channels);
    var yi := 0;
    while yi < yf
      invariant yi <= yf && |sum| == img.channels
      invariant forall k :: 0 <= k < img.channels ==> sum[k] == BlockSum(img, x0, y0, xf, yi, k)
    {
      var next := AddRow(img, x0, y0 + yi, xf, sum);
      forall k | 0 <= k < img.channels
        ensures next[k] == BlockSum(img, x0, y0, xf, yi + 1, k)
      {
        BlockSumStep(img, x0, y0, xf, yi, k);
      }
      sum := next;
      yi := yi + 1;
    }
  }

  /** One more row adds its row sum to the block sum. */
  lemma BlockSumStep(img: Image, x0: nat, y0: nat, xf: nat, m: nat, k: nat)
    requires Fits(img) && x0 + xf <= img.width && y0 + m < img.height && k < img.channels
    ensures BlockSum(img, x0, y0, xf, m + 1, k) == BlockSum(img, x0, y0, xf, m, k) + RowSum(img, x0, y0 + m, xf, k)
  {
    assert y0 + (m + 1) - 1 == y0 + m;
  }

  /** Dividing the block sums by the block's size and narrowing succeeds and gives the block's average. */
  lemma MeanOfSums(img: Image, x: nat, y: nat, xf: nat, yf: nat, sum: WColor)
    requires Fits(img) && xf > 0 && yf > 0 && BlockInside(img, x, y, xf, yf)
    requires |sum| == img.channels
    requires forall k :: 0 <= k < img.channels ==> sum[k] == BlockSum(img, x * xf, y * yf, xf, yf, k)
    ensures Narrow(DivW(sum, xf * yf)).Some?
    ensures Narrow(DivW(sum, xf * yf)).value == AverageColor(img, x, y, xf, yf)
  {
    var n := xf * yf;
    var mean := DivW(sum, n);
    forall k | 0 <= k < |mean|
      ensures mean[k] < 256
    {
      assert mean[k] == Mean(sum[k], n) by {
        FloorUnique(sum[k], n, mean[k], Mean(sum[k], n));
      }
    }
    var c := Narrow(mean).value;
    AverageEquals(img, x, y, xf, yf, c);
  }

  /** A colour meeting the rounding bounds of every channel is the block's average. */
  lemma AverageEquals(img: Image, x: nat, y: nat, xf: nat, yf: nat, c: seq<Byte>)
    requires Fits(img) && xf > 0 && yf > 0 && BlockInside(img, x, y, xf, yf)
    requires |c| == img.channels
    requires forall k :: 0 <= k < img.channels ==>
      c[k] * (xf * yf) <= BlockSum(img, x * xf, y * yf, xf, yf, k) < (c[k] + 1) * (xf * yf)
    ensures c == AverageColor(img, x, y, xf, yf)
  {
    var a := AverageColor(img, x, y, xf, yf);
    forall k | 0 <= k < img.channels
      ensures c[k] == a[k]
    {
      FloorUnique(BlockSum(img, x * xf, y * yf, xf, yf, k), xf * yf, c[k], a[k]);
    }
  }

  /** The rounded-down quotient is the only number meeting its bounds. */
  lemma FloorUnique(s: nat, n: nat, q1: nat, q2: nat)
    requires n > 0
    requires q1 * n <= s < (q1 + 1) * n && q2 * n <= s < (q2 + 1) * n
    ensures q1 == q2
  {
    if q1 < q2 {
      MulLe(q1 + 1, q2, n);
    } else if q2 < q1 {
      MulLe(q2 + 1, q1, n);
    }
  }

  /** Output pixels have their blocks inside the image once the factors are the sizes' quotients. */
  lemma BlocksInside(img: Image, newWidth: nat, newHeight: nat, x: nat, y: nat)
    requires newWidth > 0 && newHeight > 0 && x < newWidth && y < newHeight
    ensures BlockInside(img, x, y, img.width / newWidth, img.height / newHeight)
  {
    var xf, yf := img.width / newWidth, img.height / newHeight;
    MulLe(x + 1, newWidth, xf);
    MulLe(y + 1, newHeight, yf);
  }

  /**
    The loops of `downscale_by_average` once its checks passed: output
    pixel `(x, y)` of a zeroed image gets the average of its block.
   */
  method AverageBlocks(img: Image, newWidth: nat, newHeight: nat) returns (out: Image)
    requires Fits(img) && newWidth > 0 && newHeight > 0
    requires img.width / newWidth > 0 && img.height / newHeight > 0
    ensures Fits(out) && out.width == newWidth && out.height == newHeight && out.channels == img.channels
    ensures forall x: nat, y: nat :: x < newWidth && y < newHeight ==>
      BlockInside(img, x, y, img.width / newWidth, img.height / newHeight)
      && GetPixel(out, x, y) == AverageColor(img, x, y, img.width / newWidth, img.height / newHeight)
  {
    var xf, yf := img.width / newWidth, img.height / newHeight;
    forall x: nat, y: nat | x < newWidth && y < newHeight
      ensures BlockInside(img, x, y, xf, yf)
    {
      BlocksInside(img, newWidth, newHeight, x, y);
    }
    out := Zeroed(newWidth, newHeight, img.channels);
    var y := 0;
    while y < newHeight
      invariant y <= newHeight && Fits(out)
      invariant out.width == newWidth && out.height == newHeight && out.channels == img.channels
      invariant forall xx: nat, yy: nat :: xx < newWidth && yy < y ==> GetPixel(out, xx, yy) == AverageColor(img, xx, yy, xf, yf)
    {
      var x := 0;
      while x < newWidth
        invariant x <= newWidth && Fits(out)
        invariant out.width == newWidth && out.height == newHeight && out.channels == img.channels
        invariant forall xx: nat, yy: nat :: xx < newWidth && (yy < y || (yy == y && xx < x)) ==>
          GetPixel(out, xx, yy) == AverageColor(img, xx, yy, xf, yf)
      {
        var c := BlockAverage(img, x, y, xf, yf);
        SetLeavesOthers(out, x, y, c);
        SetThenGet(out, x, y, c);
        out := SetPixel(out, x, y, c);
        x := x + 1;
      }
      y := y + 1;
    }
  }

  /** The size check of the four-channel image: both new sizes divide the old ones (a zero size panics on `%`). */
  predicate SizesDivide(img: Image, newWidth: nat, newHeight: nat) {
    newWidth > 0 && newHeight > 0 && img.width % newWidth == 0 && img.height % newHeight == 0
  }

  /** The size check of the two-channel image as written: the height must NOT divide. */
  predicate SizesDivideAsWritten(img: Image, newWidth: nat, newHeight: nat) {
    newWidth > 0 && newHeight > 0 && img.width % newWidth == 0 && img.height % newHeight != 0
  }

  /**
    `downscale_by_average` of the four-channel image, and of the
    two-channel one with its check corrected: `None` where the size check
    fails or the block is empty (the source divides by a zero sample size);
    otherwise each output pixel is the rounded-down mean of its block.
   */
  method DownscaleByAverage(img: Image, newWidth: nat, newHeight: nat) returns (out: Option<Image>)
    requires Fits(img)
    ensures out.Some? <==> SizesDivide(img, newWidth, newHeight) && img.width > 0 && img.height > 0
    ensures out.Some? ==>
      var o := out.value;
      Fits(o) && o.width == newWidth && o.height == newHeight && o.channels == img.channels
      && forall x: nat, y: nat :: x < newWidth && y < newHeight ==>
        BlockInside(img, x, y, img.width / newWidth, img.height / newHeight)
        && GetPixel(o, x, y) == AverageColor(img, x, y, img.width / newWidth, img.height / newHeight)
  {
    if !SizesDivide(img, newWidth, newHeight) {
      return None;
    }
    if img.width / newWidth == 0 || img.height / newHeight == 0 {
      return None;
    }
    var o := AverageBlocks(img, newWidth, newHeight);
    out := Some(o);
  }

  /**
    `downscale_by_average` of the two-channel image as written: it goes on
    only when the height does not divide, and then panics on a zero sample
    size when the new height exceeds the old.
   */
  method DownscaleByAverageAsWritten(img: Image, newWidth: nat, newHeight: nat) returns (out: Option<Image>)
    requires Fits(img)
    ensures out.Some? <==> SizesDivideAsWritten(img, newWidth, newHeight) && img.width > 0 && img.height >= newHeight
    ensures out.Some? ==>
      var o := out.value;
      Fits(o) && o.width == newWidth && o.height == newHeight && o.channels == img.channels
      && forall x: nat, y: nat :: x < newWidth && y < newHeight ==>
        BlockInside(img, x, y, img.width / newWidth, img.height / newHeight)
        && GetPixel(o, x, y) == AverageColor(img, x, y, img.width / newWidth, img.height / newHeight)
  {
    if !SizesDivideAsWritten(img, newWidth, newHeight) {
      return None;
    }
    if img.width / newWidth == 0 || img.height / newHeight == 0 {
      return None;
    }
    var o := AverageBlocks(img, newWidth, newHeight);
    out := Some(o);
  }

  /** The inverted check refuses every size that divides the image exactly, which the four-channel check accepts. */
  lemma AsWrittenRefusesExactSizes(img: Image, newWidth: nat, newHeight: nat)
    requires SizesDivide(img, newWidth, newHeight)
    ensures !SizesDivideAsWritten(img, newWidth, newHeight)
  {
  }

  /** Halving a 4 by 4 two-channel image: the corrected check accepts it, the written one panics. */
  lemma HalvingWitness()
    ensures SizesDivide(Zeroed(4, 4, 2), 2, 2) && !SizesDivideAsWritten(Zeroed(4, 4, 2), 2, 2)
  {
  }
}
