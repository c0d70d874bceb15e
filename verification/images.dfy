/**
  Interleaved byte images: pixel `(x, y)` of a `width`-wide image with
  `channels` bytes per pixel occupies the bytes from
  `channels * (x + y * width)` on.  `Color2` images have two channels and
  `Color4` images four; a colour is the sequence of its channel bytes.
  The operations of the image traits are pixel loops over such images.
 */
module Images {
  import opened Wrappers
  import opened IntArith

  type Byte = b: int | 0 <= b < 256

  datatype Image = Image(width: nat, height: nat, channels: nat, data: seq<Byte>)

  /** Row-major number of pixel `(x, y)`. */
  function PixelIndex(img: Image, x: nat, y: nat): nat {
    x + y * img.width
  }

  /** First byte of pixel `(x, y)`. */
  function Offset(img: Image, x: nat, y: nat): nat {
    img.channels * PixelIndex(img, x, y)
  }

  /** The bytes of pixel `(x, y)` lie inside the data, so reading or writing it does not panic. */
  predicate InData(img: Image, x: nat, y: nat) {
    Offset(img, x, y) + img.channels <= |img.data|
  }

  /** Every pixel of the `width` by `height` grid can be read and written. */
  predicate Fits(img: Image) {
    img.channels > 0 && forall x: nat, y: nat :: x < img.width && y < img.height ==> InData(img, x, y)
  }

  /** Same dimensions, channel count and data length. */
  predicate SameShape(a: Image, b: Image) {
    a.width == b.width && a.height == b.height && a.channels == b.channels && |a.data| == |b.data|
  }

  predicate InRect(x: nat, y: nat, x0: nat, x1: nat, y0: nat, y1: nat) {
    x0 <= x < x1 && y0 <= y < y1
  }

  /** Pixels of the grid are numbered below `width * height`. */
  lemma IndexBound(x: nat, y: nat, w: nat, h: nat)
    requires x < w && y < h
    ensures x + y * w + 1 <= w * h
  {
    assert w + y * w == (y + 1) * w;
    MulLe(y + 1, h, w);
  }

  /** `i < j` keeps the byte ranges of pixels `i` and `j` apart. */
  lemma RangesApart(c: nat, i: nat, j: nat)
    requires i < j
    ensures c * i + c <= c * j
  {
    assert c * j == c * i + c * (j - i);
    MulLe(1, j - i, c);
  }

  /** Two different pixels of a row-major grid have different numbers. */
  lemma IndexInjective(x: nat, y: nat, x': nat, y': nat, w: nat)
    requires x < w && x' < w && (x != x' || y != y')
    ensures x + y * w != x' + y' * w
  {
    if y < y' {
      MulLe(y + 1, y', w);
      assert x + y * w < (y + 1) * w;
    } else if y' < y {
      MulLe(y' + 1, y, w);
      assert x' + y' * w < (y' + 1) * w;
    }
  }

  /** Different pixels of a grid occupy disjoint bytes. */
  lemma PixelsDisjoint(img: Image, x: nat, y: nat, x': nat, y': nat)
    requires x < img.width && x' < img.width && (x != x' || y != y')
    ensures Offset(img, x, y) + img.channels <= Offset(img, x', y') || Offset(img, x', y') + img.channels <= Offset(img, x, y)
  {
    IndexInjective(x, y, x', y', img.width);
    var i, j := PixelIndex(img, x, y), PixelIndex(img, x', y');
    if i < j {
      RangesApart(img.channels, i, j);
    } else {
      RangesApart(img.channels, j, i);
    }
  }

  /** `zeroed`: `channels * width * height` zero bytes. */
  function Zeroed(width: nat, height: nat, channels: nat): (img: Image)
    requires channels > 0
    ensures img.width == width && img.height == height && img.channels == channels
    ensures |img.data| == channels * (width * height)
    ensures forall i :: 0 <= i < |img.data| ==> img.data[i] == 0
    ensures Fits(img)
  {
    var img := Image(width, height, channels, seq(channels * (width * height), _ => 0));
    assert Fits(img) by {
      forall x: nat, y: nat | x < width && y < height
        ensures InData(img, x, y)
      {
        IndexBound(x, y, width, height);
        MulLe(PixelIndex(img, x, y) + 1, width * height, channels);
        assert channels * (PixelIndex(img, x, y) + 1) == Offset(img, x, y) + channels;
      }
    }
    img
  }

  /** `get_pixel_color`: the channel bytes of pixel `(x, y)`. */
  function GetPixel(img: Image, x: nat, y: nat): (c: seq<Byte>)
    requires InData(img, x, y)
    ensures |c| == img.channels
    ensures forall k :: 0 <= k < img.channels ==> c[k] == img.data[Offset(img, x, y) + k]
  {
    img.data[Offset(img, x, y)..Offset(img, x, y) + img.channels]
  }

  /** `set_pixel_color`: pixel `(x, y)` takes the colour's bytes, every other byte stays. */
  function SetPixel(img: Image, x: nat, y: nat, color: seq<Byte>): (r: Image)
    requires InData(img, x, y) && |color| == img.channels
    ensures SameShape(r, img)
    ensures forall i :: 0 <= i < |r.data| ==>
      r.data[i] == if Offset(img, x, y) <= i < Offset(img, x, y) + img.channels then color[i - Offset(img, x, y)] else img.data[i]
  {
    var o := Offset(img, x, y);
    img.(data := img.data[..o] + color + img.data[o + img.channels..])
  }

  /** The layout depends only on the shape, so images of one shape fit alike. */
  lemma SameShapeFits(a: Image, b: Image)
    requires SameShape(a, b) && Fits(b)
    ensures Fits(a)
  {
    forall x: nat, y: nat | x < a.width && y < a.height
      ensures InData(a, x, y)
    {
      assert InData(b, x, y);
    }
  }

  /** Reading a pixel just written gives the colour back. */
  lemma SetThenGet(img: Image, x: nat, y: nat, color: seq<Byte>)
    requires InData(img, x, y) && |color| == img.channels
    ensures GetPixel(SetPixel(img, x, y, color), x, y) == color
  {
  }

  /** Writing one pixel leaves a pixel whose bytes lie elsewhere as it was. */
  lemma SetLeavesOther(img: Image, x: nat, y: nat, color: seq<Byte>, x': nat, y': nat)
    requires InData(img, x, y) && InData(img, x', y') && |color| == img.channels
    requires Offset(img, x, y) + img.channels <= Offset(img, x', y') || Offset(img, x', y') + img.channels <= Offset(img, x, y)
    ensures GetPixel(SetPixel(img, x, y, color), x', y') == GetPixel(img, x', y')
  {
    var r := SetPixel(img, x, y, color);
    assert Offset(r, x', y') == Offset(img, x', y');
    var a, b := GetPixel(r, x', y'), GetPixel(img, x', y');
    assert forall k :: 0 <= k < img.channels ==> a[k] == b[k];
  }

  /** Writing one pixel of a grid leaves every other pixel as it was. */
  lemma SetLeavesOthers(img: Image, x: nat, y: nat, color: seq<Byte>)
    requires Fits(img) && x < img.width && y < img.height && |color| == img.channels
    ensures Fits(SetPixel(img, x, y, color))
    ensures forall x': nat, y': nat :: x' < img.width && y' < img.height && (x' != x || y' != y) ==>
      GetPixel(SetPixel(img, x, y, color), x', y') == GetPixel(img, x', y')
  {
    var r := SetPixel(img, x, y, color);
    SameShapeFits(r, img);
    forall x': nat, y': nat | x' < img.width && y' < img.height && (x' != x || y' != y)
      ensures GetPixel(r, x', y') == GetPixel(img, x', y')
    {
      PixelsDisjoint(img, x, y, x', y');
      SetLeavesOther(img, x, y, color, x', y');
    }
  }

  /**
    The nested pixel loop the image operations share: rows `y0..y1`
    outside, columns `x0..x1` inside, each pixel of the rectangle set to
    `colorAt(x, y)`.  Pixels outside the rectangle keep their colour.
   */
  method Paint(img: Image, x0: nat, x1: nat, y0: nat, y1: nat, colorAt: (nat, nat) --> seq<Byte>) returns (out: Image)
    requires Fits(img) && x0 <= x1 <= img.width && y0 <= y1 <= img.height
    requires forall x: nat, y: nat :: InRect(x, y, x0, x1, y0, y1) ==> colorAt.requires(x, y)
    requires forall x: nat, y: nat :: InRect(x, y, x0, x1, y0, y1) ==> |colorAt(x, y)| == img.channels
    ensures Fits(out) && SameShape(out, img)
    ensures forall x: nat, y: nat :: x < out.width && y < out.height ==>
      GetPixel(out, x, y) == if InRect(x, y, x0, x1, y0, y1) then colorAt(x, y) else GetPixel(img, x, y)
  {
    out := img;
    var y := y0;
    while y < y1
      invariant y0 <= y <= y1 && Fits(out) && SameShape(out, img)
      invariant forall xx: nat, yy: nat :: xx < img.width && yy < img.height ==>
        GetPixel(out, xx, yy) == if InRect(xx, yy, x0, x1, y0, y) then colorAt(xx, yy) else GetPixel(img, xx, yy)
      decreases y1 - y
    {
      ghost var before := out;
      out := PaintRow(out, x0, x1, y, colorAt);
      forall xx: nat, yy: nat | xx < img.width && yy < img.height
        ensures GetPixel(out, xx, yy) == if InRect(xx, yy, x0, x1, y0, y + 1) then colorAt(xx, yy) else GetPixel(img, xx, yy)
      {
        assert InData(before, xx, yy);
      }
      y := y + 1;
    }
  }

  /** One row of `Paint`: columns `x0..x1` of row `y` set to `colorAt`, every other pixel kept. */
  method PaintRow(img: Image, x0: nat, x1: nat, y: nat, colorAt: (nat, nat) --> seq<Byte>) returns (out: Image)
    requires Fits(img) && x0 <= x1 <= img.width && y < img.height
    requires forall x: nat :: x0 <= x < x1 ==> colorAt.requires(x, y) && |colorAt(x, y)| == img.channels
    ensures Fits(out) && SameShape(out, img)
    ensures forall xx: nat, yy: nat :: xx < img.width && yy < img.height ==>
      GetPixel(out, xx, yy) == if yy == y && x0 <= xx < x1 then colorAt(xx, yy) else GetPixel(img, xx, yy)
  {
    out := img;
    var x := x0;
    while x < x1
      invariant x0 <= x <= x1 && Fits(out) && SameShape(out, img)
      invariant forall xx: nat, yy: nat :: xx < img.width && yy < img.height ==>
        GetPixel(out, xx, yy) == if yy == y && x0 <= xx < x then colorAt(xx, yy) else GetPixel(img, xx, yy)
      decreases x1 - x
    {
      var c := colorAt(x, y);
      SetLeavesOthers(out, x, y, c);
      SetThenGet(out, x, y, c);
      out := SetPixel(out, x, y, c);
      x := x + 1;
    }
  }

  /**
    `map_color`: every pixel, row by row, is replaced by `f` of its colour.
    The source reads each pixel from the image being changed just before
    writing it, so `f` sees the original colour, as painting from the
    unchanged image does.
   */
  method MapColor(img: Image, f: seq<Byte> -> seq<Byte>) returns (out: Image)
    requires Fits(img)
    requires forall c: seq<Byte> :: |c| == img.channels ==> |f(c)| == img.channels
    ensures Fits(out) && SameShape(out, img)
    ensures forall x: nat, y: nat :: x < out.width && y < out.height ==> GetPixel(out, x, y) == f(GetPixel(img, x, y))
  {
    var colorAt := (x: nat, y: nat) requires x < img.width && y < img.height => f(GetPixel(img, x, y));
    forall x: nat, y: nat | InRect(x, y, 0, img.width, 0, img.height)
      ensures |colorAt(x, y)| == img.channels
    {
      assert InData(img, x, y);
      assert colorAt(x, y) == f(GetPixel(img, x, y));
    }
    out := Paint(img, 0, img.width, 0, img.height, colorAt);
  }

  /** `replace_color_for`: exactly the pixels whose colour satisfies `p` become `newColor`. */
  method ReplaceColorFor(img: Image, p: seq<Byte> -> bool, newColor: seq<Byte>) returns (out: Image)
    requires Fits(img) && |newColor| == img.channels
    ensures Fits(out) && SameShape(out, img)
    ensures forall x: nat, y: nat :: x < out.width && y < out.height ==>
      GetPixel(out, x, y) == if p(GetPixel(img, x, y)) then newColor else GetPixel(img, x, y)
  {
    out := MapColor(img, c => if p(c) then newColor else c);
  }

  /** `replace_color`: exactly the pixels of colour `oldColor` become `newColor`. */
  method ReplaceColor(img: Image, oldColor: seq<Byte>, newColor: seq<Byte>) returns (out: Image)
    requires Fits(img) && |newColor| == img.channels
    ensures Fits(out) && SameShape(out, img)
    ensures forall x: nat, y: nat :: x < out.width && y < out.height ==>
      GetPixel(out, x, y) == if GetPixel(img, x, y) == oldColor then newColor else GetPixel(img, x, y)
  {
    out := ReplaceColorFor(img, c => c == oldColor, newColor);
  }

  /** `replace_area_color`: the rectangle `[startX, endX) x [startY, endY)` takes `newColor`, the rest stays. */
  method ReplaceAreaColor(img: Image, startX: nat, endX: nat, startY: nat, endY: nat, newColor: seq<Byte>) returns (out: Image)
    requires Fits(img) && startX <= endX <= img.width && startY <= endY <= img.height && |newColor| == img.channels
    ensures Fits(out) && SameShape(out, img)
    ensures forall x: nat, y: nat :: x < out.width && y < out.height ==>
      GetPixel(out, x, y) == if InRect(x, y, startX, endX, startY, endY) then newColor else GetPixel(img, x, y)
  {
    out := Paint(img, startX, endX, startY, endY, (x: nat, y: nat) => newColor);
  }

  /** `crop`: a fresh image of the rectangle's size whose pixel `(x, y)` is the original's `(x + startX, y + startY)`. */
  method Crop(img: Image, startX: nat, endX: nat, startY: nat, endY: nat) returns (out: Image)
    requires Fits(img) && startX <= endX <= img.width && startY <= endY <= img.height
    ensures Fits(out) && out.channels == img.channels
    ensures out.width == endX - startX && out.height == endY - startY
    ensures forall x: nat, y: nat :: x < out.width && y < out.height ==> GetPixel(out, x, y) == GetPixel(img, x + startX, y + startY)
  {
    var w, h := endX - startX, endY - startY;
    var zero := Zeroed(w, h, img.channels);
    var colorAt := (x: nat, y: nat) requires x < w && y < h => GetPixel(img, x + startX, y + startY);
    forall x: nat, y: nat | InRect(x, y, 0, w, 0, h)
      ensures |colorAt(x, y)| == zero.channels
    {
      assert InData(img, x + startX, y + startY);
      assert colorAt(x, y) == GetPixel(img, x + startX, y + startY);
    }
    out := Paint(zero, 0, w, 0, h, colorAt);
  }

  /** Sampling a block corner stays inside the image: `x * (w / n) < w` for `x < n`. */
  lemma SampleInside(x: nat, n: nat, w: nat)
    requires x < n && w % n == 0 && w > 0
    ensures x * (w / n) < w
  {
    var f := w / n;
    assert w == n * f;
    MulLe(x + 1, n, f);
    assert x * f + f <= n * f;
    assert f > 0;
  }

  /** The read `downscale_by_sample` makes for output pixel `(x, y)`, of pixel `(x * xf, y * yf)`, stays inside the data. */
  predicate SampleInData(img: Image, xf: nat, yf: nat, x: nat, y: nat) {
    InData(img, x * xf, y * yf)
  }

  /** Every read of a `newWidth` by `newHeight` sampling with factors `xf`, `yf` stays inside the data. */
  predicate SamplesInData(img: Image, newWidth: nat, newHeight: nat, xf: nat, yf: nat) {
    forall x: nat, y: nat :: x < newWidth && y < newHeight ==> SampleInData(img, xf, yf, x, y)
  }

  /** The pixel sampled for output pixel `(x, y)`. */
  function Sampled(img: Image, xf: nat, yf: nat, x: nat, y: nat): seq<Byte>
    requires SampleInData(img, xf, yf, x, y)
  {
    GetPixel(img, x * xf, y * yf)
  }

  /** The sampled pixel `(x * xf, y * yf)` lies on the image's grid. */
  predicate SampleInGrid(img: Image, xf: nat, yf: nat, x: nat, y: nat) {
    x * xf < img.width && y * yf < img.height
  }

  /** The new sizes are positive and divide the image's. */
  predicate DividesSizes(img: Image, newWidth: nat, newHeight: nat) {
    newWidth > 0 && newHeight > 0 && img.width % newWidth == 0 && img.height % newHeight == 0
  }

  /** On a fitting image with both sizes positive, every sample is a pixel of the grid, so every read stays in the data. */
  lemma SamplesInGrid(img: Image, newWidth: nat, newHeight: nat)
    requires Fits(img) && DividesSizes(img, newWidth, newHeight) && img.width > 0 && img.height > 0
    ensures forall x: nat, y: nat :: x < newWidth && y < newHeight ==>
      SampleInGrid(img, img.width / newWidth, img.height / newHeight, x, y)
    ensures SamplesInData(img, newWidth, newHeight, img.width / newWidth, img.height / newHeight)
  {
    var xf, yf := img.width / newWidth, img.height / newHeight;
    forall x: nat, y: nat | x < newWidth && y < newHeight
      ensures SampleInGrid(img, xf, yf, x, y) && SampleInData(img, xf, yf, x, y)
    {
      SampleInside(x, newWidth, img.width);
      SampleInside(y, newHeight, img.height);
      assert InData(img, x * xf, y * yf);
    }
  }

  /**
    `downscale_by_sample`: the sizes must divide the image's, and output
    pixel `(x, y)` is input pixel `(x * xf, y * yf)`.  `None` where the
    source panics: its assertion, its remainder by zero, or a read outside
    the data (an image of zero width or height can still be read at its
    first pixel when its data holds one).
   */
  method DownscaleBySample(img: Image, newWidth: nat, newHeight: nat) returns (out: Option<Image>)
    requires img.channels > 0
    ensures out.Some? <==>
      DividesSizes(img, newWidth, newHeight)
      && SamplesInData(img, newWidth, newHeight, img.width / newWidth, img.height / newHeight)
    ensures Fits(img) && DividesSizes(img, newWidth, newHeight) && img.width > 0 && img.height > 0 ==> out.Some?
    ensures out.Some? ==>
      var o := out.value;
      Fits(o) && o.width == newWidth && o.height == newHeight && o.channels == img.channels
      && forall x: nat, y: nat :: x < newWidth && y < newHeight ==>
        SampleInData(img, img.width / newWidth, img.height / newHeight, x, y)
        && GetPixel(o, x, y) == Sampled(img, img.width / newWidth, img.height / newHeight, x, y)
  {
    if !DividesSizes(img, newWidth, newHeight) {
      return None;
    }
    var xf, yf := img.width / newWidth, img.height / newHeight;
    if Fits(img) && img.width > 0 && img.height > 0 {
      SamplesInGrid(img, newWidth, newHeight);
    }
    if !SamplesInData(img, newWidth, newHeight, xf, yf) {
      return None;
    }
    var zero := Zeroed(newWidth, newHeight, img.channels);
    var o := Paint(zero, 0, newWidth, 0, newHeight,
      (x: nat, y: nat) requires SampleInData(img, xf, yf, x, y) => Sampled(img, xf, yf, x, y));
    out := Some(o);
  }
}
