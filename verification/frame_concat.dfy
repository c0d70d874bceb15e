/**
  The learner's state of four two-channel frames, stacked into one image
  four frames tall.  The buffer it allocates has `4 * (w * h * 4)` bytes,
  twice what a two-byte-per-pixel `w` by `4 h` image indexes, so every
  write lands inside it.
 */
module FrameConcats {
  import opened IntArith
  import opened Images

  const N_FRAMES: nat := 4

  /** `State`: four frames. */
  datatype State = State(frames: seq<Image>)

  /** Each frame is a two-channel image with frame 0's dimensions, as the reads of `concat_frames` need. */
  predicate Uniform(s: State) {
    |s.frames| == N_FRAMES
    && forall n :: 0 <= n < N_FRAMES ==>
      Fits(s.frames[n]) && s.frames[n].channels == 2
      && s.frames[n].width == s.frames[0].width && s.frames[n].height == s.frames[0].height
  }

  /** `frame_dims`: the dimensions of frame 0. */
  function FrameDims(s: State): (dims: (nat, nat))
    requires |s.frames| > 0
    ensures dims == (s.frames[0].width, s.frames[0].height)
  {
    (s.frames[0].width, s.frames[0].height)
  }

  /** An image with more bytes than another of its shape fits wherever that one does. */
  lemma LongerFits(a: Image, b: Image)
    requires a.width == b.width && a.height == b.height && a.channels == b.channels
    requires |a.data| >= |b.data| && Fits(b)
    ensures Fits(a)
  {
    forall x: nat, y: nat | x < a.width && y < a.height
      ensures InData(a, x, y)
    {
      assert InData(b, x, y);
    }
  }

  /** The allocated buffer: `16 * w * h` zero bytes viewed as a `w` by `4 h` two-channel image. */
  function ConcatBuffer(width: nat, height: nat): (img: Image)
    ensures img.width == width && img.height == height * N_FRAMES && img.channels == 2
    ensures |img.data| == 4 * (width * height * N_FRAMES)
    ensures |img.data| == 2 * (2 * (width * (height * N_FRAMES)))
    ensures Fits(img)
  {
    var img := Image(width, height * N_FRAMES, 2, seq(4 * (width * height * N_FRAMES), _ => 0));
    var exact := Zeroed(width, height * N_FRAMES, 2);
    assert width * height * N_FRAMES == width * (height * N_FRAMES);
    LongerFits(img, exact);
    img
  }

  /** Band `m` of height `h` ends where band `n` begins or above it. */
  lemma BandBelow(m: nat, n: nat, h: nat)
    requires m < n
    ensures m * h + h <= n * h
  {
    MulLe(m + 1, n, h);
  }

  /** Rows `lo .. lo + frame.height` of `out` hold `frame`, pixel for pixel. */
  ghost predicate HoldsFrame(out: Image, frame: Image, lo: nat) {
    && Fits(out) && Fits(frame) && frame.width <= out.width && lo + frame.height <= out.height
    && forall x: nat, y: nat :: x < frame.width && y < frame.height ==> GetPixel(out, x, y + lo) == GetPixel(frame, x, y)
  }

  /** A frame held above row `band` stays held when only rows `band .. band + h` change. */
  lemma HoldsFrameKept(before: Image, after: Image, frame: Image, lo: nat, band: nat, h: nat)
    requires HoldsFrame(before, frame, lo) && Fits(after) && SameShape(after, before)
    requires lo + frame.height <= band
    requires forall x: nat, y: nat :: x < before.width && y < before.height && !(band <= y < band + h) ==>
      GetPixel(after, x, y) == GetPixel(before, x, y)
    ensures HoldsFrame(after, frame, lo)
  {
    forall x: nat, y: nat | x < frame.width && y < frame.height
      ensures GetPixel(after, x, y + lo) == GetPixel(frame, x, y)
    {
      var yy: nat := y + lo;
      assert GetPixel(after, x, yy) == GetPixel(before, x, yy);
    }
  }

  /** One pass of the frame loop: a frame is written into the band of rows from `lo`, every other row stays. */
  method CopyFrame(out: Image, frame: Image, lo: nat, w: nat, h: nat) returns (out': Image)
    requires Fits(out) && out.width == w && lo + h <= out.height
    requires Fits(frame) && frame.width == w && frame.height == h && frame.channels == out.channels
    ensures Fits(out') && SameShape(out', out)
    ensures HoldsFrame(out', frame, lo)
    ensures forall x: nat, y: nat :: x < w && y < out.height && !(lo <= y < lo + h) ==>
      GetPixel(out', x, y) == GetPixel(out, x, y)
  {
    var colorAt := (x: nat, y: nat) requires x < w && lo <= y < lo + h => GetPixel(frame, x, y - lo);
    forall x: nat, y: nat | InRect(x, y, 0, w, lo, lo + h)
      ensures |colorAt(x, y)| == out.channels
    {
      assert InData(frame, x, y - lo);
      assert colorAt(x, y) == GetPixel(frame, x, y - lo);
    }
    out' := Paint(out, 0, w, lo, lo + h, colorAt);
    forall x: nat, y: nat | x < w && y < h
      ensures GetPixel(out', x, y + lo) == GetPixel(frame, x, y)
    {
      assert InRect(x, y + lo, 0, w, lo, lo + h);
      assert colorAt(x, y + lo) == GetPixel(frame, x, y);
    }
  }

  /**
    `concat_frames`: frame `n` is copied pixel by pixel into rows
    `n h .. (n + 1) h` of the buffer, frame after frame.
   */
  method ConcatFrames(s: State) returns (out: Image)
    requires Uniform(s)
    ensures Fits(out) && out.channels == 2
    ensures out.width == FrameDims(s).0 && out.height == N_FRAMES * FrameDims(s).1
    ensures |out.data| == 2 * (2 * (out.width * out.height))
    ensures forall n :: 0 <= n < N_FRAMES ==> HoldsFrame(out, s.frames[n], n * FrameDims(s).1)
  {
    var (w, h) := FrameDims(s);
    out := ConcatBuffer(w, h);
    var n := 0;
    while n < N_FRAMES
      invariant n <= N_FRAMES && Fits(out) && out.channels == 2 && out.width == w && out.height == h * N_FRAMES
      invariant |out.data| == 2 * (2 * (w * (h * N_FRAMES)))
      invariant forall m :: 0 <= m < n ==> HoldsFrame(out, s.frames[m], m * h)
    {
      var before := out;
      BandBelow(n, N_FRAMES, h);
      out := CopyFrame(out, s.frames[n], n * h, w, h);
      forall m | 0 <= m < n
        ensures HoldsFrame(out, s.frames[m], m * h)
      {
        BandBelow(m, n, h);
        HoldsFrameKept(before, out, s.frames[m], m * h, n * h, h);
      }
      n := n + 1;
    }
    assert h * N_FRAMES == N_FRAMES * h;
  }
}
