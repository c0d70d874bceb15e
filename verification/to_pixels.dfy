/**
  The model's input layout: a two-channel image's interleaved bytes are
  split into the plane of first channels followed by the plane of second
  channels, and a state's pixels are its frames' pixels one after another.
 */
module PixelPlanes {
  import opened Images

  /** The bytes at even positions. */
  function Evens(d: seq<Byte>): (e: seq<Byte>)
    requires |d| % 2 == 0
    ensures |e| == |d| / 2
    decreases |d|
  {
    if |d| == 0 then [] else [d[0]] + Evens(d[2..])
  }

  /** The bytes at odd positions. */
  function Odds(d: seq<Byte>): (o: seq<Byte>)
    requires |d| % 2 == 0
    ensures |o| == |d| / 2
    decreases |d|
  {
    if |d| == 0 then [] else [d[1]] + Odds(d[2..])
  }

  /** Element `i` of the evens is byte `2i`. */
  lemma {:induction false} EvensAt(d: seq<Byte>, i: nat)
    requires |d| % 2 == 0 && i < |d| / 2
    ensures Evens(d)[i] == d[2 * i]
    decreases i
  {
    if i > 0 {
      var r, j := d[2..], i - 1;
      assert Evens(d) == [d[0]] + Evens(r);
      EvensAt(r, j);
      assert 2 * i == 2 * j + 2;
    }
  }

  /** Element `i` of the odds is byte `2i + 1`. */
  lemma {:induction false} OddsAt(d: seq<Byte>, i: nat)
    requires |d| % 2 == 0 && i < |d| / 2
    ensures Odds(d)[i] == d[2 * i + 1]
    decreases i
  {
    if i > 0 {
      var r, j := d[2..], i - 1;
      assert Odds(d) == [d[1]] + Odds(r);
      OddsAt(r, j);
      assert 2 * i + 1 == 2 * j + 3;
    }
  }

  /** Element `i` of the evens is byte `2i`, and of the odds byte `2i + 1`. */
  lemma EvensOddsAt(d: seq<Byte>)
    requires |d| % 2 == 0
    ensures forall i :: 0 <= i < |d| / 2 ==> Evens(d)[i] == d[2 * i] && Odds(d)[i] == d[2 * i + 1]
  {
    forall i | 0 <= i < |d| / 2
      ensures Evens(d)[i] == d[2 * i] && Odds(d)[i] == d[2 * i + 1]
    {
      EvensAt(d, i);
      OddsAt(d, i);
    }
  }

  /**
    `extract_planes`: the data taken in pairs and unzipped.  An odd length
    leaves a one-byte chunk whose second byte the source indexes and
    panics on, so it is excluded.
   */
  function ExtractPlanes(d: seq<Byte>): (planes: (seq<Byte>, seq<Byte>))
    requires |d| % 2 == 0
    ensures |planes.0| == |d| / 2 && |planes.1| == |d| / 2
  {
    (Evens(d), Odds(d))
  }

  /** The planes unzip the pairs: plane 0 holds each pair's first byte, plane 1 its second. */
  lemma ExtractPlanesUnzips(d: seq<Byte>)
    requires |d| % 2 == 0
    ensures var planes := ExtractPlanes(d);
      forall i :: 0 <= i < |d| / 2 ==> planes.0[i] == d[2 * i] && planes.1[i] == d[2 * i + 1]
  {
    EvensOddsAt(d);
  }

  /** `ToPixels` of a two-channel image (and of the owned and shared images, which delegate to it): plane 0, then plane 1. */
  function ImagePixels(img: Image): (p: seq<Byte>)
    requires |img.data| % 2 == 0
    ensures |p| == |img.data|
  {
    var (plane0, plane1) := ExtractPlanes(img.data);
    plane0 + plane1
  }

  /** Pixel `i` of plane 0 is the first channel of pixel `i`, and of plane 1 its second channel. */
  lemma ImagePixelsPlanes(img: Image)
    requires |img.data| % 2 == 0
    ensures var p := ImagePixels(img); var h := |img.data| / 2;
      forall i :: 0 <= i < h ==> p[i] == img.data[2 * i] && p[h + i] == img.data[2 * i + 1]
  {
    var p, h := ImagePixels(img), |img.data| / 2;
    var e, o := Evens(img.data), Odds(img.data);
    assert p == e + o && |e| == h;
    EvensOddsAt(img.data);
    forall i | 0 <= i < h
      ensures p[i] == img.data[2 * i] && p[h + i] == img.data[2 * i + 1]
    {
      assert p[h + i] == o[i];
    }
  }

  /** Merging two planes back: the first plane's bytes at even positions, the second's at odd ones. */
  function Interleave(a: seq<Byte>, b: seq<Byte>): (d: seq<Byte>)
    requires |a| == |b|
    ensures |d| == 2 * |a|
    ensures forall i :: 0 <= i < |a| ==> d[2 * i] == a[i] && d[2 * i + 1] == b[i]
    decreases |a|
  {
    if |a| == 0 then [] else [a[0], b[0]] + Interleave(a[1..], b[1..])
  }

  /** Interleaving the even and the odd bytes gives the data back. */
  lemma {:induction false} InterleavePlanes(d: seq<Byte>)
    requires |d| % 2 == 0
    ensures Interleave(Evens(d), Odds(d)) == d
    decreases |d|
  {
    if |d| > 0 {
      InterleavePlanes(d[2..]);
      assert Evens(d)[1..] == Evens(d[2..]) && Odds(d)[1..] == Odds(d[2..]);
      assert d == [d[0], d[1]] + d[2..];
    }
  }

  /** Interleaving the two halves of the pixels gives the image's data back. */
  lemma PlanesRoundTrip(img: Image)
    requires |img.data| % 2 == 0
    ensures var p := ImagePixels(img); Interleave(p[..|p| / 2], p[|p| / 2..]) == img.data
  {
    var p := ImagePixels(img);
    var e, o := Evens(img.data), Odds(img.data);
    assert p == e + o;
    assert p[..|p| / 2] == e && p[|p| / 2..] == o;
    InterleavePlanes(img.data);
  }

  predicate EvenData(frames: seq<Image>) {
    forall n :: 0 <= n < |frames| ==> |frames[n].data| % 2 == 0
  }

  /** The pixels of each frame. */
  function FramePixels(frames: seq<Image>): (runs: seq<seq<Byte>>)
    requires EvenData(frames)
    ensures |runs| == |frames| && forall n :: 0 <= n < |frames| ==> runs[n] == ImagePixels(frames[n])
  {
    seq(|frames|, n requires 0 <= n < |frames| => ImagePixels(frames[n]))
  }

  /** Runs of bytes one after another. */
  function Concat(runs: seq<seq<Byte>>): seq<Byte>
    decreases |runs|
  {
    if |runs| == 0 then [] else runs[0] + Concat(runs[1..])
  }

  /** `ToPixels` of a state: the pixels of its frames in frame order. */
  function StatePixels(frames: seq<Image>): seq<Byte>
    requires EvenData(frames)
  {
    Concat(FramePixels(frames))
  }

  /** `m + 1` runs of `len` are one run more than `m` runs. */
  lemma MulSucc(m: nat, len: nat)
    ensures (m + 1) * len == m * len + len
  {
  }

  /** Runs of `len` bytes each concatenate to `len` bytes per run. */
  lemma {:induction false} ConcatLength(runs: seq<seq<Byte>>, len: nat)
    requires forall n :: 0 <= n < |runs| ==> |runs[n]| == len
    ensures |Concat(runs)| == |runs| * len
    decreases |runs|
  {
    if |runs| > 0 {
      ConcatLength(runs[1..], len);
      MulSucc(|runs| - 1, len);
    }
  }

  /** Past a first part of `len` elements, run `m` of a concatenation is run `m - 1` of the second part. */
  lemma RunOfSecond<T>(head: seq<T>, rest: seq<T>, len: nat, m: nat)
    requires |head| == len && 0 < m && (m - 1) * len + len <= |rest|
    ensures 0 <= m * len && m * len + len <= |head + rest|
    ensures (head + rest)[m * len..m * len + len] == rest[(m - 1) * len..(m - 1) * len + len]
  {
    MulSucc(m - 1, len);
  }

  /** With runs of `len` bytes each, run `m` is the `m`-th slice of `len` bytes of the concatenation. */
  lemma {:induction false} ConcatRun(runs: seq<seq<Byte>>, len: nat, m: nat)
    requires m < |runs| && forall n :: 0 <= n < |runs| ==> |runs[n]| == len
    ensures 0 <= m * len && m * len + len <= |Concat(runs)|
    ensures Concat(runs)[m * len..m * len + len] == runs[m]
    decreases |runs|
  {
    var head, rest := runs[0], Concat(runs[1..]);
    assert Concat(runs) == head + rest;
    if m > 0 {
      ConcatRun(runs[1..], len, m - 1);
      RunOfSecond(head, rest, len, m);
    } else {
      assert (head + rest)[..len] == head;
    }
  }

  /** Frames of `len` bytes each give `len` pixel bytes each. */
  lemma StatePixelsLength(frames: seq<Image>, len: nat)
    requires EvenData(frames)
    requires forall n :: 0 <= n < |frames| ==> |frames[n].data| == len
    ensures |StatePixels(frames)| == |frames| * len
  {
    ConcatLength(FramePixels(frames), len);
  }

  /** With frames of `len` bytes each, frame `m`'s pixels are the `m`-th run of `len` bytes. */
  lemma StatePixelsRuns(frames: seq<Image>, len: nat, m: nat)
    requires EvenData(frames) && m < |frames|
    requires forall n :: 0 <= n < |frames| ==> |frames[n].data| == len
    ensures 0 <= m * len && m * len + len <= |StatePixels(frames)|
    ensures StatePixels(frames)[m * len..m * len + len] == ImagePixels(frames[m])
  {
    ConcatRun(FramePixels(frames), len, m);
  }
}
