/**
  What the game thread does with a captured frame and with an action.  A
  1920 by 1080 four-channel frame is averaged down by 15 to 128 by 72, its
  first and third channels are swapped, only the first two channels are
  kept and the score area is blacked out.  An action becomes key events.
 */
module GameFrames {
  import opened Wrappers
  import opened Images
  import opened ImageAverages

  const INPUT_FRAME_WIDTH: nat := 1920
  const INPUT_FRAME_HEIGHT: nat := 1080
  /** `120 / 8`. */
  const DOWNSCALE_FACTOR: nat := 15

  /** The first two channels of a four-channel colour. */
  function Rg(c: seq<Byte>): (rg: seq<Byte>)
    requires |c| == 4
    ensures |rg| == 2 && rg[0] == c[0] && rg[1] == c[1]
  {
    [c[0], c[1]]
  }

  /** The colour with its first and third channels swapped. */
  function SwapBlueRed(c: seq<Byte>): (s: seq<Byte>)
    requires |c| == 4
    ensures |s| == 4 && s[0] == c[2] && s[1] == c[1] && s[2] == c[0] && s[3] == c[3]
  {
    [c[2], c[1], c[0], c[3]]
  }

  /** Swapping twice gives the colour back. */
  lemma SwapBlueRedTwice(c: seq<Byte>)
    requires |c| == 4
    ensures SwapBlueRed(SwapBlueRed(c)) == c
  {
  }

  /** `keep_rg`: a two-channel image of the same size holding each pixel's first two channels. */
  method KeepRg(img: Image) returns (rg: Image)
    requires Fits(img) && img.channels == 4
    ensures Fits(rg) && rg.channels == 2 && rg.width == img.width && rg.height == img.height
    ensures forall x: nat, y: nat :: x < rg.width && y < rg.height ==> GetPixel(rg, x, y) == Rg(GetPixel(img, x, y))
  {
    var zero := Zeroed(img.width, img.height, 2);
    var colorAt := (x: nat, y: nat) requires x < img.width && y < img.height => Rg(GetPixel(img, x, y));
    forall x: nat, y: nat | InRect(x, y, 0, img.width, 0, img.height)
      ensures |colorAt(x, y)| == zero.channels
    {
      assert InData(img, x, y);
      assert colorAt(x, y) == Rg(GetPixel(img, x, y));
    }
    rg := Paint(zero, 0, img.width, 0, img.height, colorAt);
  }

  /** The score area: columns 93 to 127 of rows 2 to 23. */
  predicate InScoreArea(x: nat, y: nat) {
    InRect(x, y, 93, 128, 2, 24)
  }

  /** `black_out_score_area`: the score area of a preprocessed frame turns black, the rest stays. */
  method BlackOutScoreArea(frame: Image) returns (out: Image)
    requires Fits(frame) && frame.channels == 2 && frame.width >= 128 && frame.height >= 24
    ensures Fits(out) && SameShape(out, frame)
    ensures forall x: nat, y: nat :: x < out.width && y < out.height ==>
      GetPixel(out, x, y) == if InScoreArea(x, y) then [0, 0] else GetPixel(frame, x, y)
  {
    out := ReplaceAreaColor(frame, 93, 128, 2, 24, [0, 0]);
  }

  /** The 1920 by 1080 frame is cut into 15 by 15 blocks. */
  lemma FrameDividesBy15(frame: Image)
    requires frame.width == INPUT_FRAME_WIDTH && frame.height == INPUT_FRAME_HEIGHT
    ensures SizesDivide(frame, 128, 72) && frame.width / 128 == DOWNSCALE_FACTOR && frame.height / 72 == DOWNSCALE_FACTOR
  {
  }

  /**
    `preprocess_frame`: each pixel of the 128 by 72 result is the red and
    green of the block average (the average's third and second channels,
    the capture being blue first), black inside the score area.
   */
  method PreprocessFrame(frame: Image) returns (out: Image)
    requires Fits(frame) && frame.channels == 4
    requires frame.width == INPUT_FRAME_WIDTH && frame.height == INPUT_FRAME_HEIGHT
    ensures Fits(out) && out.channels == 2
    ensures out.width == INPUT_FRAME_WIDTH / DOWNSCALE_FACTOR && out.height == INPUT_FRAME_HEIGHT / DOWNSCALE_FACTOR
    ensures forall x: nat, y: nat :: x < out.width && y < out.height ==>
      BlockInside(frame, x, y, DOWNSCALE_FACTOR, DOWNSCALE_FACTOR)
      && GetPixel(out, x, y) ==
        if InScoreArea(x, y) then [0, 0]
        else
          var avg := AverageColor(frame, x, y, DOWNSCALE_FACTOR, DOWNSCALE_FACTOR);
          [avg[2], avg[1]]
  {
    FrameDividesBy15(frame);
    var averaged := DownscaleByAverage(frame, INPUT_FRAME_WIDTH / DOWNSCALE_FACTOR, INPUT_FRAME_HEIGHT / DOWNSCALE_FACTOR);
    var small := averaged.value;
    var swapped := MapColor(small, c => if |c| == 4 then SwapBlueRed(c) else c);
    var rg := KeepRg(swapped);
    out := BlackOutScoreArea(rg);
  }

  datatype GameKey = S | Space

  datatype KeyEventKind = Press | Release

  /** `press_and_release`: the key goes down, then up. */
  function PressAndRelease(key: GameKey): (events: seq<(GameKey, KeyEventKind)>)
    ensures |events| == 2 && events[0] == (key, Press) && events[1] == (key, Release)
  {
    [(key, Press), (key, Release)]
  }

  /**
    `send_action_events`: action 0 sends nothing, 1 taps S, 2 taps Space;
    any other action panics, which is `None` here.
   */
  function ActionEvents(action: nat): (r: Option<seq<(GameKey, KeyEventKind)>>)
    ensures r.Some? <==> action <= 2
    ensures action == 0 ==> r == Some([])
    ensures r.Some? && action > 0 ==>
      exists key :: r.value == [(key, Press), (key, Release)] && (key == S <==> action == 1)
  {
    if action == 0 then Some([])
    else if action == 1 then Some(PressAndRelease(S))
    else if action == 2 then Some(PressAndRelease(Space))
    else None
  }

  /** The events tell the actions apart: different valid actions send different events. */
  lemma ActionEventsInjective(a: nat, b: nat)
    requires a <= 2 && b <= 2 && ActionEvents(a) == ActionEvents(b)
    ensures a == b
  {
  }
}
