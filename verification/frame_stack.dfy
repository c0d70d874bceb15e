/**
  The four-frame stack an episode keeps as its state: the oldest frame is
  dropped whenever a new one arrives, and the view lists the frames oldest
  first.  The stack is a double-ended queue in the source, a sequence here.
 */
module FrameStacks {
  import opened Wrappers

  /** Number of frames in a state. */
  const STACK_LEN: nat := 4

  datatype FrameStack<F> = FrameStack(stack: seq<F>)

  /** The shape every constructor establishes and `receive` keeps. */
  predicate Valid<F>(s: FrameStack<F>) {
    |s.stack| == STACK_LEN
  }

  /** `from_frame`: four copies of the frame. */
  function FromFrame<F>(frame: F): (s: FrameStack<F>)
    ensures Valid(s)
    ensures forall i :: 0 <= i < |s.stack| ==> s.stack[i] == frame
  {
    FrameStack([frame, frame, frame, frame])
  }

  /** `receive`: pop the front (nothing happens on an empty stack) and push the new frame at the back. */
  function Receive<F>(s: FrameStack<F>, frame: F): (s': FrameStack<F>)
    ensures |s'.stack| == if |s.stack| == 0 then 1 else |s.stack|
    ensures |s'.stack| > 0 && s'.stack[|s'.stack| - 1] == frame
    ensures forall i :: 0 <= i < |s'.stack| - 1 ==> s'.stack[i] == s.stack[i + 1]
    ensures Valid(s) ==> Valid(s')
  {
    if |s.stack| == 0 then FrameStack([frame]) else FrameStack(s.stack[1..] + [frame])
  }

  /** `view`: the frames oldest first; `None` where the length check of the source would fail. */
  function View<F>(s: FrameStack<F>): (v: Option<seq<F>>)
    ensures v.Some? <==> Valid(s)
    ensures v.Some? ==> |v.value| == STACK_LEN && forall i :: 0 <= i < STACK_LEN ==> v.value[i] == s.stack[i]
  {
    if |s.stack| == STACK_LEN then Some(s.stack) else None
  }

  /** `reset_to_current`: four copies of the newest frame; popping an empty stack panics, hence the requirement. */
  function ResetToCurrent<F>(s: FrameStack<F>): (s': FrameStack<F>)
    requires |s.stack| > 0
    ensures Valid(s')
    ensures forall i :: 0 <= i < STACK_LEN ==> s'.stack[i] == s.stack[|s.stack| - 1]
  {
    FromFrame(s.stack[|s.stack| - 1])
  }

  /** After `receive(f)` the view is the old view without its oldest frame, followed by `f`. */
  lemma ReceiveShiftsView<F>(s: FrameStack<F>, frame: F)
    requires Valid(s)
    ensures View(Receive(s, frame)) == Some(View(s).value[1..] + [frame])
  {
  }

  /** A stack built by `from_frame` and then fed four frames shows exactly those four. */
  lemma FourReceivesReplace<F>(f0: F, a: F, b: F, c: F, d: F)
    ensures View(Receive(Receive(Receive(Receive(FromFrame(f0), a), b), c), d)) == Some([a, b, c, d])
  {
    var s1 := Receive(FromFrame(f0), a);
    assert s1.stack == [f0, f0, f0, a];
    var s2 := Receive(s1, b);
    assert s2.stack == [f0, f0, a, b];
    var s3 := Receive(s2, c);
    assert s3.stack == [f0, a, b, c];
    assert Receive(s3, d).stack == [a, b, c, d];
  }

  /** Resetting a stack keeps its newest frame as the newest. */
  lemma ResetKeepsNewest<F>(s: FrameStack<F>, frame: F)
    requires Valid(s)
    ensures ResetToCurrent(Receive(s, frame)) == FromFrame(frame)
  {
  }
}
