/**
  The earlier episode of the single-process program: a four-frame state,
  the score and a truncation timer that counts steps on which the score did
  not change.  Each step queues exactly one transition, tagged with the
  score before the step; termination restarts the episode from the new
  frame.
 */
module Episodes {
  import opened Wrappers
  import opened Transitions
  import opened FrameStacks
  import opened BasicEpisodes

  /** Steps without a change of score after which the caller should truncate. */
  const TIMER_THRESHOLD: nat := 200

  /** `u32::MAX + 1`: scores and the subtraction of the reward are 32-bit. */
  const U32_LIMIT: nat := 0x1_0000_0000

  datatype Episode<F> = Episode(state: FrameStack<F>, score: nat, timer: nat)

  /** `new`: a fresh stack of the frame, the score, and the timer at zero. */
  function NewEpisode<F>(frame: F, score: nat): (e: Episode<F>)
    ensures FrameStacks.Valid(e.state) && e.state == FromFrame(frame) && e.score == score && e.timer == 0
  {
    Episode(FromFrame(frame), score, 0)
  }

  /** `truncation_timer_exceeded_threshold`. */
  predicate TimerExceeded<F>(e: Episode<F>) {
    e.timer >= TIMER_THRESHOLD
  }

  /**
    The reward as the source writes it: `next_score - score` in `u32`,
    which panics (an overflow check) when the score went down; `None`
    stands for that panic.
   */
  function RewardAsWritten(score: nat, nextScore: nat): (r: Option<real>)
    requires score < U32_LIMIT && nextScore < U32_LIMIT
    ensures IsTerminal(score, nextScore) ==> r == Some(0.0)
    ensures !IsTerminal(score, nextScore) ==> (r.Some? <==> score <= nextScore)
  {
    if IsTerminal(score, nextScore) then Some(0.0)
    else if nextScore >= score then Some((nextScore - score) as real)
    else None
  }

  /** A small drop of score, too small to terminate, makes the 32-bit subtraction underflow. */
  lemma RewardUnderflowWitness()
    ensures !IsTerminal(5, 3) && RewardAsWritten(5, 3).None?
  {
  }

  /** Wherever the source's subtraction succeeds, the signed reward used here agrees with it. */
  lemma SignedRewardAgrees(score: nat, nextScore: nat)
    requires score < U32_LIMIT && nextScore < U32_LIMIT
    requires RewardAsWritten(score, nextScore).Some?
    ensures RewardAsWritten(score, nextScore).value == StepReward(score, nextScore)
  {
  }

  /**
    `step`, with the reward computed as a signed difference: the timer
    counts equal scores and resets otherwise; a terminal step restarts the
    episode from the new frame, any other pushes the frame and takes the
    score; one transition is produced, tagged with the pre-step score;
    termination wins over truncation.
   */
  function EpisodeStep<F>(e: Episode<F>, action: nat, nextFrame: F, nextScore: nat)
    : (r: (Episode<F>, (GenericTransition<seq<F>>, nat), Status))
    requires FrameStacks.Valid(e.state)
    ensures FrameStacks.Valid(r.0.state) && r.0.score == nextScore
    ensures IsTerminal(e.score, nextScore) ==> r.0 == NewEpisode(nextFrame, nextScore)
    ensures !IsTerminal(e.score, nextScore) ==>
      r.0.state == Receive(e.state, nextFrame) && r.0.timer == (if e.score == nextScore then e.timer + 1 else 0)
    ensures r.1 == (GenericTransition(e.state.stack, r.0.state.stack, action, StepReward(e.score, nextScore),
                                      IsTerminal(e.score, nextScore)), e.score)
    ensures r.2 == Done(Terminated) <==> IsTerminal(e.score, nextScore)
    ensures r.2 == Done(ShouldTruncate) <==> !IsTerminal(e.score, nextScore) && TimerExceeded(r.0)
    ensures r.2 != Running <==> IsTerminal(e.score, nextScore) || TimerExceeded(r.0)
  {
    var stateSlice := View(e.state).value;
    var terminated := IsTerminal(e.score, nextScore);
    var timer := if e.score == nextScore then e.timer + 1 else 0;
    var e' := if terminated then NewEpisode(nextFrame, nextScore)
              else Episode(Receive(e.state, nextFrame), nextScore, timer);
    var transition := GenericTransition(stateSlice, View(e'.state).value, action, StepReward(e.score, nextScore), terminated);
    var status := if terminated then Done(Terminated)
                  else if TimerExceeded(e') then Done(ShouldTruncate)
                  else Running;
    (e', (transition, e.score), status)
  }

  /** A score that stays put for the threshold's number of steps asks for truncation. */
  lemma {:induction false} ConstantScoreTruncates<F>(e: Episode<F>, frames: seq<F>)
    requires FrameStacks.Valid(e.state) && |frames| > 0 && e.timer + |frames| >= TIMER_THRESHOLD
    ensures StepAll(e, frames).1 == Done(ShouldTruncate)
    ensures StepAll(e, frames).0.timer == e.timer + |frames|
    decreases |frames|
  {
    if |frames| > 1 {
      ConstantScoreTruncates(EpisodeStep(e, 0, frames[0], e.score).0, frames[1..]);
    }
  }

  /** Steps through `frames` with action 0 and an unchanged score; the last step's episode and status. */
  function StepAll<F>(e: Episode<F>, frames: seq<F>): (r: (Episode<F>, Status))
    requires FrameStacks.Valid(e.state) && |frames| > 0
    ensures FrameStacks.Valid(r.0.state) && r.0.score == e.score
    ensures r.0.timer == e.timer + |frames|
    decreases |frames|
  {
    var (e1, _, status) := EpisodeStep(e, 0, frames[0], e.score);
    if |frames| == 1 then (e1, status) else StepAll(e1, frames[1..])
  }
}
