/**
  One episode of the game as the learner sees it: a four-frame state, the
  current score and an n-step memory.  A step receives the next frame and
  score, decides termination from the score, queues the transitions the
  memory lets go, and on termination drains the memory and restarts the
  state from the current frame.
 */
module BasicEpisodes {
  import opened Wrappers
  import opened Transitions
  import opened FrameStacks
  import opened StepMemories

  /** Why an episode is done: termination happens by itself, truncation is the caller's job. */
  datatype Done = Terminated | ShouldTruncate

  datatype Status = Running | Done(why: Done)

  /** A score drop of at least this much ends the episode. */
  const TERMINATION_SCORE_THRESHOLD: nat := 10

  /** Discount of the step memory. */
  const GAMMA: real := 0.99

  /** `N_STEPS` of the single-process program. */
  const MONO_N_STEPS: nat := 1

  /** `N_STEPS` of the distributed actor. */
  const ACTOR_N_STEPS: nat := 3

  /** `terminated`: the score fell by at least the threshold. */
  predicate IsTerminal(score: nat, nextScore: nat) {
    score >= nextScore + TERMINATION_SCORE_THRESHOLD
  }

  /** The reward of a step: zero on termination, otherwise the signed change of score, taken after conversion so it cannot wrap. */
  function StepReward(score: nat, nextScore: nat): (r: real)
    ensures IsTerminal(score, nextScore) ==> r == 0.0
    ensures !IsTerminal(score, nextScore) ==> r + score as real == nextScore as real
  {
    if IsTerminal(score, nextScore) then 0.0 else nextScore as real - score as real
  }

  /** A running step never loses as much as the termination threshold. */
  lemma RunningRewardAboveThreshold(score: nat, nextScore: nat)
    requires !IsTerminal(score, nextScore)
    ensures StepReward(score, nextScore) > -(TERMINATION_SCORE_THRESHOLD as real)
  {
  }

  datatype BasicEpisode<F> = BasicEpisode(memory: StepMemory<seq<F>>, state: FrameStack<F>, score: nat)

  ghost predicate Inv<F>(e: BasicEpisode<F>) {
    FrameStacks.Valid(e.state) && StepMemories.Inv(e.memory)
  }

  /** `new`: a fresh stack of the first frame and an empty memory of `nSteps` steps. */
  function NewBasicEpisode<F>(frame: F, score: nat, nSteps: nat): (e: BasicEpisode<F>)
    requires nSteps >= 1
    ensures Inv(e) && e.score == score && e.memory.queue == [] && e.memory.n == nSteps
    ensures e.state == FromFrame(frame)
  {
    BasicEpisode(NewStepMemory(nSteps, GAMMA), FromFrame(frame), score)
  }

  /** What `EpisodeStep` leaves, appends and reports, as a function for use in contracts. */
  function Stepped<F>(e: BasicEpisode<F>, action: nat, nextFrame: F, nextScore: nat, pending: seq<Emitted<seq<F>>>)
    : (BasicEpisode<F>, seq<Emitted<seq<F>>>, Status)
    requires Inv(e)
  {
    var state := Receive(e.state, nextFrame);
    var (memory, out) := Pushed(e.memory, View(e.state).value, e.score, action, StepReward(e.score, nextScore));
    var pushed := pending + (if out.Some? then [out.value] else []);
    if IsTerminal(e.score, nextScore) then
      (BasicEpisode(StepMemories.ResetToCurrent(memory), FrameStacks.ResetToCurrent(state), nextScore),
       pushed + Drained(memory.queue, memory.gamma), Done(Terminated))
    else
      (BasicEpisode(memory, state, nextScore), pushed, Running)
  }

  /**
    `step`: the current state, score, action and reward go into the step
    memory (whatever it lets go is queued), the frame joins the stack and
    the score becomes `nextScore`.  On termination the memory is drained
    into the queue and both the memory and the stack are reset.
   */
  method EpisodeStep<F>(e: BasicEpisode<F>, action: nat, nextFrame: F, nextScore: nat, pending: seq<Emitted<seq<F>>>)
    returns (e': BasicEpisode<F>, pending': seq<Emitted<seq<F>>>, status: Status)
    requires Inv(e)
    ensures Inv(e') && e'.score == nextScore
    ensures e'.memory.n == e.memory.n && e'.memory.gamma == e.memory.gamma
    ensures status == if IsTerminal(e.score, nextScore) then Done(Terminated) else Running
    ensures |pending'| >= |pending| && pending'[..|pending|] == pending
    ensures !IsTerminal(e.score, nextScore) ==>
      e'.state == Receive(e.state, nextFrame)
      && |pending'| == |pending| + (if |e.memory.queue| >= e.memory.n then 1 else 0)
      && |e'.memory.queue| > 0 && e'.memory.queue[|e'.memory.queue| - 1] == Step(e.state.stack, e.score, action, StepReward(e.score, nextScore))
    ensures IsTerminal(e.score, nextScore) ==>
      e'.state == FromFrame(nextFrame) && e'.memory.queue == []
      && |pending'| > |pending| && pending'[|pending'| - 1].1 == Some(e.score)
      && pending'[|pending'| - 1].0.terminated && pending'[|pending'| - 1].0.reward == 0.0
    ensures (e', pending', status) == Stepped(e, action, nextFrame, nextScore, pending)
  {
    var stateSlice := View(e.state).value;
    var terminated := IsTerminal(e.score, nextScore);
    var reward := StepReward(e.score, nextScore);
    var state := Receive(e.state, nextFrame);
    var memory, out := Push(e.memory, stateSlice, e.score, action, reward);
    pending' := pending;
    if out.Some? {
      pending' := pending' + [out.value];
    }
    assert pending' == pending + (if out.Some? then [out.value] else []);
    if terminated {
      var drained;
      ghost var pushed := pending';
      ghost var full := memory;
      memory, drained := PopTerminatedInto(memory, pending');
      assert drained[..|pending|] == pending' [..|pending|];
      assert drained == pushed + Drained(full.queue, full.gamma);
      assert StepMemories.ResetToCurrent(memory) == StepMemories.ResetToCurrent(full);
      pending' := drained;
      LastStepReward(memory.gamma, stateSlice, e.score, action);
      e' := BasicEpisode(StepMemories.ResetToCurrent(memory), FrameStacks.ResetToCurrent(state), nextScore);
      status := Done(Terminated);
    } else {
      e' := BasicEpisode(memory, state, nextScore);
      status := Running;
    }
  }

  /** The last step of a drained queue is the terminal one; a zero reward discounts to zero. */
  lemma LastStepReward<F>(gamma: real, state: seq<F>, score: nat, action: nat)
    ensures Discounted([Step(state, score, action, 0.0)], gamma) == 0.0
  {
    SingleStepReward(Step(state, score, action, 0.0), gamma);
  }
}
