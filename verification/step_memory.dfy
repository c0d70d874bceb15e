/**
  The n-step memory of an episode: the last `n` steps wait in a queue until
  the step `n` later arrives, and then leave as one transition whose reward
  is the discounted sum of the rewards in the queue.  On termination the
  queue is drained, each remaining step becoming a terminated transition.
  Rewards and the discount are exact reals here.
 */
module StepMemories {
  import opened Wrappers
  import opened Transitions

  /** One remembered step: the state it started from, the score then, the action and its reward. */
  datatype Step<S> = Step(state: S, score: nat, action: nat, reward: real)

  datatype StepMemory<S> = StepMemory(queue: seq<Step<S>>, n: nat, gamma: real)

  /** What is sent on: a transition and, for the last one of an episode, the episode's score. */
  type Emitted<S> = (GenericTransition<S>, Option<nat>)

  /** The memory is usable (`n >= 1`; with `n == 0` a pop of the empty queue is unwrapped) and never holds more than `n` steps. */
  predicate Inv<S>(m: StepMemory<S>) {
    m.n >= 1 && |m.queue| <= m.n
  }

  /** `new`: an empty queue. */
  function NewStepMemory<S>(n: nat, gamma: real): (m: StepMemory<S>)
    ensures m.queue == [] && m.n == n && m.gamma == gamma
    ensures n >= 1 ==> Inv(m)
  {
    StepMemory([], n, gamma)
  }

  /** `reset_to_current`: the queue is emptied, `n` and the discount stay. */
  function ResetToCurrent<S>(m: StepMemory<S>): (m': StepMemory<S>)
    ensures m'.queue == [] && m'.n == m.n && m'.gamma == m.gamma
    ensures Inv(m) ==> Inv(m')
  {
    NewStepMemory(m.n, m.gamma)
  }

  /** `gamma` to the power `k`. */
  function Power(gamma: real, k: nat): real {
    if k == 0 then 1.0 else gamma * Power(gamma, k - 1)
  }

  /** The reference definition: the sum of `gamma^(k + i) * rewards[i]` over the sequence. */
  function WeightedSum(rewards: seq<real>, gamma: real, k: nat): real
    decreases |rewards|
  {
    if |rewards| == 0 then 0.0 else Power(gamma, k) * rewards[0] + WeightedSum(rewards[1..], gamma, k + 1)
  }

  /** The rewards of the queued steps, front to back. */
  function Rewards<S>(queue: seq<Step<S>>): (r: seq<real>)
    ensures |r| == |queue| && forall i :: 0 <= i < |queue| ==> r[i] == queue[i].reward
  {
    seq(|queue|, i requires 0 <= i < |queue| => queue[i].reward)
  }

  /** The fold of the source: rewards taken back to front, `acc := gamma * acc + reward`. */
  function Horner(rewards: seq<real>, gamma: real): real
    decreases |rewards|
  {
    if |rewards| == 0 then 0.0 else gamma * Horner(rewards[1..], gamma) + rewards[0]
  }

  lemma PowerSucc(gamma: real, k: nat, x: real)
    ensures Power(gamma, k) * (gamma * x) == Power(gamma, k + 1) * x
  {
    assert Power(gamma, k + 1) == gamma * Power(gamma, k);
  }

  /** Scaling the fold by `gamma^k` gives the weighted sum starting at exponent `k`. */
  lemma {:induction false} HornerWeighted(rewards: seq<real>, gamma: real, k: nat)
    ensures Power(gamma, k) * Horner(rewards, gamma) == WeightedSum(rewards, gamma, k)
    decreases |rewards|
  {
    if |rewards| > 0 {
      var rest := Horner(rewards[1..], gamma);
      HornerWeighted(rewards[1..], gamma, k + 1);
      PowerSucc(gamma, k, rest);
      calc {
        Power(gamma, k) * Horner(rewards, gamma);
        Power(gamma, k) * (gamma * rest + rewards[0]);
        Power(gamma, k) * (gamma * rest) + Power(gamma, k) * rewards[0];
        Power(gamma, k + 1) * rest + Power(gamma, k) * rewards[0];
      }
    }
  }

  /** `discounted_reward_sum`: the sum of `gamma^i * reward_i` over the queue, front to back. */
  method DiscountedRewardSum<S>(m: StepMemory<S>) returns (total: real)
    ensures total == WeightedSum(Rewards(m.queue), m.gamma, 0)
  {
    var rewards := Rewards(m.queue);
    total := 0.0;
    var i := |rewards|;
    while i > 0
      invariant 0 <= i <= |rewards|
      invariant total == Horner(rewards[i..], m.gamma)
      decreases i
    {
      i := i - 1;
      assert rewards[i..][1..] == rewards[i + 1..];
      total := m.gamma * total + rewards[i];
    }
    assert rewards[0..] == rewards;
    HornerWeighted(rewards, m.gamma, 0);
  }

  /** The value `DiscountedRewardSum` computes, as a function for use in contracts. */
  function Discounted<S>(queue: seq<Step<S>>, gamma: real): real {
    WeightedSum(Rewards(queue), gamma, 0)
  }

  /** What `Push` leaves and lets go, as a function for use in contracts. */
  function Pushed<S>(m: StepMemory<S>, state: S, score: nat, action: nat, reward: real): (StepMemory<S>, Option<Emitted<S>>)
    requires m.n >= 1
  {
    var step := Step(state, score, action, reward);
    if |m.queue| >= m.n then
      (m.(queue := m.queue[1..] + [step]),
       Some((GenericTransition(m.queue[0].state, state, m.queue[0].action, Discounted(m.queue, m.gamma), false), None)))
    else
      (m.(queue := m.queue + [step]), None)
  }

  /**
    `push`: when `n` steps already wait, the oldest leaves as a transition
    to the state being pushed, carrying the discounted reward of the whole
    queue; then the new step joins the back.
   */
  method Push<S>(m: StepMemory<S>, state: S, score: nat, action: nat, reward: real)
    returns (m': StepMemory<S>, out: Option<Emitted<S>>)
    requires m.n >= 1
    ensures m'.n == m.n && m'.gamma == m.gamma
    ensures out.Some? <==> |m.queue| >= m.n
    ensures out.Some? ==>
      out.value == (GenericTransition(m.queue[0].state, state, m.queue[0].action, Discounted(m.queue, m.gamma), false), None)
    ensures m'.queue == (if |m.queue| >= m.n then m.queue[1..] else m.queue) + [Step(state, score, action, reward)]
    ensures Inv(m) ==> Inv(m')
    ensures (m', out) == Pushed(m, state, score, action, reward)
  {
    var queue := m.queue;
    out := None;
    if |queue| >= m.n {
      var total := DiscountedRewardSum(m);
      var step := queue[0];
      out := Some((GenericTransition(step.state, state, step.action, total, false), None));
      queue := queue[1..];
    }
    m' := m.(queue := queue + [Step(state, score, action, reward)]);
  }

  /** The transition a step becomes when the queue from it onwards is drained at termination. */
  function TerminalTransition<S>(queue: seq<Step<S>>, gamma: real, k: nat): GenericTransition<S>
    requires k < |queue|
  {
    GenericTransition(queue[k].state, queue[k].state, queue[k].action, Discounted(queue[k..], gamma), true)
  }

  /** What draining `queue` appends: each step as its terminated transition, only the last with its score. */
  function Drained<S>(queue: seq<Step<S>>, gamma: real): (d: seq<Emitted<S>>)
    ensures |d| == |queue|
  {
    seq(|queue|, i requires 0 <= i < |queue| =>
      (TerminalTransition(queue, gamma, i), if i == |queue| - 1 then Some(queue[i].score) else None))
  }

  /**
    `pop_terminated_transitions_into`: every queued step, front first, is
    appended to `pending` as a terminated transition from its state to
    itself, with the discounted reward of the queue as it stood when the
    step was popped; only the last carries the episode's score.
   */
  method PopTerminatedInto<S>(m: StepMemory<S>, pending: seq<Emitted<S>>)
    returns (m': StepMemory<S>, pending': seq<Emitted<S>>)
    ensures m' == m.(queue := [])
    ensures |pending'| == |pending| + |m.queue| && pending'[..|pending|] == pending
    ensures forall i :: |pending| <= i < |pending'| ==> pending'[i].0 == TerminalTransition(m.queue, m.gamma, i - |pending|)
    ensures forall i :: |pending| <= i < |pending'| ==> (pending'[i].1.Some? <==> i == |pending'| - 1)
    ensures |m.queue| > 0 ==> pending'[|pending'| - 1].1 == Some(m.queue[|m.queue| - 1].score)
    ensures pending' == pending + Drained(m.queue, m.gamma)
  {
    m' := m;
    pending' := pending;
    var popped := 0;
    while |m'.queue| > 0
      invariant popped <= |m.queue| && m' == m.(queue := m.queue[popped..])
      invariant |pending'| == |pending| + popped && pending'[..|pending|] == pending
      invariant forall i :: |pending| <= i < |pending'| ==> pending'[i].0 == TerminalTransition(m.queue, m.gamma, i - |pending|)
      invariant forall i :: |pending| <= i < |pending'| ==> (pending'[i].1.Some? <==> i == |pending| + |m.queue| - 1)
      invariant popped == |m.queue| && popped > 0 ==> pending'[|pending'| - 1].1 == Some(m.queue[popped - 1].score)
      decreases |m'.queue|
    {
      var total := DiscountedRewardSum(m');
      var step := m'.queue[0];
      m' := m'.(queue := m'.queue[1..]);
      var isFinal := |m'.queue| == 0;
      var t := GenericTransition(step.state, step.state, step.action, total, true);
      pending' := pending' + [(t, if isFinal then Some(step.score) else None)];
      assert m.queue[popped..][1..] == m.queue[popped + 1..];
      popped := popped + 1;
    }
    ghost var d := Drained(m.queue, m.gamma);
    assert forall i :: |pending| <= i < |pending'| ==> pending'[i] == d[i - |pending|];
    assert pending' == pending + d;
  }

  /** A single remembered step is emitted with its own reward undiscounted. */
  lemma SingleStepReward<S>(step: Step<S>, gamma: real)
    ensures Discounted([step], gamma) == step.reward
  {
    assert Rewards([step]) == [step.reward];
    assert WeightedSum([step.reward], gamma, 0) == Power(gamma, 0) * step.reward + WeightedSum([], gamma, 1);
  }
}
