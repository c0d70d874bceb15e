/**
  The actor's environment: it sends each action to the game thread, feeds
  the reply to the time-limited episode and decides what a finished
  episode means.  The channel to the game thread is an oracle here: the
  messages that arrive are given as sequences, and the replies they make
  are parameters of a step.
 */
module Envs {
  import opened Wrappers
  import opened StepMemories
  import opened BasicEpisodes
  import opened TimeLimitedWrappers
  import Episodes

  /** What the environment thread receives: a frame with its score, a master message, or a hold notice. */
  datatype EnvMessage<F> = Frame(frame: F, score: nat) | Master | WaitForHold

  datatype Reply<F> = Reply(frame: F, score: nat, receivedWaitForHold: bool)

  datatype StepError = WaitForHoldRequest | BadMessage

  /** What is sent to the game thread. */
  datatype Request = Action(action: nat) | Truncation

  /** The first message that is not a hold notice, if any. */
  function FirstNonHold<F>(messages: seq<EnvMessage<F>>): (r: Option<nat>)
    ensures r.Some? ==>
      r.value < |messages| && !messages[r.value].WaitForHold?
      && forall i :: 0 <= i < r.value ==> messages[i].WaitForHold?
    ensures r.None? ==> forall i :: 0 <= i < |messages| ==> messages[i].WaitForHold?
    decreases |messages|
  {
    if |messages| == 0 then None
    else if !messages[0].WaitForHold? then Some(0)
    else
      match FirstNonHold(messages[1..])
      case None => None
      case Some(i) => Some(i + 1)
  }

  /**
    `wait_for_next_reply`: hold notices are noted and skipped; a frame
    makes the reply, a master message is an error.  `None` when the
    messages run out (the source blocks, and panics on a closed channel).
   */
  function WaitForNextReply<F>(messages: seq<EnvMessage<F>>): (r: Option<Result<Reply<F>, StepError>>)
    ensures r.None? <==> forall i :: 0 <= i < |messages| ==> messages[i].WaitForHold?
    ensures r.Some? && r.value.Ok? ==>
      exists i :: (0 <= i < |messages| && messages[i] == Frame(r.value.value.frame, r.value.value.score)
        && (forall j :: 0 <= j < i ==> messages[j].WaitForHold?)
        && (r.value.value.receivedWaitForHold <==> i > 0))
    ensures r.Some? && r.value.Err? ==> r.value.error == BadMessage
  {
    match FirstNonHold(messages)
    case None => None
    case Some(i) =>
      match messages[i]
      case Frame(frame, score) => Some(Ok(Reply(frame, score, i > 0)))
      case _ => Some(Err(BadMessage))
  }

  datatype Env<F> = Env(episode: RecordWrapper<F>, pending: seq<Emitted<seq<F>>>, waitingHold: bool)

  ghost predicate Inv<F>(env: Env<F>) {
    BasicEpisodes.Inv(env.episode.episode)
  }

  /** A new wrapped episode of the actor from a reply. */
  function FreshEpisode<F>(frame: F, score: nat): (w: RecordWrapper<F>)
    ensures BasicEpisodes.Inv(w.episode) && w.episode.score == score && w.timer == 0 && w.record == score
  {
    NewRecordWrapper(NewBasicEpisode(frame, score, ACTOR_N_STEPS))
  }

  /** `new`: the first reply starts the episode and decides whether a hold is awaited. */
  function NewEnv<F>(first: Result<Reply<F>, StepError>): (r: Result<Env<F>, StepError>)
    ensures first.Err? ==> r == Err(first.error)
    ensures first.Ok? ==>
      r.Ok? && Inv(r.value) && r.value.pending == []
      && r.value.waitingHold == first.value.receivedWaitForHold
      && r.value.episode == FreshEpisode(first.value.frame, first.value.score)
  {
    match first
    case Err(e) => Err(e)
    case Ok(reply) => Ok(Env(FreshEpisode(reply.frame, reply.score), [], reply.receivedWaitForHold))
  }

  /** `send`: a flagged reply makes the environment wait for a hold, and the flag is never cleared here. */
  function Send<F>(env: Env<F>, reply: Result<Reply<F>, StepError>): (r: Result<(F, nat, Env<F>), StepError>)
    ensures reply.Err? ==> r == Err(reply.error)
    ensures reply.Ok? ==>
      r.Ok? && r.value.0 == reply.value.frame && r.value.1 == reply.value.score
      && r.value.2 == env.(waitingHold := env.waitingHold || reply.value.receivedWaitForHold)
  {
    match reply
    case Err(e) => Err(e)
    case Ok(Reply(frame, score, flagged)) => Ok((frame, score, env.(waitingHold := env.waitingHold || flagged)))
  }

  /**
    `step`: the action goes out and its reply steps the episode.  A running
    episode is fine; a finished one is an error while a hold is awaited;
    otherwise termination is fine and truncation sends a truncation request
    and starts a fresh episode from its reply.  The requests sent are
    returned in order.
   */
  method EnvStep<F>(env: Env<F>, action: nat, actionReply: Result<Reply<F>, StepError>,
                    truncationReply: Result<Reply<F>, StepError>)
    returns (env': Env<F>, r: Result<(), StepError>, requests: seq<Request>)
    // The bridge fails only with `BadMessage`, as `WaitForNextReply` shows.
    requires Inv(env)
    requires actionReply.Err? ==> actionReply.error == BadMessage
    requires truncationReply.Err? ==> truncationReply.error == BadMessage
    ensures Inv(env')
    ensures env.waitingHold ==> env'.waitingHold
    ensures |requests| >= 1 && requests[0] == Action(action)
    ensures actionReply.Err? ==> r == Err(actionReply.error) && requests == [Action(action)] && env' == env
    ensures actionReply.Ok? && IsTerminal(env.episode.episode.score, actionReply.value.score) ==>
      requests == [Action(action)]
      && (r.Ok? <==> !(env.waitingHold || actionReply.value.receivedWaitForHold))
    ensures actionReply.Ok? ==>
      var score := actionReply.value.score;
      var timer := if env.episode.record < score then 0 else env.episode.timer + 1;
      !IsTerminal(env.episode.episode.score, score) && timer < Episodes.TIMER_THRESHOLD ==> r.Ok? && requests == [Action(action)]
    ensures env'.waitingHold && !env.waitingHold ==> actionReply.Ok?
    ensures r == Err(WaitForHoldRequest) ==> env'.waitingHold
    ensures Truncation in requests ==> requests == [Action(action), Truncation] && !env.waitingHold
    ensures Truncation in requests && truncationReply.Ok? ==>
      r.Ok? && env'.episode == FreshEpisode(truncationReply.value.frame, truncationReply.value.score)
    // The step in full: the wrapper steps on the action's reply, and truncation
    // is asked for exactly when it reports a due truncation and no hold is awaited.
    ensures actionReply.Ok? ==>
      var reply := actionReply.value;
      var (stepped, emitted, status) := RecordStepped(env.episode, action, reply.frame, reply.score, env.pending);
      var waiting := env.waitingHold || reply.receivedWaitForHold;
      var truncates := status == Done(ShouldTruncate) && !waiting;
      (Truncation in requests <==> truncates)
      && env'.pending == emitted
      && (!truncates || truncationReply.Err? ==> env'.episode == stepped)
      && env'.waitingHold == (waiting || (truncates && truncationReply.Ok? && truncationReply.value.receivedWaitForHold))
      && r == (if status == Running then Ok(())
               else if waiting then Err(WaitForHoldRequest)
               else if status == Done(Terminated) || truncationReply.Ok? then Ok(())
               else Err(truncationReply.error))
  {
    requests := [Action(action)];
    var sent := Send(env, actionReply);
    if sent.Err? {
      env' := env;
      r := Err(sent.error);
      return;
    }
    var (nextFrame, nextScore, env1) := sent.value;
    assert env1.episode == env.episode;
    var episode, pending, status := RecordStep(env1.episode, action, nextFrame, nextScore, env1.pending);
    env' := env1.(episode := episode, pending := pending);
    match status {
      case Running =>
        r := Ok(());
      case Done(why) =>
        assert why == Terminated || why == ShouldTruncate;
        if env'.waitingHold {
          r := Err(WaitForHoldRequest);
        } else if why == Terminated {
          r := Ok(());
        } else {
          requests := requests + [Truncation];
          var truncated := Send(env', truncationReply);
          if truncated.Err? {
            r := Err(truncated.error);
          } else {
            var (frame, score, env2) := truncated.value;
            env' := env2.(episode := FreshEpisode(frame, score));
            r := Ok(());
          }
        }
    }
  }

  /** `pop_transition`: the oldest pending transition, if any. */
  function PopTransition<F>(env: Env<F>): (r: (Option<Emitted<seq<F>>>, Env<F>))
    ensures |env.pending| == 0 ==> r == (None, env)
    ensures |env.pending| > 0 ==> r.0 == Some(env.pending[0]) && [env.pending[0]] + r.1.pending == env.pending
    ensures r.1.episode == env.episode && r.1.waitingHold == env.waitingHold
  {
    if |env.pending| == 0 then (None, env) else (Some(env.pending[0]), env.(pending := env.pending[1..]))
  }
}
