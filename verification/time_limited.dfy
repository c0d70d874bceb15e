/**
  The truncation timers around a basic episode.  The actor's wrapper
  resets its timer whenever the score beats the best score of the episode
  so far (the record); the single-process wrapper resets it whenever the
  score changes.  Either turns a running step into a request for
  truncation once the timer reaches 200, and a terminated episode resets
  the wrapper.
 */
module TimeLimitedWrappers {
  import opened Wrappers
  import opened Transitions
  import opened StepMemories
  import opened BasicEpisodes
  import Episodes

  datatype RecordWrapper<F> = RecordWrapper(episode: BasicEpisode<F>, timer: nat, record: nat)

  datatype EqualScoreWrapper<F> = EqualScoreWrapper(episode: BasicEpisode<F>, timer: nat)

  /** The status a wrapper reports: termination passes through, a running step at the threshold asks for truncation. */
  function Wrap(inner: Status, timer: nat): (s: Status)
    ensures inner == Done(Terminated) ==> s == inner
    ensures inner == Running ==> (s == Done(ShouldTruncate) <==> timer >= Episodes.TIMER_THRESHOLD)
    ensures inner == Running && timer < Episodes.TIMER_THRESHOLD ==> s == Running
    ensures inner == Done(ShouldTruncate) ==> s == inner
  {
    match inner
    case Done(Terminated) => inner
    case Running => if timer >= Episodes.TIMER_THRESHOLD then Done(ShouldTruncate) else Running
    case Done(ShouldTruncate) => inner
  }

  /** `new` of the actor's wrapper: the timer at zero and the record at the episode's score. */
  function NewRecordWrapper<F>(episode: BasicEpisode<F>): (w: RecordWrapper<F>)
    ensures w.episode == episode && w.timer == 0 && w.record == episode.score
  {
    RecordWrapper(episode, 0, episode.score)
  }

  /** `receive_next_score`: whether the score beats the record, and the record raised to it if so. */
  function ReceiveNextScore(record: nat, nextScore: nat): (r: (bool, nat))
    ensures r.0 <==> record < nextScore
    ensures r.1 >= record && r.1 >= nextScore
    ensures r.1 == record || r.1 == nextScore
  {
    if record < nextScore then (true, nextScore) else (false, record)
  }

  /** What `RecordStep` leaves, appends and reports, as a function for use in contracts. */
  function RecordStepped<F>(w: RecordWrapper<F>, action: nat, nextFrame: F, nextScore: nat, pending: seq<Emitted<seq<F>>>)
    : (RecordWrapper<F>, seq<Emitted<seq<F>>>, Status)
    requires BasicEpisodes.Inv(w.episode)
  {
    var (exceeded, record) := ReceiveNextScore(w.record, nextScore);
    var timer := if exceeded then 0 else w.timer + 1;
    var (episode, pending', inner) := Stepped(w.episode, action, nextFrame, nextScore, pending);
    (if inner == Done(Terminated) then RecordWrapper(episode, 0, episode.score) else RecordWrapper(episode, timer, record),
     pending', Wrap(inner, timer))
  }

  /**
    `step` of the actor's wrapper: the timer resets when the score beats
    the record and grows otherwise; the episode steps; termination resets
    the timer and takes the episode's new score as the record.
   */
  method RecordStep<F>(w: RecordWrapper<F>, action: nat, nextFrame: F, nextScore: nat, pending: seq<Emitted<seq<F>>>)
    returns (w': RecordWrapper<F>, pending': seq<Emitted<seq<F>>>, status: Status)
    requires BasicEpisodes.Inv(w.episode)
    ensures BasicEpisodes.Inv(w'.episode) && w'.episode.score == nextScore
    ensures |pending'| >= |pending| && pending'[..|pending|] == pending
    ensures status == Done(Terminated) <==> IsTerminal(w.episode.score, nextScore)
    ensures status == Done(Terminated) ==> w'.timer == 0 && w'.record == nextScore
    ensures status != Done(Terminated) ==>
      w'.timer == (if w.record < nextScore then 0 else w.timer + 1)
      && w'.record == (if w.record < nextScore then nextScore else w.record)
    ensures status == Done(ShouldTruncate) <==> !IsTerminal(w.episode.score, nextScore) && w'.timer >= Episodes.TIMER_THRESHOLD
    ensures (w', pending', status) == RecordStepped(w, action, nextFrame, nextScore, pending)
  {
    var (exceeded, record) := ReceiveNextScore(w.record, nextScore);
    var timer := if exceeded then 0 else w.timer + 1;
    var episode, inner;
    episode, pending', inner := EpisodeStep(w.episode, action, nextFrame, nextScore, pending);
    status := Wrap(inner, timer);
    if inner == Done(Terminated) {
      w' := RecordWrapper(episode, 0, episode.score);
    } else {
      w' := RecordWrapper(episode, timer, record);
    }
  }

  /** `new` of the single-process wrapper: the timer at zero. */
  function NewEqualScoreWrapper<F>(episode: BasicEpisode<F>): (w: EqualScoreWrapper<F>)
    ensures w.episode == episode && w.timer == 0
  {
    EqualScoreWrapper(episode, 0)
  }

  /** What `EqualScoreStep` leaves, appends and reports, as a function for use in contracts. */
  function EqualScoreStepped<F>(w: EqualScoreWrapper<F>, action: nat, nextFrame: F, nextScore: nat, pending: seq<Emitted<seq<F>>>)
    : (EqualScoreWrapper<F>, seq<Emitted<seq<F>>>, Status)
    requires BasicEpisodes.Inv(w.episode)
  {
    var timer := if w.episode.score == nextScore then w.timer + 1 else 0;
    var (episode, pending', inner) := Stepped(w.episode, action, nextFrame, nextScore, pending);
    (EqualScoreWrapper(episode, if inner == Done(Terminated) then 0 else timer), pending', Wrap(inner, timer))
  }

  /**
    `step` of the single-process wrapper: the timer grows when the score
    is unchanged and resets otherwise; termination resets it.
   */
  method EqualScoreStep<F>(w: EqualScoreWrapper<F>, action: nat, nextFrame: F, nextScore: nat, pending: seq<Emitted<seq<F>>>)
    returns (w': EqualScoreWrapper<F>, pending': seq<Emitted<seq<F>>>, status: Status)
    requires BasicEpisodes.Inv(w.episode)
    ensures BasicEpisodes.Inv(w'.episode) && w'.episode.score == nextScore
    ensures |pending'| >= |pending| && pending'[..|pending|] == pending
    ensures status == Done(Terminated) <==> IsTerminal(w.episode.score, nextScore)
    ensures status == Done(Terminated) ==> w'.timer == 0
    ensures status != Done(Terminated) ==> w'.timer == (if w.episode.score == nextScore then w.timer + 1 else 0)
    ensures status == Running <==> !IsTerminal(w.episode.score, nextScore) && w'.timer < Episodes.TIMER_THRESHOLD
    ensures (w', pending', status) == EqualScoreStepped(w, action, nextFrame, nextScore, pending)
  {
    var timer := if w.episode.score == nextScore then w.timer + 1 else 0;
    var episode, inner;
    episode, pending', inner := EpisodeStep(w.episode, action, nextFrame, nextScore, pending);
    status := Wrap(inner, timer);
    if inner == Done(Terminated) {
      w' := EqualScoreWrapper(episode, 0);
    } else {
      w' := EqualScoreWrapper(episode, timer);
    }
  }
}
