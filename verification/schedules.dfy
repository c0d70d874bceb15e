/**
  Step schedules.  A learner counts training steps and refreshes its target
  network every `target_update_interval_steps`; an actor counts environment
  steps, fetches fresh parameters every `param_update_interval_steps` and
  explores with a fixed ε; the single-process trainer first acts at random
  for `n_eps_random_steps`, then anneals ε linearly from `eps_max` down to
  `eps_min` over `n_eps_greedy_steps`, refreshing its target network every
  interval counted from the end of the random phase.

  Counters are `u32`.  A step at `u32::MAX` wraps to 0, as an unchecked
  `+=` does; ε is an exact real.
 */
module Schedules {
  import opened IntArith
  import opened RealArith

  const U32_LIMIT: int := 0x1_0000_0000
  type U32 = n: int | 0 <= n < U32_LIMIT

  /** `n += 1` on a `u32` without overflow checks. */
  function WrappingInc(n: U32): (m: U32)
    ensures n + 1 < U32_LIMIT ==> m == n + 1
    ensures n + 1 == U32_LIMIT ==> m == 0
  {
    if n + 1 == U32_LIMIT then 0 else n + 1
  }

  /** A count `j` intervals and `r` steps in leaves remainder `r`: updates fire exactly at multiples. */
  lemma MultiplePlusRemainder(j: nat, interval: nat, r: nat)
    requires r < interval
    ensures (j * interval + r) % interval == r
  {
    DivUnique(j * interval + r, interval, j, r);
  }

  // ---------------------------------------------------------------- learner

  datatype LearnerSchedule = LearnerSchedule(nStep: U32, targetUpdateIntervalSteps: U32)

  /** `LearnerSchedule::new`: no step taken yet. */
  function NewLearnerSchedule(targetUpdateIntervalSteps: U32): (s: LearnerSchedule)
    ensures s.nStep == 0 && s.targetUpdateIntervalSteps == targetUpdateIntervalSteps
  {
    LearnerSchedule(0, targetUpdateIntervalSteps)
  }

  /** `step`: one more training step; the interval is kept. */
  function StepLearner(s: LearnerSchedule): (s': LearnerSchedule)
    ensures s'.targetUpdateIntervalSteps == s.targetUpdateIntervalSteps
    ensures s.nStep + 1 < U32_LIMIT ==> s'.nStep == s.nStep + 1
  {
    s.(nStep := WrappingInc(s.nStep))
  }

  /** `is_time_to_update_target`: the step count is a multiple of the interval (a zero interval panics). */
  predicate IsTimeToUpdateLearnerTarget(s: LearnerSchedule)
    requires s.targetUpdateIntervalSteps > 0
  {
    s.nStep % s.targetUpdateIntervalSteps == 0
  }

  /** `k` calls of `step`. */
  function LearnerSteps(s: LearnerSchedule, k: nat): (s': LearnerSchedule)
    ensures s'.targetUpdateIntervalSteps == s.targetUpdateIntervalSteps
    ensures s.nStep + k < U32_LIMIT ==> s'.nStep == s.nStep + k
    decreases k
  {
    if k == 0 then s else LearnerSteps(StepLearner(s), k - 1)
  }

  /**
    From a new schedule, the target is refreshed at step 0 and then at
    every `interval`-th step, and at no step in between.
   */
  lemma LearnerUpdatesEveryInterval(interval: U32, j: nat, r: nat)
    requires 0 < interval && r < interval && j * interval + r < U32_LIMIT
    ensures IsTimeToUpdateLearnerTarget(LearnerSteps(NewLearnerSchedule(interval), j * interval + r)) <==> r == 0
  {
    MultiplePlusRemainder(j, interval, r);
  }

  // ------------------------------------------------------------------ actor

  datatype ActorSchedule = ActorSchedule(nStep: U32, eps: real, paramUpdateIntervalSteps: U32)

  /** `ActorSchedule::new`: no step taken yet, the given ε. */
  function NewActorSchedule(eps: real, paramUpdateIntervalSteps: U32): (s: ActorSchedule)
    ensures s.nStep == 0 && s.eps == eps && s.paramUpdateIntervalSteps == paramUpdateIntervalSteps
  {
    ActorSchedule(0, eps, paramUpdateIntervalSteps)
  }

  /** `step`: one more environment step; ε and the interval are kept. */
  function StepActor(s: ActorSchedule): (s': ActorSchedule)
    ensures s'.eps == s.eps && s'.paramUpdateIntervalSteps == s.paramUpdateIntervalSteps
    ensures s.nStep + 1 < U32_LIMIT ==> s'.nStep == s.nStep + 1
  {
    s.(nStep := WrappingInc(s.nStep))
  }

  /** `is_time_to_update_params`: the step count is a multiple of the interval (a zero interval panics). */
  predicate IsTimeToUpdateParams(s: ActorSchedule)
    requires s.paramUpdateIntervalSteps > 0
  {
    s.nStep % s.paramUpdateIntervalSteps == 0
  }

  /** `k` calls of `step`. */
  function ActorSteps(s: ActorSchedule, k: nat): (s': ActorSchedule)
    ensures s'.eps == s.eps && s'.paramUpdateIntervalSteps == s.paramUpdateIntervalSteps
    ensures s.nStep + k < U32_LIMIT ==> s'.nStep == s.nStep + k
    decreases k
  {
    if k == 0 then s else ActorSteps(StepActor(s), k - 1)
  }

  /**
    From a new schedule, ε never changes, and parameters are fetched at
    step 0 and at every `interval`-th step, and at no step in between.
   */
  lemma ActorUpdatesEveryInterval(eps: real, interval: U32, j: nat, r: nat)
    requires 0 < interval && r < interval && j * interval + r < U32_LIMIT
    ensures ActorSteps(NewActorSchedule(eps, interval), j * interval + r).eps == eps
    ensures IsTimeToUpdateParams(ActorSteps(NewActorSchedule(eps, interval), j * interval + r)) <==> r == 0
  {
    MultiplePlusRemainder(j, interval, r);
  }

  // --------------------------------------------------------------- training

  datatype TrainingSchedule = TrainingSchedule(
    nStep: U32,
    epsMin: real,
    epsMax: real,
    nEpsRandomSteps: U32,
    nEpsGreedySteps: U32,
    targetUpdateIntervalSteps: U32)

  /** The schedule's settings, everything but the step count. */
  predicate SameSettings(s: TrainingSchedule, t: TrainingSchedule) {
    s.(nStep := 0) == t.(nStep := 0)
  }

  /** `TrainingSchedule::new`: no step taken yet. */
  function NewTrainingSchedule(epsMin: real, epsMax: real, nEpsRandomSteps: U32, nEpsGreedySteps: U32,
                               targetUpdateIntervalSteps: U32): (s: TrainingSchedule)
    ensures s.nStep == 0 && s.epsMin == epsMin && s.epsMax == epsMax
    ensures s.nEpsRandomSteps == nEpsRandomSteps && s.nEpsGreedySteps == nEpsGreedySteps
    ensures s.targetUpdateIntervalSteps == targetUpdateIntervalSteps
  {
    TrainingSchedule(0, epsMin, epsMax, nEpsRandomSteps, nEpsGreedySteps, targetUpdateIntervalSteps)
  }

  /** `step`: one more step; the settings are kept. */
  function StepTraining(s: TrainingSchedule): (s': TrainingSchedule)
    ensures SameSettings(s, s')
    ensures s.nStep + 1 < U32_LIMIT ==> s'.nStep == s.nStep + 1
  {
    s.(nStep := WrappingInc(s.nStep))
  }

  /** `k` calls of `step`. */
  function TrainingSteps(s: TrainingSchedule, k: nat): (s': TrainingSchedule)
    ensures SameSettings(s, s')
    ensures s.nStep + k < U32_LIMIT ==> s'.nStep == s.nStep + k
    decreases k
  {
    if k == 0 then s else TrainingSteps(StepTraining(s), k - 1)
  }

  /** `is_on_eps_random`: the random phase lasts the first `n_eps_random_steps` steps. */
  predicate IsOnEpsRandom(s: TrainingSchedule) {
    s.nStep < s.nEpsRandomSteps
  }

  /** How far the annealing has gone: steps since the random phase, over the annealing length. */
  function Progress(s: TrainingSchedule): (p: real)
    requires s.nStep >= s.nEpsRandomSteps && s.nEpsGreedySteps > 0
    ensures 0.0 <= p
    ensures p <= 1.0 <==> s.nStep <= s.nEpsRandomSteps + s.nEpsGreedySteps
  {
    DivAtMostOne((s.nStep - s.nEpsRandomSteps) as real, s.nEpsGreedySteps as real);
    (s.nStep - s.nEpsRandomSteps) as real / s.nEpsGreedySteps as real
  }

  /**
    The value a fraction `p` of the way from `hi` down to `lo`, never below
    `lo`.  With `lo <= hi` it stays within `[lo, hi]`, starts at `hi`, is
    `lo` from `p = 1` on, and falls as `p` grows.
   */
  function Annealed(lo: real, hi: real, p: real): (e: real)
    requires 0.0 <= p
    ensures lo <= e
    ensures lo <= hi ==> e <= hi
    ensures p == 0.0 ==> e == if hi < lo then lo else hi
    ensures lo <= hi && p >= 1.0 ==> e == lo
  {
    var d := (hi - lo) * p;
    ScaledAgainstOne(hi - lo, p);
    if hi - d < lo then lo else hi - d
  }

  /** A non-negative `c` scaled by `p` compared with `c` itself. */
  lemma ScaledAgainstOne(c: real, p: real)
    ensures 0.0 <= c && p <= 1.0 ==> c * p <= c
    ensures 0.0 <= c && p >= 1.0 ==> c * p >= c
    ensures 0.0 <= c && 0.0 <= p ==> 0.0 <= c * p
    ensures p == 0.0 ==> c * p == 0.0
  {
    if 0.0 <= c && p <= 1.0 {
      MulMonotonic(c, p, 1.0);
    } else if 0.0 <= c {
      MulMonotonic(c, 1.0, p);
    }
  }

  /** Going further makes the annealed value no larger. */
  lemma AnnealedNonIncreasing(lo: real, hi: real, p: real, q: real)
    requires lo <= hi && 0.0 <= p <= q
    ensures Annealed(lo, hi, q) <= Annealed(lo, hi, p)
  {
    MulMonotonic(hi - lo, p, q);
    var x, y := (hi - lo) * p, (hi - lo) * q;
    assert x <= y;
    assert Annealed(lo, hi, p) == if hi - x < lo then lo else hi - x;
    assert Annealed(lo, hi, q) == if hi - y < lo then lo else hi - y;
  }

  /**
    `eps`: linear interpolation from `eps_max` towards `eps_min`, clamped
    below at `eps_min`.  The step count must have left the random phase
    (the `u32` subtraction) and the annealing length must be positive.
   */
  function Eps(s: TrainingSchedule): (eps: real)
    requires s.nStep >= s.nEpsRandomSteps && s.nEpsGreedySteps > 0
    ensures eps == Annealed(s.epsMin, s.epsMax, Progress(s))
  {
    var k, g := (s.nStep - s.nEpsRandomSteps) as real, s.nEpsGreedySteps as real;
    var eps := s.epsMax + (s.epsMin - s.epsMax) * k / g;
    assert (s.epsMin - s.epsMax) * k / g == (s.epsMin - s.epsMax) * (k / g);
    if eps < s.epsMin then s.epsMin else eps
  }

  /** ε never grows as steps are taken, provided `eps_min <= eps_max`. */
  lemma EpsNonIncreasing(s: TrainingSchedule, t: TrainingSchedule)
    requires SameSettings(s, t) && s.epsMin <= s.epsMax
    requires s.nEpsRandomSteps <= s.nStep <= t.nStep && s.nEpsGreedySteps > 0
    ensures Eps(t) <= Eps(s)
  {
    assert t.(nStep := s.nStep) == s;
    var g := s.nEpsGreedySteps as real;
    DivMonotonic((s.nStep - s.nEpsRandomSteps) as real, (t.nStep - s.nEpsRandomSteps) as real, g);
    AnnealedNonIncreasing(s.epsMin, s.epsMax, Progress(s), Progress(t));
  }

  /** `is_time_to_update_target`: intervals are counted from the end of the random phase. */
  predicate IsTimeToUpdateTrainingTarget(s: TrainingSchedule)
    requires s.nStep >= s.nEpsRandomSteps && s.targetUpdateIntervalSteps > 0
  {
    (s.nStep - s.nEpsRandomSteps) % s.targetUpdateIntervalSteps == 0
  }

  /** From a new schedule, the random phase is exactly the first `n_eps_random_steps` steps. */
  lemma RandomPhase(s: TrainingSchedule, k: nat)
    requires s.nStep == 0 && k < U32_LIMIT
    ensures IsOnEpsRandom(TrainingSteps(s, k)) <==> k < s.nEpsRandomSteps
  {
  }

  /**
    From a new schedule, once the random phase is over the target is
    refreshed at its first step and then at every `interval`-th step, and
    at no step in between; ε starts that phase at `eps_max` and is at
    `eps_min` from `n_eps_greedy_steps` steps on.
   */
  lemma TrainingUpdatesEveryInterval(s: TrainingSchedule, j: nat, r: nat)
    requires s.nStep == 0 && 0 < s.targetUpdateIntervalSteps && 0 < s.nEpsGreedySteps
    requires r < s.targetUpdateIntervalSteps && s.nEpsRandomSteps + j * s.targetUpdateIntervalSteps + r < U32_LIMIT
    ensures var k := s.nEpsRandomSteps + j * s.targetUpdateIntervalSteps + r;
      var t := TrainingSteps(s, k);
      t.nStep == k && !IsOnEpsRandom(t) && (IsTimeToUpdateTrainingTarget(t) <==> r == 0)
  {
    MultiplePlusRemainder(j, s.targetUpdateIntervalSteps, r);
  }

  /** From a new schedule with `eps_min <= eps_max`, ε after the random phase falls from `eps_max` to `eps_min` and stays there. */
  lemma EpsAnneals(s: TrainingSchedule, k: nat)
    requires s.nStep == 0 && 0 < s.nEpsGreedySteps && s.epsMin <= s.epsMax
    requires s.nEpsRandomSteps + k < U32_LIMIT
    ensures var t := TrainingSteps(s, s.nEpsRandomSteps + k);
      !IsOnEpsRandom(t) && s.epsMin <= Eps(t) <= s.epsMax
      && (k == 0 ==> Eps(t) == s.epsMax)
      && (k >= s.nEpsGreedySteps ==> Eps(t) == s.epsMin)
  {
    var t := TrainingSteps(s, s.nEpsRandomSteps + k);
    DivAtMostOne(k as real, s.nEpsGreedySteps as real);
  }
}
