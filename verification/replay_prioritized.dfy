/**
  `ReplayPrioritized`: prioritised experience replay over the circular
  buffer.  New transitions enter with the greatest priority present (at
  least `EPSILON`); batches are drawn by stratified proportional sampling.
  The conversion of a TD error into a priority (`powf`) and the random
  draws are parameters.
 */
module ReplayPrioritizedMemory {
  import opened Wrappers
  import opened Queries
  import opened PriorityTrees
  import opened Sampling
  import opened CircBuffers
  import opened RealArith

  /** The floor of the initial priority. */
  const EPSILON: real := 0.001

  datatype ReplayPrioritized<V> = ReplayPrioritized(transitions: CircBuffer<V>)

  ghost predicate Inv<V>(r: ReplayPrioritized<V>) {
    CircBuffers.Inv(r.transitions) && Aligned(r.transitions)
  }

  /** `with_max_size`. */
  method WithMaxSize<V>(maxSize: nat) returns (r: ReplayPrioritized<V>)
    requires maxSize >= 2
    ensures Inv(r) && Len(r) == 0 && r.transitions.maxSize == maxSize
  {
    var b := CircBuffers.WithMaxSize(maxSize);
    r := ReplayPrioritized(b);
  }

  /** `len`. */
  function Len<V>(r: ReplayPrioritized<V>): (n: nat)
    requires Inv(r)
    ensures n == |r.transitions.values|
  {
    CircBuffers.Len(r.transitions)
  }

  /**
    `initial_priority`: the greatest priority present, raised to `EPSILON`
    if it is below; `EPSILON` when no priority is present.
   */
  function InitialPriority<V>(r: ReplayPrioritized<V>): (p: real)
    requires Inv(r)
    ensures EPSILON <= p
    ensures forall i :: 0 <= i < r.transitions.maxSize && Slots(r.transitions.priorities)[i].Some? ==>
      Slots(r.transitions.priorities)[i].value <= p
    ensures p == EPSILON || exists i :: 0 <= i < r.transitions.maxSize && Slots(r.transitions.priorities)[i] == Some(p)
  {
    match MaxPriority(r.transitions)
    case Some(maxPriority) => if maxPriority < EPSILON then EPSILON else maxPriority
    case None => EPSILON
  }

  /**
    `add_transition`: the transition goes in at `head` with the initial
    priority, which is at least `EPSILON` and at least every priority
    already present.
   */
  function AddTransition<V>(r: ReplayPrioritized<V>, transition: V): (r': ReplayPrioritized<V>)
    requires Inv(r)
    ensures Inv(r') && r'.transitions.maxSize == r.transitions.maxSize
    ensures var p := Slots(r'.transitions.priorities)[r.transitions.head];
      p.Some? && EPSILON <= p.value
      && forall i :: 0 <= i < r.transitions.maxSize && Slots(r.transitions.priorities)[i].Some? ==>
           Slots(r.transitions.priorities)[i].value <= p.value
    ensures Len(r') == if Len(r) < r.transitions.maxSize then Len(r) + 1 else Len(r)
    // Only the head slot changes: it takes the initial priority and the transition,
    // appended while the buffer grows and overwriting the oldest once it is full.
    ensures Slots(r'.transitions.priorities) == Slots(r.transitions.priorities)[r.transitions.head := Some(InitialPriority(r))]
    ensures Len(r) < r.transitions.maxSize ==> r'.transitions.values == r.transitions.values + [transition]
    ensures Len(r) == r.transitions.maxSize ==> r'.transitions.values == r.transitions.values[r.transitions.head := transition]
  {
    ReplayPrioritized(Push(r.transitions, InitialPriority(r), transition))
  }

  /** The reference for a priority update: writes applied in order to the slot sequence. */
  function ApplyWrites(slots: seq<Option<real>>, indices: seq<nat>, priorities: seq<real>): (s: seq<Option<real>>)
    requires |indices| <= |priorities|
    requires forall k :: 0 <= k < |indices| ==> indices[k] < |slots|
    ensures |s| == |slots|
    decreases |indices|
  {
    if |indices| == 0 then slots
    else ApplyWrites(slots[indices[0] := Some(priorities[0])], indices[1..], priorities[1..])
  }

  /** A write sequence only touches the listed indices. */
  lemma {:induction false} ApplyWritesElsewhere(slots: seq<Option<real>>, indices: seq<nat>, priorities: seq<real>, j: nat)
    requires |indices| <= |priorities|
    requires forall k :: 0 <= k < |indices| ==> indices[k] < |slots|
    requires j < |slots| && forall k :: 0 <= k < |indices| ==> indices[k] != j
    ensures ApplyWrites(slots, indices, priorities)[j] == slots[j]
    decreases |indices|
  {
    if |indices| > 0 {
      ApplyWritesElsewhere(slots[indices[0] := Some(priorities[0])], indices[1..], priorities[1..], j);
    }
  }

  /** Every listed index ends up holding the priority of its last write. */
  lemma {:induction false} ApplyWritesLast(slots: seq<Option<real>>, indices: seq<nat>, priorities: seq<real>, k: nat)
    requires |indices| <= |priorities|
    requires forall k :: 0 <= k < |indices| ==> indices[k] < |slots|
    requires k < |indices| && forall l :: k < l < |indices| ==> indices[l] != indices[k]
    ensures ApplyWrites(slots, indices, priorities)[indices[k]] == Some(priorities[k])
    decreases |indices|
  {
    if k == 0 {
      ApplyWritesElsewhere(slots[indices[0] := Some(priorities[0])], indices[1..], priorities[1..], indices[0]);
    } else {
      ApplyWritesLast(slots[indices[0] := Some(priorities[0])], indices[1..], priorities[1..], k - 1);
    }
  }

  /** The buffer with the zipped priorities written in order. */
  function UpdatePriorities<V>(b: CircBuffer<V>, indices: seq<nat>, priorities: seq<real>): (b': CircBuffer<V>)
    requires CircBuffers.Inv(b) && |indices| <= |priorities|
    requires forall k :: 0 <= k < |indices| ==> indices[k] < b.maxSize
    ensures CircBuffers.Inv(b') && b'.values == b.values && b'.head == b.head && b'.maxSize == b.maxSize
    ensures Slots(b'.priorities) == ApplyWrites(Slots(b.priorities), indices, priorities)
    decreases |indices|
  {
    if |indices| == 0 then b
    else UpdatePriorities(UpdatePriority(b, indices[0], priorities[0]), indices[1..], priorities[1..])
  }

  /** Writes to indices that already hold a transition keep priorities and transitions aligned. */
  lemma {:induction false} UpdatePrioritiesAligned<V>(b: CircBuffer<V>, indices: seq<nat>, priorities: seq<real>)
    requires CircBuffers.Inv(b) && Aligned(b) && |indices| <= |priorities|
    requires forall k :: 0 <= k < |indices| ==> indices[k] < |b.values|
    ensures |b.values| <= b.maxSize
    ensures Aligned(UpdatePriorities(b, indices, priorities))
    decreases |indices|
  {
    assert |b.values| == CircBuffers.Len(b);
    if |indices| > 0 {
      var b1 := UpdatePriority(b, indices[0], priorities[0]);
      UpdatePrioritiesAligned(b1, indices[1..], priorities[1..]);
    }
  }

  /**
    `update_priorities_with_td_errors`: the pairs of the two slices are
    zipped (the shorter decides how many) and index `indices[k]` gets the
    priority `priorityOf(absTdErrors[k])`; values never change.  An index
    at or past `max_size` lies beyond the tree's leaves, where the source
    panics: the result is `None` then.
   */
  function UpdatePrioritiesWithTdErrors<V>(r: ReplayPrioritized<V>, indices: seq<nat>, absTdErrors: seq<real>,
                                           priorityOf: real -> real): (r': Option<ReplayPrioritized<V>>)
    requires Inv(r)
    ensures r'.None? <==> exists k :: 0 <= k < |indices| && k < |absTdErrors| && indices[k] >= r.transitions.maxSize
    ensures r'.Some? ==> CircBuffers.Inv(r'.value.transitions) && r'.value.transitions.values == r.transitions.values
    ensures r'.Some? ==> var n := ZipLength(indices, absTdErrors);
      Slots(r'.value.transitions.priorities)
        == ApplyWrites(Slots(r.transitions.priorities), indices[..n], TdPriorities(absTdErrors[..n], priorityOf))
    ensures (forall k :: 0 <= k < |indices| && k < |absTdErrors| ==> indices[k] < Len(r)) ==> r'.Some? && Inv(r'.value)
  {
    var n := ZipLength(indices, absTdErrors);
    var written, priorities := indices[..n], TdPriorities(absTdErrors[..n], priorityOf);
    if exists k :: 0 <= k < |indices| && k < |absTdErrors| && indices[k] >= r.transitions.maxSize then
      None
    else if forall k :: 0 <= k < |indices| && k < |absTdErrors| ==> indices[k] < Len(r) then
      UpdatePrioritiesAligned(r.transitions, written, priorities);
      Some(ReplayPrioritized(UpdatePriorities(r.transitions, written, priorities)))
    else
      Some(ReplayPrioritized(UpdatePriorities(r.transitions, written, priorities)))
  }

  /** The number of pairs when two slices are zipped: the shorter length. */
  function ZipLength<A, B>(a: seq<A>, b: seq<B>): (n: nat)
    ensures n <= |a| && n <= |b| && (n == |a| || n == |b|)
  {
    if |a| < |b| then |a| else |b|
  }

  /** The priority of each TD error, in order. */
  function TdPriorities(absTdErrors: seq<real>, priorityOf: real -> real): (p: seq<real>)
    ensures |p| == |absTdErrors| && forall k :: 0 <= k < |p| ==> p[k] == priorityOf(absTdErrors[k])
  {
    seq(|absTdErrors|, k requires 0 <= k < |absTdErrors| => priorityOf(absTdErrors[k]))
  }

  /** The target of draw `k` of a batch of `batchSize`: stratum `[k/B, (k+1)/B)` scaled by the total. */
  function StratumTarget(k: nat, batchSize: nat, u: real, total: real): real
    requires batchSize > 0
  {
    RangeTarget((k as real) / (batchSize as real), (k as real) / (batchSize as real) + 1.0 / (batchSize as real), u, total)
  }

  /** Stratum `k` of `B` lies inside `[0, 1]` and is not empty. */
  lemma Stratum(k: nat, batchSize: nat)
    requires k < batchSize
    ensures var start := (k as real) / (batchSize as real);
      0.0 <= start < start + 1.0 / (batchSize as real) <= 1.0
  {
    var b := batchSize as real;
    var start := (k as real) / b;
    assert start * b == k as real;
    assert (1.0 / b) * b == 1.0;
    assert (start + 1.0 / b) * b == (k + 1) as real;
  }

  /** Every draw of a stratified batch lands inside `[0, total)`. */
  lemma StratumTargetInBounds(k: nat, batchSize: nat, u: real, total: real)
    requires k < batchSize && 0.0 <= u < 1.0 && 0.0 < total
    ensures 0.0 <= StratumTarget(k, batchSize, u, total) < total
  {
    Stratum(k, batchSize);
    var rangeStart := (k as real) / (batchSize as real);
    RangeTargetInBounds(rangeStart, rangeStart + 1.0 / (batchSize as real), u, total);
  }

  /**
    `sample_batch`: draw `k` samples stratum `k`; each index comes with its
    probability `priority / total` and its transition.  `draws[k]` is the
    uniform number in `[0, 1)` the random generator supplies for draw `k`.
   */
  method SampleBatch<V>(r: ReplayPrioritized<V>, batchSize: nat, draws: seq<real>)
    returns (indices: seq<nat>, probabilities: seq<real>, transitions: seq<V>)
    requires Inv(r) && |draws| == batchSize
    requires forall k :: 0 <= k < batchSize ==> 0.0 <= draws[k] < 1.0
    requires batchSize > 0 ==> TotalPriority(r.transitions) > 0.0
    ensures |indices| == batchSize && |probabilities| == batchSize && |transitions| == batchSize
    ensures forall k :: 0 <= k < batchSize ==>
      indices[k] < Len(r)
      && Drawn(Slots(r.transitions.priorities), indices[k], StratumTarget(k, batchSize, draws[k], TotalPriority(r.transitions)))
      && probabilities[k] == Slots(r.transitions.priorities)[indices[k]].value / TotalPriority(r.transitions)
      && transitions[k] == r.transitions.values[indices[k]]
  {
    indices, probabilities, transitions := [], [], [];
    var totalPriority := TotalPriority(r.transitions);
    var k := 0;
    while k < batchSize
      invariant k <= batchSize
      invariant |indices| == k && |probabilities| == k && |transitions| == k
      invariant forall j :: 0 <= j < k ==>
        indices[j] < Len(r)
        && Drawn(Slots(r.transitions.priorities), indices[j], StratumTarget(j, batchSize, draws[j], totalPriority))
        && probabilities[j] == Slots(r.transitions.priorities)[indices[j]].value / totalPriority
        && transitions[j] == r.transitions.values[indices[j]]
    {
      var rangeStart := (k as real) / (batchSize as real);
      var rangeEnd := rangeStart + 1.0 / (batchSize as real);
      StratumTargetInBounds(k, batchSize, draws[k], totalPriority);
      var sample := CircBuffers.SampleFromRange(r.transitions, rangeStart, rangeEnd, draws[k]);
      var (index, priority, transition) := sample.value;
      var probability := priority / totalPriority;
      indices := indices + [index];
      probabilities := probabilities + [probability];
      transitions := transitions + [transition];
      k := k + 1;
    }
  }

  /**
    `min_probability`: the least priority present (`EPSILON` when there is
    none) over the total.  It bounds the probability of every index that
    holds a priority.
   */
  function MinProbability<V>(r: ReplayPrioritized<V>): (p: real)
    requires Inv(r) && TotalPriority(r.transitions) != 0.0
    ensures TotalPriority(r.transitions) > 0.0 ==>
      forall i :: 0 <= i < r.transitions.maxSize && Slots(r.transitions.priorities)[i].Some? ==>
        p <= Slots(r.transitions.priorities)[i].value / TotalPriority(r.transitions)
    ensures exists i :: (0 <= i < r.transitions.maxSize && Slots(r.transitions.priorities)[i].Some?
      && p == Slots(r.transitions.priorities)[i].value / TotalPriority(r.transitions))
  {
    SumHeldNothing(Slots(r.transitions.priorities));
    var total := TotalPriority(r.transitions);
    var minPriority := MinPriority(r.transitions).GetOr(EPSILON);
    if total > 0.0 then
      MinOverTotal(r);
      minPriority / total
    else
      minPriority / total
  }

  /** The least priority present, divided by a positive total, is at most every priority over the total. */
  lemma MinOverTotal<V>(r: ReplayPrioritized<V>)
    requires Inv(r) && TotalPriority(r.transitions) > 0.0
    ensures forall i :: 0 <= i < r.transitions.maxSize && Slots(r.transitions.priorities)[i].Some? ==>
      MinPriority(r.transitions).GetOr(EPSILON) / TotalPriority(r.transitions)
        <= Slots(r.transitions.priorities)[i].value / TotalPriority(r.transitions)
  {
    forall i | 0 <= i < r.transitions.maxSize && Slots(r.transitions.priorities)[i].Some?
      ensures MinPriority(r.transitions).GetOr(EPSILON) / TotalPriority(r.transitions)
        <= Slots(r.transitions.priorities)[i].value / TotalPriority(r.transitions)
    {
      DivMonotonic(MinPriority(r.transitions).GetOr(EPSILON), Slots(r.transitions.priorities)[i].value, TotalPriority(r.transitions));
    }
  }
}
