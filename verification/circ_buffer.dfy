/**
  The grow-then-overwrite circular buffer of the prioritised replay: values
  are appended until `max_size` of them are held, after which `head` walks
  round and overwrites the oldest.  Index `i` of the priority tree belongs
  to value `i`.
 */
module CircBuffers {
  import opened Wrappers
  import opened Queries
  import opened PriorityTrees
  import opened Sampling

  datatype CircBuffer<V> = CircBuffer(
    priorities: PriorityTree,
    values: seq<V>,
    maxSize: nat,
    head: nat)

  /** Shape: the buffer grows at `head` until it is full, then `head` wraps. */
  ghost predicate Inv<V>(b: CircBuffer<V>) {
    b.maxSize >= 2
    && PriorityTrees.Inv(b.priorities) && b.priorities.leafCount == b.maxSize
    && |b.values| <= b.maxSize && b.head < b.maxSize
    && (|b.values| < b.maxSize ==> b.head == |b.values|)
  }

  /** Exactly the indices that hold a value hold a priority. */
  ghost predicate Aligned<V>(b: CircBuffer<V>)
    requires Inv(b)
  {
    forall i :: 0 <= i < b.maxSize ==> (Slots(b.priorities)[i].Some? <==> i < |b.values|)
  }

  /** `with_max_size`: no values, `head` at zero, an empty tree. */
  method WithMaxSize<V>(maxSize: nat) returns (b: CircBuffer<V>)
    requires maxSize >= 2
    ensures Inv(b) && Aligned(b) && b.maxSize == maxSize && Len(b) == 0
  {
    var t := PriorityTrees.WithLeafCount(maxSize);
    b := CircBuffer(t, [], maxSize, 0);
  }

  /** `len`: the number of values. */
  function Len<V>(b: CircBuffer<V>): (n: nat)
    requires Inv(b)
    ensures n <= b.maxSize
  {
    |b.values|
  }

  /** `update_priority`: only index `index` changes priority. */
  function UpdatePriority<V>(b: CircBuffer<V>, index: nat, priority: real): (b': CircBuffer<V>)
    requires Inv(b) && index < b.maxSize
    ensures Inv(b') && b'.values == b.values && b'.head == b.head && b'.maxSize == b.maxSize
    ensures Slots(b'.priorities) == Slots(b.priorities)[index := Some(priority)]
    ensures Aligned(b) && index < Len(b) ==> Aligned(b')
  {
    b.(priorities := Update(b.priorities, index, priority))
  }

  /**
    `push`: the priority goes to index `head`, the value is appended when
    `head` is the end of the values and overwrites `values[head]`
    otherwise, and `head` advances and wraps at `max_size`.
   */
  function Push<V>(b: CircBuffer<V>, priority: real, value: V): (b': CircBuffer<V>)
    requires Inv(b)
    ensures Inv(b') && b'.maxSize == b.maxSize
    ensures Slots(b'.priorities) == Slots(b.priorities)[b.head := Some(priority)]
    ensures Len(b) < b.maxSize ==> b'.values == b.values + [value]
    ensures Len(b) == b.maxSize ==> b'.values == b.values[b.head := value]
    ensures Len(b') == if Len(b) < b.maxSize then Len(b) + 1 else b.maxSize
    ensures Aligned(b) ==> Aligned(b')
  {
    var b1 := UpdatePriority(b, b.head, priority);
    var values := if b.head == |b.values| then b.values + [value] else b.values[b.head := value];
    var head := if b.head + 1 == b.maxSize then 0 else b.head + 1;
    b1.(values := values, head := head)
  }

  /** Pushes every pair in order, as repeated `add_transition_with_priority` calls do. */
  function PushAll<V>(b: CircBuffer<V>, items: seq<(real, V)>): (b': CircBuffer<V>)
    requires Inv(b)
    ensures Inv(b') && b'.maxSize == b.maxSize
    decreases |items|
  {
    if |items| == 0 then b else PushAll(Push(b, items[0].0, items[0].1), items[1..])
  }

  /** The buffer never shrinks, and after `n` pushes it holds `min(len + n, max_size)` values. */
  lemma {:induction false} PushAllLen<V>(b: CircBuffer<V>, items: seq<(real, V)>)
    requires Inv(b)
    ensures Len(PushAll(b, items)) >= Len(b)
    ensures Len(PushAll(b, items)) == if Len(b) + |items| <= b.maxSize then Len(b) + |items| else b.maxSize
    decreases |items|
  {
    if |items| > 0 {
      PushAllLen(Push(b, items[0].0, items[0].1), items[1..]);
    }
  }

  /** The values of the pushed pairs, in order. */
  function PushedValues<V>(items: seq<(real, V)>): (vs: seq<V>)
    ensures |vs| == |items|
    decreases |items|
  {
    if |items| == 0 then [] else [items[0].1] + PushedValues(items[1..])
  }

  /** While the buffer is filling, the values are exactly the pushed ones in order. */
  lemma {:induction false} PushAllFills<V>(b: CircBuffer<V>, items: seq<(real, V)>)
    requires Inv(b) && Len(b) + |items| <= b.maxSize
    ensures PushAll(b, items).values == b.values + PushedValues(items)
    decreases |items|
  {
    if |items| > 0 {
      var b1 := Push(b, items[0].0, items[0].1);
      PushAllFills(b1, items[1..]);
      AppendAssoc(b.values, items[0].1, PushedValues(items[1..]));
    }
  }

  /** Appending one element and then a run is appending the run with that element in front. */
  lemma AppendAssoc<T>(a: seq<T>, x: T, rest: seq<T>)
    ensures (a + [x]) + rest == a + ([x] + rest)
  {
  }

  /** `min_priority`: the least held priority. */
  function MinPriority<V>(b: CircBuffer<V>): (r: Option<real>)
    requires Inv(b)
    ensures IsMinOf(r, Slots(b.priorities))
  {
    Min(b.priorities)
  }

  /** `max_priority`: the greatest held priority. */
  function MaxPriority<V>(b: CircBuffer<V>): (r: Option<real>)
    requires Inv(b)
    ensures IsMaxOf(r, Slots(b.priorities))
  {
    Max(b.priorities)
  }

  /** `total_priority`: the sum of the held priorities. */
  function TotalPriority<V>(b: CircBuffer<V>): (r: real)
    requires Inv(b)
    ensures r == SumHeld(Slots(b.priorities))
  {
    Total(b.priorities)
  }

  /**
    `sample_from_range` of the buffer: the sampled index with its priority
    and value.  `None` stands for either panic of the source: the index
    underflow of the tree, or an index without a value.
   */
  method SampleFromRange<V>(b: CircBuffer<V>, rangeStart: real, rangeEnd: real, u: real)
    returns (r: Option<(nat, real, V)>)
    requires Inv(b)
    ensures r.Some? ==>
      r.value.0 < Len(b)
      && r.value.1 == Slots(b.priorities)[r.value.0].GetOr(0.0)
      && r.value.2 == b.values[r.value.0]
    ensures var target := RangeTarget(rangeStart, rangeEnd, u, TotalPriority(b));
      Aligned(b) && 0.0 <= target < TotalPriority(b) ==>
        r.Some? && Drawn(Slots(b.priorities), r.value.0, target)
  {
    var index := Sampling.SampleFromRange(b.priorities, rangeStart, rangeEnd, u);
    if index.None? || index.value >= |b.values| {
      r := None;
    } else {
      var i := index.value;
      r := Some((i, Priority(b.priorities, i), b.values[i]));
    }
  }
}
