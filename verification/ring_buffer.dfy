/**
  The head/tail ring buffer of the replay ring: `max_size` optional values
  beside a priority tree with one index per slot.  The live entries are the
  slots from `tail` (inclusive) round to `head` (exclusive); one slot always
  stays free, so at most `max_size - 1` entries are held.
 */
module RingBuffers {
  import opened Wrappers
  import opened PriorityTrees

  datatype Ring<V> = Ring(
    priorities: PriorityTree,
    values: seq<Option<V>>,
    maxSize: nat,
    head: nat,
    tail: nat)

  /** `mod_max_size`: `rem_euclid`, which agrees with Dafny's `%` for a positive modulus. */
  function ModMaxSize(n: int, maxSize: nat): (r: nat)
    requires maxSize > 0
    ensures r < maxSize
  {
    n % maxSize
  }

  /** On `(-m, m)` the remainder adds `m` to a negative operand and keeps the others. */
  lemma ModSmall(n: int, m: nat)
    requires 0 < m && 0 < n + m && n < m
    ensures ModMaxSize(n, m) == if n >= 0 then n else n + m
  {
    if n >= 0 {
      assert n == m * 0 + n;
    } else {
      assert n == m * (-1) + (n + m);
    }
  }

  /** How many steps it takes to go round from `from` to `to`. */
  function Dist(from: nat, to: nat, m: nat): nat
    requires from < m && to < m
  {
    if from <= to then to - from else to + m - from
  }

  /** The slot `j` steps round from `from`. */
  function Pos(from: nat, j: nat, m: nat): nat
    requires from < m && j < m
  {
    if from + j < m then from + j else from + j - m
  }

  /** Slot `i` lies in the cyclic interval `[tail, head)`. */
  predicate InInterval(i: nat, tail: nat, head: nat, m: nat)
    requires i < m && tail < m && head < m
  {
    Dist(tail, i, m) < Dist(tail, head, m)
  }

  /** Slot `i` holds a value exactly when it lies in `[tail, head)`. */
  ghost predicate Occupied<V>(values: seq<Option<V>>, tail: nat, head: nat, m: nat)
    requires |values| == m && tail < m && head < m
  {
    forall i :: 0 <= i < m ==> (values[i].Some? <==> InInterval(i, tail, head, m))
  }

  /** The values of `[tail, head)`, oldest first. */
  function Live<V>(values: seq<Option<V>>, tail: nat, head: nat, m: nat): (s: seq<V>)
    requires |values| == m && tail < m && head < m && Occupied(values, tail, head, m)
    ensures |s| == Dist(tail, head, m)
  {
    seq(Dist(tail, head, m), j requires 0 <= j < Dist(tail, head, m) =>
      assert InInterval(Pos(tail, j, m), tail, head, m);
      values[Pos(tail, j, m)].value)
  }

  /** Advancing `head` meets `tail` exactly when only one slot is free. */
  lemma NextMeetsTail(tail: nat, head: nat, m: nat)
    requires 2 <= m && tail < m && head < m
    ensures Pos(head, 1, m) == tail <==> Dist(tail, head, m) == m - 1
  {
  }

  /** Filling the slot at `head` and advancing it appends the value to the live ones. */
  lemma OccupiedPush<V>(values: seq<Option<V>>, tail: nat, head: nat, m: nat, v: V)
    requires 2 <= m && |values| == m && tail < m && head < m && Occupied(values, tail, head, m)
    requires Pos(head, 1, m) != tail
    ensures Occupied(values[head := Some(v)], tail, Pos(head, 1, m), m)
    ensures Dist(tail, Pos(head, 1, m), m) == Dist(tail, head, m) + 1
    ensures Live(values[head := Some(v)], tail, Pos(head, 1, m), m) == Live(values, tail, head, m) + [v]
  {
    var values', head' := values[head := Some(v)], Pos(head, 1, m);
    assert Occupied(values', tail, head', m);
    var n := Dist(tail, head, m);
    assert Pos(tail, n, m) == head;
    forall j | 0 <= j < n
      ensures Live(values', tail, head', m)[j] == Live(values, tail, head, m)[j]
    {
      assert Pos(tail, j, m) != head;
    }
  }

  /** Emptying the slot at `tail` and advancing it drops the oldest live value. */
  lemma OccupiedDrop<V>(values: seq<Option<V>>, tail: nat, head: nat, m: nat)
    requires 2 <= m && |values| == m && tail < m && head < m && Occupied(values, tail, head, m)
    requires tail != head
    ensures Occupied(values[tail := None], Pos(tail, 1, m), head, m)
    ensures Dist(Pos(tail, 1, m), head, m) == Dist(tail, head, m) - 1
    ensures Live(values[tail := None], Pos(tail, 1, m), head, m) == Live(values, tail, head, m)[1..]
  {
    var values', tail' := values[tail := None], Pos(tail, 1, m);
    assert Occupied(values', tail', head, m);
    forall j | 0 <= j < Dist(tail', head, m)
      ensures Live(values', tail', head, m)[j] == Live(values, tail, head, m)[j + 1]
    {
      assert Pos(tail', j, m) == Pos(tail, j + 1, m);
    }
  }

  /** The shape and the occupancy invariant: slot `i` is filled exactly when it lies in `[tail, head)`. */
  ghost predicate Inv<V>(r: Ring<V>) {
    r.maxSize >= 2
    && PriorityTrees.Inv(r.priorities) && r.priorities.leafCount == r.maxSize
    && |r.values| == r.maxSize && r.head < r.maxSize && r.tail < r.maxSize
    && Occupied(r.values, r.tail, r.head, r.maxSize)
  }

  /** `len`: the number of live entries. */
  function Len<V>(r: Ring<V>): (n: nat)
    requires Inv(r)
    ensures n < r.maxSize && n == Dist(r.tail, r.head, r.maxSize)
    ensures n == 0 <==> r.head == r.tail
  {
    ModSmall(r.head - r.tail, r.maxSize);
    ModMaxSize(r.head - r.tail, r.maxSize)
  }

  /** The live values, oldest first. */
  function Contents<V>(r: Ring<V>): (s: seq<V>)
    requires Inv(r)
    ensures |s| == Len(r)
  {
    Live(r.values, r.tail, r.head, r.maxSize)
  }

  /** `with_max_size`: all slots empty, head and tail at zero. */
  method WithMaxSize<V>(maxSize: nat) returns (r: Ring<V>)
    requires maxSize >= 2
    ensures Inv(r) && r.maxSize == maxSize && Len(r) == 0 && Contents(r) == []
    ensures forall i :: 0 <= i < maxSize ==> r.values[i].None? && Slots(r.priorities)[i].None?
  {
    var t := PriorityTrees.WithLeafCount(maxSize);
    r := Ring(t, seq(maxSize, _ => None), maxSize, 0, 0);
  }

  /**
    `push`: writes the priority and the value at `head` and advances `head`
    cyclically; when `head` then meets `tail` the source panics, which is
    `None` here.
   */
  function Push<V>(r: Ring<V>, priority: real, value: V): (res: Option<Ring<V>>)
    requires Inv(r)
    ensures res.Some? <==> Len(r) < r.maxSize - 1
    ensures res.Some? ==> var r' := res.value;
      Inv(r') && r'.maxSize == r.maxSize && r'.tail == r.tail
      && Len(r') == Len(r) + 1
      && r'.values == r.values[r.head := Some(value)]
      && Slots(r'.priorities) == Slots(r.priorities)[r.head := Some(priority)]
  {
    var priorities := Update(r.priorities, r.head, priority);
    var values := r.values[r.head := Some(value)];
    var head := if r.head + 1 == r.maxSize then 0 else r.head + 1;
    NextMeetsTail(r.tail, r.head, r.maxSize);
    if head == r.tail then None
    else
      OccupiedPush(r.values, r.tail, r.head, r.maxSize, value);
      Some(Ring(priorities, values, r.maxSize, head, r.tail))
  }

  /** A successful push appends the value to the live entries. */
  lemma PushAppends<V>(r: Ring<V>, priority: real, value: V)
    requires Inv(r) && Len(r) < r.maxSize - 1
    ensures Push(r, priority, value).Some?
    ensures Contents(Push(r, priority, value).value) == Contents(r) + [value]
  {
    NextMeetsTail(r.tail, r.head, r.maxSize);
    OccupiedPush(r.values, r.tail, r.head, r.maxSize, value);
  }

  /** `reset_entry`: the slot loses its value and its priority. */
  function ResetEntry<V>(r: Ring<V>, index: nat): (r': Ring<V>)
    requires PriorityTrees.Inv(r.priorities) && |r.values| == r.priorities.leafCount
    requires index < r.priorities.leafCount
    ensures PriorityTrees.Inv(r'.priorities) && r'.priorities.leafCount == r.priorities.leafCount
    ensures r'.values == r.values[index := None]
    ensures Slots(r'.priorities) == Slots(r.priorities)[index := None]
    ensures r'.maxSize == r.maxSize && r'.head == r.head && r'.tail == r.tail
  {
    r.(priorities := Reset(r.priorities, index), values := r.values[index := None])
  }

  /** `r1` differs from `r0` only in slots that lost their value, and those also lost their priority. */
  ghost predicate ClearedFrom<V>(r0: Ring<V>, r1: Ring<V>)
    requires Inv(r0) && Inv(r1) && r1.maxSize == r0.maxSize
  {
    forall i :: 0 <= i < r0.maxSize ==>
      if r0.values[i].Some? && r1.values[i].None? then Slots(r1.priorities)[i].None?
      else r1.values[i] == r0.values[i] && Slots(r1.priorities)[i] == Slots(r0.priorities)[i]
  }

  lemma ClearedFromTransitive<V>(r0: Ring<V>, r1: Ring<V>, r2: Ring<V>)
    requires Inv(r0) && Inv(r1) && Inv(r2) && r1.maxSize == r0.maxSize && r2.maxSize == r0.maxSize
    requires ClearedFrom(r0, r1) && ClearedFrom(r1, r2)
    ensures ClearedFrom(r0, r2)
  {
    forall i | 0 <= i < r0.maxSize
      ensures if r0.values[i].Some? && r2.values[i].None? then Slots(r2.priorities)[i].None?
              else r2.values[i] == r0.values[i] && Slots(r2.priorities)[i] == Slots(r0.priorities)[i]
    {
    }
  }

  /** One round of the `truncate` loop: reset the entry at `tail` and advance `tail`. */
  function DropOldest<V>(r: Ring<V>): (r': Ring<V>)
    requires Inv(r) && Len(r) > 0
    ensures Inv(r') && r'.maxSize == r.maxSize && r'.head == r.head
    ensures r'.tail == Pos(r.tail, 1, r.maxSize)
    ensures Len(r') == Len(r) - 1 && Contents(r') == Contents(r)[1..]
    ensures ClearedFrom(r, r')
  {
    var m := r.maxSize;
    var cleared := ResetEntry(r, r.tail);
    var tail := if r.tail + 1 == m then 0 else r.tail + 1;
    assert tail == Pos(r.tail, 1, m);
    OccupiedDrop(r.values, r.tail, r.head, m);
    ResetClears(r, cleared.(tail := tail), r.tail);
    cleared.(tail := tail)
  }

  /** Emptying one slot that held a value, value and priority together, is a clearing. */
  lemma ResetClears<V>(r0: Ring<V>, r1: Ring<V>, index: nat)
    requires Inv(r0) && Inv(r1) && r1.maxSize == r0.maxSize && index < r0.maxSize
    requires r0.values[index].Some? && r1.values == r0.values[index := None]
    requires Slots(r1.priorities) == Slots(r0.priorities)[index := None]
    ensures ClearedFrom(r0, r1)
  {
  }

  /** `r1` is `r0` after its `dropped` oldest entries were reset. */
  ghost predicate Dropped<V>(r0: Ring<V>, r1: Ring<V>, dropped: nat) {
    Inv(r0) && Inv(r1) && r1.maxSize == r0.maxSize && r1.head == r0.head
    && dropped <= Len(r0) && r1.tail == Pos(r0.tail, dropped, r0.maxSize)
    && Len(r1) == Len(r0) - dropped && Contents(r1) == Contents(r0)[dropped..]
    && ClearedFrom(r0, r1)
  }

  /** One more reset keeps `Dropped` with one more entry dropped. */
  lemma DroppedStep<V>(r0: Ring<V>, r1: Ring<V>, dropped: nat)
    requires Dropped(r0, r1, dropped) && dropped < Len(r0)
    ensures Len(r1) > 0 && Dropped(r0, DropOldest(r1), dropped + 1)
  {
    var r2 := DropOldest(r1);
    ClearedFromTransitive(r0, r1, r2);
    assert Contents(r0)[dropped..][1..] == Contents(r0)[dropped + 1..];
    assert Pos(r0.tail, dropped + 1, r0.maxSize) == Pos(r1.tail, 1, r0.maxSize);
  }

  /** Distinct step counts below `m` reach distinct slots. */
  lemma PosInjective(from: nat, a: nat, b: nat, m: nat)
    requires from < m && a < m && b < m && Pos(from, a, m) == Pos(from, b, m)
    ensures a == b
  {
  }

  /**
    `truncate`: when more than `truncatedLen` entries are live, the oldest
    are reset one by one from `tail` until exactly `truncatedLen` remain;
    otherwise nothing changes.
   */
  method Truncate<V>(r: Ring<V>, truncatedLen: nat) returns (r': Ring<V>)
    requires Inv(r)
    ensures Inv(r') && r'.maxSize == r.maxSize && r'.head == r.head
    ensures Len(r) <= truncatedLen ==> r' == r
    ensures Len(r) > truncatedLen ==> Len(r') == truncatedLen
    ensures Len(r) > truncatedLen ==> Contents(r') == Contents(r)[Len(r) - truncatedLen..]
    ensures ClearedFrom(r, r')
  {
    r' := r;
    if Len(r) <= truncatedLen {
      return;
    }
    var m := r.maxSize;
    ModSmall(r.head - truncatedLen, m);
    var newTail := ModMaxSize(r.head - truncatedLen, m);
    ghost var goal := Len(r) - truncatedLen;
    ghost var dropped: nat := 0;
    assert newTail == Pos(r.tail, goal, m);
    assert Contents(r)[0..] == Contents(r);
    while r'.tail != newTail
      invariant Dropped(r, r', dropped) && dropped <= goal
      decreases goal - dropped
    {
      assert dropped < goal;
      DroppedStep(r, r', dropped);
      r' := DropOldest(r');
      dropped := dropped + 1;
    }
    PosInjective(r.tail, dropped, goal, m);
  }
}
