/**
  `ReplayQueue`: a bounded FIFO of transitions.  Adding to a full queue
  evicts the oldest transition first, so the queue holds the most recent
  `max_size` transitions in insertion order.
 */
module ReplayQueues {
  datatype ReplayQueue<T> = ReplayQueue(transitions: seq<T>, maxSize: nat)

  /** `with_max_size`: an empty queue. */
  function WithMaxSize<T>(maxSize: nat): (q: ReplayQueue<T>)
    ensures q.transitions == [] && q.maxSize == maxSize
  {
    ReplayQueue([], maxSize)
  }

  /** `len`. */
  function Len<T>(q: ReplayQueue<T>): (n: nat)
    ensures n == |q.transitions|
  {
    |q.transitions|
  }

  /**
    `add_transition`: when the queue holds `max_size` or more, the front
    is popped (a no-op on an empty queue); then the transition is pushed
    at the back.
   */
  function AddTransition<T>(q: ReplayQueue<T>, transition: T): (q': ReplayQueue<T>)
    ensures q'.maxSize == q.maxSize
    ensures |q.transitions| < q.maxSize ==> q'.transitions == q.transitions + [transition]
    ensures |q.transitions| >= q.maxSize && |q.transitions| > 0 ==> q'.transitions == q.transitions[1..] + [transition]
    ensures q.maxSize >= 1 && |q.transitions| <= q.maxSize ==> |q'.transitions| <= q.maxSize
  {
    var front := if |q.transitions| >= q.maxSize && |q.transitions| > 0 then q.transitions[1..] else q.transitions;
    ReplayQueue(front + [transition], q.maxSize)
  }

  /** Adds every transition in order. */
  function AddAll<T>(q: ReplayQueue<T>, items: seq<T>): (q': ReplayQueue<T>)
    ensures q'.maxSize == q.maxSize
    decreases |items|
  {
    if |items| == 0 then q else AddAll(AddTransition(q, items[0]), items[1..])
  }

  /** The last `n` elements of `s` (all of them when `s` is shorter). */
  function LastN<T>(s: seq<T>, n: nat): (r: seq<T>)
    ensures |r| == if |s| <= n then |s| else n
  {
    if |s| <= n then s else s[|s| - n..]
  }

  /** Taking the last `n` before appending `rest` does not change the last `n` after it. */
  lemma LastNConcat<T>(s: seq<T>, rest: seq<T>, n: nat)
    ensures LastN(LastN(s, n) + rest, n) == LastN(s + rest, n)
  {
    if |s| > n {
      var all := s + rest;
      assert LastN(s, n) + rest == all[|s| - n..];
    }
  }

  /** Below capacity, one add keeps the last `max_size` of the old contents and the new transition. */
  lemma AddTransitionKeepsNewest<T>(q: ReplayQueue<T>, transition: T)
    requires q.maxSize >= 1 && |q.transitions| <= q.maxSize
    ensures AddTransition(q, transition).transitions == LastN(q.transitions + [transition], q.maxSize)
  {
    if |q.transitions| == q.maxSize {
      assert q.transitions[1..] + [transition] == (q.transitions + [transition])[1..];
    }
  }

  /**
    For `max_size >= 1` the queue holds exactly the last `max_size` of
    everything that went in (what it held before, then `items`), oldest first.
   */
  lemma {:induction false} AddAllKeepsNewest<T>(q: ReplayQueue<T>, items: seq<T>)
    requires q.maxSize >= 1 && |q.transitions| <= q.maxSize
    ensures AddAll(q, items).transitions == LastN(q.transitions + items, q.maxSize)
    decreases |items|
  {
    if |items| == 0 {
      assert q.transitions + items == q.transitions;
    } else {
      var q1 := AddTransition(q, items[0]);
      AddTransitionKeepsNewest(q, items[0]);
      AddAllKeepsNewest(q1, items[1..]);
      LastNConcat(q.transitions + [items[0]], items[1..], q.maxSize);
      assert q.transitions + [items[0]] + items[1..] == q.transitions + items;
    }
  }

  /** The elements at the given positions, in the order of the positions. */
  function Gather<T>(s: seq<T>, picks: seq<nat>): (r: seq<T>)
    requires forall i :: 0 <= i < |picks| ==> picks[i] < |s|
    ensures |r| == |picks|
  {
    seq(|picks|, i requires 0 <= i < |picks| => s[picks[i]])
  }

  /** Elements gathered from distinct positions form a sub-multiset of the sequence. */
  lemma {:induction false} GatherSubMultiset<T>(s: seq<T>, picks: seq<nat>)
    requires forall i :: 0 <= i < |picks| ==> picks[i] < |s|
    requires forall i, j :: 0 <= i < j < |picks| ==> picks[i] != picks[j]
    ensures multiset(Gather(s, picks)) <= multiset(s)
    decreases |s|
  {
    if |picks| == 0 {
      assert Gather(s, picks) == [];
    } else {
      assert picks[0] < |s|;
      var last := |s| - 1;
      var init := s[..last];
      assert s == init + [s[last]];
      if k :| 0 <= k < |picks| && picks[k] == last {
        var rest := GatherSplice(s, picks, k);
        GatherSubMultiset(init, rest);
        InsertSubMultiset(Gather(init, rest), k, s[last], init);
      } else {
        assert forall i :: 0 <= i < |picks| ==> picks[i] < last;
        GatherSubMultiset(init, picks);
        assert Gather(s, picks) == Gather(init, picks);
      }
    }
  }

  /**
    When pick `k` is the last position, the gathered elements are those the
    other picks gather from the rest of the sequence, with the last element
    spliced in at `k`.
   */
  lemma GatherSplice<T>(s: seq<T>, picks: seq<nat>, k: nat) returns (rest: seq<nat>)
    requires forall i :: 0 <= i < |picks| ==> picks[i] < |s|
    requires forall i, j :: 0 <= i < j < |picks| ==> picks[i] != picks[j]
    requires k < |picks| && picks[k] == |s| - 1
    ensures |rest| == |picks| - 1 && k <= |rest|
    ensures forall i :: 0 <= i < |rest| ==> rest[i] < |s| - 1
    ensures forall i, j :: 0 <= i < j < |rest| ==> rest[i] != rest[j]
    ensures Gather(s, picks) == Gather(s[..|s| - 1], rest)[..k] + [s[|s| - 1]] + Gather(s[..|s| - 1], rest)[k..]
  {
    var last := |s| - 1;
    var init := s[..last];
    rest := picks[..k] + picks[k + 1..];
    assert forall i :: 0 <= i < |rest| ==> rest[i] == (if i < k then picks[i] else picks[i + 1]);
    var g := Gather(init, rest);
    var spliced := g[..k] + [s[last]] + g[k..];
    forall i | 0 <= i < |picks|
      ensures Gather(s, picks)[i] == spliced[i]
    {
      if i < k {
        assert spliced[i] == g[i] == init[rest[i]];
      } else if i > k {
        assert spliced[i] == g[i - 1] == init[rest[i - 1]];
      }
    }
    assert |spliced| == |picks|;
  }

  /** Inserting `x` anywhere into a sub-multiset of `t` gives a sub-multiset of `t + [x]`. */
  lemma InsertSubMultiset<T>(g: seq<T>, k: nat, x: T, t: seq<T>)
    requires k <= |g| && multiset(g) <= multiset(t)
    ensures multiset(g[..k] + [x] + g[k..]) <= multiset(t + [x])
  {
    assert g == g[..k] + g[k..];
  }

  /**
    `sample_batch`: `choose_multiple` picks `min(batch_size, len)` distinct
    positions and `shuffle` orders them; `picks` is that random outcome.
    The batch holds at most `batch_size` transitions, all drawn from the
    queue without repetition.
   */
  function SampleBatch<T>(q: ReplayQueue<T>, batchSize: nat, picks: seq<nat>): (batch: seq<T>)
    requires |picks| == if |q.transitions| < batchSize then |q.transitions| else batchSize
    requires forall i :: 0 <= i < |picks| ==> picks[i] < |q.transitions|
    requires forall i, j :: 0 <= i < j < |picks| ==> picks[i] != picks[j]
    ensures |batch| <= batchSize && |batch| <= |q.transitions|
    ensures |batch| == batchSize || |batch| == |q.transitions|
    ensures multiset(batch) <= multiset(q.transitions)
  {
    GatherSubMultiset(q.transitions, picks);
    Gather(q.transitions, picks)
  }
}
