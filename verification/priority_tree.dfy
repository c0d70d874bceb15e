/**
  `PriorityTree`: a sum tree, a min tree and a max tree over the same leaves,
  addressed by an index counted from the first leaf.  Each index either holds
  a priority or is empty; the sum tree stores an empty index as zero and the
  min and max trees store it as their infinity.
 */
module PriorityTrees {
  import opened Wrappers
  import opened TreeLayout
  import opened QueryTree
  import opened Nodes
  import opened Queries

  datatype PriorityTree = PriorityTree(
    sumTree: seq<real>,
    minTree: seq<MinNode>,
    maxTree: seq<MaxNode>,
    leafCount: nat,
    firstLeaf: nat)

  /** The three leaves of index `i` describe the same (held or empty) priority. */
  ghost predicate LeafAgrees(t: PriorityTree, i: nat) {
    var leaf := t.firstLeaf + i;
    leaf < |t.sumTree| && leaf < |t.minTree| && leaf < |t.maxTree|
    && t.maxTree[leaf].inner == t.minTree[leaf].inner
    && t.sumTree[leaf] == t.minTree[leaf].inner.GetOr(0.0)
  }

  /** The invariant every priority tree keeps. */
  ghost predicate Inv(t: PriorityTree) {
    Valid(SumQuery(), t.sumTree, t.leafCount)
    && Valid(MinQuery(), t.minTree, t.leafCount)
    && Valid(MaxQuery(), t.maxTree, t.leafCount)
    && t.firstLeaf == FirstLeafIndex(t.leafCount)
    && forall i :: 0 <= i < t.leafCount ==> LeafAgrees(t, i)
  }

  /** The abstract content: the priority held at each index, if any. */
  function Slots(t: PriorityTree): (r: seq<Option<real>>)
    requires Inv(t)
    ensures |r| == t.leafCount
  {
    seq(t.leafCount, i requires 0 <= i < t.leafCount => t.minTree[t.firstLeaf + i].inner)
  }

  /** `PriorityTree::with_leaf_count`: three empty trees, `first_leaf` read off the sum tree. */
  method WithLeafCount(leafCount: nat) returns (t: PriorityTree)
    requires leafCount >= 2
    ensures Inv(t) && t.leafCount == leafCount
    ensures forall i :: 0 <= i < leafCount ==> Slots(t)[i].None?
  {
    SumQueryLawful();
    MinQueryLawful();
    MaxQueryLawful();
    var sumTree := QueryTree.WithLeafCount(SumQuery(), leafCount);
    var firstLeaf := FirstLeaf(|sumTree|, leafCount);
    t := PriorityTree(sumTree,
                      QueryTree.WithLeafCount(MinQuery(), leafCount),
                      QueryTree.WithLeafCount(MaxQuery(), leafCount),
                      leafCount, firstLeaf);
  }

  /** The sum leaves add up to the held priorities. */
  lemma {:induction false} SumOfLeaves(s: seq<real>, slots: seq<Option<real>>)
    requires |s| == |slots|
    requires forall i :: 0 <= i < |s| ==> s[i] == slots[i].GetOr(0.0)
    ensures Sum(s) == SumHeld(slots)
    decreases |s|
  {
    if |s| > 0 {
      SumOfLeaves(s[1..], slots[1..]);
    }
  }

  lemma LeavesAreSlots(t: PriorityTree)
    requires Inv(t)
    ensures MinInners(t.minTree[t.firstLeaf..]) == Slots(t)
    ensures MaxInners(t.maxTree[t.firstLeaf..]) == Slots(t)
    ensures Sum(t.sumTree[t.firstLeaf..]) == SumHeld(Slots(t))
  {
    var fl := t.firstLeaf;
    var slots := Slots(t);
    forall i | 0 <= i < t.leafCount
      ensures MinInners(t.minTree[fl..])[i] == slots[i]
      ensures MaxInners(t.maxTree[fl..])[i] == slots[i]
      ensures t.sumTree[fl..][i] == slots[i].GetOr(0.0)
    {
      assert LeafAgrees(t, i);
    }
    SumOfLeaves(t.sumTree[fl..], slots);
  }

  /** `PriorityTree::min`: the least held priority, `None` when no index holds one. */
  function Min(t: PriorityTree): (r: Option<real>)
    requires Inv(t)
    ensures IsMinOf(r, Slots(t))
  {
    MinQueryLawful();
    RootFold(MinQuery(), t.minTree, t.leafCount);
    MinFold(t.minTree[t.firstLeaf..]);
    LeavesAreSlots(t);
    t.minTree[0].inner
  }

  /** `PriorityTree::max`: the greatest held priority, `None` when no index holds one. */
  function Max(t: PriorityTree): (r: Option<real>)
    requires Inv(t)
    ensures IsMaxOf(r, Slots(t))
  {
    MaxQueryLawful();
    RootFold(MaxQuery(), t.maxTree, t.leafCount);
    MaxFold(t.maxTree[t.firstLeaf..]);
    LeavesAreSlots(t);
    t.maxTree[0].inner
  }

  /** `PriorityTree::total`: the sum of the held priorities. */
  function Total(t: PriorityTree): (r: real)
    requires Inv(t)
    ensures r == SumHeld(Slots(t))
  {
    SumQueryLawful();
    RootFold(SumQuery(), t.sumTree, t.leafCount);
    SumFold(t.sumTree[t.firstLeaf..]);
    LeavesAreSlots(t);
    t.sumTree[0]
  }

  /** `PriorityTree::priority`: the sum leaf of the index, zero when it is empty. */
  function Priority(t: PriorityTree, index: nat): (r: real)
    requires Inv(t) && index < t.leafCount
    ensures r == Slots(t)[index].GetOr(0.0)
  {
    assert LeafAgrees(t, index);
    t.sumTree[t.firstLeaf + index]
  }

  /** The three trees with the leaves of `index` written and their ancestors repaired. */
  function WriteLeaves(t: PriorityTree, index: nat, s: real, m: MinNode, x: MaxNode): (r: PriorityTree)
    requires Inv(t) && index < t.leafCount
    ensures r.leafCount == t.leafCount && r.firstLeaf == t.firstLeaf
    ensures Valid(SumQuery(), r.sumTree, r.leafCount)
    ensures Valid(MinQuery(), r.minTree, r.leafCount)
    ensures Valid(MaxQuery(), r.maxTree, r.leafCount)
    ensures var leaf := t.firstLeaf + index;
      leaf < |r.sumTree| && leaf < |r.minTree| && leaf < |r.maxTree|
      && r.sumTree[leaf] == s && r.minTree[leaf] == m && r.maxTree[leaf] == x
  {
    var leaf := t.firstLeaf + index;
    UpdateValueValid(SumQuery(), t.sumTree, t.leafCount, leaf, s);
    UpdateValueValid(MinQuery(), t.minTree, t.leafCount, leaf, m);
    UpdateValueValid(MaxQuery(), t.maxTree, t.leafCount, leaf, x);
    PriorityTree(
      UpdateValue(SumQuery(), t.sumTree, leaf, s),
      UpdateValue(MinQuery(), t.minTree, leaf, m),
      UpdateValue(MaxQuery(), t.maxTree, leaf, x),
      t.leafCount, t.firstLeaf)
  }

  /** Every other index keeps its three leaves. */
  lemma {:induction false} WriteLeavesElsewhere(t: PriorityTree, index: nat, s: real, m: MinNode, x: MaxNode, i: nat)
    requires Inv(t) && index < t.leafCount
    requires i < t.leafCount && i != index
    ensures var r := WriteLeaves(t, index, s, m, x);
      var leaf := t.firstLeaf + i;
      r.sumTree[leaf] == t.sumTree[leaf] && r.minTree[leaf] == t.minTree[leaf] && r.maxTree[leaf] == t.maxTree[leaf]
  {
    var leaf := t.firstLeaf + index;
    LeafAncestorsInternal(t.leafCount, leaf);
    assert t.firstLeaf + i !in Ancestors(leaf);
  }

  lemma WriteLeavesInv(t: PriorityTree, index: nat, s: real, m: MinNode, x: MaxNode)
    requires Inv(t) && index < t.leafCount
    requires x.inner == m.inner && s == m.inner.GetOr(0.0)
    ensures Inv(WriteLeaves(t, index, s, m, x))
  {
    var r := WriteLeaves(t, index, s, m, x);
    forall i | 0 <= i < t.leafCount
      ensures LeafAgrees(r, i)
    {
      WriteLeavesAgree(t, index, s, m, x, i);
    }
  }

  /** After agreeing leaves are written for `index`, the leaves of each index still agree. */
  lemma WriteLeavesAgree(t: PriorityTree, index: nat, s: real, m: MinNode, x: MaxNode, i: nat)
    requires Inv(t) && index < t.leafCount && i < t.leafCount
    requires x.inner == m.inner && s == m.inner.GetOr(0.0)
    ensures LeafAgrees(WriteLeaves(t, index, s, m, x), i)
  {
    var r := WriteLeaves(t, index, s, m, x);
    if i != index {
      WriteLeavesElsewhere(t, index, s, m, x, i);
      assert LeafAgrees(t, i);
      SameLeavesAgree(t, r, i);
    } else {
      WrittenLeavesAgree(r, i, s, m, x);
    }
  }

  /** Leaves copied unchanged from a tree where they agreed still agree. */
  lemma SameLeavesAgree(t: PriorityTree, r: PriorityTree, i: nat)
    requires LeafAgrees(t, i) && r.firstLeaf == t.firstLeaf
    requires var leaf := t.firstLeaf + i;
      leaf < |r.sumTree| && leaf < |r.minTree| && leaf < |r.maxTree|
      && r.sumTree[leaf] == t.sumTree[leaf] && r.minTree[leaf] == t.minTree[leaf] && r.maxTree[leaf] == t.maxTree[leaf]
    ensures LeafAgrees(r, i)
  {
  }

  /** Leaves written with the same priority agree. */
  lemma WrittenLeavesAgree(r: PriorityTree, i: nat, s: real, m: MinNode, x: MaxNode)
    requires x.inner == m.inner && s == m.inner.GetOr(0.0)
    requires var leaf := r.firstLeaf + i;
      leaf < |r.sumTree| && leaf < |r.minTree| && leaf < |r.maxTree|
      && r.sumTree[leaf] == s && r.minTree[leaf] == m && r.maxTree[leaf] == x
    ensures LeafAgrees(r, i)
  {
  }

  lemma WriteLeavesSlots(t: PriorityTree, index: nat, s: real, m: MinNode, x: MaxNode)
    requires Inv(t) && index < t.leafCount
    requires x.inner == m.inner && s == m.inner.GetOr(0.0)
    ensures Inv(WriteLeaves(t, index, s, m, x))
    ensures Slots(WriteLeaves(t, index, s, m, x)) == Slots(t)[index := m.inner]
  {
    WriteLeavesInv(t, index, s, m, x);
    var r := WriteLeaves(t, index, s, m, x);
    forall i | 0 <= i < t.leafCount
      ensures Slots(r)[i] == Slots(t)[index := m.inner][i]
    {
      if i != index {
        WriteLeavesElsewhere(t, index, s, m, x, i);
      }
    }
  }

  /** Writes the three leaves of `index` and repairs the three trees. */
  function SetLeaves(t: PriorityTree, index: nat, s: real, m: MinNode, x: MaxNode): (r: PriorityTree)
    requires Inv(t) && index < t.leafCount
    requires x.inner == m.inner && s == m.inner.GetOr(0.0)
    ensures Inv(r) && r.leafCount == t.leafCount && r.firstLeaf == t.firstLeaf
    ensures Slots(r) == Slots(t)[index := m.inner]
  {
    WriteLeavesSlots(t, index, s, m, x);
    WriteLeaves(t, index, s, m, x)
  }

  /** `PriorityTree::update`: the index now holds `priority`; no other index changes. */
  function Update(t: PriorityTree, index: nat, priority: real): (r: PriorityTree)
    requires Inv(t) && index < t.leafCount
    ensures Inv(r) && r.leafCount == t.leafCount
    ensures Slots(r) == Slots(t)[index := Some(priority)]
  {
    SetLeaves(t, index, priority, MinFrom(priority), MaxFrom(priority))
  }

  /** `PriorityTree::reset`: the index becomes empty; no other index changes. */
  function Reset(t: PriorityTree, index: nat): (r: PriorityTree)
    requires Inv(t) && index < t.leafCount
    ensures Inv(r) && r.leafCount == t.leafCount
    ensures Slots(r) == Slots(t)[index := None]
  {
    SetLeaves(t, index, 0.0, MinInfinity(), MaxNegativeInfinity())
  }

  /**
    Reading back: `priority` returns what `update` wrote and zero after
    `reset`, and a reset index no longer takes part in `min` and `max`.
   */
  lemma UpdateThenRead(t: PriorityTree, index: nat, priority: real)
    requires Inv(t) && index < t.leafCount
    ensures Priority(Update(t, index, priority), index) == priority
    ensures Priority(Reset(t, index), index) == 0.0
    ensures Slots(Reset(t, index))[index].None?
  {
  }
}
