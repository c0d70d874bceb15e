/**
  Proportional sampling from a priority tree: a target in `[0, total)` is
  located by descending the sum tree, going left while the target is below
  the left subtree's sum and otherwise subtracting that sum and going right.
  The random draw `u` of the source is a parameter.
 */
module Sampling {
  import opened Wrappers
  import opened TreeLayout
  import opened QueryTree
  import opened Queries
  import opened PriorityTrees
  import opened RealArith

  /** The descent is at `node` on level `d` with `cur` left of the original `target`. */
  ghost predicate OnPath(nodes: seq<real>, leafCount: nat, node: nat, d: nat, cur: real, target: real) {
    Valid(SumQuery(), nodes, leafCount)
    && InLevel(node, d) && d <= LeafDepth(leafCount) && node < |nodes|
    && 0.0 <= cur < nodes[node]
    && target == cur + FoldRange(SumQuery(), nodes, FirstLeafIndex(leafCount), LeafLo(node, d, LeafDepth(leafCount)))
  }

  /** A node with a child lies above the leaf level. */
  lemma HasChildIsInternal(nodes: seq<real>, leafCount: nat, node: nat, d: nat)
    requires Shaped(|nodes|, leafCount) && InLevel(node, d) && d <= LeafDepth(leafCount)
    requires 2 * node + 1 < |nodes|
    ensures node < FirstLeafIndex(leafCount) && d < LeafDepth(leafCount)
  {
    LeafLevelBounds(leafCount);
    if d < LeafDepth(leafCount) {
      LevelVersusFirstLeaf(leafCount, node, d);
    }
  }

  /** Going to the left child keeps the descent on its path. */
  lemma DescendLeft(nodes: seq<real>, leafCount: nat, node: nat, d: nat, cur: real, target: real)
    requires OnPath(nodes, leafCount, node, d, cur, target)
    requires 2 * node + 1 < |nodes|
    requires 2 * node + 2 < |nodes| ==> cur < nodes[2 * node + 1]
    ensures d < LeafDepth(leafCount)
    ensures OnPath(nodes, leafCount, 2 * node + 1, d + 1, cur, target)
  {
    HasChildIsInternal(nodes, leafCount, node, d);
    assert Consistent(SumQuery(), nodes, node);
    ChildRanges(node, d, LeafDepth(leafCount));
  }

  /** Going to the right child, less the left subtree's sum, keeps the descent on its path. */
  lemma DescendRight(nodes: seq<real>, leafCount: nat, node: nat, d: nat, cur: real, target: real)
    requires OnPath(nodes, leafCount, node, d, cur, target)
    requires 2 * node + 2 < |nodes|
    requires !(cur < nodes[2 * node + 1])
    ensures d < LeafDepth(leafCount)
    ensures OnPath(nodes, leafCount, 2 * node + 2, d + 1, cur - nodes[2 * node + 1], target)
  {
    var k := LeafDepth(leafCount);
    var left := 2 * node + 1;
    HasChildIsInternal(nodes, leafCount, node, d);
    assert Consistent(SumQuery(), nodes, node);
    ChildRanges(node, d, k);
    SumQueryLawful();
    LeafLoAtLeastFirstLeaf(left, d + 1, k);
    FoldSplit(SumQuery(), nodes, FirstLeafIndex(leafCount), LeafLo(left, d + 1, k), LeafHi(left, d + 1, k));
    SubtreeFold(SumQuery(), nodes, leafCount, left, d + 1);
  }

  /** A childless node reached on the path is a data leaf whose interval holds the target. */
  lemma DescendEnd(nodes: seq<real>, leafCount: nat, node: nat, d: nat, cur: real, target: real)
    requires OnPath(nodes, leafCount, node, d, cur, target)
    requires Children(|nodes|, node) == (None, None)
    ensures FirstLeafIndex(leafCount) <= node < |nodes|
    ensures Sum(nodes[FirstLeafIndex(leafCount)..node]) <= target < Sum(nodes[FirstLeafIndex(leafCount)..node]) + nodes[node]
  {
    var fl := FirstLeafIndex(leafCount);
    assert node < fl ==> Consistent(SumQuery(), nodes, node);
    LevelVersusFirstLeaf(leafCount, node, d);
    assert LeafLo(node, d, LeafDepth(leafCount)) == node;
    FoldRangeSeq(SumQuery(), nodes, fl, node);
    SumFold(nodes[fl..node]);
  }

  /**
    `SumTree::sample_by_priority_sum_from_left`.  The walk always ends at a
    childless node; when the target lies in `[0, root)` of a valid sum tree,
    that node is a data leaf with a positive priority whose prefix-sum
    interval contains the target.
   */
  method SampleByPrioritySumFromLeft(nodes: seq<real>, leafCount: nat, target: real) returns (node: nat)
    requires Shaped(|nodes|, leafCount)
    ensures node < |nodes| && Children(|nodes|, node) == (None, None)
    ensures Valid(SumQuery(), nodes, leafCount) && 0.0 <= target < nodes[0] ==>
      FirstLeafIndex(leafCount) <= node && 0.0 < nodes[node]
      && Sum(nodes[FirstLeafIndex(leafCount)..node]) <= target < Sum(nodes[FirstLeafIndex(leafCount)..node]) + nodes[node]
  {
    var k := LeafDepth(leafCount);
    ghost var inRange := Valid(SumQuery(), nodes, leafCount) && 0.0 <= target < nodes[0];
    node := 0;
    var cur := target;
    ghost var d: nat := 0;
    if inRange {
      assert InLevel(0, 0);
      assert LeafLo(0, 0, k) == FirstLeafIndex(leafCount);
    }
    while true
      invariant node < |nodes| && InLevel(node, d) && d <= k
      invariant inRange ==> OnPath(nodes, leafCount, node, d, cur, target)
      decreases k - d
    {
      match Children(|nodes|, node)
      case (None, None) =>
        if inRange {
          DescendEnd(nodes, leafCount, node, d, cur, target);
        }
        return;
      case (Some(left), None) =>
        HasChildIsInternal(nodes, leafCount, node, d);
        ChildRanges(node, d, k);
        if inRange {
          DescendLeft(nodes, leafCount, node, d, cur, target);
        }
        node := left;
        d := d + 1;
      case (None, Some(_)) =>
        assert false;
      case (Some(left), Some(right)) =>
        HasChildIsInternal(nodes, leafCount, node, d);
        ChildRanges(node, d, k);
        var priorityLeft := nodes[left];
        var choseLeft := cur < priorityLeft;
        if choseLeft {
          if inRange {
            DescendLeft(nodes, leafCount, node, d, cur, target);
          }
          node := left;
        } else {
          if inRange {
            DescendRight(nodes, leafCount, node, d, cur, target);
          }
          cur := cur - priorityLeft;
          node := right;
        }
        d := d + 1;
    }
  }

  /** Index `i` holds a positive priority whose prefix-sum interval contains `target`. */
  ghost predicate Drawn(slots: seq<Option<real>>, i: nat, target: real) {
    i < |slots| && slots[i].Some? && 0.0 < slots[i].value
    && SumHeld(slots[..i]) <= target < SumHeld(slots[..i]) + slots[i].value
  }

  /** The sum leaves before index `i` add up to the held priorities before it. */
  lemma PrefixOfSlots(t: PriorityTree, i: nat)
    requires Inv(t) && i <= t.leafCount
    ensures Sum(t.sumTree[t.firstLeaf..t.firstLeaf + i]) == SumHeld(Slots(t)[..i])
  {
    forall j | 0 <= j < i
      ensures t.sumTree[t.firstLeaf..t.firstLeaf + i][j] == Slots(t)[..i][j].GetOr(0.0)
    {
      assert LeafAgrees(t, j);
    }
    SumOfLeaves(t.sumTree[t.firstLeaf..t.firstLeaf + i], Slots(t)[..i]);
  }

  /** Descends for `target` and turns the node into an index (`None` where `node - first_leaf` would underflow). */
  method SampleTarget(t: PriorityTree, target: real) returns (r: Option<nat>)
    requires Inv(t)
    ensures r.Some? ==> r.value < t.leafCount
    ensures 0.0 <= target < Total(t) ==> r.Some? && Drawn(Slots(t), r.value, target)
  {
    var node := SampleByPrioritySumFromLeft(t.sumTree, t.leafCount, target);
    if node < t.firstLeaf {
      r := None;
    } else {
      r := Some(node - t.firstLeaf);
      if 0.0 <= target < Total(t) {
        var i := node - t.firstLeaf;
        assert LeafAgrees(t, i);
        PrefixOfSlots(t, i);
      }
    }
  }

  /** The target of `sample_from_range`: the point `u` of the way through the range, scaled by the total. */
  function RangeTarget(rangeStart: real, rangeEnd: real, u: real, total: real): real {
    (rangeStart + u * (rangeEnd - rangeStart)) * total
  }

  /** `PriorityTree::sample_from_range`: descends for `RangeTarget` of the draw `u`. */
  method SampleFromRange(t: PriorityTree, rangeStart: real, rangeEnd: real, u: real) returns (r: Option<nat>)
    requires Inv(t)
    ensures r.Some? ==> r.value < t.leafCount
    ensures var target := RangeTarget(rangeStart, rangeEnd, u, Total(t));
      0.0 <= target < Total(t) ==> r.Some? && Drawn(Slots(t), r.value, target)
  {
    var pointChosen := rangeStart + u * (rangeEnd - rangeStart);
    r := SampleTarget(t, pointChosen * Total(t));
  }

  /** `PriorityTree::sample`: the target is `u * total`. */
  method Sample(t: PriorityTree, u: real) returns (r: Option<nat>)
    requires Inv(t)
    ensures r.Some? ==> r.value < t.leafCount
    ensures 0.0 <= u * Total(t) < Total(t) ==> r.Some? && Drawn(Slots(t), r.value, u * Total(t))
  {
    r := SampleTarget(t, u * Total(t));
  }

  /**
    A draw `u` in `[0, 1)` inside a range `[start, end)` of `[0, 1]` gives a
    target in `[0, total)` whenever the total is positive.
   */
  lemma RangeTargetInBounds(rangeStart: real, rangeEnd: real, u: real, total: real)
    requires 0.0 <= rangeStart < rangeEnd <= 1.0 && 0.0 <= u < 1.0 && 0.0 < total
    ensures 0.0 <= RangeTarget(rangeStart, rangeEnd, u, total) < total
  {
    MulBelow(u, rangeEnd - rangeStart);
    assert Mul(u, rangeEnd - rangeStart) == u * (rangeEnd - rangeStart);
    MulBelow(rangeStart + u * (rangeEnd - rangeStart), total);
    assert Mul(rangeStart + u * (rangeEnd - rangeStart), total) == (rangeStart + u * (rangeEnd - rangeStart)) * total;
  }
}
