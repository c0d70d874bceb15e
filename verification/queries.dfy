/**
  The three queries of the priority trees (`SumQuery`, `MinQuery`,
  `MaxQuery`), their lawfulness, and what a valid tree's root therefore holds:
  the sum, the least or the greatest of the leaves.
 */
module Queries {
  import opened Wrappers
  import opened Nodes
  import opened TreeLayout
  import opened QueryTree

  function SumCombine(left: real, right: real): real {
    left + right
  }

  /** `SumQuery`: default zero, two children are added. */
  function SumQuery(): Query<real> {
    Query(0.0, SumCombine)
  }

  /** `MinQuery`'s two-children case: the left value if it is less, otherwise the right one. */
  function MinCombine(left: MinNode, right: MinNode): (r: MinNode)
    ensures r == left || r == right
    ensures !MinLess(left, r) && !MinLess(right, r)
  {
    if MinLess(left, right) then left else right
  }

  /** `MaxQuery`'s two-children case: the right value if the left is less, otherwise the left one. */
  function MaxCombine(left: MaxNode, right: MaxNode): (r: MaxNode)
    ensures r == left || r == right
    ensures !MaxLess(r, left) && !MaxLess(r, right)
  {
    if MaxLess(left, right) then right else left
  }

  /** `MinQuery`: default infinity. */
  function MinQuery(): Query<MinNode> {
    Query(MinInfinity(), MinCombine)
  }

  /** `MaxQuery`: default negative infinity. */
  function MaxQuery(): Query<MaxNode> {
    Query(MaxNegativeInfinity(), MaxCombine)
  }

  lemma SumQueryLawful()
    ensures Lawful(SumQuery())
  {
  }

  lemma MinQueryLawful()
    ensures Lawful(MinQuery())
  {
  }

  lemma MaxQueryLawful()
    ensures Lawful(MaxQuery())
  {
  }

  /** The sum of a sequence of priorities. */
  function Sum(s: seq<real>): real {
    if |s| == 0 then 0.0 else s[0] + Sum(s[1..])
  }

  /** The sum of the held priorities, empty entries counting as nothing. */
  function SumHeld(s: seq<Option<real>>): real {
    if |s| == 0 then 0.0 else s[0].GetOr(0.0) + SumHeld(s[1..])
  }

  /** Slots that hold nothing sum to zero. */
  lemma {:induction false} SumHeldNothing(s: seq<Option<real>>)
    ensures (forall i :: 0 <= i < |s| ==> s[i].None?) ==> SumHeld(s) == 0.0
    decreases |s|
  {
    if |s| > 0 {
      SumHeldNothing(s[1..]);
      assert forall i :: 0 <= i < |s| - 1 ==> s[1..][i] == s[i + 1];
    }
  }

  /** `m` is the least held priority of `s`, or `None` when `s` holds none. */
  ghost predicate IsMinOf(m: Option<real>, s: seq<Option<real>>) {
    (m.None? <==> forall i :: 0 <= i < |s| ==> s[i].None?)
    && (m.Some? ==> (exists i :: 0 <= i < |s| && s[i] == m)
                    && forall i :: 0 <= i < |s| && s[i].Some? ==> m.value <= s[i].value)
  }

  /** `m` is the greatest held priority of `s`, or `None` when `s` holds none. */
  ghost predicate IsMaxOf(m: Option<real>, s: seq<Option<real>>) {
    (m.None? <==> forall i :: 0 <= i < |s| ==> s[i].None?)
    && (m.Some? ==> (exists i :: 0 <= i < |s| && s[i] == m)
                    && forall i :: 0 <= i < |s| && s[i].Some? ==> s[i].value <= m.value)
  }

  function MinInners(s: seq<MinNode>): (r: seq<Option<real>>)
    ensures |r| == |s| && forall i :: 0 <= i < |s| ==> r[i] == s[i].inner
  {
    seq(|s|, i requires 0 <= i < |s| => s[i].inner)
  }

  function MaxInners(s: seq<MaxNode>): (r: seq<Option<real>>)
    ensures |r| == |s| && forall i :: 0 <= i < |s| ==> r[i] == s[i].inner
  {
    seq(|s|, i requires 0 <= i < |s| => s[i].inner)
  }

  /** Splitting off the last element of a sum. */
  lemma {:induction false} SumSnoc(s: seq<real>)
    requires |s| > 0
    ensures Sum(s) == Sum(s[..|s| - 1]) + s[|s| - 1]
    decreases |s|
  {
    if |s| > 1 {
      SumSnoc(s[1..]);
      assert s[1..][..|s| - 2] == s[..|s| - 1][1..];
    }
  }

  /** Folding with `SumQuery` adds the sequence up. */
  lemma {:induction false} SumFold(s: seq<real>)
    ensures FoldSeq(SumQuery(), s) == Sum(s)
    decreases |s|
  {
    if |s| > 0 {
      SumFold(s[..|s| - 1]);
      SumSnoc(s);
    }
  }

  /** Folding with `MinQuery` picks the least held priority. */
  lemma {:induction false} MinFold(s: seq<MinNode>)
    ensures IsMinOf(FoldSeq(MinQuery(), s).inner, MinInners(s))
    decreases |s|
  {
    if |s| > 0 {
      var init := s[..|s| - 1];
      MinFold(init);
      var m := FoldSeq(MinQuery(), init);
      var r := FoldSeq(MinQuery(), s);
      assert r == MinCombine(m, s[|s| - 1]);
      assert forall i :: 0 <= i < |init| ==> MinInners(s)[i] == MinInners(init)[i];
      if m.inner.Some? {
        var j :| 0 <= j < |init| && MinInners(init)[j] == m.inner;
        assert MinInners(s)[j] == m.inner;
      }
      if r.inner.Some? && r == s[|s| - 1] {
        assert MinInners(s)[|s| - 1] == r.inner;
      }
    }
  }

  /** Folding with `MaxQuery` picks the greatest held priority. */
  lemma {:induction false} MaxFold(s: seq<MaxNode>)
    ensures IsMaxOf(FoldSeq(MaxQuery(), s).inner, MaxInners(s))
    decreases |s|
  {
    if |s| > 0 {
      var init := s[..|s| - 1];
      MaxFold(init);
      var m := FoldSeq(MaxQuery(), init);
      var r := FoldSeq(MaxQuery(), s);
      assert r == MaxCombine(m, s[|s| - 1]);
      assert forall i :: 0 <= i < |init| ==> MaxInners(s)[i] == MaxInners(init)[i];
      if m.inner.Some? {
        var j :| 0 <= j < |init| && MaxInners(init)[j] == m.inner;
        assert MaxInners(s)[j] == m.inner;
      }
      if r.inner.Some? && r == s[|s| - 1] {
        assert MaxInners(s)[|s| - 1] == r.inner;
      }
    }
  }

  /** An update touches the leaf level only at its own leaf: the ancestors it recomputes lie above it. */
  lemma UpdatedLeaves<V>(q: Query<V>, nodes: seq<V>, leafCount: nat, leaf: nat, value: V)
    requires Shaped(|nodes|, leafCount) && FirstLeafIndex(leafCount) <= leaf < |nodes|
    ensures UpdateValue(q, nodes, leaf, value)[FirstLeafIndex(leafCount)..]
            == nodes[FirstLeafIndex(leafCount)..][leaf - FirstLeafIndex(leafCount) := value]
  {
    LeafAncestorsInternal(leafCount, leaf);
  }

  /**
    The standalone `MinTree`: `update_value` on a leaf of a valid tree keeps
    it valid and leaves the root holding the least priority among the old
    leaves with that one replaced, `None` when none of them holds one.
   */
  lemma MinTreeUpdateValue(nodes: seq<MinNode>, leafCount: nat, leaf: nat, value: MinNode)
    requires Valid(MinQuery(), nodes, leafCount)
    requires FirstLeafIndex(leafCount) <= leaf < |nodes|
    ensures Valid(MinQuery(), UpdateValue(MinQuery(), nodes, leaf, value), leafCount)
    ensures IsMinOf(UpdateValue(MinQuery(), nodes, leaf, value)[0].inner,
                    MinInners(nodes[FirstLeafIndex(leafCount)..][leaf - FirstLeafIndex(leafCount) := value]))
  {
    var r := UpdateValue(MinQuery(), nodes, leaf, value);
    MinQueryLawful();
    UpdateValueValid(MinQuery(), nodes, leafCount, leaf, value);
    RootFold(MinQuery(), r, leafCount);
    UpdatedLeaves(MinQuery(), nodes, leafCount, leaf, value);
    MinFold(r[FirstLeafIndex(leafCount)..]);
  }

  /** The standalone `MaxTree`: the same with the greatest priority. */
  lemma MaxTreeUpdateValue(nodes: seq<MaxNode>, leafCount: nat, leaf: nat, value: MaxNode)
    requires Valid(MaxQuery(), nodes, leafCount)
    requires FirstLeafIndex(leafCount) <= leaf < |nodes|
    ensures Valid(MaxQuery(), UpdateValue(MaxQuery(), nodes, leaf, value), leafCount)
    ensures IsMaxOf(UpdateValue(MaxQuery(), nodes, leaf, value)[0].inner,
                    MaxInners(nodes[FirstLeafIndex(leafCount)..][leaf - FirstLeafIndex(leafCount) := value]))
  {
    var r := UpdateValue(MaxQuery(), nodes, leaf, value);
    MaxQueryLawful();
    UpdateValueValid(MaxQuery(), nodes, leafCount, leaf, value);
    RootFold(MaxQuery(), r, leafCount);
    UpdatedLeaves(MaxQuery(), nodes, leafCount, leaf, value);
    MaxFold(r[FirstLeafIndex(leafCount)..]);
  }
}
