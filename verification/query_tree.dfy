/**
  `QueryTree`: a tree vector whose every node above the leaf level holds the
  query (sum, min or max) of its children, so that the root holds the query
  of all leaves.  A query is given by its neutral `default` value and the
  binary `combine` used when a node has two children.
 */
module QueryTree {
  import opened Wrappers
  import opened TreeLayout

  datatype Query<!V> = Query(default: V, combine: (V, V) -> V)

  /** `default` is neutral for `combine` and `combine` is associative. */
  ghost predicate Lawful<V(!new)>(q: Query<V>) {
    (forall x :: q.combine(q.default, x) == x)
    && (forall x :: q.combine(x, q.default) == x)
    && (forall x, y, z :: q.combine(q.combine(x, y), z) == q.combine(x, q.combine(y, z)))
  }

  /**
    `Query::children_query`: the default without children, the only child's
    value with one, and `combine` of both with two.  A right child without a
    left one cannot occur (`Children` never yields it).
   */
  function ChildrenQuery<V>(q: Query<V>, nodes: seq<V>, n: nat): V {
    match Children(|nodes|, n)
    case (None, None) => q.default
    case (Some(l), None) => nodes[l]
    case (None, Some(_)) => assert false; q.default
    case (Some(l), Some(r)) => q.combine(nodes[l], nodes[r])
  }

  /** The value at slot `j`, or the default for slots past the vector's end. */
  function Ext<V>(q: Query<V>, nodes: seq<V>, j: nat): V {
    if j < |nodes| then nodes[j] else q.default
  }

  /** Node `n` holds the query of its children. */
  ghost predicate Consistent<V>(q: Query<V>, nodes: seq<V>, n: nat) {
    n < |nodes| && nodes[n] == ChildrenQuery(q, nodes, n)
  }

  /** Every node above the leaf level holds the query of its children. */
  ghost predicate Valid<V>(q: Query<V>, nodes: seq<V>, leafCount: nat) {
    Shaped(|nodes|, leafCount)
    && forall n :: 0 <= n < FirstLeafIndex(leafCount) ==> Consistent(q, nodes, n)
  }

  /** A node's query is `combine` of its two (possibly absent, hence default) children. */
  lemma ChildrenQueryCombines<V(!new)>(q: Query<V>, nodes: seq<V>, n: nat)
    requires Lawful(q)
    ensures ChildrenQuery(q, nodes, n) == q.combine(Ext(q, nodes, 2 * n + 1), Ext(q, nodes, 2 * n + 2))
  {
  }

  /** `QueryTree::with_leaf_count`: every slot holds the default, which is a valid tree. */
  function WithLeafCount<V(!new)>(q: Query<V>, leafCount: nat): (nodes: seq<V>)
    requires Lawful(q)
    requires leafCount >= 2
    ensures Valid(q, nodes, leafCount)
    ensures forall i :: 0 <= i < |nodes| ==> nodes[i] == q.default
  {
    var nodes := NewTree(q.default, leafCount);
    assert forall n :: 0 <= n < FirstLeafIndex(leafCount) ==> Consistent(q, nodes, n) by {
      forall n | 0 <= n < FirstLeafIndex(leafCount)
        ensures Consistent(q, nodes, n)
      {
        ChildrenQueryCombines(q, nodes, n);
      }
    }
    nodes
  }

  /** A node that is neither `n` nor one of its ancestors has no child that is. */
  lemma {:induction false} OffPathChildren(n: nat, m: nat, c: nat)
    requires m != n && m !in Ancestors(n)
    requires c == 2 * m + 1 || c == 2 * m + 2
    ensures c != n && c !in Ancestors(n)
  {
    if c in Ancestors(n) {
      AncestorsTransitive(n, c);
    }
  }

  /**
    `QueryTree::update_ancestors`: recompute each ancestor of `node`, from its
    parent up to the root.  Afterwards every ancestor holds the query of its
    children, and nothing off that path has changed.
   */
  function UpdateAncestors<V>(q: Query<V>, nodes: seq<V>, node: nat): (r: seq<V>)
    requires node < |nodes|
    ensures |r| == |nodes|
    ensures forall m :: 0 <= m < |nodes| && m !in Ancestors(node) ==> r[m] == nodes[m]
    ensures forall a :: a in Ancestors(node) ==> Consistent(q, r, a)
    decreases node
  {
    match Parent(node)
    case None => nodes
    case Some(p) =>
      var fixed := nodes[p := ChildrenQuery(q, nodes, p)];
      var r := UpdateAncestors(q, fixed, p);
      assert Ancestors(node) == {p} + Ancestors(p);
      assert Consistent(q, r, p) by {
        assert 2 * p + 1 !in Ancestors(p) && 2 * p + 2 !in Ancestors(p);
      }
      r
  }

  /**
    `QueryTree::update_value`: store `value` at the leaf and repair its
    ancestors.  Only the leaf and its ancestors change.
   */
  function UpdateValue<V>(q: Query<V>, nodes: seq<V>, leaf: nat, value: V): (r: seq<V>)
    requires leaf < |nodes|
    ensures |r| == |nodes| && r[leaf] == value
    ensures forall m :: 0 <= m < |nodes| && m != leaf && m !in Ancestors(leaf) ==> r[m] == nodes[m]
    ensures forall a :: a in Ancestors(leaf) ==> Consistent(q, r, a)
  {
    UpdateAncestors(q, nodes[leaf := value], leaf)
  }

  /** `QueryTree::reset_value`: store the default at the leaf. */
  function ResetValue<V>(q: Query<V>, nodes: seq<V>, leaf: nat): (r: seq<V>)
    requires leaf < |nodes|
    ensures |r| == |nodes| && r[leaf] == q.default
    ensures forall m :: 0 <= m < |nodes| && m != leaf && m !in Ancestors(leaf) ==> r[m] == nodes[m]
    ensures forall a :: a in Ancestors(leaf) ==> Consistent(q, r, a)
  {
    UpdateValue(q, nodes, leaf, q.default)
  }

  /** A node's query only depends on its children's slots. */
  lemma ChildrenQueryFrame<V>(q: Query<V>, a: seq<V>, b: seq<V>, n: nat)
    requires |a| == |b|
    requires Ext(q, a, 2 * n + 1) == Ext(q, b, 2 * n + 1) && Ext(q, a, 2 * n + 2) == Ext(q, b, 2 * n + 2)
    ensures ChildrenQuery(q, a, n) == ChildrenQuery(q, b, n)
  {
  }

  /** A node off the updated leaf's path keeps its value and its children's values. */
  lemma {:induction false} OffPathUnchanged<V>(q: Query<V>, nodes: seq<V>, leaf: nat, value: V, m: nat)
    requires leaf < |nodes|
    requires m < |nodes| && m != leaf && m !in Ancestors(leaf)
    ensures UpdateValue(q, nodes, leaf, value)[m] == nodes[m]
    ensures ChildrenQuery(q, UpdateValue(q, nodes, leaf, value), m) == ChildrenQuery(q, nodes, m)
  {
    var r := UpdateValue(q, nodes, leaf, value);
    var c1, c2 := 2 * m + 1, 2 * m + 2;
    OffPathChildren(leaf, m, c1);
    OffPathChildren(leaf, m, c2);
    if c1 < |nodes| {
      assert r[c1] == nodes[c1];
    }
    if c2 < |nodes| {
      assert r[c2] == nodes[c2];
    }
    ChildrenQueryFrame(q, r, nodes, m);
  }

  /** Updating a leaf of a valid tree gives a valid tree. */
  lemma {:induction false} UpdateValueValid<V>(q: Query<V>, nodes: seq<V>, leafCount: nat, leaf: nat, value: V)
    requires Valid(q, nodes, leafCount)
    requires FirstLeafIndex(leafCount) <= leaf < |nodes|
    ensures Valid(q, UpdateValue(q, nodes, leaf, value), leafCount)
  {
    var r := UpdateValue(q, nodes, leaf, value);
    forall m | 0 <= m < FirstLeafIndex(leafCount)
      ensures Consistent(q, r, m)
    {
      if m !in Ancestors(leaf) {
        assert Consistent(q, nodes, m);
        OffPathUnchanged(q, nodes, leaf, value, m);
      }
    }
  }

  /** Resetting a leaf of a valid tree gives a valid tree. */
  lemma ResetValueValid<V>(q: Query<V>, nodes: seq<V>, leafCount: nat, leaf: nat)
    requires Valid(q, nodes, leafCount)
    requires FirstLeafIndex(leafCount) <= leaf < |nodes|
    ensures Valid(q, ResetValue(q, nodes, leaf), leafCount)
  {
    UpdateValueValid(q, nodes, leafCount, leaf, q.default);
  }

  /** The query of a sequence, folded from the left starting at the default. */
  function FoldSeq<V>(q: Query<V>, s: seq<V>): V {
    if |s| == 0 then q.default else q.combine(FoldSeq(q, s[..|s| - 1]), s[|s| - 1])
  }

  /** The query of slots `a` up to (excluding) `b`, slots past the end counting as default. */
  function FoldRange<V>(q: Query<V>, nodes: seq<V>, a: nat, b: nat): V
    decreases b
  {
    if b <= a then q.default else q.combine(FoldRange(q, nodes, a, b - 1), Ext(q, nodes, b - 1))
  }

  /** A range folds to the combination of its two halves. */
  lemma {:induction false} FoldSplit<V(!new)>(q: Query<V>, nodes: seq<V>, a: nat, m: nat, b: nat)
    requires Lawful(q)
    requires a <= m <= b
    ensures FoldRange(q, nodes, a, b) == q.combine(FoldRange(q, nodes, a, m), FoldRange(q, nodes, m, b))
    decreases b
  {
    if m < b {
      FoldSplit(q, nodes, a, m, b - 1);
    }
  }

  /** Past the vector's end everything folds to the default. */
  lemma {:induction false} FoldBeyond<V(!new)>(q: Query<V>, nodes: seq<V>, a: nat, b: nat)
    requires Lawful(q)
    requires |nodes| <= a
    ensures FoldRange(q, nodes, a, b) == q.default
    decreases b
  {
    if a < b {
      FoldBeyond(q, nodes, a, b - 1);
    }
  }

  /** Inside the vector, a range folds like the corresponding subsequence. */
  lemma {:induction false} FoldRangeSeq<V>(q: Query<V>, nodes: seq<V>, a: nat, b: nat)
    requires a <= b <= |nodes|
    ensures FoldRange(q, nodes, a, b) == FoldSeq(q, nodes[a..b])
    decreases b
  {
    if a < b {
      FoldRangeSeq(q, nodes, a, b - 1);
      assert nodes[a..b][..b - a - 1] == nodes[a..b - 1];
    }
  }

  /**
    In a valid tree, the node `n` on level `d` holds the query of the leaf
    level slots below it.
   */
  lemma {:induction false} SubtreeFold<V(!new)>(q: Query<V>, nodes: seq<V>, leafCount: nat, n: nat, d: nat)
    requires Lawful(q)
    requires Valid(q, nodes, leafCount)
    requires InLevel(n, d) && d <= LeafDepth(leafCount)
    ensures Ext(q, nodes, n) == FoldRange(q, nodes, LeafLo(n, d, LeafDepth(leafCount)), LeafHi(n, d, LeafDepth(leafCount)))
    decreases LeafDepth(leafCount) - d
  {
    var k := LeafDepth(leafCount);
    if d == k {
      assert LeafLo(n, d, k) == n && LeafHi(n, d, k) == n + 1;
    } else {
      LevelVersusFirstLeaf(leafCount, n, d);
      assert Consistent(q, nodes, n);
      ChildRanges(n, d, k);
      var lo, mid, hi := LeafLo(n, d, k), LeafHi(2 * n + 1, d + 1, k), LeafHi(n, d, k);
      SubtreeFold(q, nodes, leafCount, 2 * n + 1, d + 1);
      assert Ext(q, nodes, 2 * n + 1) == FoldRange(q, nodes, lo, mid);
      SubtreeFold(q, nodes, leafCount, 2 * n + 2, d + 1);
      assert Ext(q, nodes, 2 * n + 2) == FoldRange(q, nodes, mid, hi);
      ChildrenQueryCombines(q, nodes, n);
      assert Ext(q, nodes, n) == q.combine(Ext(q, nodes, 2 * n + 1), Ext(q, nodes, 2 * n + 2));
      FoldSplit(q, nodes, lo, mid, hi);
    }
  }

  /** The root's leaf-level range starts at the first leaf and covers the whole vector. */
  lemma RootRange(leafCount: nat)
    requires leafCount >= 2
    ensures LeafLo(0, 0, LeafDepth(leafCount)) == FirstLeafIndex(leafCount)
    ensures TreeLen(leafCount) <= LeafHi(0, 0, LeafDepth(leafCount))
  {
    var p := Pow2(LeafDepth(leafCount));
    LeafLevelBounds(leafCount);
    assert LeafLo(0, 0, LeafDepth(leafCount)) == 1 * p - 1;
    assert LeafHi(0, 0, LeafDepth(leafCount)) == 2 * p - 1;
  }

  /** In a valid tree, the root holds the query of all the leaves. */
  lemma RootFold<V(!new)>(q: Query<V>, nodes: seq<V>, leafCount: nat)
    requires Lawful(q)
    requires Valid(q, nodes, leafCount)
    ensures nodes[0] == FoldSeq(q, nodes[FirstLeafIndex(leafCount)..])
  {
    var k := LeafDepth(leafCount);
    var fl := FirstLeafIndex(leafCount);
    var hi := LeafHi(0, 0, k);
    RootRange(leafCount);
    assert InLevel(0, 0);
    SubtreeFold(q, nodes, leafCount, 0, 0);
    assert nodes[0] == FoldRange(q, nodes, fl, hi);
    FoldSplit(q, nodes, fl, |nodes|, hi);
    FoldBeyond(q, nodes, |nodes|, hi);
    assert FoldRange(q, nodes, fl, hi) == FoldRange(q, nodes, fl, |nodes|);
    FoldRangeSeq(q, nodes, fl, |nodes|);
    assert nodes[fl..|nodes|] == nodes[fl..];
  }
}
