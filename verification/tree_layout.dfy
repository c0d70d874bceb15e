/**
  The array layout shared by every priority tree: a binary tree stored
  breadth-first in a vector, root at 0, children of `n` at `2n+1` and `2n+2`,
  sized so that the `leafCount` data leaves are the last slots of the vector
  and all sit on one level.
 */
module TreeLayout {
  import opened Wrappers

  function Pow2(k: nat): (r: nat)
    ensures r >= 1
  {
    if k == 0 then 1 else 2 * Pow2(k - 1)
  }

  lemma {:induction false} Pow2Monotonic(i: nat, j: nat)
    requires i <= j
    ensures Pow2(i) <= Pow2(j)
    decreases j
  {
    if i < j {
      Pow2Monotonic(i, j - 1);
    }
  }

  /** The exponent of Rust's `usize::next_power_of_two`, searched upwards from `k`. */
  function CeilLog2From(n: nat, k: nat): (r: nat)
    requires k == 0 || Pow2(k - 1) < n
    ensures k <= r
    ensures n <= Pow2(r)
    ensures r == 0 || Pow2(r - 1) < n
    decreases n - Pow2(k)
  {
    if n <= Pow2(k) then k else CeilLog2From(n, k + 1)
  }

  /** The least `k` with `n <= 2^k`. */
  function CeilLog2(n: nat): (k: nat)
    ensures n <= Pow2(k)
    ensures k == 0 || Pow2(k - 1) < n
  {
    CeilLog2From(n, 0)
  }

  /** Rust's `usize::next_power_of_two` (which maps 0 to 1), overflow aside. */
  function NextPowerOfTwo(n: nat): (r: nat)
    ensures n <= r && r >= 1
    ensures r == 1 || r / 2 < n
    ensures exists k :: r == Pow2(k)
  {
    Pow2(CeilLog2(n))
  }

  /** No power of two at least `n` is below `next_power_of_two(n)`: it is the least one. */
  lemma NextPowerOfTwoLeast(n: nat, k: nat)
    requires n <= Pow2(k)
    ensures NextPowerOfTwo(n) <= Pow2(k)
  {
    var c := CeilLog2(n);
    if c > 0 {
      if k < c {
        Pow2Monotonic(k, c - 1);
      }
      Pow2Monotonic(c, k);
    }
  }

  /** The leaf level's depth, `log2(next_power_of_two(leafCount))`. */
  function LeafDepth(leafCount: nat): nat {
    CeilLog2(leafCount)
  }

  /** The index of the first leaf: `2 * (next_power_of_two(leafCount) / 2) - 1`. */
  function FirstLeafIndex(leafCount: nat): nat {
    Pow2(LeafDepth(leafCount)) - 1
  }

  /** The node count `Tree::new` allocates for `leafCount >= 2`. */
  function TreeLen(leafCount: nat): nat {
    FirstLeafIndex(leafCount) + leafCount
  }

  /** The shape every tree vector has. */
  predicate Shaped(len: nat, leafCount: nat) {
    leafCount >= 2 && len == TreeLen(leafCount)
  }

  /**
    The size of the part above the leaves as the source computes it, in
    unbounded integers: `2 * (leaf_count.next_power_of_two() / 2) - 1`.
    It is negative (a `usize` underflow) exactly when `leafCount <= 1`, which
    is why every tree requires at least two leaves.
   */
  lemma InnerSizeUnderflow(leafCount: nat)
    ensures 2 * (NextPowerOfTwo(leafCount) / 2) - 1 < 0 <==> leafCount <= 1
    ensures leafCount >= 2 ==> 2 * (NextPowerOfTwo(leafCount) / 2) - 1 == FirstLeafIndex(leafCount)
  {
    if leafCount >= 2 {
      assert LeafDepth(leafCount) >= 1;
    }
  }

  /** The leaves fit on one level: `leafCount <= 2^depth < 2 * leafCount`. */
  lemma LeafLevelBounds(leafCount: nat)
    requires leafCount >= 2
    ensures LeafDepth(leafCount) >= 1
    ensures leafCount <= Pow2(LeafDepth(leafCount)) < 2 * leafCount
    ensures TreeLen(leafCount) <= 2 * FirstLeafIndex(leafCount) + 1
  {
  }

  /** `Tree::new`: a vector of `TreeLen(leafCount)` copies of `value`. */
  function NewTree<V>(value: V, leafCount: nat): (nodes: seq<V>)
    requires leafCount >= 2
    ensures Shaped(|nodes|, leafCount)
    ensures |nodes| - leafCount == NextPowerOfTwo(leafCount) - 1
    ensures forall i :: 0 <= i < |nodes| ==> nodes[i] == value
  {
    seq(TreeLen(leafCount), _ => value)
  }

  /** `Tree::parent`: `None` at the root, `(n - 1) / 2` elsewhere. */
  function Parent(n: nat): (r: Option<nat>)
    ensures n == 0 <==> r.None?
    ensures r.Some? ==> r.value < n && (n == 2 * r.value + 1 || n == 2 * r.value + 2)
  {
    if n == 0 then None else Some((n - 1) / 2)
  }

  /** `Tree::child`: `2n+1` (left) or `2n+2` (right) when inside the vector. */
  function Child(len: nat, n: nat, left: bool): (r: Option<nat>)
    ensures r.Some? <==> (if left then 2 * n + 1 else 2 * n + 2) < len
    ensures r.Some? ==> r.value == (if left then 2 * n + 1 else 2 * n + 2)
  {
    var c := if left then 2 * n + 1 else 2 * n + 2;
    if c < len then Some(c) else None
  }

  /** `Tree::children`: the (left, right) pair. */
  function Children(len: nat, n: nat): (Option<nat>, Option<nat>) {
    (Child(len, n, true), Child(len, n, false))
  }

  /** Every existing child of `n` has `n` as its parent, and a right child only exists beside a left one. */
  lemma ChildrenParent(len: nat, n: nat)
    ensures Children(len, n).0.Some? ==> Parent(Children(len, n).0.value) == Some(n)
    ensures Children(len, n).1.Some? ==> Parent(Children(len, n).1.value) == Some(n)
    ensures Children(len, n).1.Some? ==> Children(len, n).0.Some?
  {
  }

  /** Leaves (slots at or past the first leaf) have no children. */
  lemma LeavesAreChildless(leafCount: nat, n: nat)
    requires leafCount >= 2
    requires FirstLeafIndex(leafCount) <= n
    ensures Children(TreeLen(leafCount), n) == (None, None)
  {
    LeafLevelBounds(leafCount);
  }

  /**
    `Tree::first_leaf`: walk left children from the root until there is none.
    The walk stops at the first of the last `leafCount` slots.
   */
  method FirstLeaf(len: nat, leafCount: nat) returns (node: nat)
    requires Shaped(len, leafCount)
    ensures node == len - leafCount
    ensures node == FirstLeafIndex(leafCount)
  {
    var k := LeafDepth(leafCount);
    LeafLevelBounds(leafCount);
    node := 0;
    ghost var d: nat := 0;
    while true
      invariant node == Pow2(d) - 1
      invariant d <= k
      decreases k - d
    {
      match Child(len, node, true)
      case Some(child) =>
        // a left child exists, so the leaf level (which has none) is not reached yet
        assert d < k;
        node := child;
        d := d + 1;
      case None =>
        if d < k {
          Pow2Monotonic(d + 1, k);
        }
        return;
    }
  }

  /**
    `next_leaf` of the standalone trees: the following slot, wrapping from the
    last slot back to the first leaf.
   */
  function NextLeaf(len: nat, leafCount: nat, leaf: nat): (r: nat)
    requires Shaped(len, leafCount)
    requires len - leafCount <= leaf < len
    ensures len - leafCount <= r < len
    ensures r == (if leaf + 1 == len then len - leafCount else leaf + 1)
  {
    var next := leaf + 1;
    if next == len then next - leafCount else next
  }

  /** `j` applications of `NextLeaf`, starting from `leaf`. */
  function IterateNextLeaf(len: nat, leafCount: nat, leaf: nat, j: nat): (r: nat)
    requires Shaped(len, leafCount)
    requires len - leafCount <= leaf < len
    ensures len - leafCount <= r < len
    decreases j
  {
    if j == 0 then leaf else NextLeaf(len, leafCount, IterateNextLeaf(len, leafCount, leaf, j - 1))
  }

  /** Starting from the first leaf, the `j`-th visit (`j < leafCount`) is leaf number `j`. */
  lemma {:induction false} NextLeafWalk(len: nat, leafCount: nat, j: nat)
    requires Shaped(len, leafCount)
    requires j < leafCount
    ensures IterateNextLeaf(len, leafCount, len - leafCount, j) == len - leafCount + j
    decreases j
  {
    if j > 0 {
      NextLeafWalk(len, leafCount, j - 1);
    }
  }

  /**
    `leafCount` steps from the first leaf visit `leafCount` distinct leaves
    (so every leaf exactly once) and come back to the start.
   */
  lemma {:induction false} NextLeafReturns(len: nat, leafCount: nat, first: nat)
    requires Shaped(len, leafCount) && first == len - leafCount
    ensures IterateNextLeaf(len, leafCount, first, leafCount) == first
    ensures forall i, j :: 0 <= i < j < leafCount ==>
      IterateNextLeaf(len, leafCount, first, i) != IterateNextLeaf(len, leafCount, first, j)
  {
    NextLeafWalk(len, leafCount, leafCount - 1);
    forall i, j | 0 <= i < j < leafCount
      ensures IterateNextLeaf(len, leafCount, first, i) != IterateNextLeaf(len, leafCount, first, j)
    {
      NextLeafWalk(len, leafCount, i);
      NextLeafWalk(len, leafCount, j);
    }
  }

  /** Node `n` lies on level `d`: `2^d - 1 <= n < 2^(d+1) - 1`. */
  predicate InLevel(n: nat, d: nat) {
    Pow2(d) - 1 <= n < Pow2(d + 1) - 1
  }

  /** The first slot on the leaf level under node `n` of level `d <= depth`. */
  function LeafLo(n: nat, d: nat, depth: nat): nat
    requires d <= depth
  {
    (n + 1) * Pow2(depth - d) - 1
  }

  /** One past the last slot on the leaf level under node `n` of level `d <= depth`. */
  function LeafHi(n: nat, d: nat, depth: nat): nat
    requires d <= depth
  {
    (n + 2) * Pow2(depth - d) - 1
  }

  /** The children of a node split its leaf-level range at the middle. */
  lemma ChildRanges(n: nat, d: nat, depth: nat)
    requires d < depth
    ensures InLevel(n, d) ==> InLevel(2 * n + 1, d + 1) && InLevel(2 * n + 2, d + 1)
    ensures LeafLo(2 * n + 1, d + 1, depth) == LeafLo(n, d, depth)
    ensures LeafHi(2 * n + 1, d + 1, depth) == LeafLo(2 * n + 2, d + 1, depth)
    ensures LeafHi(2 * n + 2, d + 1, depth) == LeafHi(n, d, depth)
    ensures LeafLo(n, d, depth) < LeafHi(2 * n + 1, d + 1, depth) < LeafHi(n, d, depth)
  {
    var x := Pow2(depth - d - 1);
    assert Pow2(depth - d) == 2 * x;
    assert (n + 1) * (2 * x) == (2 * n + 2) * x;
    assert (n + 2) * (2 * x) == (2 * n + 4) * x;
    assert (2 * n + 3) * x == (2 * n + 2) * x + x;
    assert (2 * n + 4) * x == (2 * n + 3) * x + x;
  }

  /** Nodes on the levels above the leaf level are exactly the slots before the first leaf. */
  lemma LevelVersusFirstLeaf(leafCount: nat, n: nat, d: nat)
    requires leafCount >= 2
    requires InLevel(n, d)
    requires d <= LeafDepth(leafCount)
    ensures d < LeafDepth(leafCount) <==> n < FirstLeafIndex(leafCount)
  {
    if d < LeafDepth(leafCount) {
      Pow2Monotonic(d + 1, LeafDepth(leafCount));
    }
  }

  /** The strict ancestors of `n`: its parent, its parent's parent, ... up to the root. */
  function Ancestors(n: nat): (r: set<nat>)
    ensures forall a :: a in r ==> a < n
    ensures n > 0 ==> (n - 1) / 2 in r && forall a :: a in r ==> a <= (n - 1) / 2
    decreases n
  {
    if n == 0 then {} else {(n - 1) / 2} + Ancestors((n - 1) / 2)
  }

  /** The ancestors of an ancestor are ancestors too. */
  lemma {:induction false} AncestorsTransitive(n: nat, a: nat)
    requires a in Ancestors(n)
    ensures Ancestors(a) <= Ancestors(n)
    decreases n
  {
    var p := (n - 1) / 2;
    if a != p {
      AncestorsTransitive(p, a);
    }
  }

  /** The ancestors of a leaf all lie above the leaf level. */
  lemma LeafAncestorsInternal(leafCount: nat, leaf: nat)
    requires leafCount >= 2
    requires FirstLeafIndex(leafCount) <= leaf < TreeLen(leafCount)
    ensures forall a :: a in Ancestors(leaf) ==> a < FirstLeafIndex(leafCount)
  {
    LeafLevelBounds(leafCount);
  }

  lemma {:induction false} Pow2Add(a: nat, b: nat)
    ensures Pow2(a + b) == Pow2(a) * Pow2(b)
    decreases b
  {
    if b > 0 {
      Pow2Add(a, b - 1);
      assert Pow2(a + b) == 2 * Pow2(a + b - 1);
    }
  }

  lemma MulLeftMonotonic(a: nat, b: nat, x: nat)
    requires a <= b
    ensures a * x <= b * x
  {
    assert b * x == a * x + (b - a) * x;
  }

  /** The leaf-level range of a node on level `d` starts at or after the first leaf. */
  lemma LeafLoAtLeastFirstLeaf(n: nat, d: nat, depth: nat)
    requires InLevel(n, d) && d <= depth
    ensures Pow2(depth) - 1 <= LeafLo(n, d, depth)
  {
    var x := Pow2(depth - d);
    Pow2Add(d, depth - d);
    assert Pow2(depth) == Pow2(d) * x;
    MulLeftMonotonic(Pow2(d), n + 1, x);
  }
}
