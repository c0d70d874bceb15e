/**
  The node types of the min and max trees: an optional priority where the
  missing value plays the part of +infinity (min tree) or -infinity (max
  tree), so that an empty leaf never wins a comparison against a held one.
  Priorities are `real`; `f64` rounding and NaN are not modelled.
 */
module Nodes {
  import opened Wrappers

  datatype Ordering = Less | Equal | Greater

  /** `partial_cmp` on priorities (total on reals). */
  function ComparePriority(x: real, y: real): (r: Ordering)
    ensures r == Less <==> x < y
    ensures r == Equal <==> x == y
    ensures r == Greater <==> x > y
  {
    if x < y then Less else if x == y then Equal else Greater
  }

  /** `MinNode`: `None` is the infinity of the min tree. */
  datatype MinNode = MinNode(inner: Option<real>)

  /** `MaxNode`: `None` is the negative infinity of the max tree. */
  datatype MaxNode = MaxNode(inner: Option<real>)

  /** `Infinity for MinNode`. */
  function MinInfinity(): (r: MinNode)
    ensures r.inner.None?
  {
    MinNode(None)
  }

  /** `NegativeInfinity for MaxNode`. */
  function MaxNegativeInfinity(): (r: MaxNode)
    ensures r.inner.None?
  {
    MaxNode(None)
  }

  /** `From<P> for MinNode`; `From<MinNode> for Option` is the `inner` field. */
  function MinFrom(p: real): (r: MinNode)
    ensures r.inner == Some(p)
  {
    MinNode(Some(p))
  }

  /** `From<P> for MaxNode`; `From<MaxNode> for Option` is the `inner` field. */
  function MaxFrom(p: real): (r: MaxNode)
    ensures r.inner == Some(p)
  {
    MaxNode(Some(p))
  }

  /** `PartialEq for MinNode`: equal exactly when both are empty or both hold equal priorities. */
  predicate MinEq(a: MinNode, b: MinNode)
    ensures MinEq(a, b) <==> a == b
  {
    match (a.inner, b.inner)
    case (None, None) => true
    case (Some(x), Some(y)) => x == y
    case _ => false
  }

  /** `PartialEq for MaxNode`: equal exactly when both are empty or both hold equal priorities. */
  predicate MaxEq(a: MaxNode, b: MaxNode)
    ensures MaxEq(a, b) <==> a == b
  {
    match (a.inner, b.inner)
    case (None, None) => true
    case (Some(x), Some(y)) => x == y
    case _ => false
  }

  /**
    `PartialOrd for MinNode`: held priorities compare as numbers, and the
    empty node is greater than every held one.
   */
  function MinCompare(a: MinNode, b: MinNode): (r: Ordering)
    ensures r == Equal <==> a == b
    ensures r == Less <==> a.inner.Some? && (b.inner.None? || a.inner.value < b.inner.value)
  {
    match (a.inner, b.inner)
    case (None, None) => Equal
    case (Some(x), Some(y)) => ComparePriority(x, y)
    case (None, Some(_)) => Greater
    case (Some(_), None) => Less
  }

  /**
    `PartialOrd for MaxNode`: held priorities compare as numbers, and the
    empty node is less than every held one.
   */
  function MaxCompare(a: MaxNode, b: MaxNode): (r: Ordering)
    ensures r == Equal <==> a == b
    ensures r == Greater <==> a.inner.Some? && (b.inner.None? || a.inner.value > b.inner.value)
  {
    match (a.inner, b.inner)
    case (None, None) => Equal
    case (Some(x), Some(y)) => ComparePriority(x, y)
    case (None, Some(_)) => Less
    case (Some(_), None) => Greater
  }

  /** The `<` operator derived from `partial_cmp`. */
  predicate MinLess(a: MinNode, b: MinNode) {
    MinCompare(a, b) == Less
  }

  /** The `<` operator derived from `partial_cmp`. */
  predicate MaxLess(a: MaxNode, b: MaxNode) {
    MaxCompare(a, b) == Less
  }

  /**
    Both comparisons are total orders: exactly one of less, equal, greater
    holds, swapping the operands swaps less and greater, and less is
    transitive.  The infinities are the extreme elements.
   */
  lemma CompareIsTotalOrder(a: MinNode, b: MinNode, c: MinNode, x: MaxNode, y: MaxNode, z: MaxNode)
    ensures MinCompare(a, b) == Less <==> MinCompare(b, a) == Greater
    ensures MinLess(a, b) && MinLess(b, c) ==> MinLess(a, c)
    ensures a != MinInfinity() ==> MinLess(a, MinInfinity())
    ensures MaxCompare(x, y) == Less <==> MaxCompare(y, x) == Greater
    ensures MaxLess(x, y) && MaxLess(y, z) ==> MaxLess(x, z)
    ensures x != MaxNegativeInfinity() ==> MaxLess(MaxNegativeInfinity(), x)
  {
  }
}
