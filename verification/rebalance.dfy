/** The whole-tree rebalancing pass `verificaBalance`: a post-order walk that,
    at every node, recomputes the balance factor and applies a rotation when
    the factor is 2 or more in absolute value. */
module Rebalancing {
  import opened BinaryTrees
  import opened Rotations

  /** The product test of the source: with a parent factor of 2 or more in
      absolute value, the product is positive exactly when the child leans the
      same way. */
  lemma ProductSign(b: int, c: int)
    requires b >= 2 || b <= -2
    ensures b * c > 0 <==> (if b > 0 then c > 0 else c < 0)
  {
    if b > 0 {
      if c > 0 { assert b * c >= c; }
      else { assert b * c <= 0; }
    } else {
      if c < 0 { assert b * c >= -c; }
      else { assert b * c <= 0; }
    }
  }

  /** The step that `verificaBalance` takes at one node once both subtrees are
      done: a single rotation when the child on the heavy side leans the same
      way (positive product of factors), a double rotation otherwise, including
      when that child's factor is 0. The heavy child, and for a double rotation
      its inner child, always exist. */
  function Fix(t: Tree): (r: Tree)
    ensures InOrder(r) == InOrder(t)
    ensures -1 <= Balance(t) <= 1 ==> r == t
    ensures Balance(t) >= 2 && Balance(t.right) > 0 ==> r == RotateLeft(t)
    ensures Balance(t) <= -2 && Balance(t.left) < 0 ==> r == RotateRight(t)
    ensures Balance(t) >= 2 && Balance(t.right) <= 0 ==>
              t.right.left.Node? && r == RotateRightLeft(t)
    ensures Balance(t) <= -2 && Balance(t.left) >= 0 ==>
              t.left.right.Node? && r == RotateLeftRight(t)
  {
    match t
    case Leaf => Leaf
    case Node(l, _, rt) =>
      var b := Balance(t);
      if b >= 2 then
        ProductSign(b, Balance(rt));
        if b * Balance(rt) > 0 then RotateLeft(t)
        else
          assert Height(rt.left) >= 1;
          RotateRightLeft(t)
      else if b <= -2 then
        ProductSign(b, Balance(l));
        if b * Balance(l) > 0 then RotateRight(t)
        else
          assert Height(l.right) >= 1;
          RotateLeftRight(t)
      else t
  }

  /** `verificaBalance(n)`: the right subtree is processed first, then the left
      one, then the node itself. The source rejects an absent node; here an
      empty tree is returned unchanged. */
  function Rebalance(t: Tree): (r: Tree)
    ensures InOrder(r) == InOrder(t)
    ensures Balanced(t) ==> r == t
  {
    match t
    case Leaf => Leaf
    case Node(l, k, rt) =>
      var rt' := Rebalance(rt);
      var l' := Rebalance(l);
      Fix(Node(l', k, rt'))
  }

  /** Rebalancing keeps search order, the key multiset and the node count. */
  lemma {:induction false} RebalanceKeepsContents(t: Tree)
    ensures Keys(Rebalance(t)) == Keys(t)
    ensures NodeCount(Rebalance(t)) == NodeCount(t)
    ensures Bst(t) ==> Bst(Rebalance(t))
  {
    InOrderContents(t);
    InOrderContents(Rebalance(t));
    if Bst(t) {
      SameInOrderKeepsBst(t, Rebalance(t));
    }
  }
}
