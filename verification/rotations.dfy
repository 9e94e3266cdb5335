/** The four rotations of the AVL tree, as functions from a subtree to the
    subtree that replaces it. The source names them after the side the subtree
    leans to; the Dafny names say which way the rotation turns. */
module Rotations {
  import opened BinaryTrees

  /** `rotacaoSimplesDireita`: the right child rises and the old root becomes
      its left child, taking over the right child's former left subtree. */
  function RotateLeft(t: Tree): (r: Tree)
    requires t.Node? && t.right.Node?
    ensures r.Node? && r.key == t.right.key
    ensures r.left.Node? && r.left.key == t.key
    ensures InOrder(r) == InOrder(t)
  {
    Node(Node(t.left, t.key, t.right.left), t.right.key, t.right.right)
  }

  /** `rotacaoSimplesEsquerda`: the mirror image, the left child rises. */
  function RotateRight(t: Tree): (r: Tree)
    requires t.Node? && t.left.Node?
    ensures r.Node? && r.key == t.left.key
    ensures r.right.Node? && r.right.key == t.key
    ensures InOrder(r) == InOrder(t)
  {
    Node(t.left.left, t.left.key, Node(t.left.right, t.key, t.right))
  }

  /** `rotacaoDuplaDireita`: the inner grandchild `t.right.left` is first
      lifted above the right child in place, then `RotateLeft` brings it to
      the top. The grandchild must exist. */
  function RotateRightLeft(t: Tree): (r: Tree)
    requires t.Node? && t.right.Node? && t.right.left.Node?
    ensures r.Node? && r.key == t.right.left.key
    ensures r.left.Node? && r.left.key == t.key
    ensures r.right.Node? && r.right.key == t.right.key
    ensures InOrder(r) == InOrder(t)
  {
    var child := t.right;
    var grandchild := child.left;
    var lifted := Node(grandchild.left, grandchild.key, Node(grandchild.right, child.key, child.right));
    assert InOrder(lifted) == InOrder(child) by {
      assert InOrder(child) == InOrder(grandchild) + [child.key] + InOrder(child.right);
    }
    RotateLeft(Node(t.left, t.key, lifted))
  }

  /** `rotacaoDuplaEsquerda`: the mirror image, lifting `t.left.right`. */
  function RotateLeftRight(t: Tree): (r: Tree)
    requires t.Node? && t.left.Node? && t.left.right.Node?
    ensures r.Node? && r.key == t.left.right.key
    ensures r.right.Node? && r.right.key == t.key
    ensures r.left.Node? && r.left.key == t.left.key
    ensures InOrder(r) == InOrder(t)
  {
    var child := t.left;
    var grandchild := child.right;
    var lifted := Node(Node(child.left, child.key, grandchild.left), grandchild.key, grandchild.right);
    assert InOrder(lifted) == InOrder(child) by {
      assert InOrder(child) == InOrder(child.left) + [child.key] + InOrder(grandchild);
    }
    RotateRight(Node(lifted, t.key, t.right))
  }
}
