/** Deletion: `remove(Node)` with its three cases, written as a descent along
    the same path that `searchNodeRef` follows instead of the source's splicing
    through `father` links, followed by the global rebalancing pass. */
module Deletion {
  import opened BinaryTrees
  import opened Queries
  import opened Rebalancing

  /** `smallest(n.right)` followed by `remove(menor)`: the leftmost node has
      no left child, so it is replaced by its right subtree (a leaf is
      detached, a node with only a right child is replaced by that child). */
  function RemoveLeftmost(t: Tree): (r: Tree)
    requires t.Node?
    ensures InOrder(t) == [Leftmost(t)] + InOrder(r)
  {
    if t.left.Leaf? then t.right else Node(RemoveLeftmost(t.left), t.key, t.right)
  }

  /** Exactly one node, the one holding the smallest key, goes. */
  lemma {:induction false} RemoveLeftmostKeys(t: Tree)
    requires t.Node?
    ensures Keys(RemoveLeftmost(t)) + multiset{Leftmost(t)} == Keys(t)
    ensures NodeCount(RemoveLeftmost(t)) + 1 == NodeCount(t)
  {
    if t.left.Node? {
      RemoveLeftmostKeys(t.left);
    }
  }

  lemma {:induction false} RemoveLeftmostKeepsOrder(t: Tree)
    requires t.Node?
    ensures Bst(t) ==> Bst(RemoveLeftmost(t))
  {
    if Bst(t) && t.left.Node? {
      RemoveLeftmostKeepsOrder(t.left);
      RemoveLeftmostKeys(t.left);
      assert forall y :: y in Keys(RemoveLeftmost(t.left)) ==> y in Keys(t.left);
    }
  }

  /** The structural part of `remove(Node)` for the node that `searchNodeRef`
      finds: a leaf is detached, a node with one child is replaced by that
      child, and a node with two children takes the smallest key of its right
      subtree, whose node is removed instead. Without a match nothing changes. */
  function Unlink(t: Tree, k: int): (r: Tree)
    ensures Search(t, k).None? ==> r == t
  {
    match t
    case Leaf => Leaf
    case Node(l, x, rt) =>
      if x == k then
        if l.Leaf? && rt.Leaf? then Leaf
        else if l.Node? && rt.Node? then Node(l, Leftmost(rt), RemoveLeftmost(rt))
        else if l.Leaf? then rt
        else l
      else if x > k then Node(Unlink(l, k), x, rt)
      else Node(l, x, Unlink(rt, k))
  }

  /** Exactly one occurrence of the key leaves the tree, and one node. */
  lemma UnlinkKeys(t: Tree, k: int)
    requires Search(t, k).Some?
    ensures Keys(Unlink(t, k)) == Keys(t) - multiset{k}
    ensures NodeCount(Unlink(t, k)) + 1 == NodeCount(t)
  {
    UnlinkAddsBack(t, k);
    TakeBack(Keys(Unlink(t, k)), Keys(t), k);
  }

  /** Putting the removed key back gives the original keys. */
  lemma {:induction false} UnlinkAddsBack(t: Tree, k: int)
    requires Search(t, k).Some?
    ensures Keys(Unlink(t, k)) + multiset{k} == Keys(t)
    ensures NodeCount(Unlink(t, k)) + 1 == NodeCount(t)
  {
    match t
    case Node(l, x, rt) =>
      if x == k {
        UnlinkHereKeys(t);
      } else if x > k {
        UnlinkAddsBack(l, k);
        BackOnLeft(l, Unlink(l, k), x, rt, k);
      } else {
        UnlinkAddsBack(rt, k);
        BackOnRight(l, x, rt, Unlink(rt, k), k);
      }
  }

  lemma BackOnLeft(l: Tree, u: Tree, x: int, rt: Tree, k: int)
    requires Keys(u) + multiset{k} == Keys(l) && NodeCount(u) + 1 == NodeCount(l)
    ensures Keys(Node(u, x, rt)) + multiset{k} == Keys(Node(l, x, rt))
    ensures NodeCount(Node(u, x, rt)) + 1 == NodeCount(Node(l, x, rt))
  {
    assert Keys(Node(u, x, rt)) + multiset{k} == (Keys(u) + multiset{k}) + multiset{x} + Keys(rt);
  }

  lemma BackOnRight(l: Tree, x: int, rt: Tree, u: Tree, k: int)
    requires Keys(u) + multiset{k} == Keys(rt) && NodeCount(u) + 1 == NodeCount(rt)
    ensures Keys(Node(l, x, u)) + multiset{k} == Keys(Node(l, x, rt))
    ensures NodeCount(Node(l, x, u)) + 1 == NodeCount(Node(l, x, rt))
  {
    assert Keys(Node(l, x, u)) + multiset{k} == Keys(l) + multiset{x} + (Keys(u) + multiset{k});
  }

  lemma UnlinkHereKeys(t: Tree)
    requires t.Node?
    ensures Keys(Unlink(t, t.key)) + multiset{t.key} == Keys(t)
    ensures NodeCount(Unlink(t, t.key)) + 1 == NodeCount(t)
  {
    var l, k, rt := t.left, t.key, t.right;
    if l.Node? && rt.Node? {
      RemoveLeftmostKeys(rt);
      SuccessorBack(l, k, Leftmost(rt), RemoveLeftmost(rt), rt);
    }
  }

  lemma SuccessorBack(l: Tree, k: int, m: int, rest: Tree, rt: Tree)
    requires Keys(rest) + multiset{m} == Keys(rt) && NodeCount(rest) + 1 == NodeCount(rt)
    ensures Keys(Node(l, m, rest)) + multiset{k} == Keys(Node(l, k, rt))
    ensures NodeCount(Node(l, m, rest)) + 1 == NodeCount(Node(l, k, rt))
  {
    assert Keys(Node(l, m, rest)) + multiset{k} == Keys(l) + multiset{k} + (Keys(rest) + multiset{m});
  }

  lemma TakeBack(a: multiset<int>, b: multiset<int>, k: int)
    requires a + multiset{k} == b
    ensures a == b - multiset{k}
  {
  }

  /** In every case the in-order sequence loses exactly one entry, an
      occurrence of the removed key, and keeps the others in place. */
  lemma {:induction false} UnlinkInOrder(t: Tree, k: int) returns (i: nat)
    requires Search(t, k).Some?
    ensures i < |InOrder(t)| && InOrder(t)[i] == k
    ensures InOrder(Unlink(t, k)) == InOrder(t)[..i] + InOrder(t)[i + 1..]
  {
    var l, x, rt := t.left, t.key, t.right;
    var a, b := InOrder(l), InOrder(rt);
    assert InOrder(t) == a + [x] + b;
    if x == k {
      i := UnlinkHereInOrder(t);
    } else if x > k {
      var j := UnlinkInOrder(l, k);
      i := j;
      assert InOrder(Unlink(t, k)) == InOrder(Unlink(l, k)) + [x] + b;
      SpliceLeft(a, x, b, j);
    } else {
      var j := UnlinkInOrder(rt, k);
      i := |a| + 1 + j;
      assert InOrder(Unlink(t, k)) == a + [x] + InOrder(Unlink(rt, k));
      SpliceRight(a, x, b, j);
    }
  }

  /** Dropping entry j of the left part of `a + [x] + b`. */
  lemma SpliceLeft(a: seq<int>, x: int, b: seq<int>, j: nat)
    requires j < |a|
    ensures (a[..j] + a[j + 1..]) + [x] + b == (a + [x] + b)[..j] + (a + [x] + b)[j + 1..]
  {
    var s := a + [x] + b;
    assert s[..j] == a[..j];
    assert s[j + 1..] == a[j + 1..] + [x] + b;
  }

  /** Dropping entry j of the right part of `a + [x] + b`. */
  lemma SpliceRight(a: seq<int>, x: int, b: seq<int>, j: nat)
    requires j < |b|
    ensures a + [x] + (b[..j] + b[j + 1..]) == (a + [x] + b)[..|a| + 1 + j] + (a + [x] + b)[|a| + 1 + j + 1..]
  {
    var s := a + [x] + b;
    assert s[..|a| + 1 + j] == a + [x] + b[..j];
    assert s[|a| + 1 + j + 1..] == b[j + 1..];
  }

  /** At the node holding the key, its own entry leaves the in-order sequence:
      for two children the successor's key takes its place and the successor's
      entry goes instead, which leaves the same sequence. */
  lemma UnlinkHereInOrder(t: Tree) returns (i: nat)
    requires t.Node?
    ensures i == |InOrder(t.left)|
    ensures i < |InOrder(t)| && InOrder(t)[i] == t.key
    ensures InOrder(Unlink(t, t.key)) == InOrder(t)[..i] + InOrder(t)[i + 1..]
  {
    var a, b := InOrder(t.left), InOrder(t.right);
    assert InOrder(t) == a + [t.key] + b;
    i := |a|;
    assert InOrder(t)[..i] == a;
    assert InOrder(t)[i + 1..] == b;
    if t.left.Node? && t.right.Node? {
      assert InOrder(Unlink(t, t.key)) == a + ([Leftmost(t.right)] + InOrder(RemoveLeftmost(t.right)));
    }
  }

  lemma {:induction false} UnlinkKeepsOrder(t: Tree, k: int)
    ensures Bst(t) ==> Bst(Unlink(t, k))
  {
    match t
    case Leaf =>
    case Node(l, x, rt) =>
      if !Bst(t) || Search(t, k).None? {
        return;
      }
      if x == k {
        if l.Node? && rt.Node? {
          SuccessorKeepsOrder(l, x, rt);
        }
      } else if x > k {
        UnlinkKeepsOrder(l, k);
        UnlinkKeys(l, k);
        FewerKeysOnLeft(l, Unlink(l, k), x, rt);
      } else {
        UnlinkKeepsOrder(rt, k);
        UnlinkKeys(rt, k);
        FewerKeysOnRight(l, x, rt, Unlink(rt, k));
      }
  }

  /** The successor, the least key on the right, can take the place of the
      removed key. */
  lemma SuccessorKeepsOrder(l: Tree, x: int, rt: Tree)
    requires rt.Node? && Bst(Node(l, x, rt))
    ensures Bst(Node(l, Leftmost(rt), RemoveLeftmost(rt)))
  {
    var m := Leftmost(rt);
    LeftmostIsMinimum(rt);
    RemoveLeftmostKeepsOrder(rt);
    RemoveLeftmostKeys(rt);
    assert forall y :: y in Keys(RemoveLeftmost(rt)) ==> y in Keys(rt);
    assert forall y :: y in Keys(l) ==> y <= m;
  }

  /** Replacing the left subtree by a search tree with fewer keys keeps order. */
  lemma FewerKeysOnLeft(l: Tree, l': Tree, x: int, r: Tree)
    requires Bst(Node(l, x, r)) && Bst(l')
    requires Keys(l') <= Keys(l)
    ensures Bst(Node(l', x, r))
  {
    assert forall y :: y in Keys(l') ==> y in Keys(l);
  }

  /** Replacing the right subtree by a search tree with fewer keys keeps order. */
  lemma FewerKeysOnRight(l: Tree, x: int, r: Tree, r': Tree)
    requires Bst(Node(l, x, r)) && Bst(r')
    requires Keys(r') <= Keys(r)
    ensures Bst(Node(l, x, r'))
  {
    assert forall y :: y in Keys(r') ==> y in Keys(r);
  }

  /** `remove(Node)` as a whole: the structural removal, then `verificaBalance`
      over the whole tree; in the two-children case the recursive removal of
      the successor runs its own pass first, so the tree is rebalanced twice. */
  function RemoveFound(t: Tree, k: int): (r: Tree)
    requires Search(t, k).Some?
    ensures Keys(r) == Keys(t) - multiset{k}
    ensures NodeCount(r) + 1 == NodeCount(t)
    ensures Bst(t) ==> Bst(r)
  {
    var found := Search(t, k).value;
    var unlinked := Unlink(t, k);
    UnlinkKeys(t, k);
    UnlinkKeepsOrder(t, k);
    RebalanceKeepsContents(unlinked);
    RebalanceKeepsContents(Rebalance(unlinked));
    if found.left.Node? && found.right.Node? then Rebalance(Rebalance(unlinked))
    else Rebalance(unlinked)
  }

  /** Rebalancing keeps the in-order sequence, so the whole removal deletes
      one entry holding the key from the in-order sequence and keeps the
      others in place. */
  lemma RemoveFoundInOrder(t: Tree, k: int) returns (i: nat)
    requires Search(t, k).Some?
    ensures i < |InOrder(t)| && InOrder(t)[i] == k
    ensures InOrder(RemoveFound(t, k)) == InOrder(t)[..i] + InOrder(t)[i + 1..]
  {
    i := UnlinkInOrder(t, k);
  }
}
