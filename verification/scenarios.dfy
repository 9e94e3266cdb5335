/** Sequences of `add` calls, and small concrete runs that exercise the
    single rotation, the double rotation and removal through the successor. */
module Scenarios {
  import opened Options
  import opened BinaryTrees
  import opened ArvoreAvl
  import Insertion
  import Rotations
  import Rebalancing
  import Deletion
  import Queries

  /** Calls `add` with each key in turn. Every intermediate tree stays in
      search order and, starting from a balanced tree, balanced. */
  function AddAll(a: AvlTree, keys: seq<int>): (r: AvlTree)
    ensures Keys(r.root) == Keys(a.root) + multiset(keys)
    ensures r.count == a.count + |keys|
    ensures Valid(a) ==> Valid(r)
    ensures Balanced(a.root) ==> Balanced(r.root)
    decreases |keys|
  {
    if keys == [] then a
    else
      assert keys == [keys[0]] + keys[1..];
      AddAll(Add(a, keys[0]), keys[1..])
  }

  /** Adding 10, 20, 30 leaves the right spine too tall; a single rotation
      lifts 20 to the root. */
  lemma AscendingAddsRotateOnce()
    ensures Add(Add(Add(New(), 10), 20), 30).root == Node(Node(Leaf, 10, Leaf), 20, Node(Leaf, 30, Leaf))
  {
    var a1 := AddStep(New(), 10, Node(Leaf, 10, Leaf));
    var a2 := AddStep(a1, 20, Node(Leaf, 10, Node(Leaf, 20, Leaf)));
    SingleRotationOnAdd();
  }

  lemma SingleRotationOnAdd()
    ensures Add(AvlTree(Node(Leaf, 10, Node(Leaf, 20, Leaf)), 2), 30).root
         == Node(Node(Leaf, 10, Leaf), 20, Node(Leaf, 30, Leaf))
  {
    var n30 := Node(Leaf, 30, Leaf);
    var spine := Node(Leaf, 10, Node(Leaf, 20, n30));
    assert Insertion.Insert(Node(Leaf, 10, Node(Leaf, 20, Leaf)), 30) == spine;
    assert Rebalancing.Rebalance(Node(Leaf, 20, n30)) == Node(Leaf, 20, n30);
    assert Rebalancing.Rebalance(spine) == Rebalancing.Fix(spine);
    assert Rebalancing.Fix(spine) == Rotations.RotateLeft(spine);
  }

  /** Adding 30, 10, 20 bends the left side inwards; a double rotation lifts
      20 to the root. */
  lemma ZigZagAddsRotateTwice()
    ensures Add(Add(Add(New(), 30), 10), 20).root == Node(Node(Leaf, 10, Leaf), 20, Node(Leaf, 30, Leaf))
  {
    var a1 := AddStep(New(), 30, Node(Leaf, 30, Leaf));
    var a2 := AddStep(a1, 10, Node(Node(Leaf, 10, Leaf), 30, Leaf));
    DoubleRotationOnAdd();
  }

  lemma DoubleRotationOnAdd()
    ensures Add(AvlTree(Node(Node(Leaf, 10, Leaf), 30, Leaf), 2), 20).root
         == Node(Node(Leaf, 10, Leaf), 20, Node(Leaf, 30, Leaf))
  {
    var bent := Node(Node(Leaf, 10, Node(Leaf, 20, Leaf)), 30, Leaf);
    assert Insertion.Insert(Node(Node(Leaf, 10, Leaf), 30, Leaf), 20) == bent;
    assert Rebalancing.Rebalance(bent.left) == bent.left;
    assert Rebalancing.Rebalance(bent) == Rebalancing.Fix(bent);
    assert Balance(bent) == -2 && Balance(bent.left) == 1;
    assert Rebalancing.Fix(bent) == Rotations.RotateLeftRight(bent);
  }

  /** Removing 20 from the tree built from 20, 10, 30, 5, 15: its successor 30
      takes its place, the left side is then two levels taller, and since the
      left child's factor is 0 the double rotation runs and lifts 15; the keys
      stay in order. */
  lemma RemoveWithTwoChildren()
    ensures Remove(Add(Add(Add(Add(Add(New(), 20), 10), 30), 5), 15), Some(20))
         == (AvlTree(Node(Node(Node(Leaf, 5, Leaf), 10, Leaf), 15, Node(Leaf, 30, Leaf)), 4), true)
  {
    BuiltFive();
    SuccessorRemoval();
  }

  lemma BuiltFive()
    ensures Add(Add(Add(Add(Add(New(), 20), 10), 30), 5), 15)
         == AvlTree(Node(Node(Node(Leaf, 5, Leaf), 10, Node(Leaf, 15, Leaf)), 20, Node(Leaf, 30, Leaf)), 5)
  {
    var n30 := Node(Leaf, 30, Leaf);
    var a1 := AddStep(New(), 20, Node(Leaf, 20, Leaf));
    var a2 := AddStep(a1, 10, Node(Node(Leaf, 10, Leaf), 20, Leaf));
    var a3 := AddStep(a2, 30, Node(Node(Leaf, 10, Leaf), 20, n30));
    AddFiveAndFifteen();
  }

  lemma AddFiveAndFifteen()
    ensures Add(Add(AvlTree(Node(Node(Leaf, 10, Leaf), 20, Node(Leaf, 30, Leaf)), 3), 5), 15)
         == AvlTree(Node(Node(Node(Leaf, 5, Leaf), 10, Node(Leaf, 15, Leaf)), 20, Node(Leaf, 30, Leaf)), 5)
  {
    AddFive();
    AddFifteen();
  }

  lemma AddFive()
    ensures Add(AvlTree(Node(Node(Leaf, 10, Leaf), 20, Node(Leaf, 30, Leaf)), 3), 5)
         == AvlTree(Node(Node(Node(Leaf, 5, Leaf), 10, Leaf), 20, Node(Leaf, 30, Leaf)), 4)
  {
    var n5, n30 := Node(Leaf, 5, Leaf), Node(Leaf, 30, Leaf);
    var before := Node(Node(Leaf, 10, Leaf), 20, n30);
    var after := Node(Node(n5, 10, Leaf), 20, n30);
    assert Insertion.Insert(Node(Leaf, 10, Leaf), 5) == Node(n5, 10, Leaf);
    assert Insertion.Insert(before, 5) == after;
    assert Balanced(after);
    var a := AddStep(AvlTree(before, 3), 5, after);
  }

  lemma AddFifteen()
    ensures Add(AvlTree(Node(Node(Node(Leaf, 5, Leaf), 10, Leaf), 20, Node(Leaf, 30, Leaf)), 4), 15)
         == AvlTree(Node(Node(Node(Leaf, 5, Leaf), 10, Node(Leaf, 15, Leaf)), 20, Node(Leaf, 30, Leaf)), 5)
  {
    var n5, n15, n30 := Node(Leaf, 5, Leaf), Node(Leaf, 15, Leaf), Node(Leaf, 30, Leaf);
    var before := Node(Node(n5, 10, Leaf), 20, n30);
    var after := Node(Node(n5, 10, n15), 20, n30);
    assert Insertion.Insert(Node(n5, 10, Leaf), 15) == Node(n5, 10, n15);
    assert Insertion.Insert(before, 15) == after;
    assert Balanced(after);
    var a := AddStep(AvlTree(before, 4), 15, after);
  }

  lemma SuccessorRemoval()
    ensures Remove(AvlTree(Node(Node(Node(Leaf, 5, Leaf), 10, Node(Leaf, 15, Leaf)), 20, Node(Leaf, 30, Leaf)), 5), Some(20))
         == (AvlTree(Node(Node(Node(Leaf, 5, Leaf), 10, Leaf), 15, Node(Leaf, 30, Leaf)), 4), true)
  {
    var built := Node(Node(Node(Leaf, 5, Leaf), 10, Node(Leaf, 15, Leaf)), 20, Node(Leaf, 30, Leaf));
    assert Queries.Search(built, 20) == Some(built);
    SuccessorRemovalTree();
  }

  lemma SuccessorRemovalTree()
    ensures Deletion.RemoveFound(Node(Node(Node(Leaf, 5, Leaf), 10, Node(Leaf, 15, Leaf)), 20, Node(Leaf, 30, Leaf)), 20)
         == Node(Node(Node(Leaf, 5, Leaf), 10, Leaf), 15, Node(Leaf, 30, Leaf))
  {
    var n5, n15, n30 := Node(Leaf, 5, Leaf), Node(Leaf, 15, Leaf), Node(Leaf, 30, Leaf);
    var built := Node(Node(n5, 10, n15), 20, n30);
    assert Deletion.Unlink(built, 20) == Node(Node(n5, 10, n15), 30, Leaf);
    SuccessorRebalance();
  }

  /** After 30 replaces 20 the left side is two levels taller with a left
      child of factor 0, so the double rotation runs; the second pass leaves
      the result alone. */
  lemma SuccessorRebalance()
    ensures Rebalancing.Rebalance(Node(Node(Node(Leaf, 5, Leaf), 10, Node(Leaf, 15, Leaf)), 30, Leaf))
         == Node(Node(Node(Leaf, 5, Leaf), 10, Leaf), 15, Node(Leaf, 30, Leaf))
    ensures Balanced(Node(Node(Node(Leaf, 5, Leaf), 10, Leaf), 15, Node(Leaf, 30, Leaf)))
  {
    var n5, n15, n30 := Node(Leaf, 5, Leaf), Node(Leaf, 15, Leaf), Node(Leaf, 30, Leaf);
    var unlinked := Node(Node(n5, 10, n15), 30, Leaf);
    var lifted := Node(Node(n5, 10, Leaf), 15, n30);
    assert Rebalancing.Rebalance(unlinked.left) == unlinked.left;
    assert Rebalancing.Rebalance(unlinked) == Rebalancing.Fix(unlinked);
    assert Balance(unlinked) == -2 && Balance(unlinked.left) == 0;
    assert Rebalancing.Fix(unlinked) == Rotations.RotateLeftRight(unlinked) == lifted;
    assert Balanced(lifted);
  }

  /** One `add` call that needs no rotation, with the tree it produces. */
  lemma AddStep(a: AvlTree, k: int, expected: Tree) returns (r: AvlTree)
    requires Balanced(expected)
    requires Insertion.Insert(a.root, k) == expected
    ensures r == Add(a, k)
    ensures r == AvlTree(expected, a.count + 1)
  {
    r := Add(a, k);
  }

  /** On an empty tree `getSmallest` answers null while `getRoot` raises. */
  lemma EmptyTreeQueries()
    ensures GetSmallest(New()) == None
    ensures GetRoot(New()) == Failure(EmptyTreeException)
    ensures !Contains(New(), Some(0))
    ensures Remove(New(), Some(0)) == (New(), false)
  {
  }

  /** The left part 4(2(1, 3), 5(-, 6)) of the tree below. */
  function FourSix(): Tree
  {
    Node(Node(Node(Leaf, 1, Leaf), 2, Node(Leaf, 3, Leaf)), 4, Node(Leaf, 5, Node(Leaf, 6, Leaf)))
  }

  /** The search tree 7(4(2(1, 3), 5(-, 6)), 8(-, 9)), which adding 7, 4, 8,
      2, 5, 9, 1, 3, 6 builds without a rotation. */
  function NineKeys(): Tree
  {
    Node(FourSix(), 7, Node(Leaf, 8, Node(Leaf, 9, Leaf)))
  }

  /** Removal does not keep the AVL property: removing 9 from a balanced
      search tree leaves 7 with factor -2 over a left child of factor 0, the
      pass takes the double rotation there, and node 4 ends with factor -2. */
  lemma RemovalCanLeaveImbalance()
    ensures Bst(NineKeys()) && Balanced(NineKeys())
    ensures Queries.Search(NineKeys(), 9).Some?
    ensures !Balanced(Deletion.RemoveFound(NineKeys(), 9))
  {
    NineKeysValid();
    NineRemovalUnbalanced();
  }

  lemma NineRemovalUnbalanced()
    ensures Queries.Search(NineKeys(), 9).Some?
    ensures !Balanced(Deletion.RemoveFound(NineKeys(), 9))
  {
    NineUnlinks();
    NineRemovalIsOnePass();
    PassAfterNine();
  }

  /** The pass after cutting 9 off lifts 5 by the double rotation, which
      leaves 4 with factor -2. */
  lemma PassAfterNine()
    ensures Rebalancing.Rebalance(Node(FourSix(), 7, Node(Leaf, 8, Leaf)))
         == Node(Node(Node(Node(Leaf, 1, Leaf), 2, Node(Leaf, 3, Leaf)), 4, Leaf),
                 5, Node(Node(Leaf, 6, Leaf), 7, Node(Leaf, 8, Leaf)))
    ensures !Balanced(Rebalancing.Rebalance(Node(FourSix(), 7, Node(Leaf, 8, Leaf))))
  {
    TwoLevels(1, 2, 3);
    OneLevel(6);
    OneLevel(8);
    var two := Node(Node(Leaf, 1, Leaf), 2, Node(Leaf, 3, Leaf));
    assert FourSix() == Node(two, 4, Node(Leaf, 5, Node(Leaf, 6, Leaf)));
    DoubleRotationLeavesImbalance(two, 4, 5, Node(Leaf, 6, Leaf), 7, Node(Leaf, 8, Leaf));
  }

  /** 9 has no children, so its removal is the cut followed by one pass. */
  lemma NineRemovalIsOnePass()
    requires Queries.Search(NineKeys(), 9) == Some(Node(Leaf, 9, Leaf))
    requires Deletion.Unlink(NineKeys(), 9) == Node(FourSix(), 7, Node(Leaf, 8, Leaf))
    ensures Deletion.RemoveFound(NineKeys(), 9)
         == Rebalancing.Rebalance(Node(FourSix(), 7, Node(Leaf, 8, Leaf)))
  {
  }

  /** A node of factor -2 whose left child has factor 0 (because the left
      child's right child has an empty left subtree) is double-rotated by the
      pass, and the lowered left child then has factor -2. */
  lemma DoubleRotationLeavesImbalance(p: Tree, x: int, y: int, s: Tree, z: int, w: Tree)
    requires Balanced(p) && Height(p) == 2
    requires Balanced(s) && Height(s) == 1
    requires Balanced(w) && Height(w) == 1
    ensures Rebalancing.Rebalance(Node(Node(p, x, Node(Leaf, y, s)), z, w))
         == Node(Node(p, x, Leaf), y, Node(s, z, w))
    ensures Balance(Node(p, x, Leaf)) == -2
    ensures !Balanced(Node(Node(p, x, Leaf), y, Node(s, z, w)))
  {
    var q := Node(Leaf, y, s);
    assert Height(q) == 2;
    assert Balanced(q);
    var c := Node(p, x, q);
    assert Height(c) == 3;
    assert Balanced(c);
    var u := Node(c, z, w);
    assert Balance(u) == -2;
    assert Rebalancing.Rebalance(u) == Rebalancing.Fix(u);
  }

  lemma OneLevel(k: int)
    ensures Height(Node(Leaf, k, Leaf)) == 1 && Balanced(Node(Leaf, k, Leaf))
  {
  }

  lemma TwoLevels(a: int, b: int, c: int)
    ensures Height(Node(Node(Leaf, a, Leaf), b, Node(Leaf, c, Leaf))) == 2
    ensures Balanced(Node(Node(Leaf, a, Leaf), b, Node(Leaf, c, Leaf)))
    ensures Height(Node(Leaf, a, Node(Leaf, b, Leaf))) == 2
    ensures Balanced(Node(Leaf, a, Node(Leaf, b, Leaf)))
  {
  }

  /** The tree is a balanced search tree. */
  lemma NineKeysValid()
    ensures Bst(NineKeys()) && Balanced(NineKeys())
  {
    NineKeysBalanced();
    NineKeysInOrder();
    CountingUp(InOrder(NineKeys()));
    BstIffSortedInOrder(NineKeys());
  }

  lemma NineKeysBalanced()
    ensures Balanced(NineKeys())
  {
    TwoLevels(1, 2, 3);
    TwoLevels(5, 6, 0);
    TwoLevels(8, 9, 0);
    var two := Node(Node(Leaf, 1, Leaf), 2, Node(Leaf, 3, Leaf));
    var five := Node(Leaf, 5, Node(Leaf, 6, Leaf));
    var eight := Node(Leaf, 8, Node(Leaf, 9, Leaf));
    var four := Node(two, 4, five);
    assert NineKeys() == Node(four, 7, eight);
    assert Height(four) == 3;
    assert Balanced(four);
  }

  /** A sequence holding 1, 2, 3, ... in its positions is ascending. */
  lemma CountingUp(s: seq<int>)
    requires forall i :: 0 <= i < |s| ==> s[i] == i + 1
    ensures Sorted(s)
  {
  }

  lemma NineKeysInOrder()
    ensures InOrder(NineKeys()) == [1, 2, 3, 4, 5, 6, 7, 8, 9]
  {
    assert InOrder(FourSix()) == [1, 2, 3, 4, 5, 6];
  }

  /** 9 is a leaf, so it is simply cut off. */
  lemma NineUnlinks()
    ensures Queries.Search(NineKeys(), 9) == Some(Node(Leaf, 9, Leaf))
    ensures Deletion.Unlink(NineKeys(), 9) == Node(FourSix(), 7, Node(Leaf, 8, Leaf))
  {
  }
}
