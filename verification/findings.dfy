/** Two paths through `remove` that end in a null dereference, modelled as
    the class writes them, beside the corrected removal `ArvoreAvl.Remove`
    that the rest of the model uses. */
module Findings {
  import opened Options
  import opened BinaryTrees
  import opened ArvoreAvl
  import Queries
  import Deletion
  import Scenarios
  import Insertion

  /** How a call of `remove(Integer)` ends: it returns normally, or a
      NullPointerException escapes from the given source line (before
      `count` is decremented). */
  datatype Outcome = Returned(tree: AvlTree, removed: bool) | NullPointerException(line: nat)

  /** `remove(Integer)` as written. The node found has a father exactly when
      it is not the root, that is, when the root holds a different key
      (`searchNodeRef` stops at the root when it holds the key).
      - A node with only a left child and a father reaches the assignment
        that sets the father link of its right child, which is null.
      - A leaf without a father is the only node: root becomes null and the
        closing `verificaBalance(root)` reads a child of null.
      Wherever the written code crashes, the corrected removal succeeds, and
      it crashes in the rebalancing pass exactly when the corrected removal
      empties the tree. */
  function RemoveAsWritten(a: AvlTree, e: Option<int>): (o: Outcome)
    ensures o.Returned? ==> (o.tree, o.removed) == Remove(a, e)
    ensures o.NullPointerException? ==> Remove(a, e).1
    ensures o == NullPointerException(265) <==> Remove(a, e).1 && Remove(a, e).0.root.Leaf?
  {
    if e.None? || a.root.Leaf? then Returned(a, false)
    else
      match Queries.Search(a.root, e.value)
      case None => Returned(a, false)
      case Some(n) =>
        var hasFather := a.root.key != e.value;
        LastNodeIsRoot(a.root, e.value);
        if n.left.Node? && n.right.Leaf? && hasFather then NullPointerException(200)
        else if n.left.Leaf? && n.right.Leaf? && !hasFather then NullPointerException(265)
        else Returned(AvlTree(Deletion.RemoveFound(a.root, e.value), a.count - 1), true)
  }

  /** The removal empties the tree exactly when the key sits in a root with
      no children. */
  lemma LastNodeIsRoot(t: Tree, k: int)
    requires Queries.Search(t, k).Some?
    ensures Deletion.RemoveFound(t, k).Leaf? <==> t == Node(Leaf, k, Leaf)
  {
    var r := Deletion.RemoveFound(t, k);
    if r.Leaf? {
      assert NodeCount(t) == 1;
      assert t.left.Leaf? && t.right.Leaf?;
    }
  }

  /** Adding 3, 2, 4, 1 leaves 2 with only the left child 1; removing 2 then
      crashes, where the corrected removal lifts 1 into its place. */
  lemma LeftOnlyChildCrashes()
    ensures RemoveAsWritten(Add(Add(Add(Add(New(), 3), 2), 4), 1), Some(2)) == NullPointerException(200)
    ensures Remove(Add(Add(Add(Add(New(), 3), 2), 4), 1), Some(2))
         == (AvlTree(Node(Node(Leaf, 1, Leaf), 3, Node(Leaf, 4, Leaf)), 3), true)
  {
    BuiltFour();
    LeftOnlyChildRemoval();
  }

  lemma BuiltFour()
    ensures Add(Add(Add(Add(New(), 3), 2), 4), 1)
         == AvlTree(Node(Node(Node(Leaf, 1, Leaf), 2, Leaf), 3, Node(Leaf, 4, Leaf)), 4)
  {
    var a1 := Scenarios.AddStep(New(), 3, Node(Leaf, 3, Leaf));
    AddTwo();
    AddFour();
    AddOneBelowTwo();
  }

  lemma AddTwo()
    ensures Add(AvlTree(Node(Leaf, 3, Leaf), 1), 2) == AvlTree(Node(Node(Leaf, 2, Leaf), 3, Leaf), 2)
  {
    var after := Node(Node(Leaf, 2, Leaf), 3, Leaf);
    assert Insertion.Insert(Node(Leaf, 3, Leaf), 2) == after;
    var a := Scenarios.AddStep(AvlTree(Node(Leaf, 3, Leaf), 1), 2, after);
  }

  lemma AddFour()
    ensures Add(AvlTree(Node(Node(Leaf, 2, Leaf), 3, Leaf), 2), 4)
         == AvlTree(Node(Node(Leaf, 2, Leaf), 3, Node(Leaf, 4, Leaf)), 3)
  {
    var before := Node(Node(Leaf, 2, Leaf), 3, Leaf);
    var after := Node(Node(Leaf, 2, Leaf), 3, Node(Leaf, 4, Leaf));
    assert Insertion.Insert(before, 4) == after;
    var a := Scenarios.AddStep(AvlTree(before, 2), 4, after);
  }

  lemma AddOneBelowTwo()
    ensures Add(AvlTree(Node(Node(Leaf, 2, Leaf), 3, Node(Leaf, 4, Leaf)), 3), 1)
         == AvlTree(Node(Node(Node(Leaf, 1, Leaf), 2, Leaf), 3, Node(Leaf, 4, Leaf)), 4)
  {
    var before := Node(Node(Leaf, 2, Leaf), 3, Node(Leaf, 4, Leaf));
    var after := Node(Node(Node(Leaf, 1, Leaf), 2, Leaf), 3, Node(Leaf, 4, Leaf));
    assert Insertion.Insert(Node(Leaf, 2, Leaf), 1) == Node(Node(Leaf, 1, Leaf), 2, Leaf);
    assert Insertion.Insert(before, 1) == after;
    assert Balanced(after);
    var a := Scenarios.AddStep(AvlTree(before, 3), 1, after);
  }

  lemma LeftOnlyChildRemoval()
    ensures RemoveAsWritten(AvlTree(Node(Node(Node(Leaf, 1, Leaf), 2, Leaf), 3, Node(Leaf, 4, Leaf)), 4), Some(2))
         == NullPointerException(200)
    ensures Remove(AvlTree(Node(Node(Node(Leaf, 1, Leaf), 2, Leaf), 3, Node(Leaf, 4, Leaf)), 4), Some(2))
         == (AvlTree(Node(Node(Leaf, 1, Leaf), 3, Node(Leaf, 4, Leaf)), 3), true)
  {
    var n1, n4 := Node(Leaf, 1, Leaf), Node(Leaf, 4, Leaf);
    var built := Node(Node(n1, 2, Leaf), 3, n4);
    assert Queries.Search(built, 2) == Some(Node(n1, 2, Leaf));
    var unlinked := Node(n1, 3, n4);
    assert Deletion.Unlink(built, 2) == unlinked;
    assert Balanced(unlinked);
  }

  /** Removing the only key crashes in the rebalancing pass, where the
      corrected removal leaves an empty tree. */
  lemma LastNodeCrashes()
    ensures RemoveAsWritten(Add(New(), 1), Some(1)) == NullPointerException(265)
    ensures Remove(Add(New(), 1), Some(1)) == (AvlTree(Leaf, 0), true)
  {
    var a1 := Scenarios.AddStep(New(), 1, Node(Leaf, 1, Leaf));
    LastNodeRemoval();
  }

  lemma LastNodeRemoval()
    ensures RemoveAsWritten(AvlTree(Node(Leaf, 1, Leaf), 1), Some(1)) == NullPointerException(265)
    ensures Remove(AvlTree(Node(Leaf, 1, Leaf), 1), Some(1)) == (AvlTree(Leaf, 0), true)
  {
    assert Queries.Search(Node(Leaf, 1, Leaf), 1) == Some(Node(Leaf, 1, Leaf));
    assert Deletion.Unlink(Node(Leaf, 1, Leaf), 1) == Leaf;
  }
}
