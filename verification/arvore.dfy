/** The `ArvoreAVL` object itself: a root and a node count, with the public
    operations of the class. */
module ArvoreAvl {
  import opened Options
  import opened BinaryTrees
  import opened Queries
  import Insertion
  import Deletion

  /** `root` and `count` of the class; `count` is a Java `int`. */
  datatype AvlTree = AvlTree(root: Tree, count: int)

  /** What `getRoot` raises on an empty tree. */
  datatype TreeError = EmptyTreeException

  /** The count matches the nodes and the keys are in search order. The AVL
      balance is not part of this invariant: removal does not keep it. */
  ghost predicate Valid(a: AvlTree)
  {
    a.count == NodeCount(a.root) && Bst(a.root)
  }

  /** The constructor: no root, count 0. */
  function New(): (a: AvlTree)
    ensures Valid(a) && Balanced(a.root)
    ensures Keys(a.root) == multiset{}
  {
    AvlTree(Leaf, 0)
  }

  /** `clear`: forgets every node, whatever the tree held. */
  function Clear(a: AvlTree): (r: AvlTree)
    ensures Valid(r) && Balanced(r.root)
    ensures Keys(r.root) == multiset{} && r.count == 0
  {
    AvlTree(Leaf, 0)
  }

  /** `isEmpty`: the root is absent, which is when no key is held. */
  function IsEmpty(a: AvlTree): (b: bool)
    ensures b <==> Keys(a.root) == multiset{}
    ensures Valid(a) ==> (b <==> a.count == 0)
  {
    assert a.root.Node? ==> a.root.key in Keys(a.root);
    a.root.Leaf?
  }

  /** `size`: the stored count, which is the number of keys listed by a traversal. */
  function Size(a: AvlTree): (n: int)
    ensures Valid(a) ==> n == |InOrder(a.root)| && n == |Keys(a.root)|
  {
    InOrderContents(a.root);
    a.count
  }

  /** `getRoot`: the root node, or the exception when the tree is empty. */
  function GetRoot(a: AvlTree): (r: Result<Tree, TreeError>)
    ensures r.Failure? <==> Keys(a.root) == multiset{}
    ensures r.Success? ==> r.value.Node? && Keys(r.value) == Keys(a.root)
  {
    assert a.root.Node? ==> a.root.key in Keys(a.root);
    if a.root.Leaf? then Failure(EmptyTreeException) else Success(a.root)
  }

  /** `contains`: a null element or an empty tree gives false; otherwise the
      answer is whether the key is held. */
  function Contains(a: AvlTree, e: Option<int>): (b: bool)
    ensures e.None? ==> !b
    ensures b ==> e.value in Keys(a.root)
    ensures Valid(a) ==> (b <==> e.Some? && e.value in Keys(a.root))
  {
    if e.None? then false
    else
      SearchFindsKey(a.root, e.value);
      Search(a.root, e.value).Some?
  }

  /** `add(Integer)`: insert, count one more, rebalance the whole tree. */
  function Add(a: AvlTree, k: int): (r: AvlTree)
    ensures r.count == a.count + 1
    ensures Keys(r.root) == Keys(a.root) + multiset{k}
    ensures Valid(a) ==> Valid(r)
    ensures Balanced(a.root) ==> Balanced(r.root)
  {
    AvlTree(Insertion.Add(a.root, k), a.count + 1)
  }

  /** `remove(Integer)`: false, with nothing changed, for a null element, an
      empty tree or a key that is not found; otherwise one occurrence of the
      key goes, the count drops by one, and the answer is true. */
  function Remove(a: AvlTree, e: Option<int>): (res: (AvlTree, bool))
    ensures !res.1 ==> res.0 == a
    ensures res.1 ==> e.Some? && e.value in Keys(a.root)
    ensures res.1 ==> res.0.count == a.count - 1
    ensures res.1 ==> Keys(res.0.root) == Keys(a.root) - multiset{e.value}
    ensures Valid(a) ==> (res.1 <==> e.Some? && e.value in Keys(a.root))
    ensures Valid(a) ==> Valid(res.0)
  {
    if e.None? || a.root.Leaf? then (a, false)
    else
      SearchFindsKey(a.root, e.value);
      match Search(a.root, e.value)
      case None => (a, false)
      case Some(_) => (AvlTree(Deletion.RemoveFound(a.root, e.value), a.count - 1), true)
  }

  /** `getSmallest`: null on an empty tree, otherwise the first key in order,
      which in a search tree is the least key held. */
  function GetSmallest(a: AvlTree): (r: Option<int>)
    ensures r.None? <==> Keys(a.root) == multiset{}
    ensures r.Some? ==> |InOrder(a.root)| > 0 && r.value == InOrder(a.root)[0]
    ensures r.Some? ==> r.value in Keys(a.root)
    ensures r.Some? && Valid(a) ==> forall x :: x in Keys(a.root) ==> r.value <= x
  {
    if a.root.Leaf? then None
    else
      LeftmostIsMinimum(a.root);
      Some(Leftmost(a.root))
  }

  /** `positionsPre`: every key, the root's first. */
  function PositionsPre(a: AvlTree): (s: seq<int>)
    ensures multiset(s) == Keys(a.root)
    ensures Valid(a) ==> |s| == a.count
  {
    PreOrder(a.root)
  }

  /** `positionsPos`: every key, the root's last. */
  function PositionsPos(a: AvlTree): (s: seq<int>)
    ensures multiset(s) == Keys(a.root)
    ensures Valid(a) ==> |s| == a.count
  {
    PostOrder(a.root)
  }

  /** `positionsCentral`: every key, in ascending order. */
  function PositionsCentral(a: AvlTree): (s: seq<int>)
    ensures multiset(s) == Keys(a.root)
    ensures Valid(a) ==> |s| == a.count && Sorted(s)
  {
    InOrderContents(a.root);
    BstIffSortedInOrder(a.root);
    InOrder(a.root)
  }

  /** `positionsWidth`: every key, level by level. */
  method PositionsWidth(a: AvlTree) returns (s: seq<int>)
    ensures multiset(s) == Keys(a.root)
    ensures multiset(s) == multiset(InOrder(a.root))
    ensures Valid(a) ==> |s| == a.count
  {
    s := LevelOrder(a.root);
    InOrderContents(a.root);
  }

  /** Inserting a key and removing it again reports success and gives back
      the same keys and count. */
  lemma AddThenRemove(a: AvlTree, k: int)
    requires Valid(a)
    ensures Remove(Add(a, k), Some(k)).1
    ensures Remove(Add(a, k), Some(k)).0.count == a.count
    ensures Keys(Remove(Add(a, k), Some(k)).0.root) == Keys(a.root)
  {
  }
}
