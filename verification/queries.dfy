/** Read-only operations on a tree: key search, the smallest key, and the
    four traversal orders. */
module Queries {
  import opened Options
  import opened BinaryTrees

  /** `searchNodeRef` for a non-null element: descends left when the node's
      key is greater, right when it is smaller, and returns the subtree rooted
      at the first node holding the key. */
  function Search(t: Tree, k: int): (r: Option<Tree>)
    ensures r.Some? ==> r.value.Node? && r.value.key == k
  {
    match t
    case Leaf => None
    case Node(l, x, rt) =>
      if x == k then Some(t)
      else if x > k then Search(l, k)
      else Search(rt, k)
  }

  /** Search finds only keys that are present and, in a search tree, finds
      every key that is present. */
  lemma {:induction false} SearchFindsKey(t: Tree, k: int)
    ensures Search(t, k).Some? ==> k in Keys(t)
    ensures Bst(t) ==> (Search(t, k).Some? <==> k in Keys(t))
  {
    match t
    case Leaf =>
    case Node(l, x, rt) =>
      SearchFindsKey(l, k);
      SearchFindsKey(rt, k);
  }

  /** `smallest(n)`: follows left links down from a node; the key reached is
      the first one in order. */
  function Leftmost(t: Tree): (k: int)
    requires t.Node?
    ensures |InOrder(t)| > 0 && k == InOrder(t)[0]
  {
    if t.left.Leaf? then t.key else Leftmost(t.left)
  }

  /** The leftmost key is present, and in a search tree no key is smaller. */
  lemma {:induction false} LeftmostIsMinimum(t: Tree)
    requires t.Node?
    ensures Leftmost(t) in Keys(t)
    ensures Bst(t) ==> forall x :: x in Keys(t) ==> Leftmost(t) <= x
  {
    if t.left.Node? {
      LeftmostIsMinimum(t.left);
    }
  }

  /** `positionsPreAux`: node, then left subtree, then right subtree. */
  function PreOrder(t: Tree): (s: seq<int>)
    ensures multiset(s) == Keys(t)
    ensures |s| == NodeCount(t)
    ensures t.Node? ==> s[0] == t.key
  {
    match t
    case Leaf => []
    case Node(l, k, r) => [k] + PreOrder(l) + PreOrder(r)
  }

  /** `positionsPosAux`: left subtree, then right subtree, then the node. */
  function PostOrder(t: Tree): (s: seq<int>)
    ensures multiset(s) == Keys(t)
    ensures |s| == NodeCount(t)
    ensures t.Node? ==> s[|s| - 1] == t.key
  {
    match t
    case Leaf => []
    case Node(l, k, r) => PostOrder(l) + PostOrder(r) + [k]
  }

  /** Keys held by a queue of subtrees. */
  function ForestKeys(q: seq<Tree>): multiset<int>
  {
    if q == [] then multiset{} else Keys(q[0]) + ForestKeys(q[1..])
  }

  /** Present children of a node, left first, as `positionsWidth` enqueues them. */
  function Children(n: Tree): (q: seq<Tree>)
    requires n.Node?
    ensures forall i :: 0 <= i < |q| ==> q[i].Node?
    ensures ForestKeys(q) == Keys(n.left) + Keys(n.right)
  {
    var q := (if n.left.Node? then [n.left] else []) + (if n.right.Node? then [n.right] else []);
    ForestConcat(if n.left.Node? then [n.left] else [], if n.right.Node? then [n.right] else []);
    q
  }

  /** Every queued subtree is a node: the queue never holds an absent child. */
  ghost predicate AllNodes(q: seq<Tree>)
  {
    forall i :: 0 <= i < |q| ==> q[i].Node?
  }

  /** Dequeuing a node, enqueuing its children and recording its key keeps
      the recorded keys plus the queued keys unchanged, and shrinks the queue's
      contents. */
  lemma DequeueStep(res: seq<int>, queue: seq<Tree>)
    requires |queue| > 0 && AllNodes(queue)
    ensures AllNodes(queue[1..] + Children(queue[0]))
    ensures multiset(res + [queue[0].key]) + ForestKeys(queue[1..] + Children(queue[0]))
         == multiset(res) + ForestKeys(queue)
    ensures |ForestKeys(queue[1..] + Children(queue[0]))| < |ForestKeys(queue)|
  {
    var n := queue[0];
    var rest, kids := queue[1..], Children(n);
    QueueStaysNodes(rest, kids);
    ForestConcat(rest, kids);
    TradeSubtreeForKey(res, n, ForestKeys(rest), ForestKeys(rest + kids), ForestKeys(queue));
  }

  lemma TradeSubtreeForKey(res: seq<int>, n: Tree, rest: multiset<int>, after: multiset<int>,
                           before: multiset<int>)
    requires n.Node?
    requires before == Keys(n) + rest
    requires after == rest + Keys(n.left) + Keys(n.right)
    ensures multiset(res + [n.key]) + after == multiset(res) + before
    ensures |after| < |before|
  {
    assert before == after + multiset{n.key};
    assert multiset(res + [n.key]) == multiset(res) + multiset{n.key};
  }

  lemma QueueStaysNodes(p: seq<Tree>, q: seq<Tree>)
    requires forall i :: 0 <= i < |p| ==> p[i].Node?
    requires forall i :: 0 <= i < |q| ==> q[i].Node?
    ensures AllNodes(p + q)
  {
    forall i | 0 <= i < |p + q| ensures (p + q)[i].Node? {
      if i < |p| {
        assert (p + q)[i] == p[i];
      } else {
        assert (p + q)[i] == q[i - |p|];
      }
    }
  }

  lemma {:induction false} ForestConcat(p: seq<Tree>, q: seq<Tree>)
    ensures ForestKeys(p + q) == ForestKeys(p) + ForestKeys(q)
    decreases |p|
  {
    if p == [] {
      assert p + q == q;
    } else {
      assert (p + q)[0] == p[0];
      assert (p + q)[1..] == p[1..] + q;
      ForestConcat(p[1..], q);
    }
  }

  /** `positionsWidth`: breadth-first visit with a FIFO queue seeded with the
      root; each dequeued node enqueues its present children, left first, and
      records its key. Every key is recorded once, the root's first. */
  method LevelOrder(t: Tree) returns (res: seq<int>)
    ensures multiset(res) == Keys(t)
    ensures |res| == NodeCount(t)
    ensures t.Node? ==> |res| > 0 && res[0] == t.key
  {
    res := [];
    if t.Node? {
      var queue := [t];
      assert ForestKeys(queue) == Keys(t) by {
        assert queue[1..] == [];
      }
      while queue != []
        invariant AllNodes(queue)
        invariant multiset(res) + ForestKeys(queue) == Keys(t)
        invariant res == [] ==> queue == [t]
        invariant res != [] ==> res[0] == t.key
        decreases |ForestKeys(queue)|
      {
        var n := queue[0];
        DequeueStep(res, queue);
        queue := queue[1..] + Children(n);
        res := res + [n.key];
      }
    }
    KeysCount(t);
  }

  /** Pre-order and post-order are permutations of the in-order sequence;
      `ArvoreAvl.PositionsWidth` states the same of level order. */
  lemma TraversalsArePermutations(t: Tree)
    ensures multiset(PreOrder(t)) == multiset(InOrder(t))
    ensures multiset(PostOrder(t)) == multiset(InOrder(t))
  {
    InOrderContents(t);
  }
}
