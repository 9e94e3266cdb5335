/** The node structure of the AVL tree: an immutable binary tree of integer keys,
    with the height, balance factor, contents and in-order sequence that every
    other part of the model is stated in terms of. */
module BinaryTrees {

  /** A subtree: `Leaf` is an absent (null) child, `Node` one tree node.
      The source's cached `balance` and `father` fields are not stored; the
      balance is computed by `Balance` below. */
  datatype Tree = Leaf | Node(left: Tree, key: int, right: Tree)

  function Max(a: int, b: int): int
  {
    if a < b then b else a
  }

  /** Height with the source's convention: an absent child counts 0 and a
      node without children counts 1. */
  function Height(t: Tree): nat
  {
    match t
    case Leaf => 0
    case Node(l, _, r) => 1 + Max(Height(l), Height(r))
  }

  /** Balance factor: height of the right subtree minus height of the left one. */
  function Balance(t: Tree): int
  {
    match t
    case Leaf => 0
    case Node(l, _, r) => Height(r) - Height(l)
  }

  /** Number of nodes. */
  function NodeCount(t: Tree): nat
  {
    match t
    case Leaf => 0
    case Node(l, _, r) => NodeCount(l) + 1 + NodeCount(r)
  }

  /** The keys held by the tree, with their multiplicities. */
  function Keys(t: Tree): multiset<int>
  {
    match t
    case Leaf => multiset{}
    case Node(l, k, r) => Keys(l) + multiset{k} + Keys(r)
  }

  /** In-order sequence of keys (left subtree, node, right subtree). */
  function InOrder(t: Tree): seq<int>
  {
    match t
    case Leaf => []
    case Node(l, k, r) => InOrder(l) + [k] + InOrder(r)
  }

  /** The in-order sequence lists every key of the tree once per occurrence. */
  lemma {:induction false} InOrderContents(t: Tree)
    ensures multiset(InOrder(t)) == Keys(t)
    ensures |InOrder(t)| == NodeCount(t)
  {
    match t
    case Leaf =>
    case Node(l, k, r) =>
      InOrderContents(l);
      InOrderContents(r);
  }

  lemma KeysCount(t: Tree)
    ensures |Keys(t)| == NodeCount(t)
  {
    InOrderContents(t);
  }

  /** Search-tree order. Equal keys may sit on either side of a node: insertion
      sends an equal key to the left, and a right rotation can then lift it so
      that it ends up on the right of an equal key. */
  ghost predicate Bst(t: Tree)
  {
    match t
    case Leaf => true
    case Node(l, k, r) =>
      && Bst(l) && Bst(r)
      && (forall x :: x in Keys(l) ==> x <= k)
      && (forall x :: x in Keys(r) ==> k <= x)
  }

  /** The AVL invariant: every node has a balance factor in -1..1. */
  predicate Balanced(t: Tree)
  {
    match t
    case Leaf => true
    case Node(l, _, r) => Balanced(l) && Balanced(r) && -1 <= Balance(t) <= 1
  }

  ghost predicate Sorted(s: seq<int>)
  {
    forall i, j :: 0 <= i < j < |s| ==> s[i] <= s[j]
  }

  /** A sequence split around one element is sorted exactly when both parts
      are sorted and lie on the correct side of that element. */
  lemma SortedAround(a: seq<int>, k: int, b: seq<int>)
    ensures Sorted(a + [k] + b) <==>
      && Sorted(a) && Sorted(b)
      && (forall x :: x in a ==> x <= k)
      && (forall x :: x in b ==> k <= x)
  {
    if Sorted(a + [k] + b) {
      SortedParts(a, k, b);
    }
    if && Sorted(a) && Sorted(b)
       && (forall x :: x in a ==> x <= k)
       && (forall x :: x in b ==> k <= x)
    {
      SortedJoin(a, k, b);
    }
  }

  lemma SortedParts(a: seq<int>, k: int, b: seq<int>)
    requires Sorted(a + [k] + b)
    ensures Sorted(a) && Sorted(b)
    ensures forall x :: x in a ==> x <= k
    ensures forall x :: x in b ==> k <= x
  {
    var s := a + [k] + b;
    assert forall i :: 0 <= i < |a| ==> s[i] == a[i];
    assert s[|a|] == k;
    assert forall i :: 0 <= i < |b| ==> s[|a| + 1 + i] == b[i];
    forall i, j | 0 <= i < j < |b| ensures b[i] <= b[j] {
      assert s[|a| + 1 + i] <= s[|a| + 1 + j];
    }
    forall x | x in a ensures x <= k {
      var i :| 0 <= i < |a| && a[i] == x;
      assert s[i] <= s[|a|];
    }
    forall x | x in b ensures k <= x {
      var i :| 0 <= i < |b| && b[i] == x;
      assert s[|a|] <= s[|a| + 1 + i];
    }
  }

  lemma SortedJoin(a: seq<int>, k: int, b: seq<int>)
    requires Sorted(a) && Sorted(b)
    requires forall x :: x in a ==> x <= k
    requires forall x :: x in b ==> k <= x
    ensures Sorted(a + [k] + b)
  {
    var s := a + [k] + b;
    forall i, j | 0 <= i < j < |s| ensures s[i] <= s[j] {
      var n := |a|;
      if j < n {
        assert s[i] == a[i] && s[j] == a[j];
      } else if j == n {
        assert s[i] == a[i] && a[i] in a;
      } else if i < n {
        assert s[i] == a[i] && a[i] in a;
        assert s[j] == b[j - n - 1] && b[j - n - 1] in b;
      } else if i == n {
        assert s[j] == b[j - n - 1] && b[j - n - 1] in b;
      } else {
        assert s[i] == b[i - n - 1] && s[j] == b[j - n - 1];
      }
    }
  }

  /** The in-order sequence is ascending exactly when the tree is in search order. */
  lemma {:induction false} BstIffSortedInOrder(t: Tree)
    ensures Bst(t) <==> Sorted(InOrder(t))
  {
    match t
    case Leaf =>
    case Node(l, k, r) =>
      BstIffSortedInOrder(l);
      BstIffSortedInOrder(r);
      var a, b := InOrder(l), InOrder(r);
      assert InOrder(t) == a + [k] + b;
      SortedAround(a, k, b);
      BoundsAgree(l, k);
      BoundsAgree(r, k);
  }

  /** A bound holds of a tree's keys exactly when it holds of its in-order sequence. */
  lemma {:induction false} BoundsAgree(t: Tree, k: int)
    ensures (forall x :: x in Keys(t) ==> x <= k) <==> (forall x :: x in InOrder(t) ==> x <= k)
    ensures (forall x :: x in Keys(t) ==> k <= x) <==> (forall x :: x in InOrder(t) ==> k <= x)
  {
    var s := InOrder(t);
    InOrderContents(t);
    forall x ensures x in Keys(t) <==> x in s {
      assert x in multiset(s) <==> x in s;
    }
    if forall x :: x in Keys(t) ==> x <= k {
      forall x | x in s ensures x <= k {
        assert x in Keys(t);
      }
    }
    if forall x :: x in s ==> x <= k {
      forall x | x in Keys(t) ensures x <= k {
        assert x in s;
      }
    }
    if forall x :: x in Keys(t) ==> k <= x {
      forall x | x in s ensures k <= x {
        assert x in Keys(t);
      }
    }
    if forall x :: x in s ==> k <= x {
      forall x | x in Keys(t) ensures k <= x {
        assert x in s;
      }
    }
  }

  /** Two trees with the same in-order sequence are in search order together. */
  lemma SameInOrderKeepsBst(t: Tree, u: Tree)
    requires InOrder(t) == InOrder(u)
    requires Bst(t)
    ensures Bst(u)
  {
    BstIffSortedInOrder(t);
    BstIffSortedInOrder(u);
  }

  function Pow2(n: nat): (p: nat)
    ensures p >= 1
  {
    if n == 0 then 1 else 2 * Pow2(n - 1)
  }

  lemma {:induction false} Pow2Monotone(m: nat, n: nat)
    requires m <= n
    ensures Pow2(m) <= Pow2(n)
    decreases n
  {
    if m < n {
      Pow2Monotone(m, n - 1);
    }
  }

  /** A tree of height h holds at least h nodes (one path) and fewer than 2^h
      (a full tree); a present node has height at least 1. */
  lemma {:induction false} HeightBetween(t: Tree)
    ensures Height(t) <= NodeCount(t) < Pow2(Height(t))
    ensures t.Node? ==> Height(t) >= 1
  {
    match t
    case Leaf =>
    case Node(l, _, r) =>
      HeightBetween(l);
      HeightBetween(r);
      FullBound(Height(l), Height(r), NodeCount(l), NodeCount(r));
  }

  /** The step of `HeightBetween`, on the children's heights and sizes. */
  lemma FullBound(hl: nat, hr: nat, nl: nat, nr: nat)
    requires hl <= nl < Pow2(hl) && hr <= nr < Pow2(hr)
    ensures 1 + Max(hl, hr) <= nl + nr + 1 < Pow2(1 + Max(hl, hr))
  {
    var h := Max(hl, hr);
    Pow2Monotone(hl, h);
    Pow2Monotone(hr, h);
    assert Pow2(h + 1) == 2 * Pow2(h);
  }

  /** Logarithmic height: an AVL tree of height h holds at least 2^ceil(h/2) - 1
      nodes, so its height is at most about twice log2 of its size. */
  lemma {:induction false} BalancedHeightBound(t: Tree)
    requires Balanced(t)
    ensures Pow2((Height(t) + 1) / 2) <= NodeCount(t) + 1
  {
    match t
    case Leaf =>
    case Node(l, _, r) =>
      BalancedHeightBound(l);
      BalancedHeightBound(r);
      ChildrenBound(Height(l), Height(r), NodeCount(l), NodeCount(r));
  }

  /** The step of the height bound, on the children's heights and sizes. */
  lemma ChildrenBound(hl: nat, hr: nat, nl: nat, nr: nat)
    requires -1 <= hr - hl <= 1
    requires Pow2((hl + 1) / 2) <= nl + 1 && Pow2((hr + 1) / 2) <= nr + 1
    ensures Pow2((1 + Max(hl, hr) + 1) / 2) <= nl + nr + 2
  {
    var h := 1 + Max(hl, hr);
    if h >= 2 {
      // one child has height h - 1, the other at least h - 2
      var tall := Max(hl, hr);
      var short := if hl < hr then hl else hr;
      var ntall := if hl < hr then nr else nl;
      var nshort := if hl < hr then nl else nr;
      assert Pow2((tall + 1) / 2) <= ntall + 1 && Pow2((short + 1) / 2) <= nshort + 1;
      Pow2Monotone(h / 2, (tall + 1) / 2);
      Pow2Monotone((h - 1) / 2, (short + 1) / 2);
      HalfStep(h);
    }
  }

  lemma HalfStep(h: nat)
    requires h >= 1
    ensures Pow2((h + 1) / 2) <= Pow2(h / 2) + Pow2((h - 1) / 2)
  {
    var m := h / 2;
    assert h == 2 * m || h == 2 * m + 1;
    if h == 2 * m + 1 {
      assert (h + 1) / 2 == m + 1 && (h - 1) / 2 == m;
      assert Pow2(m + 1) == 2 * Pow2(m);
    } else {
      assert (h + 1) / 2 == m;
    }
  }
}
