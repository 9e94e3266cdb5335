/** Insertion: the recursive descent `add(Node, Integer, Node)` that places a
    new leaf, followed by the global rebalancing pass of `add(Integer)`. */
module Insertion {
  import opened BinaryTrees
  import opened Rotations
  import opened Rebalancing

  /** `add(n, element, father)`: a key goes right exactly when the node's key
      is smaller, so an equal key goes left; it ends up in a new leaf. */
  function Insert(t: Tree, k: int): (r: Tree)
    ensures Keys(r) == Keys(t) + multiset{k}
    ensures NodeCount(r) == NodeCount(t) + 1
  {
    match t
    case Leaf => Node(Leaf, k, Leaf)
    case Node(l, x, rt) =>
      if x < k then Node(l, x, Insert(rt, k))
      else Node(Insert(l, k), x, rt)
  }

  /** Nothing else changes: the in-order sequence gains exactly one entry,
      the new key, and every old entry keeps its relative order. On a search
      tree the new key sits after every smaller key and before every key at
      least as large, which is the slot a fresh leaf on the search path gets. */
  lemma {:induction false} InsertInOrder(t: Tree, k: int) returns (i: nat)
    ensures i <= |InOrder(t)|
    ensures InOrder(Insert(t, k)) == InOrder(t)[..i] + [k] + InOrder(t)[i..]
    ensures Bst(t) ==> forall j :: 0 <= j < i ==> InOrder(t)[j] < k
    ensures Bst(t) ==> forall j :: i <= j < |InOrder(t)| ==> k <= InOrder(t)[j]
  {
    match t
    case Leaf =>
      i := 0;
    case Node(l, x, rt) =>
      var a, b := InOrder(l), InOrder(rt);
      var s := a + [x] + b;
      assert InOrder(t) == s;
      if x < k {
        var j := InsertInOrder(rt, k);
        i := |a| + 1 + j;
        var r := Insert(rt, k);
        assert Insert(t, k) == Node(l, x, r);
        assert InOrder(r) == b[..j] + [k] + b[j..];
        assert InOrder(Insert(t, k)) == a + [x] + (b[..j] + [k] + b[j..]);
        SlotRight(a, x, b, k, j);
        assert InOrder(Insert(t, k)) == s[..i] + [k] + s[i..];
        if Bst(t) {
          assert Bst(rt);
          BoundsAgree(l, x);
          SlotRightOrder(a, x, b, k, j);
        }
      } else {
        var j := InsertInOrder(l, k);
        i := j;
        var r := Insert(l, k);
        assert Insert(t, k) == Node(r, x, rt);
        assert InOrder(r) == a[..j] + [k] + a[j..];
        assert InOrder(Insert(t, k)) == (a[..j] + [k] + a[j..]) + [x] + b;
        SlotLeft(a, x, b, k, j);
        assert InOrder(Insert(t, k)) == s[..i] + [k] + s[i..];
        if Bst(t) {
          assert Bst(l);
          BoundsAgree(rt, x);
          SlotLeftOrder(a, x, b, k, j);
        }
      }
  }

  /** When k belongs after slot j of b, it belongs after every entry of
      `a + [x]` as well, provided those are at most x and x < k. */
  lemma SlotRightOrder(a: seq<int>, x: int, b: seq<int>, k: int, j: nat)
    requires j <= |b| && x < k
    requires forall y :: y in a ==> y <= x
    requires forall m :: 0 <= m < j ==> b[m] < k
    requires forall m :: j <= m < |b| ==> k <= b[m]
    ensures forall m :: 0 <= m < |a| + 1 + j ==> (a + [x] + b)[m] < k
    ensures forall m :: |a| + 1 + j <= m < |a| + 1 + |b| ==> k <= (a + [x] + b)[m]
  {
    var s := a + [x] + b;
    forall m | 0 <= m < |a| + 1 + j ensures s[m] < k {
      if m < |a| {
        assert s[m] == a[m] && a[m] in a;
      } else if m > |a| {
        assert s[m] == b[m - |a| - 1];
      }
    }
    forall m | |a| + 1 + j <= m < |s| ensures k <= s[m] {
      assert s[m] == b[m - |a| - 1];
    }
  }

  /** When k belongs at slot j of a, it belongs before x and every entry of
      b as well, provided those are at least x and k <= x. */
  lemma SlotLeftOrder(a: seq<int>, x: int, b: seq<int>, k: int, j: nat)
    requires j <= |a| && k <= x
    requires forall y :: y in b ==> x <= y
    requires forall m :: 0 <= m < j ==> a[m] < k
    requires forall m :: j <= m < |a| ==> k <= a[m]
    ensures forall m :: 0 <= m < j ==> (a + [x] + b)[m] < k
    ensures forall m :: j <= m < |a| + 1 + |b| ==> k <= (a + [x] + b)[m]
  {
    var s := a + [x] + b;
    forall m | 0 <= m < j ensures s[m] < k {
      assert s[m] == a[m];
    }
    forall m | j <= m < |s| ensures k <= s[m] {
      if m < |a| {
        assert s[m] == a[m];
      } else if m > |a| {
        assert s[m] == b[m - |a| - 1] && b[m - |a| - 1] in b;
      }
    }
  }

  /** Slotting k in at position j of the left part of `a + [x] + b`. */
  lemma SlotLeft(a: seq<int>, x: int, b: seq<int>, k: int, j: nat)
    requires j <= |a|
    ensures (a[..j] + [k] + a[j..]) + [x] + b == (a + [x] + b)[..j] + [k] + (a + [x] + b)[j..]
  {
    var s := a + [x] + b;
    assert s[..j] == a[..j];
    assert s[j..] == a[j..] + [x] + b;
  }

  /** Slotting k in at position j of the right part of `a + [x] + b`. */
  lemma SlotRight(a: seq<int>, x: int, b: seq<int>, k: int, j: nat)
    requires j <= |b|
    ensures a + [x] + (b[..j] + [k] + b[j..]) == (a + [x] + b)[..|a| + 1 + j] + [k] + (a + [x] + b)[|a| + 1 + j..]
  {
    var s := a + [x] + b;
    assert s[..|a| + 1 + j] == a + [x] + b[..j];
    assert s[|a| + 1 + j..] == b[j..];
  }

  /** The new key lands where search order expects it. */
  lemma {:induction false} InsertKeepsOrder(t: Tree, k: int)
    ensures Bst(t) ==> Bst(Insert(t, k))
  {
    match t
    case Leaf =>
    case Node(l, x, rt) =>
      if !Bst(t) {
        return;
      }
      if x < k {
        InsertKeepsOrder(rt, k);
        forall y | y in Keys(Insert(rt, k)) ensures x <= y {
          assert y in Keys(rt) || y == k;
        }
      } else {
        InsertKeepsOrder(l, k);
        forall y | y in Keys(Insert(l, k)) ensures y <= x {
          assert y in Keys(l) || y == k;
        }
      }
  }

  /** The tree part of `add(Integer)`: insert, then rebalance the whole tree. */
  function Add(t: Tree, k: int): (r: Tree)
    ensures Keys(r) == Keys(t) + multiset{k}
    ensures NodeCount(r) == NodeCount(t) + 1
    ensures Bst(t) ==> Bst(r)
    ensures Balanced(t) ==> Balanced(r)
  {
    var grown := Insert(t, k);
    RebalanceKeepsContents(grown);
    InsertKeepsOrder(t, k);
    InsertKeepsBalance(t, k);
    Rebalance(grown)
  }

  /** The AVL class promises balance after every insertion. */
  lemma InsertKeepsBalance(t: Tree, k: int)
    ensures Balanced(t) ==> Balanced(Rebalance(Insert(t, k)))
  {
    if Balanced(t) {
      InsertThenRebalance(t, k);
    }
  }

  /** Insertion followed by rebalancing keeps an AVL tree balanced, and the
      height grows by at most one; when it grows, the new root leans to one
      side (so a parent that then needs a rotation picks the right one). */
  lemma {:induction false} InsertThenRebalance(t: Tree, k: int)
    requires Balanced(t)
    ensures Balanced(Rebalance(Insert(t, k)))
    ensures Height(t) <= Height(Rebalance(Insert(t, k))) <= Height(t) + 1
    ensures t.Node? && Height(Rebalance(Insert(t, k))) == Height(t) + 1 ==>
              Balance(Rebalance(Insert(t, k))) != 0
  {
    match t
    case Leaf =>
      assert Insert(t, k) == Node(Leaf, k, Leaf);
    case Node(l, x, rt) =>
      if x < k {
        InsertThenRebalance(rt, k);
        var rt' := Rebalance(Insert(rt, k));
        assert Rebalance(l) == l;
        assert Rebalance(Insert(t, k)) == Fix(Node(l, x, rt'));
        FixAfterRightGrowth(l, x, rt, rt');
      } else {
        InsertThenRebalance(l, k);
        var l' := Rebalance(Insert(l, k));
        assert Rebalance(rt) == rt;
        assert Rebalance(Insert(t, k)) == Fix(Node(l', x, rt));
        FixAfterLeftGrowth(l, x, rt, l');
      }
  }

  /** The right subtree of a balanced node was replaced by a balanced one at
      most one taller; `Fix` restores balance without growing past one level. */
  lemma FixAfterRightGrowth(l: Tree, x: int, rt: Tree, rt': Tree)
    requires Balanced(Node(l, x, rt)) && Balanced(rt')
    requires Height(rt) <= Height(rt') <= Height(rt) + 1
    requires rt.Node? && Height(rt') == Height(rt) + 1 ==> Balance(rt') != 0
    ensures Balanced(Fix(Node(l, x, rt')))
    ensures Height(Node(l, x, rt)) <= Height(Fix(Node(l, x, rt'))) <= Height(Node(l, x, rt)) + 1
    ensures Height(Fix(Node(l, x, rt'))) == Height(Node(l, x, rt)) + 1 ==>
              Balance(Fix(Node(l, x, rt'))) != 0
  {
    var t := Node(l, x, rt');
    var h := Height(l);
    if Balance(t) >= 2 {
      assert Height(rt) == h + 1 && Height(rt') == h + 2;
      if Balance(rt') == 1 {
        assert Fix(t) == RotateLeft(t);
        SingleRotationBalances(l, x, rt'.left, rt'.key, rt'.right);
      } else {
        assert Balance(rt') == -1;
        var c := rt'.left;
        ProductSign(Balance(t), Balance(rt'));
        assert Fix(t) == RotateRightLeft(t);
        DoubleRotationBalances(l, x, c.left, c.key, c.right, rt'.key, rt'.right);
      }
    }
  }

  /** Mirror image of `FixAfterRightGrowth`. */
  lemma FixAfterLeftGrowth(l: Tree, x: int, rt: Tree, l': Tree)
    requires Balanced(Node(l, x, rt)) && Balanced(l')
    requires Height(l) <= Height(l') <= Height(l) + 1
    requires l.Node? && Height(l') == Height(l) + 1 ==> Balance(l') != 0
    ensures Balanced(Fix(Node(l', x, rt)))
    ensures Height(Node(l, x, rt)) <= Height(Fix(Node(l', x, rt))) <= Height(Node(l, x, rt)) + 1
    ensures Height(Fix(Node(l', x, rt))) == Height(Node(l, x, rt)) + 1 ==>
              Balance(Fix(Node(l', x, rt))) != 0
  {
    var t := Node(l', x, rt);
    var h := Height(rt);
    if Balance(t) <= -2 {
      assert Height(l) == h + 1 && Height(l') == h + 2;
      if Balance(l') == -1 {
        assert Fix(t) == RotateRight(t);
        SingleRotationBalances(l'.left, l'.key, l'.right, x, rt);
      } else {
        assert Balance(l') == 1;
        var c := l'.right;
        ProductSign(Balance(t), Balance(l'));
        assert Fix(t) == RotateLeftRight(t);
        DoubleRotationBalances(l'.left, l'.key, c.left, c.key, c.right, x, rt);
      }
    }
  }

  /** After a single rotation the two subtrees below the new root have equal
      height, and the result is as tall as the tree was before the insertion. */
  lemma SingleRotationBalances(a: Tree, x: int, b: Tree, y: int, c: Tree)
    requires Balanced(a) && Balanced(b) && Balanced(c)
    requires (Height(a) == Height(b) && Height(c) == Height(a) + 1)
          || (Height(c) == Height(b) && Height(a) == Height(c) + 1)
    ensures Balanced(Node(Node(a, x, b), y, c)) || Balanced(Node(a, x, Node(b, y, c)))
    ensures Height(a) == Height(b) ==>
              Balanced(Node(Node(a, x, b), y, c)) && Height(Node(Node(a, x, b), y, c)) == Height(a) + 2
    ensures Height(c) == Height(b) ==>
              Balanced(Node(a, x, Node(b, y, c))) && Height(Node(a, x, Node(b, y, c))) == Height(c) + 2
  {
  }

  /** After a double rotation the former inner grandchild is the root of two
      subtrees of equal height, each balanced. */
  lemma DoubleRotationBalances(a: Tree, x: int, c1: Tree, z: int, c2: Tree, y: int, d: Tree)
    requires Balanced(a) && Balanced(c1) && Balanced(c2) && Balanced(d)
    requires Height(a) == Height(d)
    requires Max(Height(c1), Height(c2)) == Height(a)
    requires -1 <= Height(c2) - Height(c1) <= 1
    ensures Balanced(Node(Node(a, x, c1), z, Node(c2, y, d)))
    ensures Balance(Node(Node(a, x, c1), z, Node(c2, y, d))) == 0
    ensures Height(Node(Node(a, x, c1), z, Node(c2, y, d))) == Height(a) + 2
  {
  }
}
